# A verified model of ws-pmd

A Dafny 4.11 model of `ws-pmd` and what it proves of it: from the octets of two handshake headers, through the
settings two ends come to (RFC 7692), to the payloads one end's decoder returns for what the other end's encoder
was given. Run `dafny verify dfyconfig.toml`.

## How the model is laid out

**The decoder.** `Transducer.dfy` has the reference: an inflater as a byte-at-a-time machine, and `Decode`,
which runs one octet by octet over any number of DEFLATE streams. `Inflater.dfy` is the backend as the crate
meets it, a class whose calls choose for themselves how much to take and how much to deliver.
With `conforming` set it honours a contract; without it nothing is known about it. `Decoder.dfy` is the class
`Decoder` with its loop, its ceiling, its stream position and its width-preserving restart, proved against
`Decode`. `DecoderLaws.dfy` proves what holds over whole messages.

**The encoder.** `Compressor.dfy` is the backend compressor, again a class that hands its octets over in pieces
of its own choosing, including the flush that fills its room exactly and re-arms. `Encoder.dfy` has the
section 7.2.1 steps as methods over it, and the guards as values that hold the compressor an encoder has given up.

**Both ends.** `Format.dfy` states what a compressor and an inflater owe each other. `Connection.dfy` is a run:
every move a host can make, committed fragments arriving at the peer's decoder under whatever ceiling it reads, and
the theorems that nothing is lost and nothing invented. `ConnectionLaws.dfy` has custody, history and the shape of the wire over runs. `Host.dfy` puts the real
objects beside the run: a host's `Encoder`, the guard it holds and the peer's `Decoder`, each of whose methods
makes the crate's calls and performs exactly one enabled move, so that what is proved of runs holds of the
objects. Two backends meet the contract: `Stored.dfy` (stored blocks, section 3.2.4 of RFC 1951, cut anywhere or as
long as they can be) and `Bits.dfy`, `Deflate.dfy`, `Huffman.dfy`
(stored and fixed-Huffman blocks bit for bit, with any choice of literals and back-references inside the window).

**The handshake.** `Quoting.dfy` is the quote-aware splitter, `Grammar.dfy` the checks, `Syntax.dfy` the grammar as
trees with their spelling, `Layout.dfy` lines against lists, `Params.dfy` and `Rendering.dfy` the
four parameters, `Texts.dfy` what they say in the words RFC 7692 registers, written out as text, `Negotiated.dfy` the agreement, `Client.dfy` and `Server.dfy` the two machines, `Handshake.dfy` one against the
other, as functions and as one sequence of calls; `Outcomes.dfy` states what each half answers of the trees that spell a
field. `EndToEnd.dfy` feeds the agreement to the codec and builds both
directions' hosts from it.

A header octet is written as the character with its code. The size type's saturating sums are explicit (`Sizes.dfy`, 64 bits).
`Flate.dfy` has the status both backends report, `Sequences.dfy` three facts of concatenation. Backend choices, failures and dropped guards are nondeterministic, so every claim is for all of them.

## What the code does where its wording is looser

- `CodecError::MessageTooLong` (`src/error.rs:133-142`) is worded as one past the ceiling or one past the delivery.
  If the ceiling was lowered below what was already delivered, the first call may produce nothing, and the size reported is then
  exactly what was delivered (`src/codec.rs:425-428`). `Decoder.Decompress` has the plainest such input, a fragment that holds
  nothing; `LoweredCeiling` has a quiet octet and one that is not, which show the two sizes possible; `SizeForced` says the
  size is one past the higher of the two exactly when the ceiling is not below the delivery.
- With a ceiling of the largest size value the detector's `+ 1` and the running sum both saturate, so the ceiling never trips.
  `BoundedIffBelowTop` shows that this is the one ceiling at which an arbitrary backend can keep the loop going for ever.
- `src/error.rs:11-13` lists three ways a header is malformed; the code refuses every departure from the
  section 9.1 grammar (`src/grammar.rs:96-133`), and `GrammarExactness` says exactly which fields those are.

## Model

| member | source | states |
|---|---|---|
| Decoding.Decoder.Inflate | src/codec.rs:396-451 | for any scratch of at least one octet and any choices of a conforming backend, the loop succeeds exactly when the reference decoder does within the ceiling, with its output, state, stream-end flag and open flag; it fails with `InvalidStream` only on what the reference decoder rejects, and over the ceiling only if some of the input decodes past it; for any backend at all, the calls made and the octets materialised are bounded |
| Decoding.Decoder.Turn | src/codec.rs:404-449 | one turn keeps what is still to come equal to what was to come less what was delivered, and closes or opens the stream position accordingly; a turn that goes round again is a call that moved something under the ceiling, and an overrun is one the backend contract allows |
| Decoding.Decoder.Proceed | src/codec.rs:404-449 | a turn seen from its call: what was taken so far still decodes to what was yielded and is still owed, and a turn that fails leaves the call no way to have succeeded |
| Decoding.TakeStep | src/codec.rs:466-507 | consumed, produced and the residual come from one call; a stall is no progress with input left and nothing else, a refused call is invalid data and nothing else, and a conforming backend never stalls with room |
| Decoding.Decoder.CloseMessage | src/codec.rs:359-390 | a message is closed exactly when a stream is open and the trailer neither breaks nor ends it, within the ceiling; the agreed reset follows |
| Decoding.Decoder.DecodeFragment | src/codec.rs:351-392 | success exactly when the fragment, and for the last one the trailer behind it, is well formed and fits; at most one octet past the larger of ceiling and delivery is ever materialised |
| Decoding.Decoder.Decompress | src/codec.rs:317-338 | every success stays at or below that call's ceiling; a fragment that is malformed and nowhere passes the ceiling is answered `InvalidStream`, one that passes it and is well formed `MessageTooLong`, and `MessageTooLong` is never answered unless some octets the fragment begins with, or the trailer it is owed, do decode past the ceiling; an overrun is reported at ceiling plus one whenever the ceiling is not below the delivery, and at the delivery itself for an empty fragment under a lowered one; against any backend at all `Stalled` is answered exactly when its last call had octets to take and moved nothing; any error poisons, and a poisoned decoder answers `Poisoned` and never changes |
| Decoding.OverlongMeans | src/error.rs:133-142 | a well-formed fragment somewhere passes the ceiling exactly when what it yields does, trailer included |
| Decoding.Decoder.Reinitialise | src/codec.rs:138-149 | both routes give a fresh stream at the negotiated width, and the position moves with it |
| Decoding.Decoder.constructor | src/codec.rs:279-291 | the inflater is as wide as the peer window, and never narrower than 9 |
| Decoding.RestAfterEat | src/codec.rs:396-451 | what an inflater has still to give is unchanged by how much input it takes ahead of delivering |
| Decoding.BreaksIsInvalid | src/codec.rs:483-491 | a stream that breaks is invalid to the reference decoder however its output was delivered |
| Inflaters.SomeMove | src/codec.rs:483-507 | the backend contract can always be met |
| Transducer.DecodeConcat | src/codec.rs:294-321 | decoding a concatenation is decoding its second part from where the first one stopped |
| DecoderLaws.FragmentInvariance | src/codec.rs:317-452 | any cutting of a message, empty fragments included, gives what one call on the whole gives: success, output and state |
| DecoderLaws.CeilingPerCall | src/codec.rs:323-337 | with a ceiling of its own for every call, a message goes through exactly when it is well formed and each running total respects that call's ceiling |
| DecoderLaws.RaisedCeilings | src/codec.rs:404-428 | a ceiling that was not reached could have been any higher one |
| DecoderLaws.FailsExactly | src/codec.rs:323-337 | a call fails exactly when its fragment is malformed or somewhere passes the ceiling |
| DecoderLaws.EitherError | src/codec.rs:405-428 | where both hold the backend decides which error is seen: with room for nothing, an octet that yields something before one that breaks the stream may be answered with either |
| DecoderLaws.MultiStream | src/codec.rs:429-442 | streams closed by `BFINAL` followed by an open one decode to their outputs joined, each later one from a fresh state |
| DecoderLaws.OnlyMultiStream | src/codec.rs:429-450 | nothing else decodes |
| DecoderLaws.FinalFragmentAccepted | src/codec.rs:359-391 | a last fragment is accepted exactly when nothing is invalid, the stream it leaves open has taken an octet, the trailer ends no stream and the ceiling holds |
| DecoderLaws.LoopBound | src/codec.rs:404-451 | turns that go round again, each as `Decoder.Turn` leaves it, are at most the unread octets plus the unspent ceiling |
| DecoderLaws.BoundedIffBelowTop | src/codec.rs:405-414 | a bound on such turns against every backend exists exactly when the ceiling is below the largest size |
| DecoderLaws.SizeForced | src/codec.rs:405-428 | whatever the machine, every overrun reports one past the higher of ceiling and delivery exactly when the ceiling is not below the delivery |
| DecoderLaws.LoweredCeiling | src/codec.rs:405-428 | under a lowered ceiling one quiet octet reports the delivery itself, and one that yields something can report one past it |
| DecoderLaws.LoweredSizes | src/codec.rs:405-428 | and no third size is ever reported |
| Compressors.TakeAllConcat | src/encoder.rs:839-859 | feeding in pieces is feeding at once |
| Encoding.Drive | src/encoder.rs:944-963 | one call into room that may exceed the request; what moved is what the running counters went up by; it fails exactly when the backend refuses the call or reports a stream end |
| Encoding.Feed | src/encoder.rs:839-859 | the whole payload is taken, and what is out and what is pending are together what the payload put on the wire; a call with octets left that moves nothing is `Stalled`, a refused one `CompressionFailed` |
| Encoding.SyncFlush | src/encoder.rs:884-895 | the loop ends with the compressor drained; a second empty block follows exactly when the calls before the last one were filled to the octet by what was owed; owing less than the room it is one call |
| Encoding.ProduceAligned | src/encoder.rs:792-798 | steps 1 and 2: the flush owes exactly the backlog feeding left and its own output, and owing less than the room asked for it is one call that adds nothing; a backend that keeps a pace leaves no more than that pace allows |
| Encoding.Produce | src/encoder.rs:802-813 | all three steps, never failing over a reliable backend whose outputs for this payload step 3 accepts; a failure is a refused call, a stall, or an output step 3 refuses, each with its own error |
| Encoding.ProduceNonFinal | src/encoder.rs:827-836 | steps 1 and 2 with the trailer kept, never failing over such a backend, and failing likewise |
| Encoding.Encoder.PrepareMessage | src/encoder.rs:243-249 | the encoder always ends vacant; a vacant one answers `Poisoned`; a candidate is the section 7.2.1 form of its payload, and there is one whenever the backend is reliable and its outputs acceptable |
| Encoding.Encoder.BeginStreamingMessage | src/encoder.rs:308-311 | the compressor moves into the stream without a backend call |
| Encoding.PreparedMessage.Commit | src/encoder.rs:355-362 | the compressor goes back, reset exactly when takeover was negotiated away |
| Encoding.PreparedMessage.ResetToPlain | src/encoder.rs:373-377 | the compressor goes back with no history |
| Encoding.StreamingMessage.PrepareNonFinalFragment | src/encoder.rs:590-600 | a fragment is its chunk aligned, trailer kept, and there is one whenever the backend is reliable and its outputs acceptable |
| Encoding.StreamingMessage.PrepareFinalFragment | src/encoder.rs:611-618 | a last fragment is its chunk aligned, trailer removed or the one octet synthesized, and there is one whenever the backend is reliable and its outputs acceptable |
| Encoding.PreparedNonFinalFragment.Commit | src/encoder.rs:724-727 | the encoder stays vacant and nothing is reset |
| Encoding.PreparedFinalFragment.Commit | src/encoder.rs:763-770 | the compressor goes back, reset exactly when takeover was negotiated away |
| Formats.AlignedLaw | src/encoder.rs:792-798 | a flushed chunk, with or without a redundant block, inflates to its payload at any peer holding the reachable history |
| Formats.ProducersNeverRefuse | src/encoder.rs:827-836 | under the contract no aligned output is ever refused |
| Formats.LawfulIsAcceptable | src/encoder.rs:802-836 | so a reliable backend that keeps the contract never makes a prepare fail |
| Formats.SomeFinal | src/encoder.rs:802-813 | from any point between chunks every payload has a candidate |
| Formats.SomeNonFinal | src/encoder.rs:827-836 | and every chunk a fragment |
| Formats.TrailerRestored | src/encoder.rs:917-926 | a last fragment followed by the trailer inflates to exactly its payload, the synthesized octet included |
| Formats.ClosingFragment | src/codec.rs:351-391 | the decoder accepts such a fragment and returns its payload |
| Connections.StepKeepsInv | src/encoder.rs:349-378 | every move keeps the peer in step: what it returned begins what was committed and, while it lives, is all of it; reachable history is a suffix of the peer's; both ends are at a block boundary; the peer fails only at a commit under a ceiling that does not suffice, and there it does whenever it read one ceiling |
| Connections.PrepareIsOpen | src/encoder.rs:243-249 | a host between messages can always prepare any payload |
| Connections.FragmentIsOpen | src/encoder.rs:590-618 | a streaming host can always prepare any chunk, as the last or not |
| Connections.Lossless | src/encoder.rs:757-926 | over every run of whole messages framed at will, streams with any chunks, abandoned candidates and lost guards, under ceilings that suffice, the peer's decoder never fails and returns exactly what was committed |
| Connections.NothingInvented | src/codec.rs:317-338 | over every such run under any ceilings at all, what the peer returned is how what was committed begins, all of it while its decoder lives |
| Connections.FailsByCeiling | src/codec.rs:323-337 | with one ceiling to a message the peer's decoder has failed exactly when some ceiling did not suffice |
| Connections.FramedMessage | src/codec.rs:323-337 | however a message is framed and whatever ceiling is read for each frame, its frames come to its payload or fail; they do not fail if the ceilings suffice, and under one ceiling throughout only then |
| ConnectionLaws.HistoryContainment | src/encoder.rs:355-378 | whenever the encoder holds its compressor and the peer has not failed, the compressor's history is a suffix of the peer's, all of it unless a candidate was abandoned, and both are empty without takeover |
| ConnectionLaws.VacantIsAbsorbing | src/encoder.rs:205-212 | once a run has lost its compressor no legal continuation changes anything; `Hosts.VacantForGood` says it of the encoder |
| ConnectionLaws.RefilledByResolution | src/encoder.rs:355-378 | only a whole or final commit or `reset_to_plain` gives a run its compressor back; `Hosts.RefilledBy` says it of the encoder |
| ConnectionLaws.FragmentsKeepHistory | src/encoder.rs:590-618 | through any number of fragments before the last, history grows by exactly the chunks |
| ConnectionLaws.WireShape | src/encoder.rs:802-836 | fragments before the last are empty or keep their trailer, and all of them with one trailer behind are the aligned outputs, plus one empty block exactly when the last was synthesized |
| ConnectionLaws.StreamOfRun | src/encoder.rs:590-618 | the moves of a legal run from a begun stream to the first time the encoder has its compressor back are a prepare and a commit for each chunk, and such a stream, sent in full |
| ConnectionLaws.StreamedShape | src/encoder.rs:802-836 | any legal run that gets past a begun stream got past it by such moves, and so every streamed message of every run has that shape on the wire |
| ConnectionLaws.StrippedExactly | src/encoder.rs:917-926 | exactly 00 00 ff ff is removed from the end, never an earlier copy of it; nothing for nothing is the one octet 00; all else is `CompressionFailed` |
| ConnectionLaws.AlignedExactly | src/encoder.rs:827-836 | a fragment before the last must end in 00 00 ff ff or be nothing for nothing, which is what step 3 would have taken |
| Hosts.Deliver | src/codec.rs:317-338 | the calls for a message's frames return the whole message, or fail where it does; a decoder that had failed says so, and one that fails on a well-formed message only complains of the ceiling |
| Hosts.Host.PrepareMessage | src/encoder.rs:243-249 | the encoder's own call is one enabled move of the run: prepared, failed for good, or refused when vacant; over a reliable backend on a link that keeps the contract it succeeds |
| Hosts.Host.CommitMessage | src/encoder.rs:355-362 | the guard's commit and the peer's calls are one enabled move; on a link that keeps the contract a live peer returns exactly the payload whenever the ceilings suffice, under one ceiling only then, and otherwise answers `MessageTooLong` |
| Hosts.Host.ResetToPlain | src/encoder.rs:373-377 | the guard's reset is one enabled move |
| Hosts.Host.BeginStream | src/encoder.rs:308-311 | beginning a stream is one enabled move, refused when vacant |
| Hosts.Host.PrepareMiddle | src/encoder.rs:590-600 | preparing a fragment is one enabled move, or the loss of the compressor; over a reliable backend on such a link it succeeds |
| Hosts.Host.PrepareLast | src/encoder.rs:611-618 | and so is preparing the last, with the same success |
| Hosts.Host.CommitMiddle | src/encoder.rs:724-727 | a fragment's commit and the peer's call are one enabled move; on a link that keeps the contract a live peer returns exactly the chunk if the ceiling suffices for the message so far, and `MessageTooLong` if not |
| Hosts.Host.CommitLast | src/encoder.rs:763-770 | and so are the last one's, answered likewise |
| Hosts.Host.Drop | src/encoder.rs:205-212 | a guard dropped or forgotten loses the compressor and touches nothing else |
| Hosts.ReachedAcceptable | src/encoder.rs:802-836 | wherever a run has taken a compressor that keeps the contract, every output it can make for the next payload is one step 3 accepts |
| Hosts.Send | src/encoder.rs:243-362 | a message prepared, committed and handed over as one frame is returned exactly if the peer is live and its ceiling suffices |
| Hosts.HostLossless | src/encoder.rs:757-926 | whatever calls a host has made, what the peer's decoder returned is how what was committed begins, and all of it unless the decoder is poisoned, which it is only after a ceiling that did not suffice |
| Hosts.HostHistory | src/encoder.rs:355-378 | whatever calls a host has made, while the peer's decoder is live the history of the compressor in its encoder is a suffix of the one in the peer's inflater, all of it unless `reset_to_plain` was called, and both are empty without takeover |
| Hosts.OneCompressor | src/encoder.rs:205-212 | the one compressor is in the encoder or in the outstanding guard, never both, and in neither exactly when the run has lost it |
| Hosts.VacantForGood | src/encoder.rs:205-212 | an encoder whose compressor was ever lost is vacant, whatever was called since, and nothing has moved |
| Hosts.RefilledBy | src/encoder.rs:355-378 | an encoder that was vacant and has its compressor got it from a commit that ended a message or a plain reset |
| StoredBlocks.StoredIsLawful | src/encoder.rs:870-883 | stored blocks cut anywhere meet the contract, octet for octet |
| StoredBlocks.NoRedundantBlock | src/encoder.rs:71-137 | with maximal stored blocks the flush owes less than its room, by at least 49 octets below the ceiling, so a chunk of any length goes out as its blocks and exactly one empty one, in one flush call |
| StoredBlocks.ProduceStored | src/encoder.rs:792-798 | steps 1 and 2 over a compressor that holds back at most one maximal block: the output is those blocks and one empty one, in one flush call, for a payload of any length |
| StoredBlocks.MaximalIsLawful | src/encoder.rs:870-883 | such a compressor meets the contract |
| FixedCode.PlanSuffix | src/encoder.rs:364-372 | a plan made against a shorter history and a narrower window means the same to a peer with more of both |
| FixedCode.FixedCodeIsLawful | src/negotiated.rs:102-114 | back-references inside the sender's window never leave an inflater at least as wide: the contract holds for every such pair |
| Quoting.SplitOn | src/grammar.rs:22-48 | the loop computes the specified split for any delimiter, refusing unbalanced quoting |
| Quoting.SplitIsTheDecomposition | src/grammar.rs:22-48 | for any delimiter but the quote, the parts joined restore the input, each is balanced with no bare delimiter, one exists exactly when the split succeeds, and it is the only one |
| Quoting.SplittingOnTheQuote | src/grammar.rs:22-48 | on the quote itself nothing is ever split |
| Quoting.PiecesSplitAgain | src/grammar.rs:55-62 | splitting a part again can never fail |
| Grammar.TrimSpec | src/grammar.rs:64-68 | trimming removes spaces from both ends and leaves none there |
| Grammar.TcharIsTheRfcSet | src/grammar.rs:135-148 | the octets a token may hold are exactly those RFC 2616, section 2.2, leaves after controls and separators |
| Grammar.UnquoteInvertsQuoting | src/grammar.rs:270-288 | unquoting undoes every way of quoting every text, and nothing else unquotes |
| Grammar.UnquoteValue | src/grammar.rs:270-288 | the loop computes the specified unquoting |
| Grammar.ValidateElement | src/grammar.rs:119-133 | an element is accepted exactly when its name and parameters conform |
| Grammar.Validate | src/grammar.rs:96-116 | a field is accepted exactly when every line conforms and, if present, some position is populated |
| Layout.FieldLayout | src/grammar.rs:88-116 | lines or one joined line, the same answer and the same positions, a quote open across a boundary included |
| Layout.PositionsSpelled | src/grammar.rs:88-116 | the positions of a field a tree spells are the spellings of its positions, in order, however it was cut into lines |
| Layout.GrammarExactness | src/grammar.rs:88-148 | a field is accepted exactly when it is absent or spelled by a tree of the section 9.1 list |
| Parameters.ParseBitsExact | src/grammar.rs:247-264 | a width decodes to n exactly when its unquoted text is the canonical decimal of n in 8 to 15 |
| Parameters.ParseParamsOf | src/grammar.rs:176-219 | the loop over slots computes the decoding that `Texts.ParametersExact` and `Texts.FaultsExact` characterise |
| Parameters.AnyOrder | src/grammar.rs:186-211 | permuting parameters changes neither success nor value |
| Texts.NameExact | src/grammar.rs:77-81 | an element is this extension's exactly if its name is "permessage-deflate", to the letter |
| Texts.ParametersExact | src/grammar.rs:176-219 | however spelled, an element decodes exactly when each parameter is `server_no_context_takeover` or `client_no_context_takeover` without a value, `server_max_window_bits` with the decimal of 8 to 15, or `client_max_window_bits` bare or with one, and no name comes twice; and each of the four fields is what the parameter of that name says |
| Texts.FaultsExact | src/grammar.rs:191-232 | and otherwise the error is that of the first parameter at fault: unknown, of the wrong arity, no such width, or a repeated name, in that order |
| Texts.RenderSays | src/negotiated.rs:132-162 | the rendered element is spelled by a tree named "permessage-deflate" whose parameters, by their registered names, say exactly what was rendered |
| Texts.RenderText | src/negotiated.rs:132-162 | and it is that text letter for letter |
| Rendering.Respelling | src/grammar.rs:176-264 | elements that set the same parameters to the same tokens decode alike, whatever their order, spacing, quoting and escapes |
| Rendering.RenderElement | src/negotiated.rs:132-162 | the pushes build the element that `Texts.RenderText` spells out |
| Rendering.RenderIsASpelling | src/negotiated.rs:132-162 | what is rendered is derivable in the grammar |
| Rendering.ParseInvertsRender | src/negotiated.rs:132-162 | decoding what was rendered gives it back, and it names this extension |
| Negotiation.PaddingIsIrrelevant | src/client.rs:86-88 | an element names and decodes as its trimmed self |
| Negotiation.CountExactMeans | src/server.rs:101-112 | the count is of this extension's elements, refused exactly when one differs |
| Negotiation.DeflatesAre | src/client.rs:251-264 | the elements of this name are the positions that have it, each as often as it occurs |
| ClientSide.ContainsMeans | src/client.rs:239-248 | the search answers no exactly when every line is balanced and no position names this extension |
| ClientSide.CollisionMeans | src/client.rs:239-248 | and yes exactly when some position does before any quote is left open |
| ClientSide.Install | src/client.rs:56-67 | one line is appended exactly when no line leaves a quote open and no position names this extension; a collision is reported exactly when one names it before any quote is left open |
| ClientSide.Seal | src/client.rs:79-98 | sealing succeeds exactly when the request carries the installed element once and no other of the name; it is `MalformedHeader` exactly when a line leaves a quote open before any element differs, and else `OfferAltered` |
| ClientSide.SealWithoutOffer | src/client.rs:115-121 | sealing without an offer succeeds, and reports a collision, in exactly those cases |
| ClientSide.FinishHandshake | src/client.rs:142-162 | the loops compute the outcome that `ClientSide.FinishExact` characterises |
| ClientSide.SoleByDeflates | src/client.rs:251-264 | the outcome depends on the elements of this name alone: none, one decoded, or an error |
| ClientSide.AgreeExact | src/client.rs:167-216 | an answer is agreed to exactly if a reset asked for is confirmed, the server's bound, 15 where unsaid, is within the one asked for, and this side's window is given a width of 9 or more or none; all four settings, and otherwise which refusal |
| ClientSide.FinishExact | src/client.rs:142-162 | for every handshake, field and report of the host: malformed exactly if the field is, no agreement exactly if no element has the name, an element that does not decode its own error, a second one that or a duplicate, one against no offer unsolicited, then the host's conflict, then as `AgreeExact` says |
| ServerSide.AcceptRequest | src/server.rs:45-67 | the loops compute the selection that `ServerSide.AcceptExact` characterises |
| ServerSide.AcceptsTheFirst | src/server.rs:50-66 | the selection is of the first supportable alternative, and a decline means there is none |
| ServerSide.FinishHandshake | src/server.rs:86-118 | the loops compute the commitment that `ServerSide.FinishExact` characterises |
| ServerSide.SelectionConforms | src/server.rs:123-172 | an alternative is declined exactly for a server window of 8 or a bound the client cannot be told, and an answer never exceeds its offer |
| ServerSide.SelectExact | src/server.rs:123-172 | an alternative is served unless it asks for a server window of 8 or, saying nothing of the client's window, meets a bound on it; what is granted is every reset either side asks for and the narrower bound on each window, and the answer says so |
| ServerSide.AcceptExact | src/server.rs:45-67 | for every request: malformed exactly if the field is, declined exactly if no position can be served, and else the first that can be is granted |
| ServerSide.FinishExact | src/server.rs:86-118 | for every response: malformed exactly if the field is, nothing agreed if no element has the name, altered if one differs or there are more, then the host's conflict, and else exactly the agreement |
| Handshakes.LayoutNeverMatters | src/client.rs:134-141 | `accept` and both `finish` methods answer lines as they answer the joined line |
| Handshakes.ClientWidths | src/client.rs:167-216 | for arbitrary header octets a client agrees to the one answer of this name and keeps to it: it inflates at the width answered for the server, or 15, expects exactly the reset answered, sends within the width answered for it and obeys a reset answered for it; both windows are within what it asked for and its own is 9 or more |
| Handshakes.ServerWidths | src/server.rs:123-172 | for arbitrary header octets a server keeps to the alternative it took, never bounding a client that did not say it can be, and its answer decodes to exactly the resets and widths it agreed; both windows are within its bounds and its own is 9 or more |
| Handshakes.InstalledIsSealed | src/client.rs:56-98 | whatever `install` succeeds on, what it leaves is what `seal` accepts and, among well-formed extensions, what the server reads as the offer |
| Handshakes.JointHandshake | src/server.rs:45-172 | the server declines exactly when its window was bounded to 8, else the client refuses exactly when its window was, else both hold every reset either asked for and the narrower of the two bounds on each window |
| Handshakes.Meet | src/server.rs:45-118 | the same of the calls themselves: install, seal, accept, and both finishes, among any well-formed other extensions |
| Outcomes.RequestExact | src/server.rs:45-67 | said of the trees that spell a request: it is declined exactly if none of its elements named "permessage-deflate" has all its parameters in order and can be served, and else the first gets what `ServerSide.Granted` says |
| Outcomes.ResponseExact | src/client.rs:142-162 | said of the trees that spell a response: with one element of the name, in order, this side's offer, the host's report and what the parameters say decide |
| Outcomes.ResponseFaults | src/client.rs:142-162 | with none there is no agreement, and only then; with a faulty one its first fault is the error |
| Outcomes.OfferText | src/client.rs:219-237 | a client writes each reset it asks for, its bound on the server if below 15, and its own window always, bare at 15 |
| Outcomes.AnswerText | src/server.rs:153-162 | a server writes each reset it grants, the server window if it was asked for or below 15, and the client's if below 15 |
| EndToEnd.IntoCodecs | src/codec.rs:279-291 | the codec pair has the local window and takeover on one half and the peer's on the other |
| EndToEnd.MirroredDirection | src/negotiated.rs:75-114 | mirrored agreements give both directions the contract and the same resets at both ends |
| EndToEnd.AgreementIsLossless | src/encoder.rs:349-378 | any two configurations that agree give two directions in which every run is received without loss or error under ceilings that suffice, and without a wrong octet under any others |
| EndToEnd.Connect | src/codec.rs:279-291 | mirrored agreements build the codecs of two directions that share nothing, each a new host of a link that keeps the contract and the caller's to use, with each inflater's machine that of its own width |
| EndToEnd.Establish | src/codec.rs:279-291 | two configurations come to two such directions of the settings both agree on, or to none exactly when one of them asks for a window of 8 |
| EndToEnd.Converse | src/codec.rs:279-338 | two configurations and a message each way come to both messages received, each exactly or refused for its size alone |
| EndToEnd.FixedCodeConforms | src/encoder.rs:139-148 | the fixed-Huffman backend is such a backend at every pair of widths |
| EndToEnd.StoredBlocksConform | src/encoder.rs:870-883 | the stored-block backend is one too, at every pair of widths |
| EndToEnd.MaximalBlocksConform | src/encoder.rs:870-883 | and so is the one with maximal blocks |

## Left out

- Dynamic Huffman blocks, match finding and compression levels: the backend's own business; a backend is any pair that keeps the contract in `Format.dfy`, and the fixed-Huffman instance refuses block type 2.
- `http::HeaderMap` and `HeaderValue`: a field is its lines, and the admissible octets are a predicate.
- Rust's ownership checks: guards are values and runs make only the moves ownership leaves.
- Allocator capacity, `shrink_to_fit` and the `isize` limit on vectors: only that a call may have more room than it asked for.
- Masking through `as_bytes_mut`, getters, logging and the builder methods of the configurations: a configuration is any value inside the bounds the builders check.
- `Decoding.Decoder.Inflate`: asks for a conforming backend or a ceiling below the largest size, because with neither the loop need not end; `BoundedIffBelowTop` is the reason.
- `Decoding.Decoder.CloseMessage`: asks for the same, for the same reason.
- `Decoding.Decoder.DecodeFragment`: asks for the same, for the same reason.
- `Decoding.Decoder.Decompress`: asks for the same, for the same reason.
- Which error a stream that is invalid and also passes the ceiling reports: the backend's chunking decides it, as `EitherError` shows, so there the error is one of the two.
