/**
 * One direction on its real objects: an encoder, the guard its host holds, and
 * the peer's decoder. Every method makes the calls a host makes, and performs
 * one move of the run beside it.
 */
module Hosts {
  import opened Sequences
  import opened Wrappers
  import opened Errors
  import opened Sizes
  import opened Octets
  import opened Transducer
  import opened Decoding
  import opened DecoderLaws
  import opened Compressors
  import opened Encoding
  import opened Formats
  import opened Connections
  import opened ConnectionLaws

  /** What a host holds of the message it is sending, beside the application's octets for it. */
  datatype Guard<C(!new, 0), H(!new, 0)> =
    | Free
    | Whole(message: PreparedMessage<C, H>, payload: bytes)
    | Open(stream: StreamingMessage<C, H>)
    | Middle(fragment: PreparedNonFinalFragment<C, H>, payload: bytes)
    | Ending(tail: PreparedFinalFragment<C, H>, payload: bytes)
    /** Dropped, forgotten, or consumed by a prepare that failed. */
    | Gone
  {
    /** The compressor this guard keeps the encoder without. */
    function Carried(): Compressor?<C, H> {
      match this
      case Free => null
      case Whole(m, _) => m.compressor
      case Open(s) => s.compressor
      case Middle(f, _) => f.compressor
      case Ending(t, _) => t.compressor
      case Gone => null
    }

    /** The encoder it was made by, and will hand its compressor back to. */
    predicate MadeBy(e: Encoder<C, H>) {
      match this
      case Free => true
      case Whole(m, _) => m.encoder == e
      case Open(s) => s.encoder == e
      case Middle(f, _) => f.encoder == e
      case Ending(t, _) => t.encoder == e
      case Gone => true
    }

    /** The run says the same of the compressor, `c` being the state it is in. */
    ghost predicate Stands(at: Custody<C>, c: C) {
      match this
      case Free => at == Held(c)
      case Whole(m, payload) => at.Candidate? && at == Candidate(at.from, c, payload, m.payload)
      case Open(_) => at == Streaming(c)
      case Middle(f, payload) => at.FragmentOut? && at == FragmentOut(at.from, c, payload, f.payload, false)
      case Ending(t, payload) => at.FragmentOut? && at == FragmentOut(at.from, c, payload, t.payload, true)
      case Gone => at == Lost
    }
  }

  /**
   * Payloads committed in full and the committed part of the message still open,
   * and what the peer's decoder returned for them.
   */
  datatype Ledger = Ledger(sent: seq<bytes>, partSent: bytes, got: seq<bytes>, partGot: bytes) {

    function SentWhole(payload: bytes): Ledger {
      this.(sent := sent + [payload])
    }

    function Sent(payload: bytes, last: bool): Ledger {
      if last then this.(sent := sent + [partSent + payload], partSent := []) else this.(partSent := partSent + payload)
    }

    function Got(r: Result<bytes, CodecError>, last: bool): Ledger {
      if r.Err? then this
      else if last then this.(got := got + [partGot + r.value], partGot := [])
      else this.(partGot := partGot + r.value)
    }
  }

  function Books<S, C>(w: World<S, C>): Ledger {
    Ledger(w.sent, w.partSent, w.got, w.partGot)
  }

  /** The run says the same of the messages and of the peer. */
  ghost predicate Tallies<S, C>(w: World<S, C>, receiver: Option<Channel<S>>, ledger: Ledger) {
    w.receiver == receiver && Books(w) == ledger
  }

  // ---- Into a decoder: one fragment, or the frames of a whole message.

  /** What the peer's decoder answered, and where that left it; one that had failed stays failed. */
  ghost predicate Replied<S>(before: Option<Channel<S>>, f: Option<(Channel<S>, bytes)>, r: Result<bytes, CodecError>,
                             after: Option<Channel<S>>)
  {
    if before.Some? && r.Ok? then after.Some? && f == Some((after.value, r.value)) else r.Err? && f.None? && after.None?
  }

  /** A peer that had failed says so; one that fails now was not sent what it can take, or not allowed to take it. */
  ghost predicate Excused<S>(m: Machine<S>, before: Option<Channel<S>>, wire: bytes, last: bool,
                             r: Result<bytes, CodecError>)
  {
    r.Err? ==>
      if before.None? then r.error == Poisoned
      else r.error.MessageTooLong? || Malformed(m, before.value.pos, wire, last)
  }

  /** A fragment, as a function of where the decoder stands: `None` once it has failed. */
  function Hears<S>(m: Machine<S>, reset: bool, before: Option<Channel<S>>, wire: bytes, last: bool, limit: nat)
    : Option<(Channel<S>, bytes)>
  {
    if before.None? then None else Fragment(m, reset, before.value, wire, last, limit)
  }

  /** And a whole message. */
  function HearsAll<S>(m: Machine<S>, reset: bool, before: Option<Channel<S>>, frames: seq<bytes>, limits: seq<nat>)
    : Option<(Channel<S>, bytes)>
    requires |frames| == |limits| > 0
  {
    if before.None? then None else Message(m, reset, before.value, frames, limits)
  }

  ghost function Standing<S(!new, 0)>(decoder: Decoder<S>): Option<Channel<S>>
    reads decoder, decoder.inflater
  {
    if decoder.poisoned then None else Some(decoder.Live())
  }

  method Hand<S(!new, 0)>(decoder: Decoder<S>, wire: bytes, last: bool, limit: nat)
    returns (r: Result<bytes, CodecError>)
    requires decoder.Valid() && decoder.conforming && limit <= USIZE_MAX
    modifies decoder, decoder.inflater
    ensures decoder.Valid() && (decoder.inflater == old(decoder.inflater) || fresh(decoder.inflater))
    ensures decoder.poisoned <==> r.Err?
    ensures var m, before := decoder.M(), old(Standing(decoder));
      && Replied(before, Hears(m, decoder.resetBetweenMessages, before, wire, last, limit), r, Standing(decoder))
      && Excused(m, before, wire, last, r)
  {
    r := decoder.Decompress(wire, last, limit);
  }

  lemma AppendTwice<S>(a: bytes, b: bytes, rest: Option<(Channel<S>, bytes)>)
    ensures Append(a, Append(b, rest)) == Append(a + b, rest)
  {
    if rest.Some? { Regroup(a, b, rest.value.1); }
  }

  /** A frame that is malformed makes the message so, and so does what follows one that is not. */
  lemma FrameBlamed<S>(m: Machine<S>, p: Pos<S>, frames: seq<bytes>)
    requires frames != []
    ensures Malformed(m, p, frames[0], |frames| == 1) ==> Malformed(m, p, Concat(frames), true)
    ensures |frames| > 1 && Decode(m, p, frames[0]).Decoded? ==>
      (Malformed(m, Decode(m, p, frames[0]).pos, Concat(frames[1..]), true) ==> Malformed(m, p, Concat(frames), true))
  {
    if |frames| == 1 {
      assert Concat(frames) == frames[0] + Concat(frames[1..]) == frames[0];
    } else {
      MalformedMerge(m, p, frames[0], Concat(frames[1..]), true);
    }
  }

  /**
   * `i` frames of a message are in, from where the decoder stood at `start`: it stands
   * at `now` and has returned `output`.
   */
  ghost predicate Partway<S>(m: Machine<S>, reset: bool, start: Option<Channel<S>>, frames: seq<bytes>,
                             limits: seq<nat>, i: nat, now: Option<Channel<S>>, output: bytes)
    requires |frames| == |limits| > 0 && i <= |frames|
  {
    && (i == 0 ==> now == start)
    && (i > 0 ==> start.Some? && now.Some?)
    && (if i == |frames| then now.Some? && HearsAll(m, reset, start, frames, limits) == Some((now.value, output))
        else
          && HearsAll(m, reset, start, frames, limits) ==
               Append(output, HearsAll(m, reset, now, frames[i..], limits[i..]))
          && (now.Some? && Malformed(m, now.value.pos, Concat(frames[i..]), true) ==>
                Malformed(m, start.value.pos, Concat(frames), true)))
  }

  lemma NothingIn<S>(m: Machine<S>, reset: bool, start: Option<Channel<S>>, frames: seq<bytes>, limits: seq<nat>)
    requires |frames| == |limits| > 0
    ensures Partway(m, reset, start, frames, limits, 0, start, [])
  {
    assert frames[0..] == frames && limits[0..] == limits;
    var whole := HearsAll(m, reset, start, frames, limits);
    if whole.Some? { assert [] + whole.value.1 == whole.value.1; }
  }

  /** The next frame takes it further, or fails where the whole message does. */
  lemma FrameIn<S>(m: Machine<S>, reset: bool, start: Option<Channel<S>>, frames: seq<bytes>, limits: seq<nat>, i: nat,
                   now: Option<Channel<S>>, output: bytes, r: Result<bytes, CodecError>, after: Option<Channel<S>>)
    requires |frames| == |limits| && i < |frames| && Partway(m, reset, start, frames, limits, i, now, output)
    requires Replied(now, Hears(m, reset, now, frames[i], i + 1 == |frames|, limits[i]), r, after)
    requires Excused(m, now, frames[i], i + 1 == |frames|, r)
    ensures r.Ok? ==> Partway(m, reset, start, frames, limits, i + 1, after, output + r.value)
    ensures r.Err? ==>
      Replied(start, HearsAll(m, reset, start, frames, limits), r, after) && Excused(m, start, Concat(frames), true, r)
  {
    if now.Some? { FrameBlamed(m, now.value.pos, frames[i..]); }
    if i + 1 < |frames| {
      assert frames[i..][1..] == frames[i + 1..] && limits[i..][1..] == limits[i + 1..];
      if r.Ok? { AppendTwice(output, r.value, HearsAll(m, reset, after, frames[i + 1..], limits[i + 1..])); }
    }
  }

  /** One call for each frame of a message, until one fails. */
  method Deliver<S(!new, 0)>(decoder: Decoder<S>, frames: seq<bytes>, limits: seq<nat>)
    returns (r: Result<bytes, CodecError>)
    requires decoder.Valid() && decoder.conforming
    requires |frames| == |limits| > 0 && Readable(limits)
    modifies decoder, decoder.inflater
    ensures decoder.Valid() && (decoder.inflater == old(decoder.inflater) || fresh(decoder.inflater))
    ensures decoder.poisoned <==> r.Err?
    ensures var m, before := decoder.M(), old(Standing(decoder));
      && Replied(before, HearsAll(m, decoder.resetBetweenMessages, before, frames, limits), r, Standing(decoder))
      && Excused(m, before, Concat(frames), true, r)
  {
    ghost var m, reset, start := decoder.M(), decoder.resetBetweenMessages, Standing(decoder);
    NothingIn(m, reset, start, frames, limits);
    var output: bytes := [];
    for i := 0 to |frames|
      invariant decoder.Valid() && (decoder.inflater == old(decoder.inflater) || fresh(decoder.inflater))
      invariant Partway(m, reset, start, frames, limits, i, Standing(decoder), output)
    {
      ghost var now, before := Standing(decoder), output;
      var part := Hand(decoder, frames[i], i + 1 == |frames|, limits[i]);
      FrameIn(m, reset, start, frames, limits, i, now, before, part, Standing(decoder));
      if part.Err? { return Err(part.error); }
      output := output + part.value;
    }
    r := Ok(output);
  }

  // ---- One move further: what a run becomes, for each thing a host can do.

  /** `m` was open to the host and led from `w` to `w'`. */
  ghost predicate Moves<S(!new), C(!new), H(!new)>(k: Link<S, C, H>, moves: seq<Move<C>>, w: World<S, C>, m: Move<C>,
                                                   w': World<S, C>)
  {
    Reaches(k, moves + [m], w') && w' == Apply(k, w, m)
  }

  lemma PrepareMoves<S(!new), C(!new), H(!new)>(k: Link<S, C, H>, moves: seq<Move<C>>, w: World<S, C>, payload: bytes,
                                                c': C, wire: bytes)
    returns (w': World<S, C>)
    requires Reaches(k, moves, w) && w.custody.Held? && PreparesFinal(k.format.deflater, w.custody.c, payload, c', wire)
    ensures Moves(k, moves, w, PrepareMessage(payload, c', wire), w')
    ensures w' == w.(custody := Candidate(w.custody.c, c', payload, wire))
  {
    w' := Apply(k, w, PrepareMessage(payload, c', wire));
    ReachesNext(k, moves, w, PrepareMessage(payload, c', wire));
  }

  lemma ResetMoves<S(!new), C(!new), H(!new)>(k: Link<S, C, H>, moves: seq<Move<C>>, w: World<S, C>)
    returns (w': World<S, C>)
    requires Reaches(k, moves, w) && w.custody.Candidate?
    ensures Moves(k, moves, w, ResetToPlain, w')
    ensures w' == w.(custody := Held(k.format.deflater.start), plain := true)
  {
    w' := Apply(k, w, ResetToPlain);
    ReachesNext(k, moves, w, ResetToPlain);
  }

  lemma BeginMoves<S(!new), C(!new), H(!new)>(k: Link<S, C, H>, moves: seq<Move<C>>, w: World<S, C>)
    returns (w': World<S, C>)
    requires Reaches(k, moves, w) && w.custody.Held?
    ensures Moves(k, moves, w, BeginStream, w')
    ensures w' == w.(custody := Streaming(w.custody.c))
  {
    w' := Apply(k, w, BeginStream);
    ReachesNext(k, moves, w, BeginStream);
  }

  lemma FragmentMoves<S(!new), C(!new), H(!new)>(
    k: Link<S, C, H>, moves: seq<Move<C>>, w: World<S, C>, chunk: bytes, last: bool, c': C, wire: bytes)
    returns (w': World<S, C>)
    requires Reaches(k, moves, w) && w.custody.Streaming?
    requires if last then PreparesFinal(k.format.deflater, w.custody.c, chunk, c', wire)
             else PreparesNonFinal(k.format.deflater, w.custody.c, chunk, c', wire)
    ensures Moves(k, moves, w, PrepareFragment(chunk, last, c', wire), w')
    ensures w' == w.(custody := FragmentOut(w.custody.c, c', chunk, wire, last))
  {
    w' := Apply(k, w, PrepareFragment(chunk, last, c', wire));
    ReachesNext(k, moves, w, PrepareFragment(chunk, last, c', wire));
  }

  lemma LossMoves<S(!new), C(!new), H(!new)>(k: Link<S, C, H>, moves: seq<Move<C>>, w: World<S, C>)
    returns (w': World<S, C>)
    requires Reaches(k, moves, w)
    ensures Moves(k, moves, w, Forget, w')
    ensures w' == w.(custody := Lost)
  {
    w' := Apply(k, w, Forget);
    ReachesNext(k, moves, w, Forget);
  }

  lemma RefusalMoves<S(!new), C(!new), H(!new)>(k: Link<S, C, H>, moves: seq<Move<C>>, w: World<S, C>)
    requires Reaches(k, moves, w) && w.custody.Lost?
    ensures Moves(k, moves, w, Refused, w)
  {
    ReachesNext(k, moves, w, Refused);
  }

  lemma MiddleMoves<S(!new), C(!new), H(!new)>(
    k: Link<S, C, H>, moves: seq<Move<C>>, w: World<S, C>, limit: nat, r: Result<bytes, CodecError>,
    after: Option<Channel<S>>)
    returns (w': World<S, C>)
    requires Reaches(k, moves, w) && w.custody.FragmentOut? && !w.custody.last && limit <= USIZE_MAX
    requires var answer := Hears(k.format.machine, k.receiverResets, w.receiver, w.custody.wire, false, limit);
      Replied(w.receiver, answer, r, after)
    ensures Moves(k, moves, w, CommitFragment(limit), w')
    ensures w'.custody == Streaming(w.custody.c)
    ensures Tallies(w', after, Books(w).Sent(w.custody.payload, false).Got(r, false))
  {
    w' := Apply(k, w, CommitFragment(limit));
    ReachesNext(k, moves, w, CommitFragment(limit));
  }

  lemma LastArrives<S, C, H>(k: Link<S, C, H>, w: World<S, C>, frames: seq<bytes>, limits: seq<nat>,
                             r: Result<bytes, CodecError>, after: Option<Channel<S>>)
    requires |frames| == |limits| > 0
    requires Replied(w.receiver, HearsAll(k.format.machine, k.receiverResets, w.receiver, frames, limits), r, after)
    ensures Tallies(ArriveLast(k, w, frames, limits), after, Books(w).Got(r, true))
  {
  }

  lemma MessageMoves<S(!new), C(!new), H(!new)>(
    k: Link<S, C, H>, moves: seq<Move<C>>, w: World<S, C>, frames: seq<bytes>, limits: seq<nat>,
    r: Result<bytes, CodecError>, after: Option<Channel<S>>) returns (w': World<S, C>)
    requires Reaches(k, moves, w) && w.custody.Candidate?
    requires |frames| == |limits| > 0 && Concat(frames) == w.custody.wire && Readable(limits)
    requires Replied(w.receiver, HearsAll(k.format.machine, k.receiverResets, w.receiver, frames, limits), r, after)
    ensures Moves(k, moves, w, CommitMessage(frames, limits), w')
    ensures w'.custody == Held(Left(k, w.custody.c))
    ensures Tallies(w', after, Books(w).SentWhole(w.custody.payload).Got(r, true))
  {
    w' := Apply(k, w, CommitMessage(frames, limits));
    ReachesNext(k, moves, w, CommitMessage(frames, limits));
    LastArrives(k, w, frames, limits, r, after);
  }

  lemma EndingMoves<S(!new), C(!new), H(!new)>(
    k: Link<S, C, H>, moves: seq<Move<C>>, w: World<S, C>, limit: nat, r: Result<bytes, CodecError>,
    after: Option<Channel<S>>)
    returns (w': World<S, C>)
    requires Reaches(k, moves, w) && w.custody.FragmentOut? && w.custody.last && limit <= USIZE_MAX
    requires var answer := Hears(k.format.machine, k.receiverResets, w.receiver, w.custody.wire, true, limit);
      Replied(w.receiver, answer, r, after)
    ensures Moves(k, moves, w, CommitFragment(limit), w')
    ensures w'.custody == Held(Left(k, w.custody.c))
    ensures Tallies(w', after, Books(w).Sent(w.custody.payload, true).Got(r, true))
  {
    w' := Apply(k, w, CommitFragment(limit));
    ReachesNext(k, moves, w, CommitFragment(limit));
    var frames, limits := [w.custody.wire], [limit];
    assert frames[0] == w.custody.wire && limits[0] == limit;
    LastArrives(k, w, frames, limits, r, after);
  }

  // ---- What the peer answers, when the two backends keep the contract between them.

  /** They do, and both ends reset alike. */
  ghost predicate Matched<S(!new), C(!new), H(!new)>(k: Link<S, C, H>) {
    Lawful(k.format) && k.senderResets == k.receiverResets
  }

  lemma ReachedInv<S(!new), C(!new), H(!new)>(k: Link<S, C, H>, moves: seq<Move<C>>, w: World<S, C>)
    requires Matched(k) && Reaches(k, moves, w)
    ensures Inv(k, w)
  {
    InitialInv(k);
    RunKeepsInv(k, Initial(k), moves);
  }

  /**
   * A peer that has not failed answers a commit with the payload whenever the ceilings
   * suffice for the message so far, and, where it read one ceiling, only then; all it
   * can complain of is the ceiling.
   */
  predicate Answered(live: bool, r: Result<bytes, CodecError>, payload: bytes, limits: seq<nat>, size: nat) {
    && (r.Err? ==> if live then r.error.MessageTooLong? else r.error == Poisoned)
    && (r.Ok? ==> live && r.value == payload)
    && (live && Sufficient(limits, size) ==> r.Ok?)
    && (r.Ok? && Steady(limits) ==> Sufficient(limits, size))
  }

  lemma MessageAnswered<S(!new), C(!new), H(!new)>(
    k: Link<S, C, H>, moves: seq<Move<C>>, w: World<S, C>, frames: seq<bytes>, limits: seq<nat>,
    r: Result<bytes, CodecError>, after: Option<Channel<S>>)
    requires Matched(k) && Reaches(k, moves, w) && Enabled(k, w, CommitMessage(frames, limits))
    requires Replied(w.receiver, HearsAll(k.format.machine, k.receiverResets, w.receiver, frames, limits), r, after)
    requires Excused(k.format.machine, w.receiver, w.custody.wire, true, r)
    ensures Answered(w.receiver.Some?, r, w.custody.payload, limits, |w.custody.payload|)
  {
    ReachedInv(k, moves, w);
    var at := w.custody;
    if w.receiver.Some? { LastWellFormed(k, w.receiver.value, at.from, at.c, at.payload, at.wire); }
    CommitLast(k, w, at.from, at.c, at.payload, at.wire, frames, limits);
    assert w.partSent + at.payload == at.payload;
    LastAnswered(k, w, frames, limits, at.payload, r, after);
  }

  lemma EndingAnswered<S(!new), C(!new), H(!new)>(
    k: Link<S, C, H>, moves: seq<Move<C>>, w: World<S, C>, limit: nat,
    r: Result<bytes, CodecError>, after: Option<Channel<S>>)
    requires Matched(k) && Reaches(k, moves, w) && Enabled(k, w, CommitFragment(limit)) && w.custody.last
    requires var answer := Hears(k.format.machine, k.receiverResets, w.receiver, w.custody.wire, true, limit);
      Replied(w.receiver, answer, r, after)
    requires Excused(k.format.machine, w.receiver, w.custody.wire, true, r)
    ensures Answered(w.receiver.Some?, r, w.custody.payload, [limit], |w.partSent + w.custody.payload|)
  {
    ReachedInv(k, moves, w);
    var at := w.custody;
    var frames, limits := [at.wire], [limit];
    assert frames[0] == at.wire && limits[0] == limit;
    ConcatOne(at.wire);
    if w.receiver.Some? { LastWellFormed(k, w.receiver.value, at.from, at.c, at.payload, at.wire); }
    CommitLast(k, w, at.from, at.c, at.payload, at.wire, frames, limits);
    LastAnswered(k, w, frames, limits, at.payload, r, after);
  }

  lemma LastAnswered<S, C, H>(k: Link<S, C, H>, w: World<S, C>, frames: seq<bytes>, limits: seq<nat>, payload: bytes,
                              r: Result<bytes, CodecError>, after: Option<Channel<S>>)
    requires |frames| == |limits| > 0 && Agrees(w)
    requires var w' := ArriveLast(k, w, frames, limits);
      w'.receiver.Some? ==> w.receiver.Some? && w'.got == w.sent + [w.partSent + payload]
    requires Replied(w.receiver, HearsAll(k.format.machine, k.receiverResets, w.receiver, frames, limits), r, after)
    ensures r.Ok? <==> ArriveLast(k, w, frames, limits).receiver.Some?
    ensures r.Ok? ==> w.receiver.Some? && r.value == payload
  {
    if r.Ok? {
      var w' := ArriveLast(k, w, frames, limits);
      assert w'.got[|w.got|] == w.partGot + r.value == w.partSent + payload;
      assert (w.partGot + r.value)[|w.partGot|..] == r.value && (w.partSent + payload)[|w.partSent|..] == payload;
    }
  }

  lemma MiddleAnswered<S(!new), C(!new), H(!new)>(
    k: Link<S, C, H>, moves: seq<Move<C>>, w: World<S, C>, limit: nat,
    r: Result<bytes, CodecError>, after: Option<Channel<S>>)
    requires Matched(k) && Reaches(k, moves, w) && Enabled(k, w, CommitFragment(limit)) && !w.custody.last
    requires var answer := Hears(k.format.machine, k.receiverResets, w.receiver, w.custody.wire, false, limit);
      Replied(w.receiver, answer, r, after)
    requires Excused(k.format.machine, w.receiver, w.custody.wire, false, r)
    ensures Answered(w.receiver.Some?, r, w.custody.payload, [limit], |w.partSent + w.custody.payload|)
  {
    ReachedInv(k, moves, w);
    var at := w.custody;
    CommitNonFinal(k, w, at.from, at.c, at.payload, at.wire, limit);
    if r.Ok? {
      assert w.partGot + r.value == w.partSent + at.payload;
      assert (w.partGot + r.value)[|w.partGot|..] == r.value && (w.partSent + at.payload)[|w.partSent|..] == at.payload;
    }
  }

  /** What a prepare needs of a compressor that keeps the contract, wherever the host took it. */
  lemma ReachedAcceptable<S(!new), C(!new), H(!new)>(k: Link<S, C, H>, moves: seq<Move<C>>, w: World<S, C>,
                                                     payload: bytes)
    requires Matched(k) && Reaches(k, moves, w) && (w.custody.Held? || w.custody.Streaming?)
    ensures Acceptable(k.format.deflater, w.custody.c, payload)
  {
    ReachedInv(k, moves, w);
    LawfulIsAcceptable(k.format, w.custody.c, payload);
  }

  // ---- The host.

  class Host<S(!new, 0), C(!new, 0), H(!new, 0)> {
    ghost const link: Link<S, C, H>
    const encoder: Encoder<C, H>
    const decoder: Decoder<S>
    /** The one compressor there is, wherever it may be. */
    ghost const engine: Compressor<C, H>
    var guard: Guard<C, H>
    var ledger: Ledger
    /** Everything done so far, and where the run of it stands. */
    ghost var moves: seq<Move<C>>
    ghost var world: World<S, C>

    ghost predicate Linked() {
      && engine.deflater == link.format.deflater && Drains(engine.deflater)
      && encoder.resetBetweenMessages == link.senderResets
      && decoder.resetBetweenMessages == link.receiverResets
      && decoder.conforming && decoder.M() == link.format.machine
    }

    /** The compressor is in the encoder, in the guard, or lost; and it is where the run says. */
    ghost predicate Custodian(g: Guard<C, H>, at: Custody<C>)
      reads encoder, engine
    {
      && encoder.compressor == (if g.Free? then engine else null)
      && g.Carried() == (if g.Free? || g.Gone? then null else engine)
      && g.MadeBy(encoder)
      && (!g.Gone? ==> engine.Idle())
      && g.Stands(at, engine.state)
    }

    /** The application and the peer's decoder stand where the run says. */
    ghost predicate Accounted(l: Ledger, w: World<S, C>)
      reads decoder, decoder.inflater
    {
      decoder.Valid() && Tallies(w, Standing(decoder), l)
    }

    ghost predicate Valid()
      reads this, encoder, engine, decoder, decoder.inflater
    {
      Linked() && Reaches(link, moves, world) && Custodian(guard, world.custody) && Accounted(ledger, world)
    }

    /** The host's own bookkeeping, once the calls of a move are made. */
    method Settle(g: Guard<C, H>, l: Ledger, ghost m: Move<C>, ghost w: World<S, C>)
      requires Linked() && Reaches(link, moves + [m], w) && Custodian(g, w.custody) && Accounted(l, w)
      modifies this
      ensures Valid() && guard == g && ledger == l && moves == old(moves) + [m] && world == w
    {
      guard, ledger, moves, world := g, l, moves + [m], w;
    }

    /** The same for a compressor nothing can reach any more. */
    method Lose()
      requires Linked() && Reaches(link, moves, world) && Custodian(Gone, Lost) && Accounted(ledger, world)
      modifies this
      ensures Valid() && guard.Gone? && ledger == old(ledger)
      ensures moves == old(moves) + [Forget] && Moves(link, old(moves), old(world), Forget, world)
    {
      ghost var w := LossMoves(link, moves, world);
      Settle(Gone, ledger, Forget, w);
    }

    constructor (format: Format<S, C, H>, encoder: Encoder<C, H>, decoder: Decoder<S>)
      requires encoder.compressor != null && encoder.compressor.Idle()
      requires encoder.compressor.deflater == format.deflater && Drains(format.deflater)
      requires encoder.compressor.state == format.deflater.start
      requires decoder.Valid() && decoder.conforming && !decoder.poisoned
      requires decoder.M() == format.machine && decoder.Live() == Channel(Start(format.machine), 0)
      ensures Valid() && guard.Free? && moves == []
      ensures this.encoder == encoder && this.decoder == decoder && engine == encoder.compressor
      ensures link == Link(format, encoder.resetBetweenMessages, decoder.resetBetweenMessages)
    {
      link := Link(format, encoder.resetBetweenMessages, decoder.resetBetweenMessages);
      this.encoder, this.decoder, engine := encoder, decoder, encoder.compressor;
      guard, ledger, moves := Free, Ledger([], [], [], []), [];
      world := Initial(Link(format, encoder.resetBetweenMessages, decoder.resetBetweenMessages));
    }

    method PrepareMessage(payload: bytes) returns (r: Result<(), CodecError>)
      requires Valid() && (guard.Free? || guard.Gone?)
      modifies this, encoder`compressor, engine
      ensures Valid()
      ensures ledger == old(ledger)
      ensures r.Ok? ==> guard.Whole? && guard.payload == payload
      ensures r.Err? ==> guard.Gone?
      ensures old(guard).Gone? <==> r == Err(Poisoned)
      // Over a reliable backend whose outputs step 3 accepts, as all of a matched one's are, it succeeds.
      ensures old(guard).Free? && engine.reliable ==>
        (Matched(link) || Acceptable(engine.deflater, old(engine.state), payload) ==> r.Ok?)
      ensures
        var m := if r.Ok? then Move.PrepareMessage(payload, engine.state, guard.message.payload)
                 else if old(guard).Gone? then Refused else Forget;
        moves == old(moves) + [m] && Moves(link, old(moves), old(world), m, world)
    {
      if guard.Free? && Matched(link) { ReachedAcceptable(link, moves, world, payload); }
      var prepared := encoder.PrepareMessage(payload);
      if prepared.Ok? {
        ghost var w := PrepareMoves(link, moves, world, payload, engine.state, prepared.value.payload);
        Settle(Whole(prepared.value, payload), ledger,
               Move.PrepareMessage(payload, engine.state, prepared.value.payload), w);
        return Ok(());
      }
      if guard.Gone? {
        RefusalMoves(link, moves, world);
        Settle(Gone, ledger, Refused, world);
      } else {
        Lose();
      }
      r := Err(prepared.error);
    }

    /** The frames are on the wire: commit, and the peer takes them. */
    method CommitMessage(frames: seq<bytes>, limits: seq<nat>) returns (r: Result<bytes, CodecError>)
      requires Valid() && guard.Whole?
      requires |frames| == |limits| > 0 && Concat(frames) == guard.message.payload && Readable(limits)
      modifies this, encoder`compressor, engine, decoder, decoder.inflater
      ensures Valid() && guard.Free?
      ensures decoder.inflater == old(decoder.inflater) || fresh(decoder.inflater)
      ensures r.Err? <==> decoder.poisoned
      ensures ledger == old(ledger).SentWhole(old(guard).payload).Got(r, true)
      ensures Matched(link) ==>
        Answered(!old(decoder.poisoned), r, old(guard).payload, limits, |old(guard).payload|)
      ensures
        var m := Move.CommitMessage(frames, limits);
        moves == old(moves) + [m] && Moves(link, old(moves), old(world), m, world)
    {
      var payload := guard.payload;
      var wire := guard.message.Commit();
      r := Deliver(decoder, frames, limits);
      if Matched(link) { MessageAnswered(link, moves, world, frames, limits, r, Standing(decoder)); }
      ghost var w := MessageMoves(link, moves, world, frames, limits, r, Standing(decoder));
      Settle(Free, ledger.SentWhole(payload).Got(r, true), Move.CommitMessage(frames, limits), w);
    }

    method ResetToPlain()
      requires Valid() && guard.Whole?
      modifies this, encoder`compressor, engine
      ensures Valid() && guard.Free?
      ensures ledger == old(ledger)
      ensures moves == old(moves) + [Move.ResetToPlain]
      ensures Moves(link, old(moves), old(world), Move.ResetToPlain, world)
    {
      guard.message.ResetToPlain();
      ghost var w := ResetMoves(link, moves, world);
      Settle(Free, ledger, Move.ResetToPlain, w);
    }

    method BeginStream() returns (r: Result<(), CodecError>)
      requires Valid() && (guard.Free? || guard.Gone?)
      modifies this, encoder`compressor
      ensures Valid()
      ensures ledger == old(ledger)
      ensures r == if old(guard).Gone? then Err(Poisoned) else Ok(())
      ensures guard.Open? <==> r.Ok?
      ensures guard.Gone? <==> r.Err?
      ensures
        var m := if r.Ok? then Move.BeginStream else Refused;
        moves == old(moves) + [m] && Moves(link, old(moves), old(world), m, world)
    {
      var begun := encoder.BeginStreamingMessage();
      if begun.Ok? {
        ghost var w := BeginMoves(link, moves, world);
        Settle(Open(begun.value), ledger, Move.BeginStream, w);
        return Ok(());
      }
      RefusalMoves(link, moves, world);
      Settle(Gone, ledger, Refused, world);
      r := Err(begun.error);
    }

    method PrepareMiddle(chunk: bytes) returns (r: Result<(), CodecError>)
      requires Valid() && guard.Open?
      modifies this, engine
      ensures Valid()
      ensures ledger == old(ledger)
      ensures r.Ok? ==> guard.Middle? && guard.payload == chunk
      ensures r.Err? ==> guard.Gone?
      ensures engine.reliable && (Matched(link) || Acceptable(engine.deflater, old(engine.state), chunk)) ==> r.Ok?
      ensures
        var m := if r.Ok? then PrepareFragment(chunk, false, engine.state, guard.fragment.payload) else Forget;
        moves == old(moves) + [m] && Moves(link, old(moves), old(world), m, world)
    {
      if Matched(link) { ReachedAcceptable(link, moves, world, chunk); }
      var prepared := guard.stream.PrepareNonFinalFragment(chunk);
      if prepared.Ok? {
        ghost var w := FragmentMoves(link, moves, world, chunk, false, engine.state, prepared.value.payload);
        Settle(Middle(prepared.value, chunk), ledger,
               PrepareFragment(chunk, false, engine.state, prepared.value.payload), w);
        return Ok(());
      }
      Lose();
      r := Err(prepared.error);
    }

    method PrepareLast(chunk: bytes) returns (r: Result<(), CodecError>)
      requires Valid() && guard.Open?
      modifies this, engine
      ensures Valid()
      ensures ledger == old(ledger)
      ensures r.Ok? ==> guard.Ending? && guard.payload == chunk
      ensures r.Err? ==> guard.Gone?
      ensures engine.reliable && (Matched(link) || Acceptable(engine.deflater, old(engine.state), chunk)) ==> r.Ok?
      ensures
        var m := if r.Ok? then PrepareFragment(chunk, true, engine.state, guard.tail.payload) else Forget;
        moves == old(moves) + [m] && Moves(link, old(moves), old(world), m, world)
    {
      if Matched(link) { ReachedAcceptable(link, moves, world, chunk); }
      var prepared := guard.stream.PrepareFinalFragment(chunk);
      if prepared.Ok? {
        ghost var w := FragmentMoves(link, moves, world, chunk, true, engine.state, prepared.value.payload);
        Settle(Ending(prepared.value, chunk), ledger,
               PrepareFragment(chunk, true, engine.state, prepared.value.payload), w);
        return Ok(());
      }
      Lose();
      r := Err(prepared.error);
    }

    /** A fragment before the last is on the wire: commit, and the peer takes it. */
    method CommitMiddle(limit: nat) returns (r: Result<bytes, CodecError>)
      requires Valid() && guard.Middle? && limit <= USIZE_MAX
      modifies this, decoder, decoder.inflater
      ensures Valid() && guard.Open?
      ensures decoder.inflater == old(decoder.inflater) || fresh(decoder.inflater)
      ensures r.Err? <==> decoder.poisoned
      ensures ledger == old(ledger).Sent(old(guard).payload, false).Got(r, false)
      ensures Matched(link) ==>
        Answered(!old(decoder.poisoned), r, old(guard).payload, [limit], |old(ledger).partSent + old(guard).payload|)
      ensures
        var m := CommitFragment(limit);
        moves == old(moves) + [m] && Moves(link, old(moves), old(world), m, world)
    {
      var payload := guard.payload;
      var wire, next := guard.fragment.Commit();
      r := Hand(decoder, wire, false, limit);
      if Matched(link) { MiddleAnswered(link, moves, world, limit, r, Standing(decoder)); }
      ghost var w := MiddleMoves(link, moves, world, limit, r, Standing(decoder));
      Settle(Open(next), ledger.Sent(payload, false).Got(r, false), CommitFragment(limit), w);
    }

    /** The last fragment is on the wire: commit, and the peer takes it. */
    method CommitLast(limit: nat) returns (r: Result<bytes, CodecError>)
      requires Valid() && guard.Ending? && limit <= USIZE_MAX
      modifies this, encoder`compressor, engine, decoder, decoder.inflater
      ensures Valid() && guard.Free?
      ensures decoder.inflater == old(decoder.inflater) || fresh(decoder.inflater)
      ensures r.Err? <==> decoder.poisoned
      ensures ledger == old(ledger).Sent(old(guard).payload, true).Got(r, true)
      ensures Matched(link) ==>
        Answered(!old(decoder.poisoned), r, old(guard).payload, [limit], |old(ledger).partSent + old(guard).payload|)
      ensures
        var m := CommitFragment(limit);
        moves == old(moves) + [m] && Moves(link, old(moves), old(world), m, world)
    {
      var payload := guard.payload;
      var wire := guard.tail.Commit();
      r := Hand(decoder, wire, true, limit);
      if Matched(link) { EndingAnswered(link, moves, world, limit, r, Standing(decoder)); }
      ghost var w := EndingMoves(link, moves, world, limit, r, Standing(decoder));
      Settle(Free, ledger.Sent(payload, true).Got(r, true), CommitFragment(limit), w);
    }

    /** A guard dropped, forgotten, or behind a write nobody knows the end of. */
    method Drop()
      requires Valid() && !guard.Free?
      modifies this
      ensures Valid() && guard.Gone?
      ensures ledger == old(ledger)
      ensures moves == old(moves) + [Forget] && Moves(link, old(moves), old(world), Forget, world)
    {
      Lose();
    }
  }

  /** A whole message in one frame: prepared, committed, and taken by the peer under one ceiling. */
  method Send<S(!new, 0), C(!new, 0), H(!new, 0)>(h: Host<S, C, H>, payload: bytes, limit: nat)
    returns (r: Result<bytes, CodecError>)
    requires h.Valid() && h.guard.Free? && h.engine.reliable && Matched(h.link) && limit <= USIZE_MAX
    modifies h, h.encoder`compressor, h.engine, h.decoder, h.decoder.inflater
    ensures h.Valid() && h.guard.Free? && h.engine.reliable
    ensures h.decoder.inflater == old(h.decoder.inflater) || fresh(h.decoder.inflater)
    ensures r.Ok? <==> !old(h.decoder.poisoned) && Min(|payload|, USIZE_MAX) <= limit
    ensures r.Ok? ==> r.value == payload
    ensures r.Err? ==> h.decoder.poisoned && (!old(h.decoder.poisoned) ==> r.error.MessageTooLong?)
  {
    var prepared := h.PrepareMessage(payload);
    assert [limit][0] == limit;
    ConcatOne(h.guard.message.payload);
    r := h.CommitMessage([h.guard.message.payload], [limit]);
  }

  // ---- What holds of every host, whatever it has done so far.

  /**
   * What the peer returned is how what was committed begins, and all of it unless its
   * decoder has failed; and it only fails under ceilings that do not suffice, as it
   * must where each message met with one ceiling.
   */
  lemma HostLossless<S(!new, 0), C(!new, 0), H(!new, 0)>(h: Host<S, C, H>)
    requires h.Valid() && Matched(h.link)
    ensures Begins(h.ledger.got, h.ledger.partGot, h.ledger.sent, h.ledger.partSent)
    ensures !h.decoder.poisoned ==> h.ledger.got == h.ledger.sent && h.ledger.partGot == h.ledger.partSent
    ensures Roomy(h.link, Initial(h.link), h.moves) ==> !h.decoder.poisoned
    ensures !h.decoder.poisoned && (forall i :: 0 <= i < |h.moves| ==> Steadily(h.moves[i])) ==>
      Roomy(h.link, Initial(h.link), h.moves)
  {
    NothingInvented(h.link, h.moves);
    if forall i :: 0 <= i < |h.moves| ==> Steadily(h.moves[i]) { FailsByCeiling(h.link, h.moves); }
    if Roomy(h.link, Initial(h.link), h.moves) { Lossless(h.link, h.moves); }
  }

  /**
   * While the encoder has its compressor and the peer's decoder has not failed, what
   * the one may refer to is a suffix of what the other's inflater remembers: all of it
   * unless a candidate was ever abandoned, and nothing when takeover was negotiated away.
   */
  lemma HostHistory<S(!new, 0), C(!new, 0), H(!new, 0)>(h: Host<S, C, H>)
    requires h.Valid() && Matched(h.link) && h.encoder.compressor != null && !h.decoder.poisoned
    ensures var f := h.link.format;
      var c, s := h.encoder.compressor.state, h.decoder.inflater.engine.state;
      && f.synced(c) && f.boundary(s) && IsSuffix(f.reach(c), f.history(s))
      && (ResetToPlain !in h.moves ==> f.reach(c) == f.history(s))
      && (h.encoder.resetBetweenMessages ==> f.reach(c) == [] && f.history(s) == [])
  {
    HistoryContainment(h.link, h.moves);
  }

  /** The compressor is in one place: the encoder, the guard, or nowhere any call can reach. */
  lemma OneCompressor<S(!new, 0), C(!new, 0), H(!new, 0)>(h: Host<S, C, H>)
    requires h.Valid()
    ensures h.encoder.compressor == null || h.guard.Carried() == null
    ensures h.encoder.compressor != null ==> h.encoder.compressor == h.engine
    ensures h.guard.Carried() != null ==> h.guard.Carried() == h.engine
    ensures h.encoder.compressor == null && h.guard.Carried() == null <==> h.world.custody == Lost
  {
  }

  /** Once lost, lost: whatever was called since, the encoder is vacant and neither end has moved. */
  lemma VacantForGood<S(!new, 0), C(!new, 0), H(!new, 0)>(h: Host<S, C, H>, i: nat)
    requires h.Valid() && i <= |h.moves| && Run(h.link, Initial(h.link), h.moves[..i]).custody == Lost
    ensures h.guard.Gone? && h.encoder.compressor == null
    ensures h.world == Run(h.link, Initial(h.link), h.moves[..i])
  {
    var w := Run(h.link, Initial(h.link), h.moves[..i]);
    assert h.moves == h.moves[..i] + h.moves[i..];
    LegalSplit(h.link, Initial(h.link), h.moves[..i], h.moves[i..]);
    RunConcat(h.link, Initial(h.link), h.moves[..i], h.moves[i..]);
    VacantIsAbsorbing(h.link, w, h.moves[i..]);
  }

  /**
   * An encoder that was vacant and has its compressor again got it from a commit that ended a
   * message, or a plain reset.
   */
  lemma RefilledBy<S(!new, 0), C(!new, 0), H(!new, 0)>(h: Host<S, C, H>, i: nat) returns (j: nat)
    requires h.Valid() && i <= |h.moves| && !Run(h.link, Initial(h.link), h.moves[..i]).custody.Held?
    requires h.encoder.compressor != null
    ensures i <= j < |h.moves| && Resolves(Run(h.link, Initial(h.link), h.moves[..j]), h.moves[j])
  {
    var w := Run(h.link, Initial(h.link), h.moves[..i]);
    assert h.moves == h.moves[..i] + h.moves[i..];
    LegalSplit(h.link, Initial(h.link), h.moves[..i], h.moves[i..]);
    RunConcat(h.link, Initial(h.link), h.moves[..i], h.moves[i..]);
    var d := RefilledByResolution(h.link, w, h.moves[i..]);
    j := i + d;
    assert h.moves[..j] == h.moves[..i] + h.moves[i..][..d];
    RunConcat(h.link, Initial(h.link), h.moves[..i], h.moves[i..][..d]);
  }
}
