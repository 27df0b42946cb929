/**
 * One direction of a connection as a run: an encoder and its guards on one side,
 * the peer's decoder on the other, and the committed fragments between them.
 */
module Connections {
  import opened Wrappers
  import opened Sizes
  import opened Octets
  import opened Transducer
  import opened Decoding
  import opened DecoderLaws
  import opened Encoding
  import opened Formats

  /** Where the compressor is. Each constructor but the first and last is one kind of guard. */
  datatype Custody<C> =
    | Held(c: C)
    | Candidate(from: C, c: C, payload: bytes, wire: bytes)
    | Streaming(c: C)
    | FragmentOut(from: C, c: C, payload: bytes, wire: bytes, last: bool)
    | Lost

  datatype Link<!S, !C, !H> = Link(format: Format<S, C, H>, senderResets: bool, receiverResets: bool)

  /**
   * `sent` are the payloads of the messages committed in full and `partSent` that
   * of the open one; `got` and `partGot` are what the peer's decoder returned.
   * `plain` records that a candidate was ever abandoned. A failed decoder is `None`.
   */
  datatype World<S, C> = World(
    custody: Custody<C>, receiver: Option<Channel<S>>,
    sent: seq<bytes>, partSent: bytes, got: seq<bytes>, partGot: bytes, plain: bool)

  /**
   * The moves ownership leaves a host; outcomes the backend decides are part of the
   * label, and so is how the host cut a whole message into frames and the ceiling
   * the peer read for each.
   */
  datatype Move<C> =
    | PrepareMessage(payload: bytes, c': C, wire: bytes)
    | CommitMessage(frames: seq<bytes>, limits: seq<nat>)
    | ResetToPlain
    | BeginStream
    | PrepareFragment(payload: bytes, last: bool, c': C, wire: bytes)
    | CommitFragment(limit: nat)
    /** A failed prepare, a dropped guard, a cancelled write, a forgotten guard. */
    | Forget
    /** An entry point called on a vacant encoder. */
    | Refused

  function Initial<S, C, H>(k: Link<S, C, H>): World<S, C> {
    World(Held(k.format.deflater.start), Some(Channel(Start(k.format.machine), 0)), [], [], [], [], false)
  }

  /** Ceilings of the size type: whatever the peer may read. */
  predicate Readable(limits: seq<nat>) {
    forall i :: 0 <= i < |limits| ==> limits[i] <= USIZE_MAX
  }

  /** A message of `size` octets stays under every one of them. */
  predicate Sufficient(limits: seq<nat>, size: nat) {
    forall i :: 0 <= i < |limits| ==> Min(size, USIZE_MAX) <= limits[i]
  }

  /** One ceiling throughout. */
  predicate Steady(limits: seq<nat>) {
    forall i :: 0 <= i < |limits| ==> limits[i] == limits[0]
  }

  ghost predicate Enabled<S(!new), C(!new), H(!new)>(k: Link<S, C, H>, w: World<S, C>, m: Move<C>) {
    var d := k.format.deflater;
    match m
    case PrepareMessage(payload, c', wire) => w.custody.Held? && PreparesFinal(d, w.custody.c, payload, c', wire)
    case CommitMessage(frames, limits) =>
      && w.custody.Candidate?
      && |frames| == |limits| > 0 && Concat(frames) == w.custody.wire && Readable(limits)
    case ResetToPlain => w.custody.Candidate?
    case BeginStream => w.custody.Held?
    case PrepareFragment(payload, last, c', wire) =>
      && w.custody.Streaming?
      && (if last then PreparesFinal(d, w.custody.c, payload, c', wire)
          else PreparesNonFinal(d, w.custody.c, payload, c', wire))
    case CommitFragment(limit) => w.custody.FragmentOut? && limit <= USIZE_MAX
    case Forget => true
    case Refused => w.custody.Lost?
  }

  /** What a finished message leaves at the sending end of this link. */
  function Left<S, C, H>(k: Link<S, C, H>, c: C): C {
    AfterMessage(k.format.deflater, k.senderResets, c)
  }

  /** The peer takes a committed fragment that is not the last. */
  function Arrive<S, C, H>(k: Link<S, C, H>, w: World<S, C>, wire: bytes, limit: nat): World<S, C> {
    if w.receiver.None? then w else
    var f := Fragment(k.format.machine, k.receiverResets, w.receiver.value, wire, false, limit);
    if f.None? then w.(receiver := None)
    else w.(receiver := Some(f.value.0), partGot := w.partGot + f.value.1)
  }

  /** The peer takes the frames that end a message. */
  function ArriveLast<S, C, H>(k: Link<S, C, H>, w: World<S, C>, frames: seq<bytes>, limits: seq<nat>): World<S, C> {
    if w.receiver.None? || !(|frames| == |limits| > 0) then w else
    Taken(w, Message(k.format.machine, k.receiverResets, w.receiver.value, frames, limits))
  }

  /** What the peer makes of the end of a message: that of its decoder, failed or not. */
  function Taken<S, C>(w: World<S, C>, f: Option<(Channel<S>, bytes)>): World<S, C> {
    if f.None? then w.(receiver := None)
    else w.(receiver := Some(f.value.0), got := w.got + [w.partGot + f.value.1], partGot := [])
  }

  function Apply<S, C, H>(k: Link<S, C, H>, w: World<S, C>, m: Move<C>): World<S, C> {
    match (m, w.custody)
    case (PrepareMessage(payload, c', wire), Held(c)) => w.(custody := Candidate(c, c', payload, wire))
    case (CommitMessage(frames, limits), Candidate(_, c, payload, wire)) =>
      ArriveLast(k, w, frames, limits).(custody := Held(Left(k, c)), sent := w.sent + [payload])
    case (ResetToPlain, Candidate(_, _, _, _)) => w.(custody := Held(k.format.deflater.start), plain := true)
    case (BeginStream, Held(c)) => w.(custody := Streaming(c))
    case (PrepareFragment(payload, last, c', wire), Streaming(c)) =>
      w.(custody := FragmentOut(c, c', payload, wire, last))
    case (CommitFragment(limit), FragmentOut(_, c, payload, wire, false)) =>
      Arrive(k, w, wire, limit).(custody := Streaming(c), partSent := w.partSent + payload)
    case (CommitFragment(limit), FragmentOut(_, c, payload, wire, true)) =>
      ArriveLast(k, w, [wire], [limit])
        .(custody := Held(Left(k, c)), sent := w.sent + [w.partSent + payload], partSent := [])
    case (Forget, _) => w.(custody := Lost)
    case _ => w
  }

  /** The world after `moves`. */
  function Run<S, C, H>(k: Link<S, C, H>, w: World<S, C>, moves: seq<Move<C>>): World<S, C>
    decreases |moves|
  {
    if moves == [] then w else Run(k, Apply(k, w, moves[0]), moves[1..])
  }

  /** Every move was open to the host when made. */
  ghost predicate Legal<S(!new), C(!new), H(!new)>(k: Link<S, C, H>, w: World<S, C>, moves: seq<Move<C>>)
    decreases |moves|
  {
    moves == [] || (Enabled(k, w, moves[0]) && Legal(k, Apply(k, w, moves[0]), moves[1..]))
  }

  /** The ceilings read for this move are enough for the message so far. */
  predicate Suffices<S, C>(w: World<S, C>, m: Move<C>) {
    match m
    case CommitMessage(_, limits) => w.custody.Candidate? ==> Sufficient(limits, |w.custody.payload|)
    case CommitFragment(limit) => w.custody.FragmentOut? ==> Sufficient([limit], |w.partSent + w.custody.payload|)
    case _ => true
  }

  /** And so for every move of a run. */
  ghost predicate Roomy<S(!new), C(!new), H(!new)>(k: Link<S, C, H>, w: World<S, C>, moves: seq<Move<C>>)
    decreases |moves|
  {
    moves == [] || (Suffices(w, moves[0]) && Roomy(k, Apply(k, w, moves[0]), moves[1..]))
  }

  // ---- What every run keeps.

  /** The compressor may only refer to what the peer still holds; the two part only after a plain reset. */
  ghost predicate Coupled<S, C, H>(k: Link<S, C, H>, w: World<S, C>, c: C) {
    && k.format.synced(c)
    && (w.receiver.Some? ==>
          var s := w.receiver.value.pos.state;
          && k.format.boundary(s)
          && IsSuffix(k.format.reach(c), k.format.history(s))
          && (!w.plain ==> k.format.reach(c) == k.format.history(s)))
  }

  ghost predicate Forgetful<S, C, H>(k: Link<S, C, H>, w: World<S, C>, c: C) {
    k.format.reach(c) == [] && (w.receiver.Some? ==> k.format.history(w.receiver.value.pos.state) == [])
  }

  /** What was returned is how what was committed begins. */
  predicate Begins(got: seq<bytes>, partGot: bytes, sent: seq<bytes>, partSent: bytes) {
    got <= sent && partGot <= (if |got| < |sent| then sent[|got|] else partSent)
  }

  /** A live peer has returned all of it. */
  predicate Agrees<S, C>(w: World<S, C>) {
    && Begins(w.got, w.partGot, w.sent, w.partSent)
    && (w.receiver.Some? ==>
          && w.got == w.sent && w.partGot == w.partSent
          && w.receiver.value.delivered == Min(|w.partSent|, USIZE_MAX))
  }

  ghost predicate Inv<S(!new), C(!new), H(!new)>(k: Link<S, C, H>, w: World<S, C>) {
    && Agrees(w)
    && match w.custody
       case Held(c) => w.partSent == [] && Coupled(k, w, c) && (k.senderResets ==> Forgetful(k, w, c))
       case Candidate(from, c, payload, wire) =>
         && w.partSent == [] && Coupled(k, w, from) && (k.senderResets ==> Forgetful(k, w, from))
         && PreparesFinal(k.format.deflater, from, payload, c, wire)
       case Streaming(c) => Coupled(k, w, c)
       case FragmentOut(from, c, payload, wire, last) =>
         && Coupled(k, w, from)
         && (if last then PreparesFinal(k.format.deflater, from, payload, c, wire)
             else PreparesNonFinal(k.format.deflater, from, payload, c, wire))
       case Lost => true
  }

  /**
   * However it was framed, the frames come to one closing fragment or fail; they do
   * not fail under sufficient ceilings, and under one ceiling throughout only if it is not.
   */
  lemma FramedMessage<S, C, H>(k: Link<S, C, H>, ch: Channel<S>, wire: bytes, payload: bytes, frames: seq<bytes>,
                               limits: seq<nat>)
    requires wire != [] && Inflates(k.format, ch.pos, wire + TRAILER, payload)
    requires |frames| == |limits| > 0 && Concat(frames) == wire && Readable(limits)
    ensures var pos := Decode(k.format.machine, ch.pos, wire + TRAILER).pos;
      var r := Message(k.format.machine, k.receiverResets, ch, frames, limits);
      && (r.Some? ==> r.value == (Channel(Closed(k.format.machine, k.receiverResets, pos), 0), payload))
      && (Sufficient(limits, ch.delivered + |payload|) ==> r.Some?)
      && (Steady(limits) && r.Some? ==> Sufficient(limits, ch.delivered + |payload|))
  {
    var m, reset := k.format.machine, k.receiverResets;
    var size, top := SatAdd(ch.delivered, |payload|), seq(|frames|, _ => USIZE_MAX);
    ClosingFragment(k.format, ch, wire, payload, reset, size);
    ClosingFragment(k.format, ch, wire, payload, reset, USIZE_MAX);
    FragmentInvariance(m, reset, ch, frames, size);
    FragmentInvariance(m, reset, ch, frames, USIZE_MAX);
    if Sufficient(limits, ch.delivered + |payload|) {
      RaisedCeilings(m, reset, ch, frames, seq(|frames|, _ => size), limits);
    } else if Message(m, reset, ch, frames, limits).Some? {
      RaisedCeilings(m, reset, ch, frames, limits, top);
      if Steady(limits) {
        assert limits == seq(|frames|, _ => limits[0]);
        FragmentInvariance(m, reset, ch, frames, limits[0]);
        ClosingFragment(k.format, ch, wire, payload, reset, limits[0]);
      }
    }
  }

  /** A live decoder answers a message with its payload or fails, and not under sufficient ceilings. */
  ghost predicate Outcome<S, C, H>(
    k: Link<S, C, H>, ch: Channel<S>, payload: bytes, limits: seq<nat>, f: Option<(Channel<S>, bytes)>)
  {
    && (Sufficient(limits, ch.delivered + |payload|) ==> f.Some?)
    && (Steady(limits) && f.Some? ==> Sufficient(limits, ch.delivered + |payload|))
    && (f.Some? ==>
          var next := f.value.0.pos.state;
          && f.value.1 == payload && f.value.0.delivered == 0 && k.format.boundary(next)
          && k.format.history(next) == if k.receiverResets then [] else k.format.history(ch.pos.state) + payload)
  }

  lemma LastTaken<S(!new), C(!new), H(!new)>(
    k: Link<S, C, H>, ch: Channel<S>, from: C, c: C, payload: bytes, wire: bytes, frames: seq<bytes>, limits: seq<nat>)
    requires Lawful(k.format) && k.format.synced(from) && PreparesFinal(k.format.deflater, from, payload, c, wire)
    requires k.format.boundary(ch.pos.state) && IsSuffix(k.format.reach(from), k.format.history(ch.pos.state))
    requires |frames| == |limits| > 0 && Concat(frames) == wire && Readable(limits)
    ensures Outcome(k, ch, payload, limits, Message(k.format.machine, k.receiverResets, ch, frames, limits))
  {
    TrailerRestored(k.format, from, payload, c, wire, ch.pos);
    FramedMessage(k, ch, wire, payload, frames, limits);
  }

  /** Nothing is wrong with them but, it may be, their size. */
  lemma LastWellFormed<S(!new), C(!new), H(!new)>(
    k: Link<S, C, H>, ch: Channel<S>, from: C, c: C, payload: bytes, wire: bytes)
    requires Lawful(k.format) && k.format.synced(from) && PreparesFinal(k.format.deflater, from, payload, c, wire)
    requires k.format.boundary(ch.pos.state) && IsSuffix(k.format.reach(from), k.format.history(ch.pos.state))
    ensures !Malformed(k.format.machine, ch.pos, wire, true)
  {
    TrailerRestored(k.format, from, payload, c, wire, ch.pos);
    ClosingFragment(k.format, ch, wire, payload, k.receiverResets, USIZE_MAX);
  }

  /** What a committed message leaves at the sending end. */
  lemma LastLeft<S(!new), C(!new), H(!new)>(k: Link<S, C, H>, from: C, c: C, payload: bytes, wire: bytes)
    requires Lawful(k.format) && k.format.synced(from) && PreparesFinal(k.format.deflater, from, payload, c, wire)
    ensures var left := Left(k, c);
      k.format.synced(left) && k.format.reach(left) == if k.senderResets then [] else k.format.reach(from) + payload
  {
    var out :| Aligned(k.format.deflater, from, payload, c, out) && StripOrSynthesize(payload, out) == Ok(wire);
    ReachGrows(k.format, from, payload, c, out);
  }

  /** Whether or not the peer took the message, both ends stay coupled. */
  lemma TakenCouples<S(!new), C(!new), H(!new)>(
    k: Link<S, C, H>, w: World<S, C>, from: C, left: C, payload: bytes, limits: seq<nat>,
    f: Option<(Channel<S>, bytes)>)
    requires k.senderResets == k.receiverResets && w.receiver.Some? && Coupled(k, w, from)
    requires k.format.synced(left)
    requires k.format.reach(left) == if k.senderResets then [] else k.format.reach(from) + payload
    requires Outcome(k, w.receiver.value, payload, limits, f)
    ensures Coupled(k, Taken(w, f), left) && (k.senderResets ==> Forgetful(k, Taken(w, f), left))
  {
    SuffixGrows(k.format.reach(from), k.format.history(w.receiver.value.pos.state), payload);
  }

  /** And a live peer returns its payload, or fails. */
  lemma TakenReturns<S(!new), C(!new), H(!new)>(
    k: Link<S, C, H>, w: World<S, C>, payload: bytes, limits: seq<nat>, f: Option<(Channel<S>, bytes)>)
    requires w.receiver.Some? && Agrees(w) && Outcome(k, w.receiver.value, payload, limits, f)
    ensures Returned(w, payload, limits, Taken(w, f))
  {
    SameSize(limits, w.receiver.value.delivered, w.partSent, payload);
  }

  /** The peer has returned the whole message, or failed and returned nothing more. */
  predicate Returned<S, C>(w: World<S, C>, payload: bytes, limits: seq<nat>, w': World<S, C>) {
    && (w.receiver.Some? && Sufficient(limits, |w.partSent + payload|) ==> w'.receiver.Some?)
    && (Steady(limits) && w'.receiver.Some? ==> Sufficient(limits, |w.partSent + payload|))
    && (if w'.receiver.Some? then
          && w.receiver.Some? && w'.receiver.value.delivered == 0
          && w'.got == w.sent + [w.partSent + payload] && w'.partGot == []
        else w'.got == w.got && w'.partGot == w.partGot)
  }

  lemma CommitLast<S(!new), C(!new), H(!new)>(
    k: Link<S, C, H>, w: World<S, C>, from: C, c: C, payload: bytes, wire: bytes, frames: seq<bytes>, limits: seq<nat>)
    requires Lawful(k.format) && k.senderResets == k.receiverResets && Coupled(k, w, from) && Agrees(w)
    requires PreparesFinal(k.format.deflater, from, payload, c, wire)
    requires |frames| == |limits| > 0 && Concat(frames) == wire && Readable(limits)
    ensures var w' := ArriveLast(k, w, frames, limits);
      && Returned(w, payload, limits, w')
      && Coupled(k, w', Left(k, c)) && (k.senderResets ==> Forgetful(k, w', Left(k, c)))
  {
    LastLeft(k, from, c, payload, wire);
    if w.receiver.Some? {
      var f := Message(k.format.machine, k.receiverResets, w.receiver.value, frames, limits);
      LastTaken(k, w.receiver.value, from, c, payload, wire, frames, limits);
      TakenReturns(k, w, payload, limits, f);
      TakenCouples(k, w, from, Left(k, c), payload, limits, f);
    }
  }

  /** Counting from what was delivered comes to the same, saturated or not. */
  lemma SameSize(limits: seq<nat>, delivered: nat, part: bytes, payload: bytes)
    requires delivered == Min(|part|, USIZE_MAX)
    ensures Sufficient(limits, delivered + |payload|) <==> Sufficient(limits, |part + payload|)
  {
    assert Min(delivered + |payload|, USIZE_MAX) == Min(|part + payload|, USIZE_MAX);
  }

  /** What was returned still begins what was sent, once that has grown by a message's end. */
  lemma BeginsOn(got: seq<bytes>, partGot: bytes, sent: seq<bytes>, partSent: bytes, payload: bytes)
    requires Begins(got, partGot, sent, partSent)
    ensures Begins(got, partGot, sent + [partSent + payload], []) && Begins(got, partGot, sent, partSent + payload)
  {
  }

  lemma CommitNonFinal<S(!new), C(!new), H(!new)>(k: Link<S, C, H>, w: World<S, C>, from: C, c: C, payload: bytes,
                                                  wire: bytes, limit: nat)
    requires Lawful(k.format)
    requires Coupled(k, w, from) && Agrees(w)
    requires PreparesNonFinal(k.format.deflater, from, payload, c, wire)
    ensures var w' := Arrive(k, w, wire, limit);
      && Coupled(k, w', c)
      && (w'.receiver.Some? <==> w.receiver.Some? && Sufficient([limit], |w.partSent + payload|))
      && (w'.receiver.Some? ==> w'.receiver.value.delivered == Min(|w.partSent + payload|, USIZE_MAX))
      && w'.got == w.got && w'.partGot == if w'.receiver.Some? then w.partSent + payload else w.partGot
    ensures w.receiver.Some? ==> !Malformed(k.format.machine, w.receiver.value.pos, wire, false)
  {
    assert [limit][0] == limit;
    ReachGrows(k.format, from, payload, c, wire);
    if w.receiver.Some? {
      var ch := w.receiver.value;
      AlignedLaw(k.format, from, payload, c, wire, ch.pos);
      OpenFragment(k.format, ch, wire, payload, k.receiverResets, limit);
      SuffixGrows(k.format.reach(from), k.format.history(ch.pos.state), payload);
    }
  }

  lemma InitialInv<S(!new), C(!new), H(!new)>(k: Link<S, C, H>)
    requires Lawful(k.format)
    ensures Inv(k, Initial(k))
  {
  }

  /** A move under which the peer reads one ceiling. */
  predicate Steadily<C>(m: Move<C>) {
    m.CommitMessage? ==> Steady(m.limits)
  }

  /** The peer stays in step; only ceilings that do not suffice can make it fail, and nothing revives it. */
  ghost predicate Keeps<S(!new), C(!new), H(!new)>(k: Link<S, C, H>, w: World<S, C>, m: Move<C>) {
    var next := Apply(k, w, m);
    && Inv(k, next)
    && (next.receiver.Some? ==> w.receiver.Some?)
    && (w.receiver.Some? && Suffices(w, m) ==> next.receiver.Some?)
    && (Steadily(m) && next.receiver.Some? ==> Suffices(w, m))
  }

  /** The end of a message, at both ends. */
  lemma EndKeepsInv<S(!new), C(!new), H(!new)>(
    k: Link<S, C, H>, w: World<S, C>, left: C, payload: bytes, limits: seq<nat>, w': World<S, C>, next: World<S, C>)
    requires Agrees(w) && Returned(w, payload, limits, w')
    requires Coupled(k, w', left) && (k.senderResets ==> Forgetful(k, w', left))
    requires next == w'.(custody := Held(left), sent := w.sent + [w.partSent + payload], partSent := [])
    ensures Inv(k, next)
  {
    BeginsOn(w.got, w.partGot, w.sent, w.partSent, payload);
  }

  lemma MessageKeeps<S(!new), C(!new), H(!new)>(k: Link<S, C, H>, w: World<S, C>, m: Move<C>)
    requires Lawful(k.format) && k.senderResets == k.receiverResets
    requires Inv(k, w) && Enabled(k, w, m) && m.CommitMessage?
    ensures Keeps(k, w, m)
  {
    var at := w.custody;
    assert w.partSent + at.payload == at.payload;
    CommitLast(k, w, at.from, at.c, at.payload, at.wire, m.frames, m.limits);
    EndKeepsInv(k, w, Left(k, at.c), at.payload, m.limits, ArriveLast(k, w, m.frames, m.limits), Apply(k, w, m));
  }

  lemma MiddleKeeps<S(!new), C(!new), H(!new)>(k: Link<S, C, H>, w: World<S, C>, m: Move<C>)
    requires Lawful(k.format) && k.senderResets == k.receiverResets
    requires Inv(k, w) && Enabled(k, w, m) && m.CommitFragment? && !w.custody.last
    ensures Keeps(k, w, m)
  {
    var at := w.custody;
    BeginsOn(w.got, w.partGot, w.sent, w.partSent, at.payload);
    CommitNonFinal(k, w, at.from, at.c, at.payload, at.wire, m.limit);
  }

  lemma EndingKeeps<S(!new), C(!new), H(!new)>(k: Link<S, C, H>, w: World<S, C>, m: Move<C>)
    requires Lawful(k.format) && k.senderResets == k.receiverResets
    requires Inv(k, w) && Enabled(k, w, m) && m.CommitFragment? && w.custody.last
    ensures Keeps(k, w, m)
  {
    var at := w.custody;
    assert [m.limit][0] == m.limit;
    ConcatOne(at.wire);
    CommitLast(k, w, at.from, at.c, at.payload, at.wire, [at.wire], [m.limit]);
    EndKeepsInv(k, w, Left(k, at.c), at.payload, [m.limit], ArriveLast(k, w, [at.wire], [m.limit]), Apply(k, w, m));
  }

  lemma StepKeepsInv<S(!new), C(!new), H(!new)>(k: Link<S, C, H>, w: World<S, C>, m: Move<C>)
    requires Lawful(k.format) && k.senderResets == k.receiverResets
    requires Inv(k, w) && Enabled(k, w, m)
    ensures Keeps(k, w, m)
  {
    if m.CommitMessage? {
      MessageKeeps(k, w, m);
    } else if m.CommitFragment? {
      if w.custody.last { EndingKeeps(k, w, m); } else { MiddleKeeps(k, w, m); }
    }
  }

  /** A host between messages can prepare any payload. */
  lemma PrepareIsOpen<S(!new), C(!new), H(!new, 0)>(k: Link<S, C, H>, w: World<S, C>, payload: bytes)
    returns (c': C, wire: bytes)
    requires Lawful(k.format) && Inv(k, w) && w.custody.Held?
    ensures Enabled(k, w, PrepareMessage(payload, c', wire))
  {
    c', wire := SomeFinal(k.format, w.custody.c, payload);
  }

  /** And a streaming one any chunk, as the last or not. */
  lemma FragmentIsOpen<S(!new), C(!new), H(!new, 0)>(k: Link<S, C, H>, w: World<S, C>, chunk: bytes, last: bool)
    returns (c': C, wire: bytes)
    requires Lawful(k.format) && Inv(k, w) && w.custody.Streaming?
    ensures Enabled(k, w, PrepareFragment(chunk, last, c', wire))
  {
    if last { c', wire := SomeFinal(k.format, w.custody.c, chunk); }
    else { c', wire := SomeNonFinal(k.format, w.custody.c, chunk); }
  }

  lemma {:induction false} RunKeepsInv<S(!new), C(!new), H(!new)>(k: Link<S, C, H>, w: World<S, C>, moves: seq<Move<C>>)
    requires Lawful(k.format) && k.senderResets == k.receiverResets
    requires Inv(k, w) && Legal(k, w, moves)
    ensures Inv(k, Run(k, w, moves))
    ensures Run(k, w, moves).receiver.Some? ==> w.receiver.Some?
    ensures w.receiver.Some? && Roomy(k, w, moves) ==> Run(k, w, moves).receiver.Some?
    ensures Run(k, w, moves).receiver.Some? && (forall i :: 0 <= i < |moves| ==> Steadily(moves[i])) ==>
      Roomy(k, w, moves)
    decreases |moves|
  {
    if moves != [] {
      StepKeepsInv(k, w, moves[0]);
      RunKeepsInv(k, Apply(k, w, moves[0]), moves[1..]);
    }
  }

  /**
   * Over every run under sufficient ceilings, the peer's decoder has never failed and
   * has returned exactly the committed payloads, in order, together with exactly the
   * committed part of the message still open.
   */
  lemma Lossless<S(!new), C(!new), H(!new)>(k: Link<S, C, H>, moves: seq<Move<C>>)
    requires Lawful(k.format) && k.senderResets == k.receiverResets
    requires Legal(k, Initial(k), moves) && Roomy(k, Initial(k), moves)
    ensures var w := Run(k, Initial(k), moves);
      w.receiver.Some? && w.got == w.sent && w.partGot == w.partSent
  {
    InitialInv(k);
    RunKeepsInv(k, Initial(k), moves);
  }

  /**
   * Whatever ceilings are read, what the peer returned is how what was committed
   * begins, and a peer that has not failed has returned all of it.
   */
  lemma NothingInvented<S(!new), C(!new), H(!new)>(k: Link<S, C, H>, moves: seq<Move<C>>)
    requires Lawful(k.format) && k.senderResets == k.receiverResets
    requires Legal(k, Initial(k), moves)
    ensures var w := Run(k, Initial(k), moves);
      && Begins(w.got, w.partGot, w.sent, w.partSent)
      && (w.receiver.Some? ==> w.got == w.sent && w.partGot == w.partSent)
  {
    InitialInv(k);
    RunKeepsInv(k, Initial(k), moves);
  }

  /** With one ceiling to a message the peer has failed exactly if some ceiling was not sufficient. */
  lemma FailsByCeiling<S(!new), C(!new), H(!new)>(k: Link<S, C, H>, moves: seq<Move<C>>)
    requires Lawful(k.format) && k.senderResets == k.receiverResets
    requires Legal(k, Initial(k), moves) && forall i :: 0 <= i < |moves| ==> Steadily(moves[i])
    ensures Run(k, Initial(k), moves).receiver.Some? <==> Roomy(k, Initial(k), moves)
  {
    InitialInv(k);
    RunKeepsInv(k, Initial(k), moves);
  }
}
