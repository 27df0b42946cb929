/** The decoder: fragments in, message bytes out, under a ceiling read afresh on every call. */
module Decoding {
  import opened Wrappers
  import opened Errors
  import opened Sizes
  import opened Flate
  import opened Sequences
  import opened Octets
  import opened Transducer
  import opened Inflaters

  const SCRATCH: nat := 4096

  const MIN_INFLATER_WINDOW_BITS: nat := 9

  const DEFAULT_INFLATER_WINDOW_BITS: nat := 15

  datatype InflaterConfig = InflaterConfig(windowBits: nat) {
    static function ForPeerWindow(peerMaxWindowBits: nat): InflaterConfig {
      InflaterConfig(if peerMaxWindowBits < MIN_INFLATER_WINDOW_BITS
                     then MIN_INFLATER_WINDOW_BITS else peerMaxWindowBits)
    }

    predicate ResetsInPlace() {
      windowBits == DEFAULT_INFLATER_WINDOW_BITS
    }
  }

  /** What a counter moved by, clamped to the buffer the call was handed. */
  function Advance(before: nat, after: nat, bufferLen: nat): nat {
    Min(SatSub(after, before), bufferLen)
  }

  datatype Step = Step(produced: nat, remaining: Option<bytes>, streamEnded: bool) {
    /** The octets a call was handed and did not take. */
    function Left(): bytes {
      if remaining.Some? then remaining.value else []
    }
  }

  // ---- What is still to come of a decode, seen from the middle of one.

  /** The outcome of letting the engine deliver what it owes and then take all of `input`. */
  function Rest<S>(m: Machine<S>, e: Engine<S>, open: bool, input: bytes): Decoded<S> {
    (if e.finished then Decode(m, Start(m), input) else Decode(m, Pos(e.state, open), input))
      .After(e.pending, e.finished)
  }

  /** Taking octets does not change what is still to come. */
  lemma {:induction false} RestAfterEat<S>(m: Machine<S>, e: Engine<S>, open: bool, input: bytes, k: nat)
    requires k <= |input| && Eat(m, e, input[..k]).Some?
    ensures Rest(m, e, open, input) == Rest(m, Eat(m, e, input[..k]).value, open || k > 0, input[k..])
    decreases k
  {
    if k == 0 {
      assert input[k..] == input;
    } else {
      assert input[..k][0] == input[0] && input[..k][1..] == input[1..][..k-1];
      assert input[1..][k-1..] == input[k..];
      match m.eat(e.state, input[0])
      case More(next, out) =>
        RestAfterEat(m, Engine(next, e.pending + out, false), true, input[1..], k - 1);
        AfterAfter(Decode(m, Pos(next, true), input[1..]), e.pending, false, out, false);
      case Final(out) =>
        RestAfterEat(m, Engine(m.start, e.pending + out, true), true, input[1..], k - 1);
        AfterAfter(Decode(m, Start(m), input[1..]), e.pending, false, out, true);
    }
  }

  /** Delivering octets only moves them out of what is still to come. */
  lemma RestAfterDelivery<S>(m: Machine<S>, e: Engine<S>, open: bool, input: bytes, n: nat)
    requires n <= |e.pending|
    ensures Rest(m, e, open, input) ==
      Rest(m, e.(pending := e.pending[n..]), open, input).After(e.pending[..n], false)
  {
    assert e.pending[..n] + e.pending[n..] == e.pending;
    var d := if e.finished then Decode(m, Start(m), input) else Decode(m, Pos(e.state, open), input);
    AfterAfter(d, e.pending[..n], false, e.pending[n..], e.finished);
  }

  /** Nothing is to come of a drained engine and no input. */
  lemma RestAtTheEnd<S>(m: Machine<S>, e: Engine<S>, open: bool, out: bytes, ended: bool)
    requires e.pending == [] && !e.finished
    ensures Rest(m, e, open, []).After(out, ended) == Decoded(Pos(e.state, open), out, ended)
  {
    assert out + ([] + []) == out;
  }

  /** A broken stream is broken however it is delivered. */
  lemma {:induction false} BreaksIsInvalid<S>(m: Machine<S>, e: Engine<S>, open: bool, input: bytes)
    requires Breaks(m, e, input)
    ensures Rest(m, e, open, input).Invalid?
    decreases |input|
  {
    match m.eat(e.state, input[0])
    case Bad =>
    case More(next, out) => BreaksIsInvalid(m, Engine(next, e.pending + out, false), true, input[1..]);
  }

  /** One whole call: what was delivered now, then what is still to come. */
  lemma RestAfterMove<S>(m: Machine<S>, e: Engine<S>, open: bool, input: bytes, k: nat, n: nat)
    requires k <= |input| && Eat(m, e, input[..k]).Some?
    requires n <= |Eat(m, e, input[..k]).value.pending|
    ensures Rest(m, e, open, input) ==
      Rest(m, Moved(m, e, input, k, n), open || k > 0, input[k..])
        .After(Eat(m, e, input[..k]).value.pending[..n], false)
  {
    RestAfterEat(m, e, open, input, k);
    RestAfterDelivery(m, Eat(m, e, input[..k]).value, open || k > 0, input[k..], n);
  }

  /** A stream end hands over to a fresh stream. */
  lemma RestAcrossStreams<S>(m: Machine<S>, e: Engine<S>, open: bool, input: bytes, chunk: bytes)
    requires e.finished && e.pending == []
    ensures Rest(m, e, open, input).After(chunk, false)
      == Rest(m, Engine(m.start, [], false), false, input).After(chunk, true)
  {
    var d := Decode(m, Start(m), input);
    AfterNothing(d);
    AfterAfter(d, chunk, false, [], true);
  }

  /** One whole turn: a call, and a fresh stream wherever it ended one. */
  lemma RestAfterTurn<S>(m: Machine<S>, e: Engine<S>, open: bool, input: bytes, k: nat, n: nat)
    requires k <= |input| && Eat(m, e, input[..k]).Some?
    requires n <= |Eat(m, e, input[..k]).value.pending|
    ensures var after := Moved(m, e, input, k, n);
      var chunk := Eat(m, e, input[..k]).value.pending[..n];
      Rest(m, e, open, input) ==
        if after.finished && after.pending == []
        then Rest(m, Engine(m.start, [], false), false, input[k..]).After(chunk, true)
        else Rest(m, after, open || k > 0, input[k..]).After(chunk, false)
  {
    RestAfterMove(m, e, open, input, k, n);
    var after := Moved(m, e, input, k, n);
    if after.finished && after.pending == [] {
      RestAcrossStreams(m, after, open || k > 0, input[k..], Eat(m, e, input[..k]).value.pending[..n]);
    }
  }

  // ---- What one call means.

  /** A decoder that has not failed, between two calls. */
  datatype Channel<S> = Channel(pos: Pos<S>, delivered: nat)

  /** The octets that decide one call: the fragment, and the trailer its last one is owed. */
  predicate Malformed<S>(m: Machine<S>, p: Pos<S>, input: bytes, final: bool) {
    var d := Decode(m, p, input);
    d.Invalid? ||
    (final && (!d.pos.open || Decode(m, d.pos, TRAILER).Invalid? || Decode(m, d.pos, TRAILER).ended))
  }

  /** What a well-formed fragment decodes to, trailer included. */
  function Yield<S>(m: Machine<S>, p: Pos<S>, input: bytes, final: bool): (Pos<S>, bytes)
    requires !Malformed(m, p, input, final)
  {
    var d := Decode(m, p, input);
    if !final then (d.pos, d.out)
    else
      var t := Decode(m, d.pos, TRAILER);
      (t.pos, d.out + t.out)
  }

  /** A last fragment is what its own octets decode to, and what the trailer adds. */
  lemma ClosedYield<S>(m: Machine<S>, p: Pos<S>, input: bytes)
    requires Decode(m, p, input).Decoded?
    ensures var d := Decode(m, p, input);
      var t := Decode(m, d.pos, TRAILER);
      && (Malformed(m, p, input, true) <==> !(d.pos.open && t.Decoded? && !t.ended))
      && (!Malformed(m, p, input, true) ==> Yield(m, p, input, true) == (t.pos, d.out + t.out))
  {
  }

  /** One call, as a partial function: it fails exactly where this is `None`. */
  function Fragment<S>(m: Machine<S>, reset: bool, ch: Channel<S>, input: bytes, final: bool, limit: nat)
    : Option<(Channel<S>, bytes)>
  {
    if Malformed(m, ch.pos, input, final) then None
    else
      var (pos, out) := Yield(m, ch.pos, input, final);
      var total := SatAdd(ch.delivered, |out|);
      if total > limit then None
      else if final then Some((Channel(if reset then Start(m) else pos, 0), out))
      else Some((Channel(pos, total), out))
  }

  // ---- What one turn of the loop may do, whatever backend answers it.

  /** What one backend call moved. */
  datatype Call = Call(taken: nat, given: nat)

  /** The room a call is handed: one octet past what the ceiling still allows, and no more than the scratch. */
  function Writable(made: nat, delivered: nat, limit: nat, scratch: nat): nat {
    Min(SatAdd(SatSub(limit, SatAdd(delivered, made)), 1), scratch)
  }

  /** A call after which the loop goes round again: something moved, within the room it had and under the ceiling. */
  predicate GoesOn(unread: nat, made: nat, delivered: nat, limit: nat, scratch: nat, c: Call) {
    && c.taken <= unread
    && c.given <= Writable(made, delivered, limit, scratch)
    && c.taken + c.given > 0
    && SatAdd(delivered, made + c.given) <= limit
  }

  /** Such a call pays for itself out of the unread octets and the unspent ceiling. */
  lemma CallPays(unread: nat, made: nat, delivered: nat, limit: nat, scratch: nat, c: Call)
    requires GoesOn(unread, made, delivered, limit, scratch, c) && limit < USIZE_MAX
    ensures 1 + (unread - c.taken) + SatSub(limit, SatAdd(delivered, made + c.given))
      <= unread + SatSub(limit, SatAdd(delivered, made))
  {
  }

  /** A conforming backend may answer a turn so that it reports `size` over the ceiling. */
  ghost predicate Reports<S>(m: Machine<S>, e: Engine<S>, unread: bytes, made: nat, delivered: nat, limit: nat,
                             scratch: nat, size: nat)
  {
    exists k: nat, n: nat ::
      && MayMove(m, e, unread, Writable(made, delivered, limit, scratch), k, n)
      && size == SatAdd(delivered, made + n) > limit
  }

  /** What `input` decodes to is past the ceiling. */
  predicate Exceeds<S>(m: Machine<S>, p: Pos<S>, input: bytes, before: nat, limit: nat) {
    Decode(m, p, input).Decoded? && SatAdd(before, |Decode(m, p, input).out|) > limit
  }

  /** Some octets `input` begins with already are. */
  ghost predicate Overruns<S>(m: Machine<S>, p: Pos<S>, input: bytes, before: nat, limit: nat) {
    exists j: nat :: j <= |input| && Exceeds(m, p, input[..j], before, limit)
  }

  /**
   * A failure the call deserved: `InvalidStream` only for invalid input, `MessageTooLong`
   * only where some of it does overrun, and either only if the whole could not have succeeded.
   */
  ghost predicate Deserved<S>(m: Machine<S>, p: Pos<S>, input: bytes, before: nat, limit: nat, e: CodecError) {
    && e != Stalled
    && (e == InvalidStream ==> Decode(m, p, input).Invalid?)
    && (e.MessageTooLong? ==> Overruns(m, p, input, before, limit))
    && (Decode(m, p, input).Decoded? ==> Exceeds(m, p, input, before, limit))
  }

  /** What was taken so far, seen from the engine that took it, is seen so with any octets behind. */
  lemma CourseExtends<S>(m: Machine<S>, p: Pos<S>, e: Engine<S>, open: bool, taken: bytes, yielded: bytes, ended: bool,
                         more: bytes)
    requires Decode(m, p, taken) == Rest(m, e, open, []).After(yielded, ended)
    ensures Decode(m, p, taken + more) == Rest(m, e, open, more).After(yielded, ended)
  {
    var q := if e.finished then Start(m) else Pos(e.state, open);
    NothingMore(e.pending);
    DecodeConcat(m, p, taken, more);
    AfterAfter(Decode(m, q, more), yielded, ended, e.pending, e.finished);
  }

  lemma CourseContinues<S>(m: Machine<S>, p: Pos<S>, e: Engine<S>, open: bool, taken: bytes, yielded: bytes,
                           ended: bool, part: bytes, left: Decoded<S>, chunk: bytes, streamEnded: bool)
    requires Decode(m, p, taken) == Rest(m, e, open, []).After(yielded, ended)
    requires Rest(m, e, open, part) == left.After(chunk, streamEnded)
    ensures Decode(m, p, taken + part) == left.After(yielded + chunk, ended || streamEnded)
  {
    CourseExtends(m, p, e, open, taken, yielded, ended, part);
    AfterAfter(left, yielded, ended, chunk, streamEnded);
  }

  /** Some octets `unread` begins with yield `chunk`, and possibly more. */
  ghost predicate Yields<S>(m: Machine<S>, e: Engine<S>, open: bool, unread: bytes, chunk: bytes) {
    exists k: nat :: k <= |unread| && Gives(Rest(m, e, open, unread[..k]), chunk)
  }

  predicate Gives<S>(d: Decoded<S>, chunk: bytes) {
    d.Decoded? && chunk <= d.out
  }

  /** What a failed call leaves no doubt about. */
  lemma PullFailed<S>(m: Machine<S>, e: Engine<S>, open: bool, unread: bytes, made: nat, delivered: nat, limit: nat,
                      scratch: nat, chunk: bytes, error: CodecError)
    requires error == InvalidStream ==> Breaks(m, e, unread)
    requires error.MessageTooLong? ==>
      && error.size == SatAdd(delivered, made + |chunk|) > limit
      && exists e': Engine<S>, k: nat, ended: bool ::
           Answers(m, e, unread, Writable(made, delivered, limit, scratch), e', k, chunk, ended)
    ensures error == InvalidStream ==> Rest(m, e, open, unread).Invalid?
    ensures error.MessageTooLong? ==>
      && Reports(m, e, unread, made, delivered, limit, scratch, error.size)
      && Yields(m, e, open, unread, chunk)
  {
    if error == InvalidStream { BreaksIsInvalid(m, e, open, unread); }
    if error.MessageTooLong? {
      var e': Engine<S>, k: nat, ended: bool :|
        Answers(m, e, unread, Writable(made, delivered, limit, scratch), e', k, chunk, ended);
      assert MayMove(m, e, unread, Writable(made, delivered, limit, scratch), k, |chunk|);
      assert unread[..k][..k] == unread[..k];
      MovedGives(m, e, open, unread[..k], k, |chunk|);
    }
  }

  /** The octets a call took yield at least what it delivered. */
  lemma MovedGives<S>(m: Machine<S>, e: Engine<S>, open: bool, input: bytes, k: nat, n: nat)
    requires k == |input| && Eat(m, e, input[..k]).Some?
    requires n <= |Eat(m, e, input[..k]).value.pending|
    ensures Gives(Rest(m, e, open, input), Eat(m, e, input[..k]).value.pending[..n])
  {
    RestAfterMove(m, e, open, input, k, n);
  }

  /** A turn that fails leaves the whole call no way to succeed, and its error is the right one. */
  lemma FailedTurn<S>(m: Machine<S>, p: Pos<S>, taken: bytes, e: Engine<S>, open: bool, unread: bytes,
                      yielded: bytes, chunk: bytes, ended: bool, before: nat, limit: nat, error: CodecError)
    requires Decode(m, p, taken) == Rest(m, e, open, []).After(yielded, ended)
    requires error == InvalidStream || error.MessageTooLong?
    requires error == InvalidStream ==> Rest(m, e, open, unread).Invalid?
    requires error.MessageTooLong? ==> Yields(m, e, open, unread, chunk) && SatAdd(before, |yielded| + |chunk|) > limit
    ensures Deserved(m, p, taken + unread, before, limit, error)
  {
    CourseExtends(m, p, e, open, taken, yielded, ended, unread);
    if error.MessageTooLong? {
      var k: nat :| k <= |unread| && Gives(Rest(m, e, open, unread[..k]), chunk);
      CourseExtends(m, p, e, open, taken, yielded, ended, unread[..k]);
      assert (taken + unread)[..|taken| + k] == taken + unread[..k];
      assert Exceeds(m, p, (taken + unread)[..|taken| + k], before, limit);
      OverrunStays(m, p, taken + unread, |taken| + k, before, limit);
    }
  }

  /** An overrun is not undone by what follows it. */
  lemma OverrunStays<S>(m: Machine<S>, p: Pos<S>, input: bytes, j: nat, before: nat, limit: nat)
    requires j <= |input| && Exceeds(m, p, input[..j], before, limit)
    ensures Decode(m, p, input).Decoded? ==> Exceeds(m, p, input, before, limit)
  {
    assert input == input[..j] + input[j..];
    DecodeConcat(m, p, input[..j], input[j..]);
  }

  /** Somewhere in a fragment, or in the trailer its last one is owed, the ceiling is passed. */
  ghost predicate Overlong<S>(m: Machine<S>, p: Pos<S>, input: bytes, final: bool, before: nat, limit: nat) {
    var d := Decode(m, p, input);
    || Overruns(m, p, input, before, limit)
    || (final && d.Decoded? && d.pos.open && Overruns(m, d.pos, TRAILER, before + |d.out|, limit))
  }

  /** A well-formed fragment is overlong exactly when what it yields is past the ceiling. */
  lemma OverlongMeans<S>(m: Machine<S>, p: Pos<S>, input: bytes, final: bool, before: nat, limit: nat)
    requires !Malformed(m, p, input, final)
    ensures Overlong(m, p, input, final, before, limit) <==> SatAdd(before, |Yield(m, p, input, final).1|) > limit
  {
    var d := Decode(m, p, input);
    assert input[..|input|] == input && TRAILER[..|TRAILER|] == TRAILER;
    if Overruns(m, p, input, before, limit) {
      var j: nat :| j <= |input| && Exceeds(m, p, input[..j], before, limit);
      OverrunStays(m, p, input, j, before, limit);
    }
    if final && Overruns(m, d.pos, TRAILER, before + |d.out|, limit) {
      var j: nat :| j <= |TRAILER| && Exceeds(m, d.pos, TRAILER[..j], before + |d.out|, limit);
      OverrunStays(m, d.pos, TRAILER, j, before + |d.out|, limit);
    }
    if final {
      assert Exceeds(m, d.pos, TRAILER[..|TRAILER|], before + |d.out|, limit)
        <==> SatAdd(before, |Yield(m, p, input, final).1|) > limit;
    } else {
      assert Exceeds(m, p, input[..|input|], before, limit) <==> SatAdd(before, |Yield(m, p, input, final).1|) > limit;
    }
  }

  /** The error a whole message ends in: its trailer cannot be fed back, or passes the ceiling. */
  ghost predicate CloseFails<S>(m: Machine<S>, p: Pos<S>, before: nat, limit: nat, e: CodecError) {
    var t := Decode(m, p, TRAILER);
    var fits := p.open && t.Decoded? && !t.ended;
    && e != Stalled
    && (e == InvalidStream ==> !fits)
    && (e.MessageTooLong? ==> p.open && Overruns(m, p, TRAILER, before, limit))
    && (fits ==> SatAdd(before, |t.out|) > limit)
  }

  /** The error a fragment ends in: `InvalidStream` only if it is malformed, `MessageTooLong` only if it is overlong. */
  ghost predicate FragmentFails<S>(m: Machine<S>, p: Pos<S>, input: bytes, final: bool, before: nat, limit: nat,
                                   e: CodecError)
  {
    && e != Stalled
    && (e == InvalidStream ==> Malformed(m, p, input, final))
    && (e.MessageTooLong? ==> Overlong(m, p, input, final, before, limit))
    && (!Malformed(m, p, input, final) ==> SatAdd(before, |Yield(m, p, input, final).1|) > limit)
  }

  /** What a fragment gives that does not fail, and where it leaves the decoder. */
  ghost predicate FragmentGives<S>(m: Machine<S>, p: Pos<S>, input: bytes, final: bool, reset: bool, output: bytes,
                                   pos: Pos<S>)
  {
    && !Malformed(m, p, input, final)
    && output == Yield(m, p, input, final).1
    && pos == if final && reset then Start(m) else Yield(m, p, input, final).0
  }

  lemma GivesInTrailer<S>(m: Machine<S>, p: Pos<S>, input: bytes, reset: bool, early: bytes, output: bytes, pos: Pos<S>)
    requires Decode(m, p, input).Decoded? && early == Decode(m, p, input).out
    requires var q := Decode(m, p, input).pos;
      var t := Decode(m, q, TRAILER);
      && q.open && t.Decoded? && !t.ended
      && output == early + t.out && pos == if reset then Start(m) else t.pos
    ensures FragmentGives(m, p, input, true, reset, output, pos)
  {
    ClosedYield(m, p, input);
  }

  lemma FailsInBody<S>(m: Machine<S>, p: Pos<S>, input: bytes, final: bool, before: nat, limit: nat, e: CodecError)
    requires Deserved(m, p, input, before, limit, e)
    ensures FragmentFails(m, p, input, final, before, limit, e)
  {
  }

  lemma FailsInTrailer<S>(m: Machine<S>, p: Pos<S>, input: bytes, before: nat, limit: nat, e: CodecError)
    requires Decode(m, p, input).Decoded?
    requires CloseFails(m, Decode(m, p, input).pos, before + |Decode(m, p, input).out|, limit, e)
    ensures FragmentFails(m, p, input, true, before, limit, e)
  {
    ClosedYield(m, p, input);
  }

  /** Where the loop can stand between turns: `start` is what the output held when it began. */
  predicate InBounds(made: nat, start: nat, delivered: nat, limit: nat) {
    && delivered <= USIZE_MAX && limit <= USIZE_MAX
    && start <= made && (start == made || SatAdd(delivered, made) <= limit)
  }

  /** What a turn comes to, whatever backend answers it. */
  ghost predicate Turned(unread: bytes, output: bytes, longer: bytes, delivered: nat, limit: nat,
                         scratch: nat, start: nat, r: Result<Step, CodecError>)
  {
    && output <= longer
    && (limit < USIZE_MAX ==> delivered + |longer| <= Max(limit, delivered + start) + 1)
    && (r.Ok? ==> Steps(unread, |output|, |longer|, delivered, limit, scratch, r.value))
    && (r.Err? && !r.error.MessageTooLong? ==> r.error in {InvalidStream, Stalled} && longer == output)
    && (r.Err? && r.error.MessageTooLong? ==>
          && r.error == MessageTooLong(SatAdd(delivered, |longer|), limit)
          && limit < r.error.size <= Max(limit, SatAdd(delivered, start)) + 1)
  }

  /** A turn that does not fail: it stays under the ceiling, and going round again pays for itself. */
  ghost predicate Steps(unread: bytes, was: nat, now: nat, delivered: nat, limit: nat, scratch: nat, step: Step) {
    && SatAdd(delivered, now) <= limit && now == was + step.produced
    && |step.Left()| <= |unread| && step.Left() == unread[|unread| - |step.Left()|..]
    && (step.remaining.None? ==> step.produced == 0 && unread == [])
    && (step.remaining.Some? ==>
          GoesOn(|unread|, was, delivered, limit, scratch, Call(|unread| - |step.Left()|, step.produced)))
    && (step.remaining.Some? && limit < USIZE_MAX ==>
          1 + |step.Left()| + SatSub(limit, SatAdd(delivered, now)) <= |unread| + SatSub(limit, SatAdd(delivered, was)))
  }

  lemma StepTurns(unread: bytes, output: bytes, longer: bytes, delivered: nat, limit: nat,
                  scratch: nat, start: nat, r: Result<Step, CodecError>)
    requires r.Ok? && InBounds(|output|, start, delivered, limit) && output <= longer
    requires SatAdd(delivered, |longer|) <= limit && |longer| == |output| + r.value.produced
    requires r.value.produced <= Writable(|output|, delivered, limit, scratch)
    requires |r.value.Left()| <= |unread| && r.value.Left() == unread[|unread| - |r.value.Left()|..]
    requires r.value.remaining.Some? ==> |r.value.Left()| < |unread| || r.value.produced > 0
    requires r.value.remaining.None? ==> r.value.produced == 0 && unread == []
    ensures Turned(unread, output, longer, delivered, limit, scratch, start, r)
  {
    OnePast(delivered, start, |output|, |longer|, limit);
    if r.value.remaining.Some? && limit < USIZE_MAX {
      CallPays(|unread|, |output|, delivered, limit, scratch, Call(|unread| - |r.value.Left()|, r.value.produced));
    }
  }

  /** The ceiling passed, by no more than the one octet there was room for. */
  lemma OverTurns(unread: bytes, output: bytes, longer: bytes, delivered: nat, limit: nat,
                  scratch: nat, start: nat, r: Result<Step, CodecError>)
    requires InBounds(|output|, start, delivered, limit) && output <= longer
    requires |longer| - |output| <= Writable(|output|, delivered, limit, scratch)
    requires SatAdd(delivered, |longer|) > limit && r == Err(MessageTooLong(SatAdd(delivered, |longer|), limit))
    ensures Turned(unread, output, longer, delivered, limit, scratch, start, r)
  {
    OnePast(delivered, start, |output|, |longer|, limit);
  }

  lemma FaultTurns(unread: bytes, output: bytes, delivered: nat, limit: nat,
                   scratch: nat, start: nat, r: Result<Step, CodecError>)
    requires InBounds(|output|, start, delivered, limit) && r.Err? && r.error in {InvalidStream, Stalled}
    ensures Turned(unread, output, output, delivered, limit, scratch, start, r)
  {
    OnePast(delivered, start, |output|, |output|, limit);
  }

  // ---- The driver.

  /** The backend's last call accounts for the outcome: refused is invalid, and no progress on octets is a stall. */
  ghost predicate Accounts<S(!new, 0), T>(inflater: Inflater<S>, r: Result<T, CodecError>)
    reads inflater
  {
    (r == Err(Stalled) <==> inflater.stalled) && (r == Err(InvalidStream) <==> inflater.refused)
  }

  /**
   * Lets the backend move once. What it took and gave is what its counters went up by, and never
   * more than it was handed.
   */
  method TakeStep<S(!new, 0)>(inflater: Inflater<S>, input: bytes, scratch: array<byte>, room: nat)
    returns (r: Result<Step, CodecError>)
    requires room <= scratch.Length
    modifies inflater`engine, inflater`totalIn, inflater`totalOut, inflater`refused, inflater`stalled, scratch
    ensures Accounts(inflater, r)
    ensures r.Err? ==> r.error in {InvalidStream, Stalled}
    ensures r.Ok? ==> r.value.produced <= room
    ensures r.Ok? && r.value.remaining.Some? ==>
      && |r.value.remaining.value| <= |input|
      && r.value.remaining.value == input[|input| - |r.value.remaining.value|..]
      && (|r.value.remaining.value| < |input| || r.value.produced > 0)
    ensures r.Ok? && r.value.remaining.None? ==> r.value.produced == 0 && input == []
    ensures inflater.conforming && r.Err? && r.error == InvalidStream ==>
      Breaks(inflater.family(inflater.width), old(inflater.engine), input)
    ensures inflater.conforming && r.Err? && r.error == Stalled ==>
      input != [] && (room == 0 || (old(inflater.engine).finished && old(inflater.engine).pending == []))
    ensures inflater.conforming && r.Ok? ==>
      var k := if r.value.remaining.Some? then |input| - |r.value.remaining.value| else 0;
      Answers(inflater.family(inflater.width), old(inflater.engine), input, room,
              inflater.engine, k, scratch[..r.value.produced], r.value.streamEnded)
  {
    var beforeIn, beforeOut := inflater.totalIn, inflater.totalOut;
    var status := inflater.Decompress(input, scratch, room);
    if status.Err? { return Err(InvalidStream); }
    var consumed := Advance(beforeIn, inflater.totalIn, |input|);
    var produced := Advance(beforeOut, inflater.totalOut, room);
    var unconsumed := input[consumed..];
    var remaining;
    if consumed != 0 || produced != 0 {
      remaining := Some(unconsumed);
    } else if unconsumed == [] {
      remaining := None;
    } else {
      return Err(Stalled);
    }
    r := Ok(Step(produced, remaining, status.value == StreamEnd));
  }

  class Decoder<S(!new, 0)> {
    const config: InflaterConfig
    const family: nat -> Machine<S>
    const conforming: bool
    const resetBetweenMessages: bool
    var inflater: Inflater<S>
    var streamOpen: bool
    var delivered: nat
    var poisoned: bool

    /** The inflater is this decoder's own backend, at the width this decoder was configured with. */
    ghost predicate Wired()
      reads this, inflater
    {
      inflater.family == family && inflater.conforming == conforming && inflater.width == config.windowBits
    }

    ghost predicate Settled()
      reads this, inflater
    {
      inflater.engine.pending == [] && !inflater.engine.finished
    }

    ghost predicate Valid()
      reads this, inflater
    {
      Wired() && delivered <= USIZE_MAX && (conforming && !poisoned ==> Settled())
    }

    /** The reference machine this decoder runs. */
    ghost function M(): Machine<S> {
      family(config.windowBits)
    }

    ghost function Position(): Pos<S>
      reads this, inflater
    {
      Pos(inflater.engine.state, streamOpen)
    }

    constructor (peerMaxWindowBits: nat, resetBetweenMessages: bool, family: nat -> Machine<S>, conforming: bool)
      ensures Valid() && fresh(inflater)
      ensures config.windowBits == Max(9, peerMaxWindowBits)
      ensures this.resetBetweenMessages == resetBetweenMessages
      ensures this.family == family && this.conforming == conforming
      ensures Position() == Start(M()) && delivered == 0 && !poisoned
    {
      config := InflaterConfig.ForPeerWindow(peerMaxWindowBits);
      this.family, this.conforming, this.resetBetweenMessages := family, conforming, resetBetweenMessages;
      inflater := new Inflater(family, InflaterConfig.ForPeerWindow(peerMaxWindowBits).windowBits, conforming);
      streamOpen, delivered, poisoned := false, 0, false;
    }

    /** A fresh stream at the negotiated width, by whichever route keeps that width. */
    method Reinitialise()
      requires Wired()
      modifies this`inflater, this`streamOpen, inflater
      ensures Wired() && Settled() && (inflater == old(inflater) || fresh(inflater))
      ensures Position() == Start(M()) && !inflater.refused && !inflater.stalled
    {
      if config.ResetsInPlace() {
        inflater.Reset();
      } else {
        inflater := new Inflater(family, config.windowBits, conforming);
      }
      streamOpen := false;
    }

    /** What the open message still has to give from here, engine backlog included. */
    ghost function ToCome(unread: bytes): Decoded<S>
      reads this, inflater
    {
      Rest(M(), inflater.engine, streamOpen, unread)
    }

    /** A stream end the decoder has seen is never left unattended. */
    ghost predicate Attended()
      reads this, inflater
    {
      !(inflater.engine.finished && inflater.engine.pending == [])
    }

    /** The backend call of a turn, and the ceiling check on what it yielded. */
    method Pull(unread: bytes, limit: nat, output: bytes, scratch: array<byte>, ghost start: nat)
      returns (r: Result<Step, CodecError>, longer: bytes)
      requires Wired() && scratch.Length >= 1 && InBounds(|output|, start, delivered, limit)
      requires conforming ==> Attended()
      modifies inflater`engine, inflater`totalIn, inflater`totalOut, inflater`refused, inflater`stalled, scratch
      ensures Wired() && Turned(unread, output, longer, delivered, limit, scratch.Length, start, r)
      ensures Accounts(inflater, r)
      ensures conforming && r.Ok? ==>
        Answers(M(), old(inflater.engine), unread, Writable(|output|, delivered, limit, scratch.Length),
                inflater.engine, |unread| - |r.value.Left()|, longer[|output|..], r.value.streamEnded)
      ensures conforming && r.Err? ==>
        r.error != Stalled && (r.error == InvalidStream ==> Breaks(M(), old(inflater.engine), unread))
      ensures conforming && r.Err? && r.error.MessageTooLong? ==> exists k: nat, ended: bool ::
        Answers(M(), old(inflater.engine), unread, Writable(|output|, delivered, limit, scratch.Length),
                inflater.engine, k, longer[|output|..], ended)
      ensures conforming && old(Settled()) && unread == [] ==> longer == output
    {
      var writable := Writable(|output|, delivered, limit, scratch.Length);
      var step := TakeStep(inflater, unread, scratch, writable);
      if step.Err? {
        r, longer := Err(step.error), output;
        FaultTurns(unread, output, delivered, limit, scratch.Length, start, r);
        return;
      }
      longer := output + scratch[..step.value.produced];
      assert longer[|output|..] == scratch[..step.value.produced];
      var size := SatAdd(delivered, |longer|);
      if size > limit {
        ghost var k: nat := |unread| - |step.value.Left()|;
        assert conforming ==>
          Answers(M(), old(inflater.engine), unread, writable, inflater.engine,
                  k, longer[|output|..], step.value.streamEnded);
        r := Err(MessageTooLong(size, limit));
        OverTurns(unread, output, longer, delivered, limit, scratch.Length, start, r);
        return;
      }
      StepTurns(unread, output, longer, delivered, limit, scratch.Length, start, step);
      r := step;
    }

    /** One turn of the loop below: a backend call, the ceiling check, and the stream position. */
    method Turn(unread: bytes, limit: nat, output: bytes, scratch: array<byte>, ghost start: nat)
      returns (r: Result<Step, CodecError>, longer: bytes)
      requires Wired() && scratch.Length >= 1 && InBounds(|output|, start, delivered, limit)
      requires conforming ==> Attended()
      modifies this`inflater, this`streamOpen, inflater, scratch
      ensures Wired() && (inflater == old(inflater) || fresh(inflater))
      ensures Turned(unread, output, longer, delivered, limit, scratch.Length, start, r)
      ensures Accounts(inflater, r)
      ensures conforming && r.Ok? ==>
        && Attended()
        && (r.value.remaining.None? ==> Settled())
        && old(ToCome(unread)) == ToCome(r.value.Left()).After(longer[|output|..], r.value.streamEnded)
        && Rest(M(), old(inflater.engine), old(streamOpen), unread[..|unread| - |r.value.Left()|])
             == ToCome([]).After(longer[|output|..], r.value.streamEnded)
        && (|r.value.Left()| == |unread| && r.value.produced > 0 ==>
             |inflater.engine.pending| < |old(inflater.engine).pending|)
      ensures conforming && r.Err? ==>
        && r.error != Stalled
        && (r.error == InvalidStream ==> old(ToCome(unread)).Invalid?)
        && (r.error.MessageTooLong? ==>
             && Yields(M(), old(inflater.engine), old(streamOpen), unread, longer[|output|..])
             && Reports(M(), old(inflater.engine), unread, |output|, delivered, limit, scratch.Length, r.error.size))
      ensures conforming && old(Settled()) && unread == [] ==> longer == output
    {
      ghost var before, open := inflater.engine, streamOpen;
      r, longer := Pull(unread, limit, output, scratch, start);
      ghost var chunk := longer[|output|..];
      if r.Err? {
        if conforming {
          PullFailed(M(), before, open, unread, |output|, delivered, limit, scratch.Length, chunk, r.error);
        }
        return;
      }
      ghost var k: nat := |unread| - |r.value.Left()|;
      if conforming {
        RestAfterTurn(M(), before, open, unread, k, |chunk|);
        assert unread[..k][..k] == unread[..k] && unread[..k][k..] == [];
        RestAfterTurn(M(), before, open, unread[..k], k, |chunk|);
      }
      if r.value.streamEnded {
        Reinitialise();
      } else if r.value.remaining.Some? && |r.value.remaining.value| < |unread| {
        streamOpen := true;
      }
    }

    /**
     * A call in progress from position `p`: what it has taken decodes to what it has
     * yielded and what the engine still owes.
     */
    ghost predicate OnCourse(p: Pos<S>, taken: bytes, yielded: bytes, ended: bool)
      reads this, inflater
    {
      Attended() && Decode(M(), p, taken) == ToCome([]).After(yielded, ended)
    }

    /** A turn, seen from the call it is part of: `soFar` is what the output held when the call began. */
    method Proceed(unread: bytes, limit: nat, soFar: bytes, output: bytes, scratch: array<byte>,
                   ghost p: Pos<S>, ghost input: bytes, ghost taken: bytes, ghost ended: bool)
      returns (r: Result<Step, CodecError>, longer: bytes, ghost more: bytes)
      requires Wired() && scratch.Length >= 1 && soFar <= output && InBounds(|output|, |soFar|, delivered, limit)
      requires input == taken + unread
      requires conforming ==> OnCourse(p, taken, output[|soFar|..], ended)
      modifies this`inflater, this`streamOpen, inflater, scratch
      ensures Wired() && (inflater == old(inflater) || fresh(inflater))
      ensures Accounts(inflater, r)
      ensures soFar <= longer
      ensures r.Ok? ==> SatAdd(delivered, |longer|) <= limit
      ensures r.Ok? && r.value.remaining.Some? ==> |r.value.remaining.value| <= |unread|
      ensures r.Ok? && r.value.remaining.Some? && limit < USIZE_MAX ==>
        1 + |r.value.remaining.value| + SatSub(limit, SatAdd(delivered, |longer|))
          <= |unread| + SatSub(limit, SatAdd(delivered, |output|))
      ensures r.Ok? && r.value.remaining.None? ==> |longer| == |output| && unread == []
      ensures r.Err? ==> r.error in {InvalidStream, Stalled} || r.error.MessageTooLong?
      ensures r.Err? && r.error.MessageTooLong? ==>
        && r.error == MessageTooLong(SatAdd(delivered, |longer|), limit)
        && limit < r.error.size <= Max(limit, SatAdd(delivered, |soFar|)) + 1
      ensures limit < USIZE_MAX ==> delivered + |longer| <= Max(limit, delivered + |soFar|) + 1
      ensures r.Ok? ==> input == more + r.value.Left()
      ensures r.Ok? && r.value.remaining.None? ==> more == input
      ensures conforming && r.Ok? ==>
        && OnCourse(p, more, longer[|soFar|..], ended || r.value.streamEnded)
        && (r.value.remaining.None? ==> Settled())
        && (r.value.remaining.Some? && |r.value.Left()| == |unread| ==>
              |inflater.engine.pending| < |old(inflater.engine).pending|)
      ensures conforming && r.Err? ==> Deserved(M(), p, input, delivered + |soFar|, limit, r.error)
      ensures conforming && old(Settled()) && unread == [] ==> longer == output
    {
      ghost var before, open := inflater.engine, streamOpen;
      r, longer := Turn(unread, limit, output, scratch, |soFar|);
      SplitTail(soFar, output, longer);
      more := taken;
      if r.Ok? {
        Shift(taken, unread, |unread| - |r.value.Left()|);
        more := taken + unread[..|unread| - |r.value.Left()|];
        NothingMore(taken);
      }
      if conforming {
        ghost var yielded, chunk := output[|soFar|..], longer[|output|..];
        if r.Ok? {
          CourseContinues(M(), p, before, open, taken, yielded, ended, unread[..|unread| - |r.value.Left()|],
                          ToCome([]), chunk, r.value.streamEnded);
        } else {
          FailedTurn(M(), p, taken, before, open, unread, yielded, chunk, ended, delivered + |soFar|, limit, r.error);
        }
      }
    }

    method Inflate(input: bytes, limit: nat, soFar: bytes, scratch: array<byte>)
      returns (r: Result<bool, CodecError>, output: bytes, ghost calls: nat)
      requires Wired() && delivered <= USIZE_MAX && limit <= USIZE_MAX
      requires conforming ==> Settled()
      requires scratch.Length >= 1
      // At the top of the range the detector's `+ 1` saturates, so only the backend's word ends the loop.
      requires conforming || limit < USIZE_MAX
      modifies this`inflater, this`streamOpen, inflater, scratch
      ensures Wired() && (inflater == old(inflater) || fresh(inflater))
      // Whatever the backend does:
      ensures Accounts(inflater, r)
      ensures soFar <= output
      ensures r.Ok? ==> SatAdd(delivered, |output|) <= limit
      ensures r.Err? ==> r.error in {InvalidStream, Stalled} || r.error.MessageTooLong?
      ensures r.Err? && r.error.MessageTooLong? ==>
        && r.error == MessageTooLong(SatAdd(delivered, |output|), limit)
        && limit < r.error.size <= Max(limit, SatAdd(delivered, |soFar|)) + 1
      ensures limit < USIZE_MAX ==>
        && delivered + |output| <= Max(limit, delivered + |soFar|) + 1
        && calls <= |input| + SatSub(limit, SatAdd(delivered, |soFar|)) + 1
        // Output already produced is never paid for again.
        && (r.Ok? ==> calls + SatSub(limit, SatAdd(delivered, |output|))
                        <= |input| + SatSub(limit, SatAdd(delivered, |soFar|)) + 1)
      // When it honours its contract:
      ensures conforming && r.Ok? ==>
        Settled() && Decode(M(), old(Position()), input) == Decoded(Position(), output[|soFar|..], r.value)
      ensures conforming && r.Err? ==>
        Deserved(M(), old(Position()), input, delivered + |soFar|, limit, r.error)
      ensures conforming && input == [] ==> output == soFar
    {
      var unread := input;
      var endedAStream := false;
      output := soFar;
      calls := 0;
      ghost var p, taken: bytes := Position(), [];
      if conforming { RestAtTheEnd(M(), inflater.engine, streamOpen, [], false); }
      while true
        invariant Wired() && (inflater == old(inflater) || fresh(inflater))
        invariant soFar <= output && input == taken + unread
        invariant output == soFar || SatAdd(delivered, |output|) <= limit
        invariant limit < USIZE_MAX ==>
          calls + |unread| + SatSub(limit, SatAdd(delivered, |output|))
            <= |input| + SatSub(limit, SatAdd(delivered, |soFar|))
        invariant conforming && input == [] ==> output == soFar && Settled()
        invariant conforming ==> OnCourse(p, taken, output[|soFar|..], endedAStream)
        decreases |unread|, if conforming then |inflater.engine.pending| else SatSub(limit, SatAdd(delivered, |output|))
      {
        var step;
        step, output, taken := Proceed(unread, limit, soFar, output, scratch, p, input, taken, endedAStream);
        calls := calls + 1;
        if step.Err? { return Err(step.error), output, calls; }
        endedAStream := endedAStream || step.value.streamEnded;
        match step.value.remaining
        case Some(rest) =>
          unread := rest;
        case None =>
          if conforming { RestAtTheEnd(M(), inflater.engine, streamOpen, output[|soFar|..], endedAStream); }
          return Ok(endedAStream), output, calls;
      }
    }

    /** A stall is reported where there was one, and a refused call never as anything but invalid data. */
    ghost predicate StallsOnly<T>(r: Result<T, CodecError>)
      reads this, inflater
    {
      (r == Err(Stalled) <==> inflater.stalled) && (inflater.refused ==> r == Err(InvalidStream))
    }

    /** The end of a message: the four octets its sender stripped, and the agreed reset. */
    method CloseMessage(limit: nat, soFar: bytes, scratch: array<byte>)
      returns (r: Result<(), CodecError>, output: bytes, ghost calls: nat)
      requires Wired() && limit <= USIZE_MAX && scratch.Length >= 1
      requires delivered <= USIZE_MAX && SatAdd(delivered, |soFar|) <= limit
      requires conforming ==> Settled()
      requires conforming || limit < USIZE_MAX
      modifies this`inflater, this`streamOpen, inflater, scratch
      ensures Wired() && (inflater == old(inflater) || fresh(inflater))
      ensures !old(streamOpen) ==> r == Err(InvalidStream) && inflater == old(inflater) && unchanged(old(inflater))
      ensures old(streamOpen) ==> StallsOnly(r)
      ensures r.Ok? ==> SatAdd(delivered, |output|) <= limit
      ensures r.Err? ==> r.error in {InvalidStream, Stalled} || r.error == MessageTooLong(limit + 1, limit)
      ensures limit < USIZE_MAX ==>
        && delivered + |output| <= limit + 1
        && calls <= |TRAILER| + SatSub(limit, SatAdd(delivered, |soFar|)) + 1
      ensures conforming ==>
        var p := old(Position());
        var t := Decode(M(), p, TRAILER);
        var fits := p.open && t.Decoded? && !t.ended;
        && (r.Ok? ==> fits && output == soFar + t.out && Settled())
        && (r.Ok? ==> Position() == if resetBetweenMessages then Start(M()) else t.pos)
        && (r.Err? ==> CloseFails(M(), p, delivered + |soFar|, limit, r.error))
    {
      if !streamOpen { return Err(InvalidStream), soFar, 0; }
      var tail;
      tail, output, calls := Inflate(TRAILER, limit, soFar, scratch);
      if tail.Err? { return Err(tail.error), output, calls; }
      if tail.value { return Err(InvalidStream), output, calls; }
      if resetBetweenMessages { Reinitialise(); }
      r := Ok(());
    }

    /** One fragment; the last of a message also closes it. */
    method DecodeFragment(input: bytes, finalFragment: bool, limit: nat)
      returns (r: Result<(), CodecError>, output: bytes, ghost calls: nat)
      requires Valid() && !poisoned && limit <= USIZE_MAX
      requires conforming || limit < USIZE_MAX
      modifies this`inflater, this`streamOpen, inflater
      ensures Wired() && (inflater == old(inflater) || fresh(inflater))
      ensures StallsOnly(r)
      ensures r.Ok? ==> SatAdd(delivered, |output|) <= limit
      ensures r.Err? ==> r.error in {InvalidStream, Stalled} || r.error.MessageTooLong?
      ensures r.Err? && r.error.MessageTooLong? ==>
        r.error.limit == limit && Max(limit + 1, delivered) <= r.error.size <= Max(limit, delivered) + 1
      ensures limit < USIZE_MAX ==>
        && delivered + |output| <= Max(limit, delivered) + 1
        && calls <= |input| + SatSub(limit, delivered) + (if finalFragment then |TRAILER| + 2 else 1)
      ensures conforming ==>
        var p := old(Position());
        && (r.Ok? ==> Settled())
        && (r.Ok? ==> FragmentGives(M(), p, input, finalFragment, resetBetweenMessages, output, Position()))
        && (r.Err? ==> FragmentFails(M(), p, input, finalFragment, delivered, limit, r.error))
      ensures conforming && input == [] && limit < delivered ==> r == Err(MessageTooLong(delivered, limit))
    {
      var scratch := new byte[SCRATCH];
      var body;
      body, output, calls := Inflate(input, limit, [], scratch);
      if body.Err? {
        if conforming { FailsInBody(M(), old(Position()), input, finalFragment, delivered, limit, body.error); }
        return Err(body.error), output, calls;
      }
      assert conforming ==> Decode(M(), old(Position()), input) == Decoded(Position(), output, body.value);
      if !finalFragment { return Ok(()), output, calls; }
      ghost var more, early := 0, output;
      r, output, more := CloseMessage(limit, output, scratch);
      if conforming {
        if r.Err? { FailsInTrailer(M(), old(Position()), input, delivered, limit, r.error); }
        else { GivesInTrailer(M(), old(Position()), input, resetBetweenMessages, early, output, Position()); }
      }
      calls := calls + more;
    }

    /** The live state a successful call advances. */
    ghost function Live(): Channel<S>
      reads this, inflater
    {
      Channel(Position(), delivered)
    }

    method Decompress(input: bytes, finalFragment: bool, limit: nat)
      returns (r: Result<bytes, CodecError>)
      requires Valid() && limit <= USIZE_MAX
      requires conforming || limit < USIZE_MAX
      modifies this, inflater
      ensures Valid() && (inflater == old(inflater) || fresh(inflater))
      // Every failure is terminal, and a failed decoder never moves again.
      ensures poisoned <==> r.Err?
      ensures old(poisoned) <==> r == Err(Poisoned)
      ensures old(poisoned) ==> unchanged(this) && unchanged(inflater)
      ensures !old(poisoned) ==> StallsOnly(r)
      ensures r.Ok? ==> SatAdd(old(delivered), |r.value|) <= limit
      ensures r.Ok? ==> delivered == if finalFragment then 0 else SatAdd(old(delivered), |r.value|)
      ensures r.Err? && r.error.MessageTooLong? ==>
        r.error.limit == limit && Max(limit + 1, old(delivered)) <= r.error.size <= Max(limit, old(delivered)) + 1
      ensures conforming && !old(poisoned) ==>
        var f := Fragment(M(), resetBetweenMessages, old(Live()), input, finalFragment, limit);
        (r.Ok? <==> f.Some?) && (r.Ok? ==> r.value == f.value.1 && Live() == f.value.0)
      // Each error says what it says, so an input with one thing wrong with it has one answer.
      ensures conforming && !old(poisoned) ==>
        var malformed := Malformed(M(), old(Position()), input, finalFragment);
        var overlong := Overlong(M(), old(Position()), input, finalFragment, old(delivered), limit);
        && (r.Err? ==> (r.error == InvalidStream && malformed) || (r.error.MessageTooLong? && overlong))
        && (malformed && !overlong ==> r == Err(InvalidStream))
        && (overlong && !malformed ==> r.Err? && r.error.MessageTooLong?)
      // A ceiling lowered below the delivery fails even a fragment that holds nothing, and reports the delivery itself.
      ensures conforming && !old(poisoned) && input == [] && limit < old(delivered) ==>
        r == Err(MessageTooLong(old(delivered), limit))
    {
      if poisoned { return Err(Poisoned); }
      if conforming && !Malformed(M(), Position(), input, finalFragment) {
        OverlongMeans(M(), Position(), input, finalFragment, delivered, limit);
      }
      var outcome, output; ghost var calls;
      outcome, output, calls := DecodeFragment(input, finalFragment, limit);
      match outcome
      case Ok(_) =>
        delivered := if finalFragment then 0 else SatAdd(delivered, |output|);
        r := Ok(output);
      case Err(error) =>
        poisoned := true;
        r := Err(error);
    }
  }
}
