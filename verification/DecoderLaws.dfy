/** What holds over whole messages, however they were cut into fragments or streams. */
module DecoderLaws {
  import opened Sequences
  import opened Wrappers
  import opened Sizes
  import opened Octets
  import opened Transducer
  import opened Inflaters
  import opened Decoding

  // ---- Fragments.

  function Append<S>(first: bytes, rest: Option<(Channel<S>, bytes)>): Option<(Channel<S>, bytes)> {
    if rest.None? then None else Some((rest.value.0, first + rest.value.1))
  }

  /** A whole message, fragment by fragment, the ceiling read afresh each time. */
  function Message<S>(m: Machine<S>, reset: bool, ch: Channel<S>, frags: seq<bytes>, limits: seq<nat>)
    : Option<(Channel<S>, bytes)>
    requires |frags| == |limits| > 0
    decreases |frags|
  {
    if |frags| == 1 then Fragment(m, reset, ch, frags[0], true, limits[0])
    else
      var first := Fragment(m, reset, ch, frags[0], false, limits[0]);
      if first.None? then None
      else Append(first.value.1, Message(m, reset, first.value.0, frags[1..], limits[1..]))
  }

  /** What the octets of two neighbouring fragments decide does not depend on the cut between them. */
  lemma MalformedMerge<S>(m: Machine<S>, p: Pos<S>, a: bytes, b: bytes, final: bool)
    ensures Malformed(m, p, a + b, final) <==>
      Malformed(m, p, a, false) || Malformed(m, Decode(m, p, a).pos, b, final)
  {
    DecodeConcat(m, p, a, b);
  }

  lemma YieldMerge<S>(m: Machine<S>, p: Pos<S>, a: bytes, b: bytes, final: bool)
    requires !Malformed(m, p, a, false) && !Malformed(m, Decode(m, p, a).pos, b, final)
    requires !Malformed(m, p, a + b, final)
    ensures Yield(m, p, a + b, final).0 == Yield(m, Decode(m, p, a).pos, b, final).0
    ensures Yield(m, p, a + b, final).1 == Decode(m, p, a).out + Yield(m, Decode(m, p, a).pos, b, final).1
  {
    DecodeConcat(m, p, a, b);
    var d := Decode(m, p, a);
    var e := Decode(m, d.pos, b);
    if final { Regroup(d.out, e.out, Decode(m, e.pos, TRAILER).out); }
  }

  /** One call on `a + b` is a call on `a` and then one on `b`, under one ceiling. */
  lemma FragmentMerge<S>(m: Machine<S>, reset: bool, ch: Channel<S>, a: bytes, b: bytes, final: bool, limit: nat)
    ensures Fragment(m, reset, ch, a + b, final, limit) ==
      var first := Fragment(m, reset, ch, a, false, limit);
      if first.None? then None
      else Append(first.value.1, Fragment(m, reset, first.value.0, b, final, limit))
  {
    MalformedMerge(m, ch.pos, a, b, final);
    if !Malformed(m, ch.pos, a + b, final) { YieldMerge(m, ch.pos, a, b, final); }
  }

  /** Any cutting of a message, empty fragments included, is one call on the uncut message. */
  lemma {:induction false} FragmentInvariance<S>(m: Machine<S>, reset: bool, ch: Channel<S>, frags: seq<bytes>,
                                                 limit: nat)
    requires |frags| > 0
    ensures Message(m, reset, ch, frags, seq(|frags|, _ => limit))
      == Fragment(m, reset, ch, Concat(frags), true, limit)
    decreases |frags|
  {
    var limits := seq(|frags|, _ => limit);
    if |frags| == 1 {
      assert Concat(frags) == frags[0] + Concat(frags[1..]) == frags[0];
    } else {
      assert limits[1..] == seq(|frags[1..]|, _ => limit);
      FragmentMerge(m, reset, ch, frags[0], Concat(frags[1..]), true, limit);
      var first := Fragment(m, reset, ch, frags[0], false, limit);
      if first.Some? { FragmentInvariance(m, reset, first.value.0, frags[1..], limit); }
    }
  }

  /** Raising a ceiling that was not reached changes nothing, call by call. */
  lemma {:induction false} RaisedCeilings<S>(
    m: Machine<S>, reset: bool, ch: Channel<S>, frags: seq<bytes>, low: seq<nat>, high: seq<nat>)
    requires |frags| == |low| == |high| > 0
    requires forall i :: 0 <= i < |frags| ==> low[i] <= high[i]
    requires Message(m, reset, ch, frags, low).Some?
    ensures Message(m, reset, ch, frags, high) == Message(m, reset, ch, frags, low)
    decreases |frags|
  {
    if |frags| > 1 {
      var next := Fragment(m, reset, ch, frags[0], false, low[0]).value.0;
      RaisedCeilings(m, reset, next, frags[1..], low[1..], high[1..]);
    }
  }

  /** The octets a message has yielded once its first `n` fragments are in. */
  function Total<S>(m: Machine<S>, p: Pos<S>, frags: seq<bytes>, n: nat): bytes
    requires 0 < n <= |frags| && !Malformed(m, p, Concat(frags[..n]), n == |frags|)
  {
    Yield(m, p, Concat(frags[..n]), n == |frags|).1
  }

  ghost predicate Within<S>(m: Machine<S>, ch: Channel<S>, frags: seq<bytes>, limits: seq<nat>, n: nat)
    requires |frags| == |limits| && 0 < n <= |frags|
  {
    && !Malformed(m, ch.pos, Concat(frags[..n]), n == |frags|)
    && SatAdd(ch.delivered, |Total(m, ch.pos, frags, n)|) <= limits[n-1]
  }

  lemma WithinTail<S>(m: Machine<S>, reset: bool, ch: Channel<S>, frags: seq<bytes>, limits: seq<nat>, n: nat)
    requires |frags| == |limits| && 1 < n <= |frags|
    requires Fragment(m, reset, ch, frags[0], false, limits[0]).Some?
    ensures Within(m, ch, frags, limits, n) <==>
      Within(m, Fragment(m, reset, ch, frags[0], false, limits[0]).value.0, frags[1..], limits[1..], n - 1)
  {
    assert frags[..n][0] == frags[0] && frags[..n][1..] == frags[1..][..n-1];
    var rest := Concat(frags[1..][..n-1]);
    MalformedMerge(m, ch.pos, frags[0], rest, n == |frags|);
    if !Malformed(m, ch.pos, frags[0] + rest, n == |frags|) { YieldMerge(m, ch.pos, frags[0], rest, n == |frags|); }
  }

  /**
   * With a ceiling of its own for every call, a message goes through exactly when
   * its octets are well formed and the running total respects each call's ceiling.
   */
  lemma {:induction false} CeilingPerCall<S>(m: Machine<S>, reset: bool, ch: Channel<S>, frags: seq<bytes>,
                                             limits: seq<nat>)
    requires |frags| == |limits| > 0
    ensures Message(m, reset, ch, frags, limits).Some? <==>
      forall n :: 0 < n <= |frags| ==> Within(m, ch, frags, limits, n)
    ensures Message(m, reset, ch, frags, limits).Some? ==>
      && !Malformed(m, ch.pos, Concat(frags), true)
      && Message(m, reset, ch, frags, limits).value.1 == Yield(m, ch.pos, Concat(frags), true).1
    decreases |frags|
  {
    assert frags[..|frags|] == frags;
    assert frags[..1] == [frags[0]] && Concat([frags[0]]) == frags[0] + Concat([]) == frags[0];
    var first := Fragment(m, reset, ch, frags[0], |frags| == 1, limits[0]);
    assert Within(m, ch, frags, limits, 1) <==> first.Some?;
    if |frags| > 1 && first.Some? {
      CeilingPerCall(m, reset, first.value.0, frags[1..], limits[1..]);
      forall n | 1 < n <= |frags|
        ensures Within(m, ch, frags, limits, n) <==> Within(m, first.value.0, frags[1..], limits[1..], n - 1)
      {
        WithinTail(m, reset, ch, frags, limits, n);
      }
      MalformedMerge(m, ch.pos, frags[0], Concat(frags[1..]), true);
      if !Malformed(m, ch.pos, Concat(frags), true) { YieldMerge(m, ch.pos, frags[0], Concat(frags[1..]), true); }
      forall n | 0 < n <= |frags[1..]| && forall k :: 0 < k <= |frags| ==> Within(m, ch, frags, limits, k)
        ensures Within(m, first.value.0, frags[1..], limits[1..], n)
      {
        assert Within(m, ch, frags, limits, n + 1);
      }
    }
  }

  // ---- Why a call fails.

  /** A call fails for one of two reasons, and a fragment that is neither goes through. */
  lemma FailsExactly<S>(m: Machine<S>, reset: bool, ch: Channel<S>, input: bytes, final: bool, limit: nat)
    ensures Fragment(m, reset, ch, input, final, limit).None? <==>
      Malformed(m, ch.pos, input, final) || Overlong(m, ch.pos, input, final, ch.delivered, limit)
  {
    if !Malformed(m, ch.pos, input, final) { OverlongMeans(m, ch.pos, input, final, ch.delivered, limit); }
  }

  /**
   * Where both hold, which error is seen is the backend's choice: with room for
   * nothing, an octet that yields something before one that breaks the stream may be
   * answered with the break at once, or with what the first octet yields.
   */
  lemma EitherError<S>(m: Machine<S>, s: S, a: byte, b: byte)
    requires m.eat(s, a).More? && m.eat(s, a).out != [] && m.eat(m.eat(s, a).next, b).Bad?
    ensures Breaks(m, Engine(s, [], false), [a, b])
    ensures Reports(m, Engine(s, [], false), [a, b], 0, 0, 0, SCRATCH, 1)
  {
    var e, next := Engine(s, [], false), m.eat(s, a).next;
    assert [a, b][1..] == [b] && [a, b][..1] == [a] && [a][1..] == [];
    assert Eat(m, e, [a]) == Some(Engine(next, [] + m.eat(s, a).out, false));
    assert MayMove(m, e, [a, b], Writable(0, 0, 0, SCRATCH), 1, 1);
  }

  // ---- How long the loop can run.

  /** The calls of a loop that has not come to an end, each as `Decoder.Turn` leaves it to go round. */
  predicate Loops(unread: nat, made: nat, delivered: nat, limit: nat, calls: seq<Call>)
    decreases |calls|
  {
    calls == [] ||
    (GoesOn(unread, made, delivered, limit, SCRATCH, calls[0])
     && Loops(unread - calls[0].taken, made + calls[0].given, delivered, limit, calls[1..]))
  }

  lemma {:induction false} LoopBound(unread: nat, made: nat, delivered: nat, limit: nat, calls: seq<Call>)
    requires limit < USIZE_MAX && Loops(unread, made, delivered, limit, calls)
    ensures |calls| <= unread + SatSub(limit, SatAdd(delivered, made))
    decreases |calls|
  {
    if calls != [] {
      CallPays(unread, made, delivered, limit, SCRATCH, calls[0]);
      LoopBound(unread - calls[0].taken, made + calls[0].given, delivered, limit, calls[1..]);
    }
  }

  /** At the very top of the range the sum saturates under the ceiling, and one octet a call fits for ever. */
  lemma {:induction false} LoopUnbounded(unread: nat, made: nat, delivered: nat, n: nat) returns (calls: seq<Call>)
    ensures |calls| == n && Loops(unread, made, delivered, USIZE_MAX, calls)
    decreases n
  {
    if n == 0 {
      calls := [];
    } else {
      var rest := LoopUnbounded(unread, made + 1, delivered, n - 1);
      calls := [Call(0, 1)] + rest;
    }
  }

  ghost predicate BoundedBy(unread: nat, delivered: nat, limit: nat, bound: nat) {
    forall calls :: Loops(unread, 0, delivered, limit, calls) ==> |calls| <= bound
  }

  /** Against an arbitrary backend the loop is bounded exactly when the ceiling is below the top of the range. */
  lemma BoundedIffBelowTop(unread: nat, delivered: nat, limit: nat)
    requires limit <= USIZE_MAX
    ensures (exists bound: nat :: BoundedBy(unread, delivered, limit, bound)) <==> limit < USIZE_MAX
  {
    if limit < USIZE_MAX {
      var bound := unread + SatSub(limit, SatAdd(delivered, 0));
      forall calls | Loops(unread, 0, delivered, limit, calls)
        ensures |calls| <= bound
      {
        LoopBound(unread, 0, delivered, limit, calls);
      }
      assert BoundedBy(unread, delivered, limit, bound);
    } else if exists bound: nat :: BoundedBy(unread, delivered, limit, bound) {
      var bound: nat :| BoundedBy(unread, delivered, limit, bound);
      var calls := LoopUnbounded(unread, 0, delivered, bound + 1);
    }
  }

  // ---- The size an overrun reports.

  /**
   * Where a message under `limit` can stand when a turn begins: nothing made in this call, or
   * nothing over the ceiling yet.
   */
  predicate InFlight(made: nat, delivered: nat, limit: nat) {
    made == 0 || SatAdd(delivered, made) <= limit
  }

  ghost predicate AlwaysReports<S(!new)>(m: Machine<S>, delivered: nat, limit: nat, forced: nat) {
    forall e: Engine<S>, unread: bytes, made: nat, size: nat ::
      InFlight(made, delivered, limit) && Reports(m, e, unread, made, delivered, limit, SCRATCH, size) ==>
        size == forced
  }

  /**
   * Every overrun is one past the higher of ceiling and delivery exactly when the ceiling has not
   * fallen below the delivery.
   */
  lemma SizeForced<S(!new)>(m: Machine<S>, delivered: nat, limit: nat)
    requires delivered <= USIZE_MAX && limit <= USIZE_MAX
    ensures AlwaysReports(m, delivered, limit, Max(limit, delivered) + 1) <==> limit >= delivered
  {
    if limit < delivered {
      var idle := Engine(m.start, [], false);
      assert MayMove(m, idle, [], Writable(0, delivered, limit, SCRATCH), 0, 0);
      assert Reports(m, idle, [], 0, delivered, limit, SCRATCH, delivered);
    }
  }

  /**
   * Under a lowered ceiling one octet is enough to see both sizes there are: what
   * was delivered when the octet is quiet, and one past it when it is not.
   */
  lemma LoweredCeiling<S>(m: Machine<S>, s: S, b: byte, delivered: nat, limit: nat)
    requires limit < delivered <= USIZE_MAX && m.eat(s, b).More?
    ensures Reports(m, Engine(s, [], false), [b], 0, delivered, limit, SCRATCH, delivered)
    ensures m.eat(s, b).out != [] ==>
      Reports(m, Engine(s, [], false), [b], 0, delivered, limit, SCRATCH, SatAdd(delivered, 1))
  {
    var idle := Engine(s, [], false);
    assert [b][..1] == [b] && [b][1..] == [];
    assert Eat(m, idle, [b]) == Some(Engine(m.eat(s, b).next, [] + m.eat(s, b).out, false));
    assert MayMove(m, idle, [b], Writable(0, delivered, limit, SCRATCH), 1, 0);
    if m.eat(s, b).out != [] {
      assert MayMove(m, idle, [b], Writable(0, delivered, limit, SCRATCH), 1, 1);
    }
  }

  /** And there is no third. */
  lemma LoweredSizes<S>(m: Machine<S>, e: Engine<S>, unread: bytes, made: nat, delivered: nat, limit: nat, size: nat)
    requires limit < delivered <= USIZE_MAX && InFlight(made, delivered, limit)
    requires Reports(m, e, unread, made, delivered, limit, SCRATCH, size)
    ensures size == delivered || size == SatAdd(delivered, 1)
  {
  }

  // ---- Streams.

  /** `w` is the rest of one stream and nothing more: its last octet is the one that ends it. */
  function Closes<S>(m: Machine<S>, s: S, w: bytes): Option<bytes>
    decreases |w|
  {
    if w == [] then None else
    match m.eat(s, w[0])
    case Bad => None
    case Final(out) => if |w| == 1 then Some(out) else None
    case More(next, out) =>
      var rest := Closes(m, next, w[1..]);
      if rest.None? then None else Some(out + rest.value)
  }

  /** `w` leaves the stream it enters open. */
  function Opens<S>(m: Machine<S>, s: S, w: bytes): Option<(S, bytes)>
    decreases |w|
  {
    if w == [] then Some((s, [])) else
    match m.eat(s, w[0])
    case Bad => None
    case Final(_) => None
    case More(next, out) =>
      var rest := Opens(m, next, w[1..]);
      if rest.None? then None else Some((rest.value.0, out + rest.value.1))
  }

  /** A payload seen as closed streams followed by an open one; every stream but the first starts afresh. */
  ghost predicate Factors<S>(m: Machine<S>, s: S, closed: seq<bytes>, tail: bytes)
    decreases |closed|
  {
    if closed == [] then Opens(m, s, tail).Some?
    else Closes(m, s, closed[0]).Some? && Factors(m, m.start, closed[1..], tail)
  }

  /** Each stream's own output, in order. */
  ghost function Outputs<S>(m: Machine<S>, s: S, closed: seq<bytes>, tail: bytes): bytes
    requires Factors(m, s, closed, tail)
    decreases |closed|
  {
    if closed == [] then Opens(m, s, tail).value.1
    else Closes(m, s, closed[0]).value + Outputs(m, m.start, closed[1..], tail)
  }

  /** The state the open stream was left in. */
  ghost function LastState<S>(m: Machine<S>, s: S, closed: seq<bytes>, tail: bytes): S
    requires Factors(m, s, closed, tail)
    decreases |closed|
  {
    if closed == [] then Opens(m, s, tail).value.0 else LastState(m, m.start, closed[1..], tail)
  }

  lemma {:induction false} DecodeOpen<S>(m: Machine<S>, p: Pos<S>, w: bytes)
    ensures Opens(m, p.state, w).Some? <==> Decode(m, p, w).Decoded? && !Decode(m, p, w).ended
    ensures Opens(m, p.state, w).Some? ==>
      var (next, out) := Opens(m, p.state, w).value;
      Decode(m, p, w) == Decoded(Pos(next, p.open || w != []), out, false)
    decreases |w|
  {
    if w != [] {
      match m.eat(p.state, w[0])
      case Bad =>
      case Final(_) =>
      case More(next, out) => DecodeOpen(m, Pos(next, true), w[1..]);
    }
  }

  lemma {:induction false} DecodeClosed<S>(m: Machine<S>, p: Pos<S>, w: bytes)
    requires Closes(m, p.state, w).Some?
    ensures Decode(m, p, w) == Decoded(Start(m), Closes(m, p.state, w).value, true)
    decreases |w|
  {
    match m.eat(p.state, w[0])
    case Final(out) => assert w[1..] == [];
    case More(next, out) => DecodeClosed(m, Pos(next, true), w[1..]);
  }

  /** A payload of several streams decodes to their outputs joined, each later stream from empty history. */
  lemma {:induction false} MultiStream<S>(m: Machine<S>, p: Pos<S>, closed: seq<bytes>, tail: bytes)
    requires Factors(m, p.state, closed, tail)
    ensures Decode(m, p, Concat(closed) + tail) ==
      Decoded(Pos(LastState(m, p.state, closed, tail), tail != [] || (closed == [] && p.open)),
              Outputs(m, p.state, closed, tail), closed != [])
    decreases |closed|
  {
    if closed == [] {
      assert Concat(closed) + tail == tail;
      DecodeOpen(m, p, tail);
    } else {
      assert Concat(closed) + tail == closed[0] + (Concat(closed[1..]) + tail);
      DecodeClosed(m, p, closed[0]);
      DecodeConcat(m, p, closed[0], Concat(closed[1..]) + tail);
      MultiStream(m, Start(m), closed[1..], tail);
    }
  }

  /** Nothing else decodes: whatever the reference decoder takes is such a payload. */
  lemma {:induction false} OnlyMultiStream<S>(m: Machine<S>, p: Pos<S>, w: bytes)
    returns (closed: seq<bytes>, tail: bytes)
    requires Decode(m, p, w).Decoded?
    ensures w == Concat(closed) + tail && Factors(m, p.state, closed, tail)
    decreases |w|
  {
    if w == [] { return [], []; }
    match m.eat(p.state, w[0])
    case More(next, out) =>
      closed, tail := OnlyMultiStream(m, Pos(next, true), w[1..]);
      assert w == [w[0]] + w[1..];
      if closed == [] {
        tail := [w[0]] + tail;
      } else {
        ghost var longer := [w[0]] + closed[0];
        assert longer[1..] == closed[0];
        closed := [longer] + closed[1..];
      }
    case Final(out) =>
      closed, tail := OnlyMultiStream(m, Start(m), w[1..]);
      assert w == [w[0]] + w[1..];
      closed := [[w[0]]] + closed;
      assert closed[1..] == closed[1..];
  }

  /**
   * When a last fragment is accepted: nothing in it is invalid, the stream it
   * leaves open has taken an octet, the trailer ends no stream, and the ceiling holds.
   */
  lemma FinalFragmentAccepted<S>(m: Machine<S>, reset: bool, ch: Channel<S>, closed: seq<bytes>, tail: bytes,
                                 limit: nat)
    requires Factors(m, ch.pos.state, closed, tail)
    ensures
      var trailed := Opens(m, LastState(m, ch.pos.state, closed, tail), [0x00, 0x00, 0xff, 0xff]);
      Fragment(m, reset, ch, Concat(closed) + tail, true, limit).Some? <==>
        && (tail != [] || (closed == [] && ch.pos.open))
        && trailed.Some?
        && SatAdd(ch.delivered, |Outputs(m, ch.pos.state, closed, tail) + trailed.value.1|) <= limit
  {
    MultiStream(m, ch.pos, closed, tail);
    DecodeOpen(m, Decode(m, ch.pos, Concat(closed) + tail).pos, TRAILER);
  }
}
