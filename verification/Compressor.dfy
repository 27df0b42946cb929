/**
 * The backend compressor: what it will have written once it is flushed, and the
 * calls that hand those octets over in pieces of its own choosing.
 */
module Compressors {
  import opened Wrappers
  import opened Flate
  import opened Octets

  /** A new state, and the octets reaching it appends to the wire. */
  datatype Gave<C> = Gave(next: C, out: bytes)

  /**
   * What the compressor writes. A hint stands for everything the backend decides
   * for itself: where blocks are cut, which earlier octets a match refers to.
   * `drained` marks a state that owes the wire nothing, where a flush is redundant.
   */
  datatype Deflater<!C, !H> = Deflater(
    start: C,
    take: (C, byte, H) -> Gave<C>,
    sync: (C, H) -> Gave<C>,
    drained: C -> bool)

  function TakeAll<C, H>(d: Deflater<C, H>, c: C, p: bytes, hints: seq<H>): Gave<C>
    requires |hints| == |p|
    decreases |p|
  {
    if p == [] then Gave(c, []) else
    var first := d.take(c, p[0], hints[0]);
    var rest := TakeAll(d, first.next, p[1..], hints[1..]);
    Gave(rest.next, first.out + rest.out)
  }

  lemma TakeOne<C, H>(d: Deflater<C, H>, c: C, b: byte, h: H)
    ensures TakeAll(d, c, [b], [h]) == d.take(c, b, h)
  {
    assert d.take(c, b, h).out + [] == d.take(c, b, h).out;
  }

  lemma {:induction false} TakeAllConcat<C, H>(d: Deflater<C, H>, c: C, p: bytes, hp: seq<H>, q: bytes, hq: seq<H>)
    requires |hp| == |p| && |hq| == |q|
    ensures var first := TakeAll(d, c, p, hp);
      var rest := TakeAll(d, first.next, q, hq);
      TakeAll(d, c, p + q, hp + hq) == Gave(rest.next, first.out + rest.out)
    decreases |p|
  {
    if p == [] {
      assert p + q == q && hp + hq == hq;
    } else {
      assert (p + q)[1..] == p[1..] + q && (hp + hq)[1..] == hp[1..] + hq;
      TakeAllConcat(d, d.take(c, p[0], hp[0]).next, p[1..], hp[1..], q, hq);
    }
  }

  /** A sync flush; on a drained stream it is refused and writes nothing. */
  function Flush<C, H>(d: Deflater<C, H>, c: C, h: H): Gave<C> {
    if d.drained(c) then Gave(c, []) else d.sync(c, h)
  }

  /** A chunk taken and flushed: `w` is everything it put on the wire. */
  ghost predicate Segment<C(!new), H(!new)>(d: Deflater<C, H>, c: C, p: bytes, c': C, w: bytes) {
    exists hints: seq<H>, h: H :: |hints| == |p| && IsSegment(d, c, p, c', w, hints, h)
  }

  ghost predicate IsSegment<C(!new), H(!new)>(d: Deflater<C, H>, c: C, p: bytes, c': C, w: bytes, hints: seq<H>, h: H)
    requires |hints| == |p|
  {
    var fed := TakeAll(d, c, p, hints);
    var flushed := Flush(d, fed.next, h);
    c' == flushed.next && w == fed.out + flushed.out
  }

  lemma SegmentBy<C(!new), H(!new)>(d: Deflater<C, H>, c: C, p: bytes, hints: seq<H>, h: H)
    requires |hints| == |p|
    ensures var fed := TakeAll(d, c, p, hints);
      Segment(d, c, p, Flush(d, fed.next, h).next, fed.out + Flush(d, fed.next, h).out)
  {
    var fed := TakeAll(d, c, p, hints);
    assert IsSegment(d, c, p, Flush(d, fed.next, h).next, fed.out + Flush(d, fed.next, h).out, hints, h);
  }

  /** A flush drains, and taking an octet undoes that. */
  ghost predicate Drains<C(!new), H(!new)>(d: Deflater<C, H>) {
    && (forall c, h :: d.drained(d.sync(c, h).next))
    && (forall c, b, h :: !d.drained(d.take(c, b, h).next))
  }

  datatype FlushMode = NoFlush | Sync

  // ---- How much a backend holds back.

  /**
   * `holds` counts the octets taken and not yet written. A prompt backend keeps
   * those, with the ones written and not yet handed over, within `bound`.
   */
  datatype Pace<!C> = Pace(holds: C -> nat, bound: nat)

  /** One octet at a time, and nothing left to hand over, the bound can always be kept. */
  ghost predicate Paced<C(!new), H(!new)>(d: Deflater<C, H>, pace: Pace<C>) {
    forall c, b, h :: pace.holds(c) <= pace.bound ==>
      |d.take(c, b, h).out| + pace.holds(d.take(c, b, h).next) <= pace.bound
  }

  lemma PacedTake<C(!new), H(!new)>(d: Deflater<C, H>, pace: Pace<C>, c: C, b: byte, h: H)
    requires Paced(d, pace) && pace.holds(c) <= pace.bound
    ensures |d.take(c, b, h).out| + pace.holds(d.take(c, b, h).next) <= pace.bound
  {
  }

  /**
   * `reliable` rules out backend faults; without it any call may fail, or take and
   * hand over nothing for as long as it pleases. Without a
   * `pace` nothing is known of how much the backend holds back while it is fed.
   */
  class Compressor<C(!new, 0), H(!new, 0)> {
    const deflater: Deflater<C, H>
    const reliable: bool
    const pace: Option<Pace<C>>
    var state: C
    /** Octets written but not yet handed over. */
    var pending: bytes
    /** A flush filled its room exactly, which the backend cannot tell from an unfinished one. */
    var rearmed: bool
    /** The last call was refused, or ended the stream. */
    var faulted: bool
    /** The last call had octets to take, and neither took nor handed over any. */
    var stalled: bool
    var totalIn: nat
    var totalOut: nat

    ghost predicate Idle()
      reads this
    {
      pending == [] && !rearmed
    }

    ghost predicate Prompt()
      reads this
    {
      && pace.Some? && Paced(deflater, pace.value)
      && |pending| + pace.value.holds(state) <= pace.value.bound
    }

    constructor (deflater: Deflater<C, H>, reliable: bool, pace: Option<Pace<C>>)
      ensures this.deflater == deflater && this.reliable == reliable && this.pace == pace
      ensures state == deflater.start && Idle()
    {
      this.deflater, this.reliable, this.pace := deflater, reliable, pace;
      state, pending, rearmed := deflater.start, [], false;
      faulted, stalled := false, false;
      totalIn, totalOut := 0, 0;
    }

    method Reset()
      modifies this
      ensures state == deflater.start && Idle()
    {
      state, pending, rearmed := deflater.start, [], false;
      faulted, stalled := false, false;
      totalIn, totalOut := 0, 0;
    }

    /** A call that takes and hands over as the backend pleases, within its pace if it keeps one. */
    method TakeSome(input: bytes, room: nat) returns (consumed: nat, chunk: bytes, hints: seq<H>)
      modifies this`state, this`pending
      ensures consumed <= |input| && |chunk| <= room && |hints| == consumed
      ensures var fed := TakeAll(deflater, old(state), input[..consumed], hints);
        && state == fed.next
        && old(pending) + fed.out == chunk + pending
        && (room > 0 && input != [] ==> consumed + |chunk| > 0)
      ensures old(Prompt()) ==> Prompt()
    {
      var delivers: bool := *;
      if delivers && pending != [] {
        consumed := 0;
      } else {
        consumed :| consumed <= |input| && (input != [] ==> consumed > 0);
      }
      hints := *;
      if |hints| < consumed {
        var any: H := *;
        hints := seq(consumed, _ => any);
      }
      hints := hints[..consumed];
      var fed := TakeAll(deflater, state, input[..consumed], hints);
      var n: nat :| n <= room && n <= |pending + fed.out| && (room > 0 && consumed == 0 && pending != [] ==> n > 0);
      if pace.Some? && |pending + fed.out| - n + pace.value.holds(fed.next) > pace.value.bound {
        // Too much to hold back: hand over first, and take one octet once there is nothing to hand over.
        if pending != [] || input == [] {
          consumed, n, hints := 0, if pending != [] && room > 0 then 1 else 0, [];
          assert input[..0] == [];
        } else {
          consumed, n, hints := 1, 0, hints[..1];
          assert input[..1] == [input[0]] && hints == [hints[0]];
          TakeOne(deflater, state, input[0], hints[0]);
          if Prompt() { PacedTake(deflater, pace.value, state, input[0], hints[0]); }
        }
        fed := TakeAll(deflater, state, input[..consumed], hints);
      }
      chunk := (pending + fed.out)[..n];
      state, pending := fed.next, (pending + fed.out)[n..];
    }

    method Compress(input: bytes, mode: FlushMode, room: nat)
      returns (r: Result<Status, ()>, chunk: bytes, ghost consumed: nat, ghost hints: seq<H>)
      requires mode.Sync? ==> input == []
      requires mode.NoFlush? ==> !rearmed
      modifies this
      ensures consumed <= |input| && |chunk| <= room
      ensures reliable ==> r.Ok? && r.value != StreamEnd
      ensures faulted <==> r.Err? || r.value == StreamEnd
      ensures stalled <==> !faulted && input != [] && consumed == 0 && chunk == []
      ensures r.Ok? && r.value != StreamEnd ==>
        totalIn == old(totalIn) + consumed && totalOut == old(totalOut) + |chunk|
      ensures r.Ok? && r.value != StreamEnd && mode.NoFlush? ==>
        && |hints| == consumed && !rearmed
        && var fed := TakeAll(deflater, old(state), input[..consumed], hints);
        && state == fed.next
        && old(pending) + fed.out == chunk + pending
        && (reliable && room > 0 && input != [] ==> consumed + |chunk| > 0)
        && (old(Prompt()) ==> Prompt())
      ensures r.Ok? && r.value != StreamEnd && mode.Sync? ==>
        && |hints| == 1
        && var again := old(rearmed) && old(pending) == [];
        && var flushed := if again then Gave(old(state), EMPTY_BLOCK) else Flush(deflater, old(state), hints[0]);
        && state == flushed.next
        && old(pending) + flushed.out == chunk + pending
        && (|chunk| < room ==> pending == [])
        && rearmed == (|chunk| == room && pending == [])
    {
      var faults: bool := *;
      if !reliable && faults {
        var stalls: bool := *;
        faulted, stalled := !(stalls && mode.NoFlush?), stalls && mode.NoFlush? && input != [];
        if !faulted {
          assert input[..0] == [];
          return Ok(Fine), [], 0, [];
        }
        state, pending, rearmed, totalIn, totalOut := *, *, *, *, *;
        var hard: bool := *;
        return if hard then Err(()) else Ok(StreamEnd), [], 0, [];
      }
      faulted, stalled := false, false;
      if mode.NoFlush? {
        var taken;
        taken, chunk, hints := TakeSome(input, room);
        consumed, totalIn := taken, totalIn + taken;
        stalled := input != [] && taken == 0 && chunk == [];
      } else {
        var any: H := *;
        var flushed := if rearmed && pending == [] then Gave(state, EMPTY_BLOCK) else Flush(deflater, state, any);
        hints := [any];
        consumed := 0;
        state, pending := flushed.next, pending + flushed.out;
        var n := if |pending| < room then |pending| else room;
        chunk, pending := pending[..n], pending[n..];
        rearmed := n == room && pending == [];
      }
      totalOut := totalOut + |chunk|;
      var quiet: bool := *;
      r := Ok(if quiet then BufError else Fine);
    }
  }
}
