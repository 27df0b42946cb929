/**
 * What a compressor and an inflater owe each other: a flushed chunk inflates to
 * its payload at any peer holding at least the history the compressor may refer to.
 */
module Formats {
  import opened Sequences
  import opened Wrappers
  import opened Sizes
  import opened Octets
  import opened Transducer
  import opened Decoding
  import opened Compressors
  import opened Encoding

  /**
   * Both ends of one direction. `boundary` marks an inflater between blocks and
   * octets, `history` what it has inflated since its stream began; `synced` marks
   * a compressor between chunks, `reach` what it has taken since its last reset.
   */
  datatype Format<!S, !C, !H> = Format(
    machine: Machine<S>,
    deflater: Deflater<C, H>,
    boundary: S -> bool,
    history: S -> bytes,
    synced: C -> bool,
    reach: C -> bytes)

  /** `w` inflates to exactly `p` here, ending no stream and leaving the inflater between blocks. */
  ghost predicate Inflates<S, C, H>(f: Format<S, C, H>, pos: Pos<S>, w: bytes, p: bytes) {
    var d := Decode(f.machine, pos, w);
    && d.Decoded? && !d.ended && d.out == p
    && f.boundary(d.pos.state)
    && f.history(d.pos.state) == f.history(pos.state) + p
    && d.pos.open == (pos.open || w != [])
  }

  ghost predicate SegmentLaw<S(!new), C, H>(f: Format<S, C, H>, c: C, p: bytes, c': C, w: bytes) {
    && f.synced(c') && f.reach(c') == f.reach(c) + p
    && (if w == [] then p == [] else |w| > |TRAILER| && EndsWith(w, TRAILER))
    && forall pos: Pos<S> {:trigger Inflates(f, pos, w, p)} ::
         f.boundary(pos.state) && IsSuffix(f.reach(c), f.history(pos.state)) ==> Inflates(f, pos, w, p)
  }

  ghost predicate Lawful<S(!new), C(!new), H(!new)>(f: Format<S, C, H>) {
    && Drains(f.deflater)
    && f.boundary(f.machine.start) && f.history(f.machine.start) == []
    && f.synced(f.deflater.start) && f.reach(f.deflater.start) == []
    && (forall pos: Pos<S> {:trigger Inflates(f, pos, EMPTY_BLOCK, [])} ::
          f.boundary(pos.state) ==> Inflates(f, pos, EMPTY_BLOCK, []))
    && (forall c, p, c', w {:trigger SegmentLaw(f, c, p, c', w)} ::
          f.synced(c) && Segment(f.deflater, c, p, c', w) ==> SegmentLaw(f, c, p, c', w))
  }

  /** One after the other. */
  lemma InflatesThen<S, C, H>(f: Format<S, C, H>, pos: Pos<S>, v: bytes, p: bytes, w: bytes, q: bytes)
    requires Inflates(f, pos, v, p)
    requires Inflates(f, Decode(f.machine, pos, v).pos, w, q)
    ensures Inflates(f, pos, v + w, p + q)
    ensures Decode(f.machine, pos, v + w).pos == Decode(f.machine, Decode(f.machine, pos, v).pos, w).pos
  {
    DecodeConcat(f.machine, pos, v, w);
    Regroup(f.history(pos.state), p, q);
  }

  /** The compressor's side of a flushed chunk: between chunks again, and reaching back over this one too. */
  lemma ReachGrows<S(!new), C(!new), H(!new)>(f: Format<S, C, H>, c: C, p: bytes, c': C, out: bytes)
    requires Lawful(f) && f.synced(c) && Aligned(f.deflater, c, p, c', out)
    ensures f.synced(c') && f.reach(c') == f.reach(c) + p
  {
    var w, redundant :| IsAligned(f.deflater, c, p, c', out, w, redundant);
    assert SegmentLaw(f, c, p, c', w);
  }

  /** What both producers start from: the flushed chunk inflates to its payload, redundant block or not. */
  lemma AlignedLaw<S(!new), C(!new), H(!new)>(f: Format<S, C, H>, c: C, p: bytes, c': C, out: bytes, pos: Pos<S>)
    requires Lawful(f) && f.synced(c) && Aligned(f.deflater, c, p, c', out)
    requires f.boundary(pos.state) && IsSuffix(f.reach(c), f.history(pos.state))
    ensures Inflates(f, pos, out, p)
    ensures if out == [] then p == [] else |out| > |TRAILER| && EndsWith(out, TRAILER)
  {
    var w, redundant :| IsAligned(f.deflater, c, p, c', out, w, redundant);
    assert SegmentLaw(f, c, p, c', w);
    assert Inflates(f, pos, w, p);
    if redundant {
      InflatesThen(f, pos, w, p, EMPTY_BLOCK, []);
      assert p + [] == p;
      assert out[|out| - 4..] == TRAILER;
    } else {
      assert out == w;
    }
  }

  /** Under the law neither producer ever meets an output it must refuse. */
  lemma ProducersNeverRefuse<S(!new), C(!new), H(!new)>(f: Format<S, C, H>, c: C, p: bytes, c': C, out: bytes)
    requires Lawful(f) && f.synced(c) && Aligned(f.deflater, c, p, c', out)
    ensures StripOrSynthesize(p, out).Ok? && EndsAligned(p, out)
  {
    var w, redundant :| IsAligned(f.deflater, c, p, c', out, w, redundant);
    assert SegmentLaw(f, c, p, c', w);
    if redundant { assert out[|out| - 4..] == TRAILER; } else { assert out == w; }
  }

  /** A reliable backend's prepares therefore succeed. */
  lemma LawfulIsAcceptable<S(!new), C(!new), H(!new)>(f: Format<S, C, H>, c: C, p: bytes)
    requires Lawful(f) && f.synced(c)
    ensures Acceptable(f.deflater, c, p)
  {
    forall c', out | Aligned(f.deflater, c, p, c', out)
      ensures EndsAligned(p, out)
    {
      ProducersNeverRefuse(f, c, p, c', out);
    }
  }

  /** From any point between chunks any payload can be brought through steps 1 and 2. */
  lemma SomeAligned<C(!new), H(!new, 0)>(d: Deflater<C, H>, c: C, p: bytes) returns (c': C, out: bytes)
    ensures Aligned(d, c, p, c', out)
  {
    var h: H := *;
    var hints := seq(|p|, _ => h);
    var fed := TakeAll(d, c, p, hints);
    c', out := Flush(d, fed.next, h).next, fed.out + Flush(d, fed.next, h).out;
    SegmentBy(d, c, p, hints, h);
    assert out + [] == out;
    assert IsAligned(d, c, p, c', out, out, false);
  }

  /** So a whole message, or a last fragment, can always be prepared. */
  lemma SomeFinal<S(!new), C(!new), H(!new, 0)>(f: Format<S, C, H>, c: C, p: bytes) returns (c': C, wire: bytes)
    requires Lawful(f) && f.synced(c)
    ensures PreparesFinal(f.deflater, c, p, c', wire)
  {
    var out;
    c', out := SomeAligned(f.deflater, c, p);
    ProducersNeverRefuse(f, c, p, c', out);
    wire := StripOrSynthesize(p, out).value;
  }

  /** And so can a fragment before the last. */
  lemma SomeNonFinal<S(!new), C(!new), H(!new, 0)>(f: Format<S, C, H>, c: C, p: bytes) returns (c': C, wire: bytes)
    requires Lawful(f) && f.synced(c)
    ensures PreparesNonFinal(f.deflater, c, p, c', wire)
  {
    c', wire := SomeAligned(f.deflater, c, p);
    ProducersNeverRefuse(f, c, p, c', wire);
  }

  /** The position a decoder ends a message in. */
  function Closed<S>(m: Machine<S>, reset: bool, pos: Pos<S>): Pos<S> {
    if reset then Start(m) else pos
  }

  /** Octets that end no stream leave one open. */
  lemma {:induction false} OpensOnceFed<S>(m: Machine<S>, p: Pos<S>, w: bytes)
    requires Decode(m, p, w).Decoded? && !Decode(m, p, w).ended
    ensures Decode(m, p, w).pos.open == (p.open || w != [])
    decreases |w|
  {
    if w != [] {
      match m.eat(p.state, w[0])
      case More(next, out) => OpensOnceFed(m, Pos(next, true), w[1..]);
    }
  }

  /** The octets stripped are the octets fed back: a last fragment is its chunk plus the trailer. */
  lemma TrailerRestored<S(!new), C(!new), H(!new)>(f: Format<S, C, H>, c: C, p: bytes, c': C, wire: bytes, pos: Pos<S>)
    requires Lawful(f) && f.synced(c) && PreparesFinal(f.deflater, c, p, c', wire)
    requires f.boundary(pos.state) && IsSuffix(f.reach(c), f.history(pos.state))
    ensures wire != [] && Inflates(f, pos, wire + TRAILER, p)
  {
    var out :| Aligned(f.deflater, c, p, c', out) && StripOrSynthesize(p, out) == Ok(wire);
    AlignedLaw(f, c, p, c', out, pos);
    if out == [] {
      assert wire + TRAILER == EMPTY_BLOCK;
      assert Inflates(f, pos, EMPTY_BLOCK, []);
    } else {
      assert wire + TRAILER == out;
    }
  }

  /** The decoder's view of such a fragment. */
  lemma ClosingFragment<S, C, H>(f: Format<S, C, H>, ch: Channel<S>, wire: bytes, p: bytes, reset: bool, limit: nat)
    requires wire != [] && Inflates(f, ch.pos, wire + TRAILER, p)
    ensures var pos := Decode(f.machine, ch.pos, wire + TRAILER).pos;
      Fragment(f.machine, reset, ch, wire, true, limit) ==
        if SatAdd(ch.delivered, |p|) <= limit then Some((Channel(Closed(f.machine, reset, pos), 0), p)) else None
  {
    DecodeConcat(f.machine, ch.pos, wire, TRAILER);
    OpensOnceFed(f.machine, ch.pos, wire);
  }

  lemma OpenFragment<S, C, H>(f: Format<S, C, H>, ch: Channel<S>, wire: bytes, p: bytes, reset: bool, limit: nat)
    requires Inflates(f, ch.pos, wire, p)
    ensures var pos := Decode(f.machine, ch.pos, wire).pos;
      var total := SatAdd(ch.delivered, |p|);
      Fragment(f.machine, reset, ch, wire, false, limit) ==
        if total <= limit then Some((Channel(pos, total), p)) else None
  {
  }
}
