/**
 * The contract is not empty: stored blocks, octet for octet (section 3.2.4 of
 * RFC 1951), read by a machine and written by a compressor that obey it.
 */
module StoredBlocks {
  import opened Sequences
  import opened Wrappers
  import opened Errors
  import opened Octets
  import opened Transducer
  import opened Compressors
  import opened Encoding
  import opened Formats

  const MAX_STORED: nat := 65_535

  // ---- The reader.

  /** Between blocks, inside LEN and NLEN, or inside a block's data. */
  datatype Reader =
    | AtBlock(history: bytes)
    | InLength(history: bytes, final: bool, seen: bytes)
    | InData(history: bytes, final: bool, left: nat)

  function EndBlock(history: bytes, final: bool, out: bytes): Fed<Reader> {
    if final then Final(out) else More(AtBlock(history), out)
  }

  function LittleEndian(lo: byte, hi: byte): nat {
    lo as int + 256 * (hi as int)
  }

  /** One octet: the header's low three bits are BFINAL and BTYPE, the rest padding. */
  function Read(s: Reader, b: byte): Fed<Reader> {
    match s
    case AtBlock(history) =>
      if b % 8 <= 1 then More(InLength(history, b % 8 == 1, []), []) else Bad
    case InLength(history, final, seen) =>
      if |seen| < 3 then More(InLength(history, final, seen + [b]), [])
      else if seen[0] as int + seen[2] as int != 255 || seen[1] as int + b as int != 255 then Bad
      else if LittleEndian(seen[0], seen[1]) == 0 then EndBlock(history, final, [])
      else More(InData(history, final, LittleEndian(seen[0], seen[1])), [])
    case InData(history, final, left) =>
      if left <= 1 then EndBlock(history + [b], final, [b])
      else More(InData(history + [b], final, left - 1), [b])
  }

  // ---- The writer.

  /** What a writer can still hold back: less than one whole block. */
  type Unsent = b: bytes | |b| < MAX_STORED

  datatype Writer = Writer(history: bytes, buffer: Unsent, flushed: bool)

  /** BFINAL unset, BTYPE 00, padding, then LEN and its complement, low octets first. */
  function Header(lo: byte, hi: byte): bytes {
    [0, lo, hi, 255 - lo, 255 - hi]
  }

  function StoredBlock(data: bytes): bytes
    requires |data| <= MAX_STORED
  {
    Header(|data| % 256, |data| / 256) + data
  }

  /** A block goes out when it is full, or wherever the backend chooses to cut. */
  function Take(c: Writer, b: byte, cut: bool): Gave<Writer> {
    var buffer := c.buffer + [b];
    if |buffer| == MAX_STORED || cut
    then Gave(Writer(c.history + buffer, [], false), StoredBlock(buffer))
    else Gave(Writer(c.history, buffer, false), [])
  }

  function Sync(c: Writer, cut: bool): Gave<Writer> {
    Gave(Writer(c.history + c.buffer, [], true),
         (if c.buffer == [] then [] else StoredBlock(c.buffer)) + EMPTY_BLOCK)
  }

  function TheMachine(): Machine<Reader> {
    Machine(AtBlock([]), Read)
  }

  function TheDeflater(): Deflater<Writer, bool> {
    Deflater(Writer([], [], false), Take, Sync, (c: Writer) => c.flushed)
  }

  function TheFormat(): Format<Reader, Writer, bool> {
    Format(TheMachine(), TheDeflater(),
           (s: Reader) => s.AtBlock?,
           (s: Reader) => if s.AtBlock? then s.history else [],
           (c: Writer) => c.buffer == [],
           (c: Writer) => c.history + c.buffer)
  }

  // ---- Reading back what was written.

  lemma {:induction false} ReadsData(history: bytes, data: bytes)
    requires data != []
    ensures Decode(TheMachine(), Pos(InData(history, false, |data|), true), data)
      == Decoded(Pos(AtBlock(history + data), true), data, false)
    decreases |data|
  {
    var b := data[0];
    assert data == [b] + data[1..];
    if |data| == 1 {
      assert data[1..] == [] && data == [b];
      var next := Pos(AtBlock(history + [b]), true);
      assert Decode(TheMachine(), next, []) == Decoded(next, [], false);
    } else {
      ReadsData(history + [b], data[1..]);
      assert history + [b] + data[1..] == history + data;
    }
  }

  /** Where a header of length `n` leaves the reader. */
  function Opened(history: bytes, n: nat): Pos<Reader> {
    Pos(if n == 0 then AtBlock(history) else InData(history, false, n), true)
  }

  lemma ReadsComplement(history: bytes, lo: byte, hi: byte)
    ensures Decode(TheMachine(), Pos(InLength(history, false, [lo, hi]), true), [255 - lo, 255 - hi])
      == Decoded(Opened(history, LittleEndian(lo, hi)), [], false)
  {
    var nlo: byte, nhi: byte := 255 - lo, 255 - hi;
    QuietStep(TheMachine(), Pos(InLength(history, false, [lo, hi]), true), nlo, [nhi]);
    assert [nlo] + [nhi] == [nlo, nhi];
    assert [lo, hi] + [nlo] == [lo, hi, nlo];
    QuietStep(TheMachine(), Pos(InLength(history, false, [lo, hi, nlo]), true), nhi, []);
    assert [nhi] + [] == [nhi];
  }

  lemma ReadsHeader(history: bytes, open: bool, lo: byte, hi: byte)
    ensures Decode(TheMachine(), Pos(AtBlock(history), open), Header(lo, hi))
      == Decoded(Opened(history, LittleEndian(lo, hi)), [], false)
  {
    var tail: bytes := [255 - lo, 255 - hi];
    QuietStep(TheMachine(), Pos(AtBlock(history), open), 0, [lo, hi] + tail);
    assert [0] + ([lo, hi] + tail) == Header(lo, hi);
    QuietStep(TheMachine(), Pos(InLength(history, false, []), true), lo, [hi] + tail);
    assert [lo] + ([hi] + tail) == [lo, hi] + tail;
    assert [] + [lo] == [lo];
    QuietStep(TheMachine(), Pos(InLength(history, false, [lo]), true), hi, tail);
    assert [lo] + [hi] == [lo, hi];
    ReadsComplement(history, lo, hi);
  }

  /** From this boundary, `w` is read as exactly `p` and leaves the reader at a boundary. */
  ghost predicate Reads(pos: Pos<Reader>, w: bytes, p: bytes) {
    && pos.state.AtBlock?
    && Decode(TheMachine(), pos, w) == Decoded(Reached(pos, w, p), p, false)
  }

  function Reached(pos: Pos<Reader>, w: bytes, p: bytes): Pos<Reader>
    requires pos.state.AtBlock?
  {
    Pos(AtBlock(pos.state.history + p), pos.open || w != [])
  }

  lemma ReadsNothing(pos: Pos<Reader>)
    requires pos.state.AtBlock?
    ensures Reads(pos, [], [])
  {
    assert pos.state.history + [] == pos.state.history;
  }

  lemma ReadsThen(pos: Pos<Reader>, v: bytes, p: bytes, w: bytes, q: bytes)
    requires Reads(pos, v, p) && Reads(Reached(pos, v, p), w, q)
    ensures Reads(pos, v + w, p + q)
  {
    DecodeConcat(TheMachine(), pos, v, w);
    Regroup(pos.state.history, p, q);
  }

  /** A stored block is read as its data, from any boundary and any history. */
  lemma ReadsBlock(pos: Pos<Reader>, data: bytes)
    requires pos.state.AtBlock? && |data| <= MAX_STORED
    ensures Reads(pos, StoredBlock(data), data)
  {
    var lo: byte, hi: byte := |data| % 256, |data| / 256;
    var head := Header(lo, hi);
    assert LittleEndian(lo, hi) == |data|;
    ReadsHeader(pos.state.history, pos.open, lo, hi);
    if data == [] {
      assert head + data == head && pos.state.history + data == pos.state.history;
    } else {
      DecodeConcat(TheMachine(), pos, head, data);
      ReadsData(pos.state.history, data);
    }
  }

  // ---- The contract.

  lemma SplitBuffer(buffer: bytes, p: bytes, let: bytes, held: bytes, rest: bytes, last: bytes)
    requires p != [] && buffer + [p[0]] == let + held && held + p[1..] == rest + last
    ensures buffer + p == (let + rest) + last
  {
    assert p == [p[0]] + p[1..];
    Regroup(buffer, [p[0]], p[1..]);
    Regroup(let, held, p[1..]);
    Regroup(let, rest, last);
  }

  /** Everything the writer sends while taking a chunk is read as what its buffer has let go. */
  lemma {:induction false} TakesRead(c: Writer, p: bytes, cuts: seq<bool>, pos: Pos<Reader>)
    returns (gone: bytes)
    requires |cuts| == |p| && pos.state.AtBlock?
    ensures var g := TakeAll(TheDeflater(), c, p, cuts);
      && c.buffer + p == gone + g.next.buffer
      && g.next.history == c.history + gone
      && Reads(pos, g.out, gone)
      && (if p == [] then g == Gave(c, []) else !g.next.flushed)
    decreases |p|
  {
    if p == [] {
      gone := [];
      ReadsNothing(pos);
      assert c.buffer + p == gone + c.buffer && c.history + gone == c.history;
    } else {
      var first := Take(c, p[0], cuts[0]);
      var let := TakeReads(c, p[0], cuts[0], pos);
      var after := Reached(pos, first.out, let);
      var rest := TakesRead(first.next, p[1..], cuts[1..], after);
      var g := TakeAll(TheDeflater(), first.next, p[1..], cuts[1..]);
      ReadsThen(pos, first.out, let, g.out, rest);
      gone := let + rest;
      SplitBuffer(c.buffer, p, let, first.next.buffer, rest, g.next.buffer);
      Regroup(c.history, let, rest);
    }
  }

  lemma TakeReads(c: Writer, b: byte, cut: bool, pos: Pos<Reader>) returns (let: bytes)
    requires pos.state.AtBlock?
    ensures var g := Take(c, b, cut);
      && c.buffer + [b] == let + g.next.buffer
      && g.next.history == c.history + let
      && Reads(pos, g.out, let)
  {
    var buffer := c.buffer + [b];
    if Take(c, b, cut).next.buffer == [] {
      let := buffer;
      ReadsBlock(pos, buffer);
      assert buffer == let + [];
    } else {
      let := [];
      ReadsNothing(pos);
      assert buffer == let + buffer && c.history + let == c.history;
    }
  }

  lemma SyncReads(c: Writer, cut: bool, pos: Pos<Reader>)
    requires pos.state.AtBlock?
    ensures Reads(pos, Sync(c, cut).out, c.buffer)
  {
    var block := if c.buffer == [] then [] else StoredBlock(c.buffer);
    if c.buffer == [] { ReadsNothing(pos); } else { ReadsBlock(pos, c.buffer); }
    ReadsBlock(Reached(pos, block, c.buffer), []);
    assert StoredBlock([]) == EMPTY_BLOCK;
    ReadsThen(pos, block, c.buffer, EMPTY_BLOCK, []);
    assert c.buffer + [] == c.buffer;
  }

  /** A whole chunk, from a compressor that holds nothing back. */
  lemma SegmentReads(c: Writer, p: bytes, cuts: seq<bool>, h: bool, pos: Pos<Reader>)
    requires c.buffer == [] && |cuts| == |p| && pos.state.AtBlock?
    ensures var fed := TakeAll(TheDeflater(), c, p, cuts);
      var flushed := Flush(TheDeflater(), fed.next, h);
      && Reads(pos, fed.out + flushed.out, p)
      && flushed.next.buffer == [] && flushed.next.history == c.history + p
  {
    var fed := TakeAll(TheDeflater(), c, p, cuts);
    var gone := TakesRead(c, p, cuts, pos);
    assert c.buffer + p == p;
    Regroup(c.history, gone, fed.next.buffer);
    if fed.next.flushed {
      assert fed.out + [] == fed.out && c.history + p == c.history;
    } else {
      SyncReads(fed.next, h, Reached(pos, fed.out, gone));
      ReadsThen(pos, fed.out, gone, Sync(fed.next, h).out, fed.next.buffer);
    }
  }

  lemma SegmentEnds(c: Writer, p: bytes, cuts: seq<bool>, h: bool)
    requires c.buffer == [] && |cuts| == |p|
    ensures var fed := TakeAll(TheDeflater(), c, p, cuts);
      var w := fed.out + Flush(TheDeflater(), fed.next, h).out;
      if p == [] && c.flushed then w == [] else |w| > |TRAILER| && EndsWith(w, TRAILER)
  {
    var fed := TakeAll(TheDeflater(), c, p, cuts);
    var gone := TakesRead(c, p, cuts, Start(TheMachine()));
    if !fed.next.flushed {
      var out := Sync(fed.next, h).out;
      EndsWithGrows(out[..|out| - 5], EMPTY_BLOCK, TRAILER);
      assert out == out[..|out| - 5] + EMPTY_BLOCK;
      EndsWithGrows(fed.out, out, TRAILER);
    }
  }

  lemma StoredSegment(c: Writer, p: bytes, c': Writer, w: bytes)
    requires c.buffer == [] && Segment(TheDeflater(), c, p, c', w)
    ensures SegmentLaw(TheFormat(), c, p, c', w)
  {
    var cuts, h :| |cuts| == |p| && IsSegment(TheDeflater(), c, p, c', w, cuts, h);
    SegmentReads(c, p, cuts, h, Start(TheMachine()));
    SegmentEnds(c, p, cuts, h);
    Nothing(c.history, p);
    Nothing(c'.history, []);
    forall pos: Pos<Reader> | pos.state.AtBlock?
      ensures Inflates(TheFormat(), pos, w, p)
    {
      SegmentReads(c, p, cuts, h, pos);
      ReadsInflate(pos, w, p);
    }
  }

  lemma Nothing(before: bytes, behind: bytes)
    ensures before + [] + behind == before + behind && [] + behind == behind
  {
  }

  lemma ReadsInflate(pos: Pos<Reader>, w: bytes, p: bytes)
    requires Reads(pos, w, p)
    ensures Inflates(TheFormat(), pos, w, p)
  {
  }

  /** Stored blocks meet the whole contract. */
  lemma StoredIsLawful()
    ensures Lawful(TheFormat())
  {
    var f := TheFormat();
    forall pos: Pos<Reader> | f.boundary(pos.state)
      ensures Inflates(f, pos, EMPTY_BLOCK, [])
    {
      ReadsBlock(pos, []);
      assert StoredBlock([]) == EMPTY_BLOCK;
    }
    forall c, p, c', w | f.synced(c) && Segment(f.deflater, c, p, c', w)
      ensures SegmentLaw(f, c, p, c', w)
    {
      StoredSegment(c, p, c', w);
    }
  }

  // ---- Blocks as long as they can be, and the room their flush needs.

  /** The same compressor with nothing left to choose: a block is cut when it is full, or by a flush. */
  function MaximalDeflater(): Deflater<Writer, ()> {
    Deflater(Writer([], [], false),
             (c: Writer, b: byte, h: ()) => Take(c, b, false), (c: Writer, h: ()) => Sync(c, false),
             (c: Writer) => c.flushed)
  }

  function MaximalFormat(): Format<Reader, Writer, ()> {
    var f := TheFormat();
    Format(TheMachine(), MaximalDeflater(), f.boundary, f.history, f.synced, f.reach)
  }

  /** It holds back at most one maximal block: octets still buffered, or a block not yet handed over. */
  function BlockPace(): Pace<Writer> {
    Pace((c: Writer) => |c.buffer|, MAX_STORED + 5)
  }

  lemma BlocksArePaced()
    ensures Paced(MaximalDeflater(), BlockPace()) && Drains(MaximalDeflater())
  {
  }

  /** A payload cut into blocks as long as they can be. */
  function Blocks(p: bytes): bytes
    decreases |p|
  {
    if p == [] then []
    else if |p| <= MAX_STORED then StoredBlock(p)
    else StoredBlock(p[..MAX_STORED]) + Blocks(p[MAX_STORED..])
  }

  /** Those blocks and one empty one, or nothing at all for nothing behind a flush. */
  function MaximalWire(flushed: bool, p: bytes): bytes {
    if flushed && p == [] then [] else Blocks(p) + EMPTY_BLOCK
  }

  lemma BlocksSplit(full: bytes, rest: bytes)
    requires |full| == MAX_STORED
    ensures Blocks(full + rest) == StoredBlock(full) + Blocks(rest)
  {
    if rest == [] {
      assert full + rest == full;
    } else {
      assert (full + rest)[..MAX_STORED] == full && (full + rest)[MAX_STORED..] == rest;
    }
  }

  /** Every block costs five octets beside its data. */
  lemma {:induction false} BlocksCost(p: bytes)
    ensures |Blocks(p)| == |p| + 5 * ((|p| + MAX_STORED - 1) / MAX_STORED)
    decreases |p|
  {
    if |p| > MAX_STORED { BlocksCost(p[MAX_STORED..]); }
  }

  /** Taken octet by octet, a payload leaves as those blocks, but for what is still buffered. */
  lemma {:induction false} TakesBlocks(c: Writer, p: bytes, hints: seq<()>)
    requires |hints| == |p|
    ensures var g := TakeAll(MaximalDeflater(), c, p, hints);
      && Blocks(c.buffer + p) == g.out + Blocks(g.next.buffer)
      && g.next.history + g.next.buffer == c.history + c.buffer + p
      && g.next.flushed == (c.flushed && p == [])
    decreases |p|
  {
    if p == [] {
      assert c.buffer + p == c.buffer && c.history + c.buffer + p == c.history + c.buffer;
    } else {
      var first := Take(c, p[0], false);
      var g := TakeAll(MaximalDeflater(), first.next, p[1..], hints[1..]);
      TakesBlocks(first.next, p[1..], hints[1..]);
      TakesOne(c, p);
      Regroup(first.out, g.out, Blocks(g.next.buffer));
    }
  }

  lemma FirstApart(before: bytes, p: bytes)
    requires p != []
    ensures before + p == before + [p[0]] + p[1..]
  {
    assert p == [p[0]] + p[1..];
    Regroup(before, [p[0]], p[1..]);
  }

  lemma TakesOne(c: Writer, p: bytes)
    requires p != []
    ensures var first := Take(c, p[0], false);
      && Blocks(c.buffer + p) == first.out + Blocks(first.next.buffer + p[1..])
      && first.next.history + first.next.buffer + p[1..] == c.history + c.buffer + p
  {
    var buffer := c.buffer + [p[0]];
    FirstApart(c.buffer, p);
    Regroup(c.history, c.buffer, p);
    Regroup(c.history, buffer, p[1..]);
    if |buffer| == MAX_STORED {
      BlocksSplit(buffer, p[1..]);
      Nothing(c.history + buffer, p[1..]);
    } else {
      Nothing([], Blocks(buffer + p[1..]));
    }
  }

  /** What the whole chunk puts on the wire, flushed. */
  lemma MaximalSegment(c: Writer, p: bytes, hints: seq<()>, h: ())
    requires c.buffer == [] && |hints| == |p|
    ensures var fed := TakeAll(MaximalDeflater(), c, p, hints);
      var flushed := Flush(MaximalDeflater(), fed.next, h);
      && fed.out + flushed.out == MaximalWire(c.flushed, p)
      && |flushed.out| <= |fed.next.buffer| + 10
      && flushed.next == Writer(c.history + p, [], true)
  {
    var fed := TakeAll(MaximalDeflater(), c, p, hints);
    TakesBlocks(c, p, hints);
    Nothing(c.history, p);
    Nothing(fed.next.history, []);
    if !fed.next.flushed {
      Regroup(fed.out, Blocks(fed.next.buffer), EMPTY_BLOCK);
    }
  }

  /**
   * What the completing flush has to fit always leaves its room unfilled, so a
   * chunk of any length goes out as its blocks and one empty one, in one call.
   * While the whole payload is under the ceiling that holds whatever was left
   * unsent, and no more than fifteen of the margin's octets are used; past it
   * the compressor must hold back no more than one maximal block.
   */
  lemma NoRedundantBlock(c: Writer, p: bytes, c': Writer, w: bytes, output: bytes, way: Passage<()>)
    requires c.buffer == [] && Passes(MaximalDeflater(), c, p, c', w, output, way)
    requires |p| + FRAMING_MARGIN > BLOCK_ROOM ==>
      |way.backlog| + |TakeAll(MaximalDeflater(), c, p, way.hints).next.buffer| <= MAX_STORED + 5
    ensures var fed := TakeAll(MaximalDeflater(), c, p, way.hints);
      var residue := |way.backlog + Flush(MaximalDeflater(), fed.next, way.flush).out|;
      && residue < RoomFor(|p|)
      && (|p| + FRAMING_MARGIN <= BLOCK_ROOM ==> residue + 49 <= RoomFor(|p|))
    ensures output == MaximalWire(c.flushed, p) && way.flushes == 1
    ensures c' == Writer(c.history + p, [], true)
  {
    MaximalSegment(c, p, way.hints, way.flush);
    BlocksCost(p);
  }

  /** Steps 1 and 2 over such a backend, for a payload of any length. */
  method ProduceStored(compressor: Compressor<Writer, ()>, payload: bytes)
    returns (r: Result<bytes, CodecError>, ghost flushes: nat)
    requires compressor.deflater == MaximalDeflater() && compressor.pace == Some(BlockPace())
    requires compressor.Idle() && compressor.state.buffer == []
    modifies compressor
    ensures compressor.reliable ==> r.Ok?
    ensures r.Ok? ==>
      && r.value == MaximalWire(old(compressor.state).flushed, payload) && flushes == 1
      && compressor.Idle() && compressor.state == Writer(old(compressor.state).history + payload, [], true)
  {
    BlocksArePaced();
    ghost var c := compressor.state;
    ghost var w, way;
    r, w, way := ProduceAligned(compressor, payload);
    flushes := way.flushes;
    if r.Ok? { NoRedundantBlock(c, payload, compressor.state, w, r.value, way); }
  }

  // ---- The compressor without choices meets the contract too.

  lemma {:induction false} NeverCut(c: Writer, p: bytes, hints: seq<()>)
    requires |hints| == |p|
    ensures TakeAll(MaximalDeflater(), c, p, hints) == TakeAll(TheDeflater(), c, p, seq(|p|, _ => false))
    decreases |p|
  {
    if p != [] {
      NeverCut(Take(c, p[0], false).next, p[1..], hints[1..]);
      assert seq(|p|, _ => false)[1..] == seq(|p[1..]|, _ => false);
    }
  }

  lemma MaximalIsStored(c: Writer, p: bytes, c': Writer, w: bytes)
    requires Segment(MaximalDeflater(), c, p, c', w)
    ensures Segment(TheDeflater(), c, p, c', w)
  {
    var hints, h :| |hints| == |p| && IsSegment(MaximalDeflater(), c, p, c', w, hints, h);
    NeverCut(c, p, hints);
    SegmentBy(TheDeflater(), c, p, seq(|p|, _ => false), false);
  }

  lemma MaximalIsLawful()
    ensures Lawful(MaximalFormat())
  {
    var f, g := MaximalFormat(), TheFormat();
    StoredIsLawful();
    BlocksArePaced();
    forall pos: Pos<Reader> | f.boundary(pos.state)
      ensures Inflates(f, pos, EMPTY_BLOCK, [])
    {
      assert Inflates(g, pos, EMPTY_BLOCK, []);
    }
    forall c, p, c', w | f.synced(c) && Segment(f.deflater, c, p, c', w)
      ensures SegmentLaw(f, c, p, c', w)
    {
      MaximalIsStored(c, p, c', w);
      assert SegmentLaw(g, c, p, c', w);
      SameLaw(c, p, c', w);
    }
  }

  lemma SameLaw(c: Writer, p: bytes, c': Writer, w: bytes)
    requires SegmentLaw(TheFormat(), c, p, c', w)
    ensures SegmentLaw(MaximalFormat(), c, p, c', w)
  {
    forall pos: Pos<Reader> | pos.state.AtBlock? && IsSuffix(TheFormat().reach(c), TheFormat().history(pos.state))
      ensures Inflates(MaximalFormat(), pos, w, p)
    {
      assert Inflates(TheFormat(), pos, w, p);
    }
  }
}
