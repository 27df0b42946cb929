/**
 * An inflater for real DEFLATE octets: stored blocks and blocks in the fixed
 * Huffman code, with back-references bounded by a window (sections 3.2.3 to
 * 3.2.6 of RFC 1951). Blocks that carry a code of their own are refused.
 */
module Inflating {
  import opened Sequences
  import opened Octets
  import opened Bits
  import opened Transducer

  datatype Mode =
    | Header
    | Stored(left: nat, final: bool)
    | Codes(final: bool)

  /** What the stream has inflated to, the bits not yet used, and what they are read as. */
  datatype Reader = Reader(history: bytes, hold: bits, mode: Mode)

  /** The next thing in the bits: too few of them, none there can be, a step, or the end of the stream. */
  datatype Parsed =
    | NeedMore
    | Broken
    | Step(mode: Mode, out: bytes, used: nat)
    | Ends(out: bytes)

  // ---- Tables of section 3.2.5.

  function LengthExtra(code: nat): nat {
    if code < 8 || code == 28 then 0 else code / 4 - 1
  }

  function LengthBase(code: nat): nat {
    if code == 28 then 258
    else if code < 4 then 3 + code
    else 3 + (4 + code % 4) * Pow2(if code < 8 then 0 else code / 4 - 1)
  }

  function DistanceExtra(code: nat): nat {
    if code < 4 then 0 else code / 2 - 1
  }

  function DistanceBase(code: nat): nat {
    if code < 4 then 1 + code else 1 + (2 + code % 2) * Pow2(code / 2 - 1)
  }

  /**
   * The lengths RFC 1951 lists: from 3 to 257 without gap or overlap, each code for as many as its
   * extra bits can tell apart, and a last code for 258.
   */
  lemma LengthTable(code: nat)
    requires code < 28
    ensures LengthBase(0) == 3 && LengthBase(28) == 258 && LengthExtra(28) == 0
    ensures code < 27 ==> LengthBase(code + 1) == LengthBase(code) + Pow2(LengthExtra(code))
    ensures LengthExtra(code) == if code < 4 then 0 else LengthExtra(code - 4) + (if code < 8 then 0 else 1)
  {
    assert Pow2(0) == 1 && Pow2(1) == 2;
    if code >= 8 {
      var p := Pow2(code / 4 - 1);
      assert LengthBase(code) == 3 + (4 + code % 4) * p && Pow2(code / 4) == 2 * p;
      if code % 4 == 3 {
        assert LengthBase(code) == 3 + 7 * p && (code + 1) / 4 == code / 4 + 1 && (code + 1) % 4 == 0;
        assert code < 27 ==> LengthBase(code + 1) == 3 + 4 * (2 * p);
      } else {
        assert (code + 1) / 4 == code / 4 && (code + 1) % 4 == code % 4 + 1;
        assert (4 + (code % 4 + 1)) * p == (4 + code % 4) * p + p;
      }
    }
  }

  /** And the distances, from 1, two codes to each number of extra bits. */
  lemma DistanceTable(code: nat)
    requires code < 30
    ensures DistanceBase(0) == 1
    ensures code < 29 ==> DistanceBase(code + 1) == DistanceBase(code) + Pow2(DistanceExtra(code))
    ensures DistanceExtra(code) == if code < 2 then 0 else DistanceExtra(code - 2) + (if code < 4 then 0 else 1)
  {
    if code < 4 {
      assert Pow2(0) == 1 && Pow2(1) == 2;
    } else {
      var p := Pow2(code / 2 - 1);
      if code % 2 == 0 {
        assert DistanceBase(code) == 1 + 2 * p && (code + 1) / 2 == code / 2;
        assert DistanceBase(code + 1) == 1 + 3 * p;
      } else {
        assert DistanceBase(code) == 1 + 3 * p && (code + 1) / 2 == code / 2 + 1 && Pow2(code / 2) == 2 * p;
        assert DistanceBase(code + 1) == 1 + 2 * (2 * p);
      }
    }
  }

  lemma DistanceIsPositive(code: nat)
    ensures DistanceBase(code) >= 1
  {
    if code >= 4 { assert Pow2(code / 2 - 1) >= 0; }
  }

  /** A back-reference may reach into what it is itself writing. */
  function Copy(history: bytes, distance: nat, length: nat): bytes
    requires 0 < distance <= |history|
    decreases length
  {
    if length == 0 then [] else
    var b := history[|history| - distance];
    [b] + Copy(history + [b], distance, length - 1)
  }

  // ---- The fixed code of section 3.2.6.

  /** A symbol and the bits it took. */
  datatype Symbol = Short | Symbol(value: nat, used: nat)

  function ParseSymbol(hold: bits): Symbol {
    if |hold| < 7 then Short else
    var v7 := CodeValue(hold[..7]);
    if v7 < 24 then Symbol(256 + v7, 7)
    else if |hold| < 8 then Short else
    var v8 := 2 * v7 + Bit(hold[7]);
    if v8 < 192 then Symbol(v8 - 48, 8)
    else if v8 < 200 then Symbol(280 + v8 - 192, 8)
    else if |hold| < 9 then Short
    else Symbol(144 + 2 * v8 + Bit(hold[8]) - 400, 9)
  }

  function SymbolBits(symbol: nat): bits
    requires symbol < 288
  {
    if symbol < 144 then CodeBits(48 + symbol, 8)
    else if symbol < 256 then CodeBits(400 + symbol - 144, 9)
    else if symbol < 280 then CodeBits(symbol - 256, 7)
    else CodeBits(192 + symbol - 280, 8)
  }

  function Field(hold: bits, at: nat, n: nat): nat
    requires at + n <= |hold|
  {
    LowValue(hold[at..at + n])
  }

  /** A length symbol, its extra bits, a distance code of five bits, and its extra bits. */
  function ParseMatch(history: bytes, hold: bits, symbol: nat, at: nat, reach: nat, final: bool): Parsed
    requires at <= |hold| && symbol >= 257
  {
    var le := LengthExtra(symbol - 257);
    if symbol > 285 then Broken
    else if |hold| < at + le + 5 then NeedMore else
    var dc := CodeValue(hold[at + le..at + le + 5]);
    if dc > 29 then Broken
    else if |hold| < at + le + 5 + DistanceExtra(dc) then NeedMore else
    var length := LengthBase(symbol - 257) + Field(hold, at, le);
    var distance := DistanceBase(dc) + Field(hold, at + le + 5, DistanceExtra(dc));
    DistanceIsPositive(dc);
    if distance > |history| || distance > reach then Broken
    else Step(Codes(final), Copy(history, distance, length), at + le + 5 + DistanceExtra(dc))
  }

  function ParseCode(history: bytes, hold: bits, reach: nat, final: bool): Parsed {
    var s := ParseSymbol(hold);
    if s.Short? then NeedMore
    else if s.value < 256 then Step(Codes(final), [s.value as byte], s.used)
    else if s.value == 256 then (if final then Ends([]) else Step(Header, [], s.used))
    else ParseMatch(history, hold, s.value, s.used, reach, final)
  }

  /** Three header bits; a stored block goes on at the next octet boundary with LEN and its complement. */
  function ParseHeader(hold: bits): Parsed {
    if |hold| < 3 then NeedMore
    else if hold[2] then Broken
    else if hold[1] then Step(Codes(hold[0]), [], 3)
    else
      var at := 3 + (|hold| - 3) % 8;
      if |hold| < at + 32 then NeedMore
      else if Field(hold, at, 16) + Field(hold, at + 16, 16) != 65_535 then Broken
      else if Field(hold, at, 16) > 0 then Step(Stored(Field(hold, at, 16), hold[0]), [], at + 32)
      else if hold[0] then Ends([])
      else Step(Header, [], at + 32)
  }

  function ParseStored(hold: bits, left: nat, final: bool): Parsed {
    if |hold| < 8 then NeedMore else
    var b := ByteOf(hold[..8]);
    if left > 1 then Step(Stored(left - 1, final), [b], 8)
    else if final then Ends([b])
    else Step(Header, [b], 8)
  }

  function Parse(s: Reader, reach: nat): (p: Parsed)
    ensures p.Step? ==> 0 < p.used <= |s.hold|
  {
    match s.mode
    case Header => ParseHeader(s.hold)
    case Stored(left, final) => ParseStored(s.hold, left, final)
    case Codes(final) => ParseCode(s.history, s.hold, reach, final)
  }

  function Prefixed(out: bytes, r: Fed<Reader>): Fed<Reader> {
    match r
    case Bad => Bad
    case More(next, more) => More(next, out + more)
    case Final(more) => Final(out + more)
  }

  function After(s: Reader, p: Parsed): Reader
    requires p.Step? && p.used <= |s.hold|
  {
    Reader(s.history + p.out, s.hold[p.used..], p.mode)
  }

  /** Read on until the bits held decide nothing more. */
  function Drain(s: Reader, reach: nat): Fed<Reader>
    decreases |s.hold|
  {
    var p := Parse(s, reach);
    match p
    case NeedMore => More(s, [])
    case Broken => Bad
    case Ends(out) => Final(out)
    case Step(_, out, _) => Prefixed(out, Drain(After(s, p), reach))
  }

  function Held(s: Reader, more: bits): Reader {
    s.(hold := s.hold + more)
  }

  /** One octet: eight more bits, and everything they decide. What is left of the last octet of a stream is padding. */
  function Read(s: Reader, b: byte, reach: nat): Fed<Reader> {
    Drain(Held(s, ByteBits(b)), reach)
  }

  function MachineAt(reach: nat): Machine<Reader> {
    Machine(Reader([], [], Header), (s: Reader, b: byte) => Read(s, b, reach))
  }

  // ---- What is decided stays decided.

  lemma FieldStable(hold: bits, more: bits, at: nat, n: nat)
    requires at + n <= |hold|
    ensures Field(hold + more, at, n) == Field(hold, at, n)
  {
    assert (hold + more)[at..at + n] == hold[at..at + n];
  }

  lemma SymbolStable(hold: bits, more: bits)
    requires ParseSymbol(hold).Symbol?
    ensures ParseSymbol(hold + more) == ParseSymbol(hold)
  {
    assert (hold + more)[..7] == hold[..7];
  }

  lemma MatchStable(history: bytes, hold: bits, more: bits, symbol: nat, at: nat, reach: nat, final: bool)
    requires at <= |hold| && symbol >= 257
    requires !ParseMatch(history, hold, symbol, at, reach, final).NeedMore?
    ensures ParseMatch(history, hold + more, symbol, at, reach, final) ==
      ParseMatch(history, hold, symbol, at, reach, final)
  {
    if symbol <= 285 {
      var le := LengthExtra(symbol - 257);
      assert (hold + more)[at + le..at + le + 5] == hold[at + le..at + le + 5];
      var dc := CodeValue(hold[at + le..at + le + 5]);
      FieldStable(hold, more, at, le);
      if dc <= 29 { FieldStable(hold, more, at + le + 5, DistanceExtra(dc)); }
    }
  }

  lemma HeaderStable(hold: bits, more: bits)
    requires !ParseHeader(hold).NeedMore? && |more| % 8 == 0
    ensures ParseHeader(hold + more) == ParseHeader(hold)
  {
    var whole := hold + more;
    assert whole[0] == hold[0] && whole[1] == hold[1] && whole[2] == hold[2];
    if !hold[2] && !hold[1] {
      var at := 3 + (|hold| - 3) % 8;
      assert (|whole| - 3) % 8 == (|hold| - 3) % 8;
      FieldStable(hold, more, at, 16);
      FieldStable(hold, more, at + 16, 16);
    }
  }

  lemma ParseStable(s: Reader, more: bits, reach: nat)
    requires !Parse(s, reach).NeedMore? && |more| % 8 == 0
    ensures Parse(Held(s, more), reach) == Parse(s, reach)
  {
    match s.mode
    case Header => HeaderStable(s.hold, more);
    case Stored(left, final) => assert (s.hold + more)[..8] == s.hold[..8];
    case Codes(final) =>
      SymbolStable(s.hold, more);
      var symbol := ParseSymbol(s.hold);
      if symbol.value > 256 { MatchStable(s.history, s.hold, more, symbol.value, symbol.used, reach, final); }
  }

  lemma PrefixedTwice(a: bytes, b: bytes, r: Fed<Reader>)
    ensures Prefixed(a, Prefixed(b, r)) == Prefixed(a + b, r)
  {
    match r
    case Bad =>
    case More(_, out) => Regroup(a, b, out);
    case Final(out) => Regroup(a, b, out);
  }

  lemma PrefixedNothing(r: Fed<Reader>)
    ensures Prefixed([], r) == r
  {
    match r
    case Bad =>
    case More(_, out) => assert [] + out == out;
    case Final(out) => assert [] + out == out;
  }

  /** Draining with more octets behind is draining first, then going on with what was left. */
  lemma {:induction false} DrainMore(s: Reader, more: bits, reach: nat)
    requires |more| % 8 == 0
    ensures var first := Drain(s, reach);
      Drain(Held(s, more), reach) ==
        if first.More? then Prefixed(first.out, Drain(Held(first.next, more), reach)) else first
    decreases |s.hold|
  {
    var p := Parse(s, reach);
    if p.NeedMore? {
      PrefixedNothing(Drain(Held(s, more), reach));
    } else {
      ParseStable(s, more, reach);
      if p.Step? {
        var next := After(s, p);
        assert After(Held(s, more), p) == Held(next, more) by {
          assert (s.hold + more)[p.used..] == s.hold[p.used..] + more;
        }
        DrainMore(next, more, reach);
        var rest := Drain(next, reach);
        if rest.More? { PrefixedTwice(p.out, rest.out, Drain(Held(rest.next, more), reach)); }
      }
    }
  }

  /** A drained reader has nothing left to say. */
  predicate Drained(s: Reader, reach: nat) {
    Parse(s, reach).NeedMore?
  }

  lemma {:induction false} DrainDrains(s: Reader, reach: nat)
    ensures Drain(s, reach).More? ==> Drained(Drain(s, reach).next, reach)
    decreases |s.hold|
  {
    var p := Parse(s, reach);
    if p.Step? { DrainDrains(After(s, p), reach); }
  }

  /** One octet read, the rest still to come. */
  lemma ReadThenDrain(s: Reader, b: byte, more: bits, reach: nat)
    requires |more| % 8 == 0 && Drain(Held(s, ByteBits(b) + more), reach).More?
    ensures Read(s, b, reach).More? && Drained(Read(s, b, reach).next, reach)
    ensures Drain(Held(s, ByteBits(b) + more), reach)
      == Prefixed(Read(s, b, reach).out, Drain(Held(Read(s, b, reach).next, more), reach))
  {
    var first := Held(s, ByteBits(b));
    assert Held(first, more) == Held(s, ByteBits(b) + more) by {
      assert (s.hold + ByteBits(b)) + more == s.hold + (ByteBits(b) + more);
    }
    DrainMore(first, more, reach);
    DrainDrains(first, reach);
  }

  /** Octet by octet or all bits at once, the same is read. */
  lemma {:induction false} DecodeIsDrain(pos: Pos<Reader>, w: bytes, reach: nat)
    requires Drained(pos.state, reach)
    requires Drain(Held(pos.state, Unpack(w)), reach).More?
    ensures var r := Drain(Held(pos.state, Unpack(w)), reach);
      Decode(MachineAt(reach), pos, w) == Decoded(Pos(r.next, pos.open || w != []), r.out, false)
    decreases |w|
  {
    if w == [] {
      assert Held(pos.state, Unpack(w)) == pos.state by { assert pos.state.hold + [] == pos.state.hold; }
    } else {
      ReadThenDrain(pos.state, w[0], Unpack(w[1..]), reach);
      DecodeIsDrain(Pos(Read(pos.state, w[0], reach).next, true), w[1..], reach);
    }
  }
}
