/**
 * A compressor that writes fixed-code blocks from any plan of literals and
 * back-references its window allows, and the proof that it and the inflater keep
 * the contract whenever the inflater's window is at least as wide.
 */
module FixedCode {
  import opened Sequences
  import opened Octets
  import opened Bits
  import opened Transducer
  import opened Compressors
  import opened Formats
  import opened Inflating

  /** A literal octet, or a back-reference given by its two codes and their extra bits. */
  datatype Token =
    | Literal(b: byte)
    | Match(lengthCode: nat, lengthMore: nat, distanceCode: nat, distanceMore: nat)

  function Length(t: Token): nat
    requires t.Match?
  {
    LengthBase(t.lengthCode) + t.lengthMore
  }

  function Distance(t: Token): nat
    requires t.Match?
    ensures Distance(t) > 0
  {
    DistanceIsPositive(t.distanceCode);
    DistanceBase(t.distanceCode) + t.distanceMore
  }

  /** Something the code can write, reaching no further than the history and the window. */
  predicate Allowed(history: bytes, reach: nat, t: Token) {
    t.Match? ==>
      && t.lengthCode <= 28 && t.lengthMore < Pow2(LengthExtra(t.lengthCode))
      && t.distanceCode <= 29 && t.distanceMore < Pow2(DistanceExtra(t.distanceCode))
      && Distance(t) <= |history| && Distance(t) <= reach
  }

  function Meaning(history: bytes, reach: nat, t: Token): bytes
    requires Allowed(history, reach, t)
  {
    match t
    case Literal(b) => [b]
    case Match(_, _, _, _) => Copy(history, Distance(t), Length(t))
  }

  predicate Plan(history: bytes, reach: nat, ts: seq<Token>)
    decreases |ts|
  {
    ts == [] || (Allowed(history, reach, ts[0]) && Plan(history + Meaning(history, reach, ts[0]), reach, ts[1..]))
  }

  function Expand(history: bytes, reach: nat, ts: seq<Token>): bytes
    requires Plan(history, reach, ts)
    decreases |ts|
  {
    if ts == [] then [] else
    var out := Meaning(history, reach, ts[0]);
    out + Expand(history + out, reach, ts[1..])
  }

  // ---- More history and a wider window change nothing.

  lemma {:induction false} CopySuffix(short: bytes, full: bytes, distance: nat, length: nat)
    requires IsSuffix(short, full) && 0 < distance <= |short|
    ensures Copy(short, distance, length) == Copy(full, distance, length)
    decreases length
  {
    if length > 0 {
      assert full[|full| - distance] == short[|short| - distance] by {
        assert full[|full| - |short|..][|short| - distance] == short[|short| - distance];
      }
      var b := short[|short| - distance];
      SuffixGrows(short, full, [b]);
      CopySuffix(short + [b], full + [b], distance, length - 1);
    }
  }

  /** A plan made against what the compressor remembers means the same to a peer that remembers at least that. */
  lemma {:induction false} PlanSuffix(short: bytes, full: bytes, narrow: nat, wide: nat, ts: seq<Token>)
    requires IsSuffix(short, full) && narrow <= wide && Plan(short, narrow, ts)
    ensures Plan(full, wide, ts) && Expand(full, wide, ts) == Expand(short, narrow, ts)
    decreases |ts|
  {
    if ts != [] {
      if ts[0].Match? { CopySuffix(short, full, Distance(ts[0]), Length(ts[0])); }
      var out := Meaning(short, narrow, ts[0]);
      SuffixGrows(short, full, out);
      PlanSuffix(short + out, full + out, narrow, wide, ts[1..]);
    }
  }

  function Literals(p: bytes): seq<Token> {
    if p == [] then [] else [Literal(p[0])] + Literals(p[1..])
  }

  lemma {:induction false} LiteralsExpand(history: bytes, reach: nat, p: bytes)
    ensures Plan(history, reach, Literals(p)) && Expand(history, reach, Literals(p)) == p
    decreases |p|
  {
    if p != [] {
      LiteralsExpand(history + [p[0]], reach, p[1..]);
      assert Literals(p)[1..] == Literals(p[1..]);
      assert p == [p[0]] + p[1..];
    }
  }

  // ---- Writing, and reading back.

  function TokenBits(t: Token): bits
    requires t.Match? ==> t.lengthCode <= 28
  {
    match t
    case Literal(b) => SymbolBits(b)
    case Match(lc, le, dc, de) =>
      SymbolBits(257 + lc) + LowBits(le, LengthExtra(lc)) + CodeBits(dc, 5) + LowBits(de, DistanceExtra(dc))
  }

  lemma SevenBits(v: nat)
    requires v < 128
    ensures CodeValue(CodeBits(v, 7)) == v
  {
    PowsOfTwo();
    CodeRoundTrip(v, 7);
  }

  lemma EightBitSymbol(symbol: nat, rest: bits)
    requires symbol < 144 || 280 <= symbol < 288
    ensures ParseSymbol(SymbolBits(symbol) + rest) == Symbol(symbol, 8)
  {
    var hold := SymbolBits(symbol) + rest;
    var v := if symbol < 144 then 48 + symbol else 192 + symbol - 280;
    SevenBits(v / 2);
    assert hold[..7] == CodeBits(v / 2, 7) && hold[7] == (v % 2 == 1);
  }

  lemma NineBitSymbol(symbol: nat, rest: bits)
    requires 144 <= symbol < 256
    ensures ParseSymbol(SymbolBits(symbol) + rest) == Symbol(symbol, 9)
  {
    var hold := SymbolBits(symbol) + rest;
    var v := 400 + symbol - 144;
    SevenBits(v / 4);
    assert CodeBits(v, 9) == CodeBits(v / 4, 7) + [v / 2 % 2 == 1] + [v % 2 == 1];
    assert hold[..7] == CodeBits(v / 4, 7) && hold[7] == (v / 2 % 2 == 1) && hold[8] == (v % 2 == 1);
  }

  /** Every symbol of the fixed code reads back, whatever follows it. */
  lemma SymbolParses(symbol: nat, rest: bits)
    requires symbol < 288
    ensures ParseSymbol(SymbolBits(symbol) + rest) == Symbol(symbol, |SymbolBits(symbol)|)
  {
    if 256 <= symbol < 280 {
      SevenBits(symbol - 256);
      assert (SymbolBits(symbol) + rest)[..7] == CodeBits(symbol - 256, 7);
    } else if 144 <= symbol < 256 {
      NineBitSymbol(symbol, rest);
    } else {
      EightBitSymbol(symbol, rest);
    }
  }

  lemma FieldReads(before: bits, v: nat, n: nat, after: bits)
    requires v < Pow2(n)
    ensures Field(before + LowBits(v, n) + after, |before|, n) == v
  {
    LowRoundTrip(v, n);
    assert (before + LowBits(v, n) + after)[|before|..|before| + n] == LowBits(v, n);
  }

  lemma FiveBits(dc: nat)
    requires dc < 32
    ensures CodeValue(CodeBits(dc, 5)) == dc
  {
    PowsOfTwo();
    CodeRoundTrip(dc, 5);
  }

  /** The three fields behind a length symbol, each where the reader looks for it. */
  lemma MatchFields(a: bits, lc: nat, le: nat, dc: nat, de: nat, rest: bits)
    requires lc <= 28 && le < Pow2(LengthExtra(lc)) && dc <= 29 && de < Pow2(DistanceExtra(dc))
    ensures var b, c, d := LowBits(le, LengthExtra(lc)), CodeBits(dc, 5), LowBits(de, DistanceExtra(dc));
      var hold := a + b + c + d + rest;
      && Field(hold, |a|, LengthExtra(lc)) == le
      && CodeValue(hold[|a| + LengthExtra(lc)..|a| + LengthExtra(lc) + 5]) == dc
      && Field(hold, |a| + LengthExtra(lc) + 5, DistanceExtra(dc)) == de
  {
    var b, c, d := LowBits(le, LengthExtra(lc)), CodeBits(dc, 5), LowBits(de, DistanceExtra(dc));
    var hold := a + b + c + d + rest;
    assert hold == a + b + (c + d + rest);
    FieldReads(a, le, LengthExtra(lc), c + d + rest);
    FieldReads(a + b + c, de, DistanceExtra(dc), rest);
    FiveBits(dc);
    assert hold[|a| + |b|..|a| + |b| + 5] == c;
  }

  /** A back-reference whose three fields read back is taken for what it means. */
  lemma FieldsParse(history: bytes, hold: bits, t: Token, at: nat, reach: nat)
    requires t.Match? && Allowed(history, reach, t)
    requires at + LengthExtra(t.lengthCode) + 5 + DistanceExtra(t.distanceCode) <= |hold|
    requires Field(hold, at, LengthExtra(t.lengthCode)) == t.lengthMore
    requires CodeValue(hold[at + LengthExtra(t.lengthCode)..at + LengthExtra(t.lengthCode) + 5]) == t.distanceCode
    requires Field(hold, at + LengthExtra(t.lengthCode) + 5, DistanceExtra(t.distanceCode)) == t.distanceMore
    ensures ParseMatch(history, hold, 257 + t.lengthCode, at, reach, false)
      == Parsed.Step(Codes(false), Meaning(history, reach, t),
                     at + LengthExtra(t.lengthCode) + 5 + DistanceExtra(t.distanceCode))
  {
    assert 257 + t.lengthCode - 257 == t.lengthCode;
  }

  lemma TokenFields(t: Token, rest: bits)
    requires t.Match? && t.lengthCode <= 28 && t.lengthMore < Pow2(LengthExtra(t.lengthCode))
    requires t.distanceCode <= 29 && t.distanceMore < Pow2(DistanceExtra(t.distanceCode))
    ensures var hold, at := TokenBits(t) + rest, |SymbolBits(257 + t.lengthCode)|;
      var le, de := LengthExtra(t.lengthCode), DistanceExtra(t.distanceCode);
      && |TokenBits(t)| == at + le + 5 + de
      && Field(hold, at, le) == t.lengthMore
      && CodeValue(hold[at + le..at + le + 5]) == t.distanceCode
      && Field(hold, at + le + 5, de) == t.distanceMore
  {
    MatchFields(SymbolBits(257 + t.lengthCode), t.lengthCode, t.lengthMore, t.distanceCode, t.distanceMore, rest);
  }

  lemma MatchParses(history: bytes, t: Token, rest: bits, reach: nat)
    requires t.Match? && Allowed(history, reach, t)
    ensures ParseMatch(history, TokenBits(t) + rest, 257 + t.lengthCode, |SymbolBits(257 + t.lengthCode)|, reach, false)
      == Parsed.Step(Codes(false), Meaning(history, reach, t), |TokenBits(t)|)
  {
    TokenFields(t, rest);
    FieldsParse(history, TokenBits(t) + rest, t, |SymbolBits(257 + t.lengthCode)|, reach);
  }

  lemma TokenParses(history: bytes, t: Token, rest: bits, reach: nat)
    requires Allowed(history, reach, t)
    ensures ParseCode(history, TokenBits(t) + rest, reach, false) ==
      Parsed.Step(Codes(false), Meaning(history, reach, t), |TokenBits(t)|)
  {
    match t
    case Literal(b) => SymbolParses(b, rest);
    case Match(lc, le, dc, de) =>
      var tail := LowBits(le, LengthExtra(lc)) + CodeBits(dc, 5) + LowBits(de, DistanceExtra(dc));
      assert TokenBits(t) + rest == SymbolBits(257 + lc) + (tail + rest);
      SymbolParses(257 + lc, tail + rest);
      MatchParses(history, t, rest, reach);
  }

  function TokensBits(history: bytes, reach: nat, ts: seq<Token>): bits
    requires Plan(history, reach, ts)
    decreases |ts|
  {
    if ts == [] then [] else
    TokenBits(ts[0]) + TokensBits(history + Meaning(history, reach, ts[0]), reach, ts[1..])
  }

  lemma TokenDrains(history: bytes, reach: nat, t: Token, tail: bits)
    requires Allowed(history, reach, t)
    ensures var out := Meaning(history, reach, t);
      Drain(Reader(history, TokenBits(t) + tail, Codes(false)), reach)
        == Prefixed(out, Drain(Reader(history + out, tail, Codes(false)), reach))
  {
    TokenParses(history, t, tail, reach);
    assert (TokenBits(t) + tail)[|TokenBits(t)|..] == tail;
  }

  lemma {:induction false} TokensDrain(history: bytes, reach: nat, ts: seq<Token>, rest: bits)
    requires Plan(history, reach, ts)
    ensures Drain(Reader(history, TokensBits(history, reach, ts) + rest, Codes(false)), reach) ==
      Prefixed(Expand(history, reach, ts),
               Drain(Reader(history + Expand(history, reach, ts), rest, Codes(false)), reach))
    decreases |ts|
  {
    if ts == [] {
      assert TokensBits(history, reach, ts) + rest == rest && history + Expand(history, reach, ts) == history;
      PrefixedNothing(Drain(Reader(history, rest, Codes(false)), reach));
    } else {
      var out := Meaning(history, reach, ts[0]);
      var tail := TokensBits(history + out, reach, ts[1..]) + rest;
      assert TokensBits(history, reach, ts) + rest == TokenBits(ts[0]) + tail;
      TokenDrains(history, reach, ts[0], tail);
      TokensDrain(history + out, reach, ts[1..], rest);
      var more := Expand(history + out, reach, ts[1..]);
      Regroup(history, out, more);
      PrefixedTwice(out, more, Drain(Reader(history + out + more, rest, Codes(false)), reach));
    }
  }

  // ---- Blocks.

  const BLOCK_START: bits := [false, true, false]

  function EndOfBlock(): bits {
    SymbolBits(256)
  }

  function BlockBits(history: bytes, reach: nat, ts: seq<Token>): bits
    requires Plan(history, reach, ts)
  {
    BLOCK_START + (TokensBits(history, reach, ts) + EndOfBlock())
  }

  lemma EndOfBlockDrains(history: bytes, rest: bits, reach: nat)
    ensures Drain(Reader(history, EndOfBlock() + rest, Codes(false)), reach) ==
      Drain(Reader(history, rest, Header), reach)
  {
    SymbolParses(256, rest);
    var hold := EndOfBlock() + rest;
    assert hold[|EndOfBlock()|..] == rest && history + [] == history;
    PrefixedNothing(Drain(Reader(history, rest, Header), reach));
  }

  lemma BlockOpens(history: bytes, body: bits, reach: nat)
    ensures Drain(Reader(history, BLOCK_START + body, Header), reach) ==
      Drain(Reader(history, body, Codes(false)), reach)
  {
    var hold := BLOCK_START + body;
    assert hold[0] == false && hold[1] == true && hold[2] == false;
    assert hold[3..] == body && history + [] == history;
    PrefixedNothing(Drain(Reader(history, body, Codes(false)), reach));
  }

  lemma BlockDrains(history: bytes, reach: nat, ts: seq<Token>, rest: bits)
    requires Plan(history, reach, ts)
    ensures Drain(Reader(history, BlockBits(history, reach, ts) + rest, Header), reach) ==
      Prefixed(Expand(history, reach, ts), Drain(Reader(history + Expand(history, reach, ts), rest, Header), reach))
  {
    var body := TokensBits(history, reach, ts) + (EndOfBlock() + rest);
    Regroup(BLOCK_START, TokensBits(history, reach, ts) + EndOfBlock(), rest);
    Regroup(TokensBits(history, reach, ts), EndOfBlock(), rest);
    BlockOpens(history, body, reach);
    TokensDrain(history, reach, ts, EndOfBlock() + rest);
    EndOfBlockDrains(history + Expand(history, reach, ts), rest, reach);
  }

  function Zeros(n: nat): (r: bits)
    ensures |r| == n
  {
    seq(n, _ => false)
  }

  /** A sync flush: an empty stored block, padded to the octet its LEN starts in. */
  function SyncBits(pad: nat): (r: bits)
    ensures |r| == 35 + pad
  {
    SyncHead(pad) + Unpack(TRAILER)
  }

  function SyncHead(pad: nat): (r: bits)
    ensures |r| == 3 + pad
  {
    [false, false, false] + Zeros(pad)
  }

  function Doubled(v: nat, n: nat): nat {
    if n == 0 then v else 2 * Doubled(v, n - 1)
  }

  lemma {:induction false} LowValueConcat(a: bits, b: bits)
    ensures LowValue(a + b) == LowValue(a) + Doubled(LowValue(b), |a|)
    decreases |a|
  {
    if a == [] {
      assert a + b == b;
    } else {
      assert (a + b)[0] == a[0] && (a + b)[1..] == a[1..] + b;
      LowValueConcat(a[1..], b);
    }
  }

  lemma DoubledStep(v: nat, n: nat)
    ensures Doubled(v, n + 1) == 2 * Doubled(v, n)
  {
  }

  lemma DoubledEight(v: nat)
    ensures Doubled(v, 8) == 256 * v
  {
    DoubledStep(v, 0); DoubledStep(v, 1); DoubledStep(v, 2); DoubledStep(v, 3);
    DoubledStep(v, 4); DoubledStep(v, 5); DoubledStep(v, 6); DoubledStep(v, 7);
  }

  lemma TwoOctets(lo: byte, hi: byte)
    ensures LowValue(ByteBits(lo) + ByteBits(hi)) == lo as int + 256 * (hi as int)
  {
    PowsOfTwo();
    LowValueConcat(ByteBits(lo), ByteBits(hi));
    LowRoundTrip(lo, 8);
    LowRoundTrip(hi, 8);
    DoubledEight(hi);
  }

  lemma UnpackTwo(a: byte, b: byte)
    ensures Unpack([a, b]) == ByteBits(a) + ByteBits(b)
  {
    assert [a, b][1..] == [b] && [b][1..] == [];
  }

  lemma UnpackFour(a: byte, b: byte, c: byte, d: byte)
    ensures Unpack([a, b, c, d]) == (ByteBits(a) + ByteBits(b)) + (ByteBits(c) + ByteBits(d))
  {
    assert [a, b, c, d] == [a, b] + [c, d];
    UnpackConcat([a, b], [c, d]);
    UnpackTwo(a, b);
    UnpackTwo(c, d);
  }

  lemma AdjacentFields(before: bits, s: bits, t: bits)
    ensures var hold := before + (s + t);
      Field(hold, |before|, |s|) == LowValue(s) && Field(hold, |before| + |s|, |t|) == LowValue(t)
  {
    var hold := before + (s + t);
    assert hold[|before|..|before| + |s|] == s;
    assert hold[|before| + |s|..|before| + |s| + |t|] == t;
  }

  /** Two numbers of two octets each, least significant octet first. */
  lemma FieldsOfFour(before: bits, a: byte, b: byte, c: byte, d: byte)
    ensures var hold := before + Unpack([a, b, c, d]);
      && Field(hold, |before|, 16) == a as int + 256 * (b as int)
      && Field(hold, |before| + 16, 16) == c as int + 256 * (d as int)
  {
    UnpackFour(a, b, c, d);
    AdjacentFields(before, ByteBits(a) + ByteBits(b), ByteBits(c) + ByteBits(d));
    TwoOctets(a, b);
    TwoOctets(c, d);
  }

  lemma TrailerFields(before: bits)
    ensures var hold := before + Unpack(TRAILER);
      Field(hold, |before|, 16) == 0 && Field(hold, |before| + 16, 16) == 65_535
  {
    FieldsOfFour(before, 0x00, 0x00, 0xff, 0xff);
  }

  /** Read from anywhere in an octet, a sync flush yields nothing and ends between octets. */
  lemma SyncDrains(history: bytes, pad: nat, reach: nat)
    requires pad < 8
    ensures Drain(Reader(history, SyncBits(pad), Header), reach) == More(Reader(history, [], Header), [])
  {
    var hold := SyncBits(pad);
    var before := SyncHead(pad);
    TrailerFields(before);
    assert (|hold| - 3) % 8 == pad;
    assert hold[0] == false && hold[1] == false && hold[2] == false;
    assert hold[|hold|..] == [] && history + [] == history;
    assert Drain(Reader(history, [], Header), reach) == More(Reader(history, [], Header), []);
  }

  // ---- The compressor.

  datatype Writer = Writer(history: bytes, buffer: bytes, flushed: bool)

  /** The plan the backend chose, or plain literals if what it chose does not spell the buffer. */
  function Chosen(c: Writer, reach: nat, plan: seq<Token>): (ts: seq<Token>)
    ensures Plan(c.history, reach, ts) && Expand(c.history, reach, ts) == c.buffer
  {
    LiteralsExpand(c.history, reach, c.buffer);
    if Plan(c.history, reach, plan) && Expand(c.history, reach, plan) == c.buffer then plan else Literals(c.buffer)
  }

  function BodyBits(c: Writer, reach: nat, plan: seq<Token>): bits {
    if c.buffer == [] then [] else BlockBits(c.history, reach, Chosen(c, reach, plan))
  }

  lemma WholeOctets(n: nat, k: nat)
    requires n % 8 == 0
    ensures (n + 8 * k) % 8 == 0
  {
  }

  /** Zero bits from three header bits behind `n` bits to the next octet. */
  function Padding(n: nat): (pad: nat)
    ensures pad < 8 && (n + 3 + pad) % 8 == 0 && (n + (35 + pad)) % 8 == 0
  {
    var pad := 7 - (n + 2) % 8;
    WholeOctets(n + 3 + pad, 4);
    pad
  }

  lemma PaddedFlush(body: bits)
    ensures |body + SyncBits(Padding(|body|))| % 8 == 0
  {
    assert |body + SyncBits(Padding(|body|))| == |body| + (35 + Padding(|body|));
  }

  function FlushBits(c: Writer, reach: nat, plan: seq<Token>): (r: bits)
    ensures |r| % 8 == 0
  {
    var body := BodyBits(c, reach, plan);
    PaddedFlush(body);
    body + SyncBits(Padding(|body|))
  }

  function DeflaterAt(reach: nat): Deflater<Writer, seq<Token>> {
    Deflater(
      Writer([], [], false),
      (c: Writer, b: byte, plan: seq<Token>) => Gave(Writer(c.history, c.buffer + [b], false), []),
      (c: Writer, plan: seq<Token>) => Gave(Writer(c.history + c.buffer, [], true), Pack(FlushBits(c, reach, plan))),
      (c: Writer) => c.flushed)
  }

  /** One direction: a compressor whose window has `w` bits, against an inflater whose window has `v`. */
  function FormatAt(w: nat, v: nat): Format<Reader, Writer, seq<Token>> {
    Format(
      MachineAt(Pow2(v)), DeflaterAt(Pow2(w)),
      (s: Reader) => s.mode == Header && s.hold == [],
      (s: Reader) => s.history,
      (c: Writer) => c.buffer == [],
      (c: Writer) => c.history + c.buffer)
  }

  lemma {:induction false} PowMonotone(w: nat, v: nat)
    requires w <= v
    ensures Pow2(w) <= Pow2(v)
    decreases v - w
  {
    if w < v { PowMonotone(w, v - 1); }
  }

  /** All the bits of a flush, read at a peer who remembers at least as much and reaches at least as far. */
  lemma FlushDrains(c: Writer, narrow: nat, wide: nat, plan: seq<Token>, history: bytes)
    requires narrow <= wide && IsSuffix(c.history, history)
    ensures Drain(Reader(history, FlushBits(c, narrow, plan), Header), wide)
      == More(Reader(history + c.buffer, [], Header), c.buffer)
  {
    var body := BodyBits(c, narrow, plan);
    var sync := SyncBits(Padding(|body|));
    if c.buffer == [] {
      assert body + sync == sync && history + c.buffer == history;
      SyncDrains(history, Padding(|body|), wide);
    } else {
      var ts := Chosen(c, narrow, plan);
      PlanSuffix(c.history, history, narrow, wide, ts);
      SameTokens(c.history, history, narrow, wide, ts);
      BlockDrains(history, wide, ts, sync);
      SyncDrains(history + c.buffer, Padding(|body|), wide);
      assert c.buffer + [] == c.buffer;
    }
  }

  /** The bits of a plan do not depend on how much history stands behind it. */
  lemma {:induction false} SameTokens(short: bytes, full: bytes, narrow: nat, wide: nat, ts: seq<Token>)
    requires IsSuffix(short, full) && narrow <= wide && Plan(short, narrow, ts)
    requires Plan(full, wide, ts)
    ensures TokensBits(full, wide, ts) == TokensBits(short, narrow, ts)
    decreases |ts|
  {
    if ts != [] {
      if ts[0].Match? { CopySuffix(short, full, Distance(ts[0]), Length(ts[0])); }
      SuffixGrows(short, full, Meaning(short, narrow, ts[0]));
      SameTokens(short + Meaning(short, narrow, ts[0]), full + Meaning(full, wide, ts[0]), narrow, wide, ts[1..]);
    }
  }

  /** A flushed chunk, octet by octet. */
  lemma FlushInflates(w: nat, v: nat, c: Writer, plan: seq<Token>, pos: Pos<Reader>)
    requires w <= v && pos.state.mode == Header && pos.state.hold == [] && IsSuffix(c.history, pos.state.history)
    ensures var wire := Pack(FlushBits(c, Pow2(w), plan));
      Decode(MachineAt(Pow2(v)), pos, wire)
        == Decoded(Pos(Reader(pos.state.history + c.buffer, [], Header), pos.open || wire != []), c.buffer, false)
  {
    PowMonotone(w, v);
    var sent := FlushBits(c, Pow2(w), plan);
    UnpackPack(sent);
    assert Held(pos.state, Unpack(Pack(sent))) == Reader(pos.state.history, sent, Header) by {
      assert [] + sent == sent;
    }
    FlushDrains(c, Pow2(w), Pow2(v), plan, pos.state.history);
    DecodeIsDrain(pos, Pack(sent), Pow2(v));
  }

  lemma {:induction false} TakesBuffer(reach: nat, c: Writer, p: bytes, hints: seq<seq<Token>>)
    requires |hints| == |p|
    ensures TakeAll(DeflaterAt(reach), c, p, hints) == Gave(Writer(c.history, c.buffer + p, c.flushed && p == []), [])
    decreases |p|
  {
    if p == [] {
      assert c.buffer + p == c.buffer;
    } else {
      TakesBuffer(reach, Writer(c.history, c.buffer + [p[0]], false), p[1..], hints[1..]);
      assert (c.buffer + [p[0]]) + p[1..] == c.buffer + p;
    }
  }

  lemma PackTail(body: bits, head: bits, tail: bytes)
    requires |body + head| % 8 == 0
    ensures var sent := body + (head + Unpack(tail));
      |sent| % 8 == 0 && Pack(sent) == Pack(body + head) + tail
  {
    WholeOctets(|body + head|, |tail|);
    WholeOctets(0, |tail|);
    Regroup(body, head, Unpack(tail));
    PackConcat(body + head, Unpack(tail));
    PackUnpack(tail);
  }

  lemma PaddedHead(body: bits)
    ensures |body + SyncHead(Padding(|body|))| % 8 == 0 && |Pack(body + SyncHead(Padding(|body|)))| > 0
  {
  }

  /** However the body before it ends, the four octets of a sync flush stand alone. */
  lemma FlushEnds(body: bits)
    ensures |body + SyncHead(Padding(|body|))| % 8 == 0 && |body + SyncBits(Padding(|body|))| % 8 == 0
    ensures var front, sent := Pack(body + SyncHead(Padding(|body|))), Pack(body + SyncBits(Padding(|body|)));
      sent == front + TRAILER && |front| > 0
  {
    PaddedHead(body);
    PackTail(body, SyncHead(Padding(|body|)), TRAILER);
  }

  lemma WireInflates(w: nat, v: nat, c: Writer, plan: seq<Token>, pos: Pos<Reader>)
    requires w <= v && pos.state.mode == Header && pos.state.hold == [] && IsSuffix(c.history, pos.state.history)
    ensures Inflates(FormatAt(w, v), pos, Pack(FlushBits(c, Pow2(w), plan)), c.buffer)
  {
    FlushInflates(w, v, c, plan, pos);
  }

  lemma NothingInflates(w: nat, v: nat, pos: Pos<Reader>)
    requires pos.state.mode == Header && pos.state.hold == []
    ensures Inflates(FormatAt(w, v), pos, [], [])
  {
    assert pos.state.history + [] == pos.state.history;
  }

  /** What a chunk puts on the wire: nothing from a drained compressor given nothing, one flush otherwise. */
  lemma FixedWire(reach: nat, c: Writer, p: bytes, c': Writer, wire: bytes) returns (plan: seq<Token>)
    requires c.buffer == [] && Segment(DeflaterAt(reach), c, p, c', wire)
    ensures c'.buffer == [] && c'.history == c.history + p
    ensures wire == if c.flushed && p == [] then [] else Pack(FlushBits(Writer(c.history, p, false), reach, plan))
  {
    var hints, h :| |hints| == |p| && IsSegment(DeflaterAt(reach), c, p, c', wire, hints, h);
    TakesBuffer(reach, c, p, hints);
    assert c.buffer + p == p;
    plan := h;
    assert c.history + [] == c.history;
    if !(c.flushed && p == []) { assert [] + Pack(FlushBits(Writer(c.history, p, false), reach, h)) == wire; }
  }

  lemma FlushShape(c: Writer, reach: nat, plan: seq<Token>)
    ensures var wire := Pack(FlushBits(c, reach, plan));
      |wire| > |TRAILER| && EndsWith(wire, TRAILER)
  {
    var body := BodyBits(c, reach, plan);
    FlushEnds(body);
    EndsWithGrows(Pack(body + SyncHead(Padding(|body|))), TRAILER, TRAILER);
  }

  /** A drained compressor given nothing: nothing on the wire, and nothing owed. */
  lemma SilentSegment(w: nat, v: nat, c: Writer, c': Writer)
    requires c'.buffer == [] == c.buffer && c'.history == c.history
    ensures SegmentLaw(FormatAt(w, v), c, [], c', [])
  {
    assert c.history + c.buffer == c.history + c.buffer + [];
    forall pos: Pos<Reader> | pos.state.mode == Header && pos.state.hold == []
      ensures Inflates(FormatAt(w, v), pos, [], [])
    {
      NothingInflates(w, v, pos);
    }
  }

  lemma FlushSegment(w: nat, v: nat, c: Writer, p: bytes, c': Writer, plan: seq<Token>)
    requires w <= v && c.buffer == [] == c'.buffer && c'.history == c.history + p
    ensures SegmentLaw(FormatAt(w, v), c, p, c', Pack(FlushBits(Writer(c.history, p, false), Pow2(w), plan)))
  {
    var fed := Writer(c.history, p, false);
    FlushShape(fed, Pow2(w), plan);
    assert c.history + c.buffer == c.history && c'.history + c'.buffer == c'.history;
    forall pos: Pos<Reader> | pos.state.mode == Header && pos.state.hold == [] && IsSuffix(c.history, pos.state.history)
      ensures Inflates(FormatAt(w, v), pos, Pack(FlushBits(fed, Pow2(w), plan)), p)
    {
      WireInflates(w, v, fed, plan, pos);
    }
  }

  lemma FixedSegment(w: nat, v: nat, c: Writer, p: bytes, c': Writer, wire: bytes)
    requires w <= v && c.buffer == [] && Segment(DeflaterAt(Pow2(w)), c, p, c', wire)
    ensures SegmentLaw(FormatAt(w, v), c, p, c', wire)
  {
    var plan := FixedWire(Pow2(w), c, p, c', wire);
    if c.flushed && p == [] {
      assert c.history + p == c.history;
      SilentSegment(w, v, c, c');
    } else {
      FlushSegment(w, v, c, p, c', plan);
    }
  }

  lemma PackOctet(b: byte)
    ensures Pack(ByteBits(b)) == [b]
  {
    assert [b][1..] == [] && Unpack([b]) == ByteBits(b) + Unpack([]) == ByteBits(b);
    PackUnpack([b]);
  }

  lemma ZeroOctet()
    ensures SyncHead(5) == ByteBits(0)
  {
    assert LowBits(0, 8) == [false] + LowBits(0, 7) && LowBits(0, 7) == [false] + LowBits(0, 6)
      && LowBits(0, 6) == [false] + LowBits(0, 5) && LowBits(0, 5) == [false] + LowBits(0, 4)
      && LowBits(0, 4) == [false] + LowBits(0, 3) && LowBits(0, 3) == [false] + LowBits(0, 2)
      && LowBits(0, 2) == [false] + LowBits(0, 1) && LowBits(0, 1) == [false] + LowBits(0, 0);
  }

  lemma FlushesNothing(body: bits)
    requires body == []
    ensures Pack(body + SyncBits(Padding(|body|))) == EMPTY_BLOCK
  {
    var head := SyncHead(Padding(|body|));
    FlushEnds(body);
    assert body + head == ByteBits(0) by { ZeroOctet(); }
    PackOctet(0);
    OneThenTrailer(Pack(body + head));
  }

  lemma OneThenTrailer(front: bytes)
    requires front == [0]
    ensures front + TRAILER == EMPTY_BLOCK
  {
  }

  /** Flushing nothing into a fresh octet is the five-octet empty block. */
  lemma EmptyBlockIsAFlush(reach: nat, history: bytes)
    ensures Pack(FlushBits(Writer(history, [], false), reach, [])) == EMPTY_BLOCK
  {
    FlushesNothing(BodyBits(Writer(history, [], false), reach, []));
  }

  /**
   * Back-references within the compressor's window never leave an inflater's
   * window at least as wide: the contract holds for every such pair of widths.
   */
  lemma FixedCodeIsLawful(w: nat, v: nat)
    requires w <= v
    ensures Lawful(FormatAt(w, v))
  {
    var f := FormatAt(w, v);
    forall pos: Pos<Reader> | f.boundary(pos.state)
      ensures Inflates(f, pos, EMPTY_BLOCK, [])
    {
      var idle := Writer([], [], false);
      EmptyBlockIsAFlush(Pow2(w), []);
      assert IsSuffix([], pos.state.history) by { assert pos.state.history[|pos.state.history|..] == []; }
      WireInflates(w, v, idle, [], pos);
    }
    forall c, p, c', wire | f.synced(c) && Segment(f.deflater, c, p, c', wire)
      ensures SegmentLaw(f, c, p, c', wire)
    {
      FixedSegment(w, v, c, p, c', wire);
    }
  }
}
