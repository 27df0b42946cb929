/** Bits and octets as section 3.1.1 of RFC 1951 packs them. */
module Bits {
  import opened Octets

  type bits = seq<bool>

  function Pow2(n: nat): nat {
    if n == 0 then 1 else 2 * Pow2(n - 1)
  }

  lemma PowStep(n: nat)
    ensures Pow2(n + 1) == 2 * Pow2(n)
  {
  }

  lemma PowsOfTwo()
    ensures Pow2(5) == 32 && Pow2(7) == 128 && Pow2(8) == 256
  {
    PowStep(0); PowStep(1); PowStep(2); PowStep(3); PowStep(4); PowStep(5); PowStep(6); PowStep(7);
  }

  function Bit(b: bool): nat { if b then 1 else 0 }

  // ---- Numbers, least significant bit first.

  function LowBits(v: nat, n: nat): (r: bits)
    ensures |r| == n
  {
    if n == 0 then [] else [v % 2 == 1] + LowBits(v / 2, n - 1)
  }

  function LowValue(s: bits): nat {
    if s == [] then 0 else Bit(s[0]) + 2 * LowValue(s[1..])
  }

  lemma {:induction false} LowValueBound(s: bits)
    ensures LowValue(s) < Pow2(|s|)
    decreases |s|
  {
    if s != [] { LowValueBound(s[1..]); }
  }

  lemma {:induction false} LowRoundTrip(v: nat, n: nat)
    requires v < Pow2(n)
    ensures LowValue(LowBits(v, n)) == v
  {
    if n > 0 {
      LowRoundTrip(v / 2, n - 1);
      assert LowBits(v, n)[1..] == LowBits(v / 2, n - 1);
    }
  }

  lemma {:induction false} LowInverse(s: bits)
    ensures LowBits(LowValue(s), |s|) == s
    decreases |s|
  {
    if s != [] {
      LowInverse(s[1..]);
      assert LowValue(s) / 2 == LowValue(s[1..]);
      assert s == [s[0]] + s[1..];
    }
  }

  // ---- Huffman codes, most significant bit first.

  function CodeBits(v: nat, n: nat): (r: bits)
    ensures |r| == n
  {
    if n == 0 then [] else CodeBits(v / 2, n - 1) + [v % 2 == 1]
  }

  function CodeValue(s: bits): nat {
    if s == [] then 0 else 2 * CodeValue(s[..|s|-1]) + Bit(s[|s|-1])
  }

  lemma {:induction false} CodeRoundTrip(v: nat, n: nat)
    requires v < Pow2(n)
    ensures CodeValue(CodeBits(v, n)) == v
  {
    if n > 0 {
      CodeRoundTrip(v / 2, n - 1);
      assert CodeBits(v, n)[..n-1] == CodeBits(v / 2, n - 1);
    }
  }

  // ---- Octets.

  function ByteBits(b: byte): (r: bits)
    ensures |r| == 8
  {
    LowBits(b, 8)
  }

  function Unpack(w: bytes): (r: bits)
    ensures |r| == 8 * |w|
  {
    if w == [] then [] else ByteBits(w[0]) + Unpack(w[1..])
  }

  lemma Octet(s: bits)
    requires |s| == 8
    ensures LowValue(s) < 256
  {
    LowValueBound(s);
    PowsOfTwo();
  }

  function ByteOf(s: bits): byte
    requires |s| == 8
  {
    Octet(s);
    LowValue(s)
  }

  function Pack(s: bits): (w: bytes)
    requires |s| % 8 == 0
    ensures |w| * 8 == |s|
    decreases |s|
  {
    if s == [] then [] else [ByteOf(s[..8])] + Pack(s[8..])
  }

  lemma {:induction false} UnpackPack(s: bits)
    requires |s| % 8 == 0
    ensures Unpack(Pack(s)) == s
    decreases |s|
  {
    if s != [] {
      UnpackPack(s[8..]);
      LowInverse(s[..8]);
      assert Pack(s)[1..] == Pack(s[8..]);
      assert s[..8] + s[8..] == s;
    }
  }

  lemma {:induction false} UnpackConcat(a: bytes, b: bytes)
    ensures Unpack(a + b) == Unpack(a) + Unpack(b)
    decreases |a|
  {
    if a == [] {
      assert a + b == b;
    } else {
      assert (a + b)[1..] == a[1..] + b;
      UnpackConcat(a[1..], b);
    }
  }

  lemma {:induction false} PackUnpack(w: bytes)
    ensures Pack(Unpack(w)) == w
    decreases |w|
  {
    if w != [] {
      PackUnpack(w[1..]);
      assert Unpack(w)[..8] == ByteBits(w[0]) && Unpack(w)[8..] == Unpack(w[1..]);
      ByteRoundTrip(w[0]);
      assert w == [w[0]] + w[1..];
    }
  }

  lemma ByteRoundTrip(b: byte)
    ensures ByteOf(ByteBits(b)) == b
  {
    PowsOfTwo();
    LowRoundTrip(b, 8);
  }

  lemma PackConcat(a: bits, b: bits)
    requires |a| % 8 == 0 && |b| % 8 == 0
    ensures Pack(a + b) == Pack(a) + Pack(b)
  {
    UnpackPack(a);
    UnpackPack(b);
    UnpackConcat(Pack(a), Pack(b));
    PackUnpack(Pack(a) + Pack(b));
  }
}
