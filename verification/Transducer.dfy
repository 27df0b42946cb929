/** Octets, and the two constants RFC 7692 fixes. */
module Octets {
  import opened Sequences

  type byte = b: int | 0 <= b < 256

  type bytes = seq<byte>

  /** The tail of an empty stored block, stripped from every message (RFC 7692, section 7.2.1). */
  const TRAILER: bytes := [0x00, 0x00, 0xff, 0xff]

  /** A whole empty stored block at a byte boundary: one header octet, then LEN and NLEN. */
  const EMPTY_BLOCK: bytes := [0x00, 0x00, 0x00, 0xff, 0xff]

  predicate EndsWith(s: bytes, tail: bytes) {
    |tail| <= |s| && s[|s| - |tail|..] == tail
  }

  /** `short` is what remains of `full` once some prefix is forgotten. */
  ghost predicate IsSuffix(short: bytes, full: bytes) {
    EndsWith(full, short)
  }

  lemma SuffixGrows(short: bytes, full: bytes, more: bytes)
    requires IsSuffix(short, full)
    ensures IsSuffix(short + more, full + more)
  {
    assert (full + more)[|full| - |short|..] == full[|full| - |short|..] + more;
  }

  lemma EndsWithGrows(before: bytes, s: bytes, tail: bytes)
    requires EndsWith(s, tail)
    ensures EndsWith(before + s, tail)
  {
    assert (before + s)[|before + s| - |tail|..] == s[|s| - |tail|..];
  }

  lemma SplitTail(first: bytes, second: bytes, third: bytes)
    requires first <= second <= third
    ensures third[|first|..] == second[|first|..] + third[|second|..]
  {
  }

  function Concat(parts: seq<bytes>): bytes {
    if parts == [] then [] else parts[0] + Concat(parts[1..])
  }

  lemma ConcatOne(part: bytes)
    ensures Concat([part]) == part
  {
    assert Concat([part]) == part + Concat([]);
  }

  lemma {:induction false} ConcatAppend(parts: seq<bytes>, more: seq<bytes>)
    ensures Concat(parts + more) == Concat(parts) + Concat(more)
  {
    if parts == [] {
      assert parts + more == more;
    } else {
      ConcatAppend(parts[1..], more);
      assert (parts + more)[0] == parts[0] && (parts + more)[1..] == parts[1..] + more;
      Regroup(parts[0], Concat(parts[1..]), Concat(more));
    }
  }
}

/**
 * An inflater seen from outside: a byte-at-a-time transducer, and the reference
 * decoder that runs one over a payload holding any number of DEFLATE streams.
 */
module Transducer {
  import opened Octets

  /** What one octet does: break the stream, extend it, or end it. */
  datatype Fed<S> =
    | Bad
    | More(next: S, out: bytes)
    | Final(out: bytes)

  /** A backend at one window width: its state at a stream start, and its step. */
  datatype Machine<!S> = Machine(start: S, eat: (S, byte) -> Fed<S>)

  /** Where a decoder stands: the machine state, and whether this stream has taken an octet yet. */
  datatype Pos<S> = Pos(state: S, open: bool)

  function Start<S>(m: Machine<S>): Pos<S> {
    Pos(m.start, false)
  }

  datatype Decoded<S> =
    | Invalid
    | Decoded(pos: Pos<S>, out: bytes, ended: bool)
  {
    /** The same outcome, seen from before `prefix` was produced. */
    function After(prefix: bytes, endedBefore: bool): Decoded<S> {
      if Invalid? then Invalid else Decoded(pos, prefix + out, endedBefore || ended)
    }
  }

  /** The reference decoder: one octet at a time, restarting wherever a stream ends. */
  function Decode<S>(m: Machine<S>, p: Pos<S>, input: bytes): Decoded<S>
    decreases |input|
  {
    if input == [] then Decoded(p, [], false) else
    match m.eat(p.state, input[0])
    case Bad => Invalid
    case More(next, out) => Decode(m, Pos(next, true), input[1..]).After(out, false)
    case Final(out) => Decode(m, Start(m), input[1..]).After(out, true)
  }

  lemma AfterAfter<S>(d: Decoded<S>, a: bytes, x: bool, b: bytes, y: bool)
    ensures d.After(b, y).After(a, x) == d.After(a + b, x || y)
  {
    if d.Decoded? {
      assert a + (b + d.out) == (a + b) + d.out;
    }
  }

  lemma AfterNothing<S>(d: Decoded<S>)
    ensures d.After([], false) == d
  {
    if d.Decoded? {
      assert [] + d.out == d.out;
    }
  }

  /** An octet that yields nothing only moves the state. */
  lemma QuietStep<S>(m: Machine<S>, p: Pos<S>, b: byte, rest: bytes)
    requires m.eat(p.state, b).More? && m.eat(p.state, b).out == []
    ensures Decode(m, p, [b] + rest) == Decode(m, Pos(m.eat(p.state, b).next, true), rest)
  {
    assert ([b] + rest)[1..] == rest;
    AfterNothing(Decode(m, Pos(m.eat(p.state, b).next, true), rest));
  }

  /** Decoding a concatenation is decoding the second part from where the first one stopped. */
  lemma {:induction false} DecodeConcat<S>(m: Machine<S>, p: Pos<S>, a: bytes, b: bytes)
    ensures Decode(m, p, a).Invalid? ==> Decode(m, p, a + b).Invalid?
    ensures Decode(m, p, a).Decoded? ==>
      Decode(m, p, a + b) == Decode(m, Decode(m, p, a).pos, b).After(Decode(m, p, a).out, Decode(m, p, a).ended)
    decreases |a|
  {
    if a == [] {
      assert a + b == b;
      AfterNothing(Decode(m, p, b));
    } else {
      assert (a + b)[0] == a[0] && (a + b)[1..] == a[1..] + b;
      match m.eat(p.state, a[0])
      case Bad =>
      case More(next, out) =>
        DecodeConcat(m, Pos(next, true), a[1..], b);
        var d := Decode(m, Pos(next, true), a[1..]);
        if d.Decoded? {
          AfterAfter(Decode(m, d.pos, b), out, false, d.out, d.ended);
        }
      case Final(out) =>
        DecodeConcat(m, Start(m), a[1..], b);
        var d := Decode(m, Start(m), a[1..]);
        if d.Decoded? {
          AfterAfter(Decode(m, d.pos, b), out, true, d.out, d.ended);
        }
    }
  }
}
