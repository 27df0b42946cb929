/**
 * Splitting on a delimiter that quoted strings may hide. Octets of a header value
 * are written as the characters with those codes.
 */
module Quoting {
  import opened Wrappers
  import opened Errors

  /** Outside any quotes, inside a quoted string, or just behind its escape. */
  datatype Quote = Bare | Quoted | Escaped

  function Next(q: Quote, c: char): Quote {
    match q
    case Bare => if c == '"' then Quoted else Bare
    case Quoted => if c == '\\' then Escaped else if c == '"' then Bare else Quoted
    case Escaped => Quoted
  }

  function Scan(q: Quote, s: string): Quote
    decreases |s|
  {
    if s == [] then q else Scan(Next(q, s[0]), s[1..])
  }

  lemma {:induction false} ScanConcat(q: Quote, a: string, b: string)
    ensures Scan(q, a + b) == Scan(Scan(q, a), b)
    decreases |a|
  {
    if a == [] {
      assert a + b == b;
    } else {
      assert (a + b)[1..] == a[1..] + b;
      ScanConcat(Next(q, a[0]), a[1..], b);
    }
  }

  predicate Balanced(s: string) {
    Scan(Bare, s) == Bare
  }

  /** Any character but the quote, which opens a quoted string before it could part anything. */
  predicate IsDelimiter(d: char) {
    d != '"'
  }

  /** Whether `c`, met in `q`, parts what is before it from what is behind. */
  predicate Divides(q: Quote, c: char, d: char) {
    q == Bare && c == d && c != '"'
  }

  /** Whether some `d` stands outside the quotes. */
  predicate HasBare(s: string, d: char, q: Quote)
    decreases |s|
  {
    s != [] && (Divides(q, s[0], d) || HasBare(s[1..], d, Next(q, s[0])))
  }

  /** An indivisible piece: balanced, and with no bare delimiter left in it. */
  predicate IsPart(s: string, d: char) {
    Balanced(s) && !HasBare(s, d, Bare)
  }

  function Join(parts: seq<string>, d: char): string
    requires parts != []
  {
    if |parts| == 1 then parts[0] else parts[0] + [d] + Join(parts[1..], d)
  }

  /** A decomposition of `s`: its pieces, and nothing lost between them. */
  ghost predicate IsSplit(s: string, d: char, parts: seq<string>) {
    && parts != []
    && Join(parts, d) == s
    && forall i :: 0 <= i < |parts| ==> IsPart(parts[i], d)
  }

  function PrependTo(c: char, parts: seq<string>): seq<string>
    requires parts != []
  {
    [[c] + parts[0]] + parts[1..]
  }

  /** Cutting at every bare delimiter, quotes closed or not. */
  function Cut(s: string, d: char, q: Quote): (parts: seq<string>)
    ensures parts != []
    decreases |s|
  {
    if s == [] then [""]
    else if Divides(q, s[0], d) then [""] + Cut(s[1..], d, Bare)
    else PrependTo(s[0], Cut(s[1..], d, Next(q, s[0])))
  }

  /** The specification of the splitter. */
  function Split(s: string, d: char): Result<seq<string>, NegotiationError> {
    if Balanced(s) then Ok(Cut(s, d, Bare)) else Err(MalformedHeader)
  }

  // ---- What a cut is.

  lemma {:induction false} JoinCut(s: string, d: char, q: Quote)
    ensures Join(Cut(s, d, q), d) == s
    decreases |s|
  {
    if s != [] {
      if Divides(q, s[0], d) {
        JoinCut(s[1..], d, Bare);
        var rest := Cut(s[1..], d, Bare);
        assert ([""] + rest)[1..] == rest;
        assert "" + [d] + s[1..] == s;
      } else {
        JoinCut(s[1..], d, Next(q, s[0]));
        JoinPrepend(s[0], Cut(s[1..], d, Next(q, s[0])), d);
      }
    }
  }

  lemma JoinPrepend(c: char, parts: seq<string>, d: char)
    requires parts != []
    ensures Join(PrependTo(c, parts), d) == [c] + Join(parts, d)
  {
    if |parts| > 1 {
      assert PrependTo(c, parts)[1..] == parts[1..];
      assert ([c] + parts[0]) + [d] + Join(parts[1..], d) == [c] + (parts[0] + [d] + Join(parts[1..], d));
    }
  }

  /** The first piece continues whatever quoting it began in; every other one starts bare. */
  lemma {:induction false} CutParts(s: string, d: char, q: Quote)
    requires Scan(q, s) == Bare
    ensures var parts := Cut(s, d, q);
      && Scan(q, parts[0]) == Bare && !HasBare(parts[0], d, q)
      && forall i :: 1 <= i < |parts| ==> IsPart(parts[i], d)
    decreases |s|
  {
    if s != [] {
      var rest := Cut(s[1..], d, Next(q, s[0]));
      if Divides(q, s[0], d) {
        CutParts(s[1..], d, Bare);
        var rest := Cut(s[1..], d, Bare);
        assert forall i :: 0 <= i < |rest| ==> IsPart(rest[i], d) && ([""] + rest)[i + 1] == rest[i];
      } else {
        CutParts(s[1..], d, Next(q, s[0]));
        assert ([s[0]] + rest[0])[1..] == rest[0];
      }
    }
  }

  lemma {:induction false} CutPart(s: string, d: char, q: Quote)
    requires !HasBare(s, d, q)
    ensures Cut(s, d, q) == [s]
    decreases |s|
  {
    if s != [] {
      CutPart(s[1..], d, Next(q, s[0]));
      assert [s[0]] + s[1..] == s;
    }
  }

  lemma PrependAcross(c: char, left: seq<string>, right: seq<string>)
    requires left != []
    ensures PrependTo(c, left + right) == PrependTo(c, left) + right
  {
    assert (left + right)[1..] == left[1..] + right;
  }

  /** Cutting across a bare delimiter cuts both sides. */
  lemma {:induction false} CutAcross(a: string, b: string, d: char, q: Quote)
    requires IsDelimiter(d) && Scan(q, a) == Bare
    ensures Cut(a + [d] + b, d, q) == Cut(a, d, q) + Cut(b, d, Bare)
    decreases |a|
  {
    if a == [] {
      assert (a + [d] + b)[1..] == b;
    } else {
      assert (a + [d] + b)[0] == a[0] && (a + [d] + b)[1..] == a[1..] + [d] + b;
      CutAcross(a[1..], b, d, Next(q, a[0]));
      if !Divides(q, a[0], d) { PrependAcross(a[0], Cut(a[1..], d, Next(q, a[0])), Cut(b, d, Bare)); }
    }
  }

  lemma {:induction false} CutJoin(parts: seq<string>, d: char)
    requires IsDelimiter(d) && parts != []
    requires forall i :: 0 <= i < |parts| ==> IsPart(parts[i], d)
    ensures Cut(Join(parts, d), d, Bare) == parts && Balanced(Join(parts, d))
    decreases |parts|
  {
    CutPart(parts[0], d, Bare);
    if |parts| > 1 {
      CutJoin(parts[1..], d);
      CutAcross(parts[0], Join(parts[1..], d), d, Bare);
      ScanConcat(Bare, parts[0] + [d], Join(parts[1..], d));
      ScanConcat(Bare, parts[0], [d]);
    }
  }

  /** What the splitter answers is a decomposition, one exists exactly when it answers, and there is no other. */
  lemma SplitIsTheDecomposition(s: string, d: char, parts: seq<string>)
    requires IsDelimiter(d)
    ensures Split(s, d) == Ok(parts) <==> IsSplit(s, d, parts)
  {
    if Balanced(s) {
      JoinCut(s, d, Bare);
      CutParts(s, d, Bare);
    }
    if IsSplit(s, d, parts) { CutJoin(parts, d); }
  }

  /** Splitting a piece again, on anything, cannot fail. */
  lemma PiecesSplitAgain(s: string, d: char, inner: char, i: nat)
    requires Split(s, d).Ok? && i < |Split(s, d).value|
    ensures Split(Split(s, d).value[i], inner).Ok?
  {
    CutParts(s, d, Bare);
  }

  lemma {:induction false} QuoteNeverDivides(s: string, q: Quote)
    ensures !HasBare(s, '"', q)
    decreases |s|
  {
    if s != [] { QuoteNeverDivides(s[1..], Next(q, s[0])); }
  }

  /** Asked to split on the quote itself, the splitter never does. */
  lemma SplittingOnTheQuote(s: string)
    ensures Split(s, '"') == if Balanced(s) then Ok([s]) else Err(MalformedHeader)
  {
    QuoteNeverDivides(s, Bare);
    CutPart(s, '"', Bare);
  }

  // ---- The splitter itself.

  lemma {:induction false} BareConcat(a: string, b: string, d: char, q: Quote)
    ensures HasBare(a + b, d, q) <==> HasBare(a, d, q) || HasBare(b, d, Scan(q, a))
    decreases |a|
  {
    if a == [] {
      assert a + b == b;
    } else {
      assert (a + b)[1..] == a[1..] + b;
      BareConcat(a[1..], b, d, Next(q, a[0]));
    }
  }

  /** What the splitter knows `index` characters in: the pieces parted so far, and the one begun at `start`. */
  ghost predicate SplitSoFar(value: string, d: char, parts: seq<string>, start: nat, index: nat, q: Quote)
    requires start <= index <= |value|
  {
    && q == Scan(Bare, value[..index])
    && !HasBare(value[start..index], d, Bare) && q == Scan(Bare, value[start..index])
    && Cut(value, d, Bare) == parts + Cut(value[start..], d, Bare)
  }

  lemma OneMore(value: string, start: nat, index: nat)
    requires start <= index < |value|
    ensures value[..index + 1] == value[..index] + [value[index]]
    ensures value[start..index + 1] == value[start..index] + [value[index]]
    ensures value[start..] == value[start..index] + [value[index]] + value[index + 1..]
  {
  }

  /** A character that parts nothing joins the piece begun. */
  lemma SplitStays(value: string, d: char, parts: seq<string>, start: nat, index: nat, q: Quote)
    requires start <= index < |value| && SplitSoFar(value, d, parts, start, index, q)
    requires !Divides(q, value[index], d)
    ensures SplitSoFar(value, d, parts, start, index + 1, Next(q, value[index]))
  {
    var c := value[index];
    OneMore(value, start, index);
    ScanConcat(Bare, value[..index], [c]);
    ScanConcat(Bare, value[start..index], [c]);
    BareConcat(value[start..index], [c], d, Bare);
  }

  /** A bare delimiter ends the piece begun and begins another behind itself. */
  lemma SplitParts(value: string, d: char, parts: seq<string>, start: nat, index: nat)
    requires start <= index < |value| && SplitSoFar(value, d, parts, start, index, Bare)
    requires Divides(Bare, value[index], d)
    ensures SplitSoFar(value, d, parts + [value[start..index]], index + 1, index + 1, Bare)
  {
    var part, rest := value[start..index], value[index + 1..];
    OneMore(value, start, index);
    ScanConcat(Bare, value[..index], [d]);
    CutAcross(part, rest, d, Bare);
    CutPart(part, d, Bare);
    assert parts + ([part] + Cut(rest, d, Bare)) == (parts + [part]) + Cut(rest, d, Bare);
  }

  method SplitOn(value: string, delimiter: char) returns (r: Result<seq<string>, NegotiationError>)
    ensures r == Split(value, delimiter)
  {
    var parts: seq<string> := [];
    var start := 0;
    var quoted, escaped := false, false;
    ghost var q := Bare;
    for index := 0 to |value|
      invariant start <= index
      invariant quoted == (q != Bare) && escaped == (q == Escaped)
      invariant SplitSoFar(value, delimiter, parts, start, index, q)
    {
      var byte := value[index];
      if Divides(q, byte, delimiter) { SplitParts(value, delimiter, parts, start, index); }
      else { SplitStays(value, delimiter, parts, start, index, q); }
      if quoted {
        if escaped {
          escaped := false;
        } else if byte == '\\' {
          escaped := true;
        } else if byte == '"' {
          quoted := false;
        }
      } else if byte == '"' {
        quoted := true;
      } else if byte == delimiter {
        parts := parts + [value[start..index]];
        start := index + 1;
      }
      q := Next(q, byte);
    }
    assert value[..|value|] == value && value[start..|value|] == value[start..];
    if quoted || escaped { return Err(MalformedHeader); }
    CutPart(value[start..], delimiter, Bare);
    parts := parts + [value[start..]];
    r := Ok(parts);
  }
}
