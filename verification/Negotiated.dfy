/** Local policy of both roles, and the agreement a handshake settles on. */
module Negotiation {
  import opened Wrappers
  import opened Errors
  import opened Quoting
  import opened Grammar
  import opened Layout
  import opened Parameters
  import Rendering

  const MAX_WINDOW_BITS: nat := 15

  datatype Settings = Settings(
    serverNoContextTakeover: bool,
    clientNoContextTakeover: bool,
    serverMaxWindowBits: nat,
    clientMaxWindowBits: nat)

  /** A client bounds its own compressor, which starts at 9, and the server's, which may be 8. */
  type ClientConfig = c: Settings | 8 <= c.serverMaxWindowBits <= 15 && 9 <= c.clientMaxWindowBits <= 15
    witness Settings(false, false, 15, 15)

  /** A server bounds its own compressor, which starts at 9, and the client's, which may be 8. */
  type ServerConfig = c: Settings | 9 <= c.serverMaxWindowBits <= 15 && 8 <= c.clientMaxWindowBits <= 15
    witness Settings(false, false, 15, 15)

  datatype Role = Client | Server

  datatype PmdComposition = Compatible | Conflict

  /** The parameters name the two ends; `role` says which of them is this side. */
  datatype Negotiated = Negotiated(role: Role, settings: Settings) {
    predicate LocalNoContextTakeover() {
      if role.Client? then settings.clientNoContextTakeover else settings.serverNoContextTakeover
    }

    predicate PeerNoContextTakeover() {
      if role.Client? then settings.serverNoContextTakeover else settings.clientNoContextTakeover
    }

    function LocalMaxWindowBits(): nat {
      if role.Client? then settings.clientMaxWindowBits else settings.serverMaxWindowBits
    }

    function PeerMaxWindowBits(): nat {
      if role.Client? then settings.serverMaxWindowBits else settings.clientMaxWindowBits
    }
  }

  // ---- Which list positions name this extension.

  predicate NamesDeflate(e: string) {
    IsDeflate(e) == Ok(true)
  }

  /** The `permessage-deflate` elements among some positions, in order. */
  function Deflates(es: seq<string>): seq<string> {
    if es == [] then [] else (if NamesDeflate(es[0]) then [es[0]] else []) + Deflates(es[1..])
  }

  /** All of them, as often as they occur. */
  lemma {:induction false} DeflatesAre(es: seq<string>, e: string)
    ensures multiset(Deflates(es))[e] == if NamesDeflate(e) then multiset(es)[e] else 0
    decreases |es|
  {
    if es != [] {
      DeflatesAre(es[1..], e);
      assert es == [es[0]] + es[1..];
    }
  }

  /** The first of them, and those behind it. */
  lemma {:induction false} FirstDeflate(es: seq<string>) returns (i: nat)
    requires Deflates(es) != []
    ensures i < |es| && NamesDeflate(es[i]) && forall j :: 0 <= j < i ==> !NamesDeflate(es[j])
    ensures Deflates(es) == [es[i]] + Deflates(es[i+1..])
    decreases |es|
  {
    if NamesDeflate(es[0]) {
      i := 0;
    } else {
      var k := FirstDeflate(es[1..]);
      i := k + 1;
      assert es[1..][k+1..] == es[i+1..];
      assert forall j :: 1 <= j < i ==> es[j] == es[1..][j-1];
    }
  }

  lemma {:induction false} DeflatesConcat(a: seq<string>, b: seq<string>)
    ensures Deflates(a + b) == Deflates(a) + Deflates(b)
    decreases |a|
  {
    if a == [] {
      assert a + b == b;
    } else {
      assert (a + b)[0] == a[0] && (a + b)[1..] == a[1..] + b;
      DeflatesConcat(a[1..], b);
    }
  }

  predicate AllBalanced(lines: seq<string>) {
    forall i :: 0 <= i < |lines| ==> Balanced(lines[i])
  }

  /** Every one of these elements splits into a name and parameters. */
  predicate Nameable(es: seq<string>) {
    forall i :: 0 <= i < |es| ==> IsDeflate(es[i]).Ok?
  }

  /** An element the list splitter cut out can always be asked for its name: the error path is never taken. */
  lemma PositionsAreNameable(line: string)
    requires Balanced(line)
    ensures Nameable(Cut(line, ',', Bare))
  {
    forall i | 0 <= i < |Cut(line, ',', Bare)| ensures IsDeflate(Cut(line, ',', Bare)[i]).Ok? {
      PiecesSplitAgain(line, ',', ';', i);
    }
  }

  lemma {:induction false} AllPositionsNameable(lines: seq<string>)
    requires AllBalanced(lines)
    ensures Nameable(Positions(lines))
    decreases |lines|
  {
    if lines != [] {
      PositionsAreNameable(lines[0]);
      AllPositionsNameable(lines[1..]);
    }
  }

  method NamesDeflateIn(element: string) returns (r: Result<bool, NegotiationError>)
    ensures r == IsDeflate(element)
  {
    var segments := SplitOn(element, ';');
    if segments.Err? { return Err(segments.error); }
    r := Ok(Trim(segments.value[0]) == NAME);
  }

  // ---- Padding around an element decides nothing.

  lemma {:induction false} CutPadLeft(l: string, s: string)
    requires AllSpace(l)
    ensures Cut(l + s, ';', Bare) == [l + Cut(s, ';', Bare)[0]] + Cut(s, ';', Bare)[1..]
    decreases |l|
  {
    if l == "" {
      assert l + s == s;
      assert l + Cut(s, ';', Bare)[0] == Cut(s, ';', Bare)[0];
    } else {
      assert (l + s)[0] == l[0] && (l + s)[1..] == l[1..] + s;
      CutPadLeft(l[1..], s);
      assert [l[0]] + (l[1..] + Cut(s, ';', Bare)[0]) == l + Cut(s, ';', Bare)[0];
    }
  }

  function PadLast(parts: seq<string>, r: string): seq<string>
    requires parts != []
  {
    parts[..|parts|-1] + [parts[|parts|-1] + r]
  }

  lemma PadLastCons(x: string, rest: seq<string>, r: string)
    requires rest != []
    ensures PadLast([x] + rest, r) == [x] + PadLast(rest, r)
  {
  }

  lemma PadLastPrepend(c: char, parts: seq<string>, r: string)
    requires parts != []
    ensures PadLast(PrependTo(c, parts), r) == PrependTo(c, PadLast(parts, r))
  {
    assert ([c] + parts[0]) + r == [c] + (parts[0] + r);
  }

  lemma {:induction false} CutPadRight(s: string, r: string, q: Quote)
    requires AllSpace(r) && Scan(q, s) == Bare
    ensures Cut(s + r, ';', q) == PadLast(Cut(s, ';', q), r) && Scan(q, s + r) == Bare
    decreases |s|
  {
    if s == "" {
      assert s + r == r && "" + r == r;
      SpacesAreOnePart(r);
    } else {
      assert (s + r)[1..] == s[1..] + r;
      CutPadRight(s[1..], r, Next(q, s[0]));
      if q == Bare && s[0] == ';' {
        PadLastCons("", Cut(s[1..], ';', Bare), r);
      } else {
        PadLastPrepend(s[0], Cut(s[1..], ';', Next(q, s[0])), r);
      }
    }
  }

  lemma {:induction false} SpacesAreOnePart(r: string)
    requires AllSpace(r)
    ensures Cut(r, ';', Bare) == [r] && Balanced(r)
    decreases |r|
  {
    if r != "" {
      SpacesAreOnePart(r[1..]);
      assert [r[0]] + r[1..] == r;
    }
  }

  lemma {:induction false} SplitParameterPadRight(segment: string, r: string)
    requires AllSpace(r)
    ensures var (name, value) := SplitParameter(segment);
      SplitParameter(segment + r) == if value.None? then (name + r, None) else (name, Some(value.value + r))
    decreases |segment|
  {
    if segment == "" {
      assert segment + r == r;
      SplitParameterAt(r, "");
    } else if segment[0] == '=' {
      assert (segment + r)[1..] == segment[1..] + r;
    } else {
      assert (segment + r)[1..] == segment[1..] + r;
      SplitParameterPadRight(segment[1..], r);
      assert [segment[0]] + (SplitParameter(segment[1..]).0 + r) == [segment[0]] + SplitParameter(segment[1..]).0 + r;
    }
  }

  lemma TrimPadRight(s: string, r: string)
    requires AllSpace(r)
    ensures Trim(s + r) == Trim(s)
  {
    var a, b := TrimSpec(s);
    assert s + r == a + Trim(s) + (b + r);
    TrimPadded(a, Trim(s), b + r);
  }

  lemma ParseSegmentPadRight(segment: string, r: string)
    requires AllSpace(r)
    ensures ParseSegment(segment + r) == ParseSegment(segment)
  {
    SplitParameterPadRight(segment, r);
    var (name, value) := SplitParameter(segment);
    if value.None? { TrimPadRight(name, r); } else { TrimPadRight(value.value, r); }
  }

  lemma {:induction false} FillPadRight(s: Slots, segments: seq<string>, r: string)
    requires segments != [] && AllSpace(r)
    ensures Fill(s, PadLast(segments, r)) == Fill(s, segments)
    decreases |segments|
  {
    if |segments| == 1 {
      ParseSegmentPadRight(segments[0], r);
      assert PadLast(segments, r)[1..] == segments[1..];
    } else {
      assert PadLast(segments, r)[0] == segments[0] && PadLast(segments, r)[1..] == PadLast(segments[1..], r);
      if Step(s, segments[0]).Ok? { FillPadRight(Step(s, segments[0]).value, segments[1..], r); }
    }
  }

  lemma TrimPadLeft(l: string, s: string)
    requires AllSpace(l)
    ensures Trim(l + s) == Trim(s)
  {
    var a, b := TrimSpec(s);
    assert l + s == (l + a) + Trim(s) + b;
    TrimPadded(l + a, Trim(s), b);
  }

  lemma PadLeftIsIrrelevant(l: string, s: string)
    requires AllSpace(l) && Balanced(s)
    ensures ParseParams(l + s) == ParseParams(s) && IsDeflate(l + s) == IsDeflate(s)
  {
    SpacesAreOnePart(l);
    ScanConcat(Bare, l, s);
    CutPadLeft(l, s);
    var parts := Cut(s, ';', Bare);
    TrimPadLeft(l, parts[0]);
    assert ([l + parts[0]] + parts[1..])[1..] == parts[1..];
  }

  lemma PadRightIsIrrelevant(s: string, r: string)
    requires AllSpace(r) && Balanced(s)
    ensures ParseParams(s + r) == ParseParams(s) && IsDeflate(s + r) == IsDeflate(s) && Balanced(s + r)
  {
    CutPadRight(s, r, Bare);
    var parts := Cut(s, ';', Bare);
    if |parts| == 1 {
      TrimPadRight(parts[0], r);
      assert PadLast(parts, r)[1..] == parts[1..];
    } else {
      assert PadLast(parts, r)[0] == parts[0] && PadLast(parts, r)[1..] == PadLast(parts[1..], r);
      FillPadRight(EMPTY, parts[1..], r);
    }
  }

  /** An element names and decodes as its trimmed self. */
  lemma PaddingIsIrrelevant(e: string)
    requires Balanced(Trim(e))
    ensures ParseParams(e) == ParseParams(Trim(e)) && IsDeflate(e) == IsDeflate(Trim(e))
  {
    var l, r := TrimSpec(e);
    assert e == l + (Trim(e) + r);
    PadRightIsIrrelevant(Trim(e), r);
    PadLeftIsIrrelevant(l, Trim(e) + r);
  }

  /** Where the field checks out, so does each of its elements of this name. */
  lemma DeflatesAreValid(lines: seq<string>)
    requires ValidField(lines)
    ensures forall i :: 0 <= i < |Deflates(Positions(lines))| ==>
      ValidElement(Deflates(Positions(lines))[i]) && NamesDeflate(Deflates(Positions(lines))[i])
  {
    ValidLinesBalanced(lines);
    var ds := Deflates(Positions(lines));
    forall i | 0 <= i < |ds| ensures ValidElement(ds[i]) && NamesDeflate(ds[i]) {
      DeflatesAre(Positions(lines), ds[i]);
      assert ds[i] in multiset(ds);
      assert ds[i] in Positions(lines);
      NamedIsNotBlank(ds[i]);
    }
  }

  // ---- Bounds.

  /** The bound a window parameter states: unstated, the widest there is. */
  function Bound(w: Option<nat>): nat {
    if w.Some? then w.value else 15
  }

  function ClientBound(w: ClientWindow): nat {
    if w.Bits? then w.bits else 15
  }

  /** Widths that decode are widths a header may carry. */
  lemma {:induction false} FilledWidths(s: Slots, segments: seq<string>)
    requires s.serverWidth.Some? ==> 8 <= s.serverWidth.value <= 15
    requires s.clientWidth.Some? && s.clientWidth.value.Bits? ==> 8 <= s.clientWidth.value.bits <= 15
    ensures var r := Fill(s, segments);
      r.Ok? ==>
        && (r.value.serverWidth.Some? ==> 8 <= r.value.serverWidth.value <= 15)
        && (r.value.clientWidth.Some? && r.value.clientWidth.value.Bits? ==> 8 <= r.value.clientWidth.value.bits <= 15)
    decreases |segments|
  {
    if segments != [] && Step(s, segments[0]).Ok? { FilledWidths(Step(s, segments[0]).value, segments[1..]); }
  }

  lemma ParsedIsPrintable(e: string)
    requires ParseParams(e).Ok?
    ensures Rendering.Printable(ParseParams(e).value)
  {
    FilledWidths(EMPTY, Segments(e).value[1..]);
  }

  // ---- Exact correspondence, for both ends of the wire.

  /** Count this extension's elements, refusing the first that is not the expected one. */
  function CountExact(es: seq<string>, expected: string, found: nat, otherwise: NegotiationError)
    : Result<nat, NegotiationError>
    decreases |es|
  {
    if es == [] then Ok(found)
    else if IsDeflate(es[0]).Err? then Err(IsDeflate(es[0]).error)
    else if !NamesDeflate(es[0]) then CountExact(es[1..], expected, found, otherwise)
    else if Trim(es[0]) != expected then Err(otherwise)
    else CountExact(es[1..], expected, found + 1, otherwise)
  }

  method CountExactIn(elements: seq<string>, expected: string, found: nat, otherwise: NegotiationError)
    returns (r: Result<nat, NegotiationError>)
    ensures r == CountExact(elements, expected, found, otherwise)
  {
    var n := found;
    for j := 0 to |elements|
      invariant CountExact(elements, expected, found, otherwise) == CountExact(elements[j..], expected, n, otherwise)
    {
      assert elements[j..][1..] == elements[j+1..];
      var named := NamesDeflateIn(elements[j]);
      if named.Err? { return Err(named.error); }
      if !named.value { continue; }
      n := n + 1;
      if Trim(elements[j]) != expected { return Err(otherwise); }
    }
    r := Ok(n);
  }

  ghost predicate AllTrimTo(es: seq<string>, expected: string) {
    forall e :: e in es ==> Trim(e) == expected
  }

  lemma {:induction false} CountExactMeans(es: seq<string>, expected: string, found: nat, otherwise: NegotiationError)
    requires Nameable(es)
    ensures var r := CountExact(es, expected, found, otherwise);
      && (r.Ok? <==> AllTrimTo(Deflates(es), expected))
      && (r.Ok? ==> r.value == found + |Deflates(es)|)
      && (r.Err? ==> r.error == otherwise)
    decreases |es|
  {
    if es != [] {
      CountExactMeans(es[1..], expected, if NamesDeflate(es[0]) then found + 1 else found, otherwise);
      if NamesDeflate(es[0]) {
        assert es[0] in Deflates(es);
        assert forall e :: e in Deflates(es) <==> e == es[0] || e in Deflates(es[1..]);
      } else {
        assert Deflates(es) == Deflates(es[1..]);
      }
    }
  }

  lemma AllTrimConcat(a: seq<string>, b: seq<string>, expected: string)
    ensures AllTrimTo(a + b, expected) <==> AllTrimTo(a, expected) && AllTrimTo(b, expected)
  {
  }

  lemma NamedIsNotBlank(e: string)
    requires NamesDeflate(e)
    ensures !IsBlank(e)
  {
    if IsBlank(e) {
      var l, r := TrimSpec(e);
      assert e == l + r;
      SpacesAreOnePart(e);
    }
  }
}
