/**
 * The extension list of section 9.1 of RFC 6455 as trees and their spelling, and
 * the proof that the check accepts exactly what some tree spells.
 */
module Syntax {
  import opened Wrappers
  import opened Quoting
  import opened Grammar

  /** How a value is written: bare, or quoted with some of its characters escaped. */
  datatype Spelling =
    | Plain(token: string)
    | InQuotes(token: string, marks: seq<bool>)

  datatype Value = Value(before: string, spelling: Spelling, after: string)

  datatype Param = Param(before: string, name: string, after: string, value: Option<Value>)

  /** A list position: an extension with its parameters, or nothing but spaces. */
  datatype Position =
    | Blank(space: string)
    | Extension(before: string, name: string, after: string, params: seq<Param>)

  /** Optional whitespace, as a header value can hold it. */
  predicate IsOws(s: string) {
    forall i :: 0 <= i < |s| ==> s[i] == ' ' || s[i] == '\t'
  }

  /** The characters a `HeaderValue` admits. */
  predicate Admissible(s: string) {
    forall i :: 0 <= i < |s| ==> s[i] == '\t' || (' ' <= s[i] < '\U{7F}') || ('\U{80}' <= s[i] <= '\U{FF}')
  }

  predicate WfValue(v: Value) {
    && IsOws(v.before) && IsOws(v.after) && IsToken(v.spelling.token)
    && (v.spelling.InQuotes? ==> Marks(v.spelling.token, v.spelling.marks))
  }

  predicate WfParam(p: Param) {
    IsOws(p.before) && IsOws(p.after) && IsToken(p.name) && (p.value.Some? ==> WfValue(p.value.value))
  }

  predicate WfPosition(e: Position) {
    match e
    case Blank(space) => IsOws(space)
    case Extension(before, name, after, params) =>
      IsOws(before) && IsOws(after) && IsToken(name) && forall i :: 0 <= i < |params| ==> WfParam(params[i])
  }

  function SpellValue(v: Value): string
    requires WfValue(v)
  {
    v.before + (match v.spelling case Plain(t) => t case InQuotes(t, marks) => "\"" + Spell(t, marks)) + v.after
  }

  function SpellParam(p: Param): string
    requires WfParam(p)
  {
    p.before + p.name + p.after + (if p.value.Some? then "=" + SpellValue(p.value.value) else "")
  }

  function SpellParams(ps: seq<Param>): (r: seq<string>)
    requires forall i :: 0 <= i < |ps| ==> WfParam(ps[i])
    ensures |r| == |ps| && forall i :: 0 <= i < |ps| ==> r[i] == SpellParam(ps[i])
  {
    if ps == [] then [] else [SpellParam(ps[0])] + SpellParams(ps[1..])
  }

  function SpellPosition(e: Position): string
    requires WfPosition(e)
  {
    match e
    case Blank(space) => space
    case Extension(before, name, after, params) => Join([before + name + after] + SpellParams(params), ';')
  }

  function SpellPositions(es: seq<Position>): (r: seq<string>)
    requires forall i :: 0 <= i < |es| ==> WfPosition(es[i])
    ensures |r| == |es| && forall i :: 0 <= i < |es| ==> r[i] == SpellPosition(es[i])
  {
    if es == [] then [] else [SpellPosition(es[0])] + SpellPositions(es[1..])
  }

  /** `1#extension`: empty positions are allowed, a list of nothing else is not. */
  predicate WfList(es: seq<Position>) {
    && (forall i :: 0 <= i < |es| ==> WfPosition(es[i]))
    && exists i :: 0 <= i < |es| && es[i].Extension?
  }

  ghost predicate Derives(es: seq<Position>, s: string) {
    WfList(es) && Join(SpellPositions(es), ',') == s
  }

  // ---- Plain text: what has neither quotes nor delimiters is one piece.

  predicate PlainText(s: string) {
    forall i :: 0 <= i < |s| ==> s[i] != '"' && s[i] != ',' && s[i] != ';'
  }

  lemma {:induction false} PlainTextIsPart(s: string, d: char)
    requires PlainText(s) && (d == ',' || d == ';')
    ensures IsPart(s, d)
  {
    if s != "" { PlainTextIsPart(s[1..], d); }
  }

  /** Inside a quoted string nothing is bare until the closing quote. */
  lemma {:induction false} SpelledIsQuoted(text: string, marks: seq<bool>, d: char)
    requires Marks(text, marks)
    ensures Scan(Quoted, Spell(text, marks)) == Bare && !HasBare(Spell(text, marks), d, Quoted)
    decreases |text|
  {
    if text != "" {
      var rest := Spell(text[1..], marks[1..]);
      SpelledIsQuoted(text[1..], marks[1..], d);
      var s := Spell(text, marks);
      if marks[0] {
        assert s[1..][1..] == rest && s[1..][0] == text[0];
      } else {
        assert s[1..] == rest;
      }
    }
  }

  lemma PartConcat(a: string, b: string, d: char)
    requires IsPart(a, d) && IsPart(b, d)
    ensures IsPart(a + b, d)
  {
    ScanConcat(Bare, a, b);
    BareConcat(a, b, d, Bare);
  }

  lemma OwsIsPlain(s: string)
    requires IsOws(s)
    ensures PlainText(s) && AllSpace(s)
  {
  }

  lemma TokenIsPlain(s: string)
    requires IsToken(s)
    ensures PlainText(s) && Tight(s)
  {
    TokenIsTight(s);
  }

  lemma SpelledValueIsPart(v: Value, d: char)
    requires WfValue(v) && (d == ',' || d == ';')
    ensures IsPart(SpellValue(v), d)
  {
    OwsIsPlain(v.before); OwsIsPlain(v.after); TokenIsPlain(v.spelling.token);
    PlainTextIsPart(v.before, d); PlainTextIsPart(v.after, d);
    var body := match v.spelling case Plain(t) => t case InQuotes(t, marks) => "\"" + Spell(t, marks);
    match v.spelling {
      case Plain(t) => PlainTextIsPart(t, d);
      case InQuotes(t, marks) =>
        SpelledIsQuoted(t, marks, d);
        assert body[1..] == Spell(t, marks);
    }
    PartConcat(v.before, body, d);
    PartConcat(v.before + body, v.after, d);
  }

  lemma SpelledParamIsPart(p: Param, d: char)
    requires WfParam(p) && (d == ',' || d == ';')
    ensures IsPart(SpellParam(p), d)
  {
    OwsIsPlain(p.before); OwsIsPlain(p.after); TokenIsPlain(p.name);
    var head := p.before + p.name + p.after;
    PlainTextIsPart(head, d);
    if p.value.Some? {
      SpelledValueIsPart(p.value.value, d);
      PlainTextIsPart("=", d);
      PartConcat("=", SpellValue(p.value.value), d);
      PartConcat(head, "=" + SpellValue(p.value.value), d);
    } else {
      assert head + "" == head;
    }
  }

  lemma OneCharIsPart(c: char, d: char)
    requires c != d && c != '"'
    ensures IsPart([c], d)
  {
    assert [c][1..] == "";
    assert Next(Bare, c) == Bare && !Divides(Bare, c, d);
    assert Scan(Bare, [c]) == Scan(Bare, "") == Bare;
    assert HasBare([c], d, Bare) == HasBare("", d, Bare) == false;
  }

  lemma {:induction false} JoinIsPart(parts: seq<string>, inner: char, d: char)
    requires parts != [] && inner != d && inner != '"'
    requires forall i :: 0 <= i < |parts| ==> IsPart(parts[i], d)
    ensures IsPart(Join(parts, inner), d)
    decreases |parts|
  {
    if |parts| > 1 {
      JoinIsPart(parts[1..], inner, d);
      OneCharIsPart(inner, d);
      PartConcat(parts[0], [inner], d);
      PartConcat(parts[0] + [inner], Join(parts[1..], inner), d);
    }
  }

  /** A spelled extension splits on semicolons into exactly its name and its parameters. */
  lemma ExtensionSegments(e: Position)
    requires WfPosition(e) && e.Extension?
    ensures Split(SpellPosition(e), ';') == Ok([e.before + e.name + e.after] + SpellParams(e.params))
    ensures IsPart(SpellPosition(e), ',')
  {
    var head := e.before + e.name + e.after;
    OwsIsPlain(e.before); OwsIsPlain(e.after); TokenIsPlain(e.name);
    var parts := [head] + SpellParams(e.params);
    forall i, d | 0 <= i < |parts| && (d == ',' || d == ';') ensures IsPart(parts[i], d) {
      if i == 0 { PlainTextIsPart(head, d); } else { SpelledParamIsPart(e.params[i-1], d); }
    }
    CutJoin(parts, ';');
    JoinIsPart(parts, ';', ',');
  }

  // ---- Reading a spelled tree back.

  lemma SpelledValueReads(v: Value)
    requires WfValue(v)
    ensures Unquote(Trim(SpellValue(v))) == Ok(v.spelling.token)
  {
    OwsIsPlain(v.before); OwsIsPlain(v.after); TokenIsPlain(v.spelling.token);
    match v.spelling {
      case Plain(t) => TrimPadded(v.before, t, v.after);
      case InQuotes(t, marks) =>
        SpellEnds(t, marks);
        TrimPadded(v.before, "\"" + Spell(t, marks), v.after);
        UnescapeSpelled(t, marks);
        assert ("\"" + Spell(t, marks))[1..] == Spell(t, marks);
    }
  }

  lemma {:induction false} SpellEnds(text: string, marks: seq<bool>)
    requires |marks| == |text|
    ensures Spell(text, marks) != "" && Spell(text, marks)[|Spell(text, marks)|-1] == '"'
    decreases |text|
  {
    if text != "" { SpellEnds(text[1..], marks[1..]); }
  }

  /** A parameter reads back as its name and its value's token, however it was spaced and quoted. */
  lemma SpelledParamReads(p: Param)
    requires WfParam(p)
    ensures var (name, value) := SplitParameter(SpellParam(p));
      && Trim(name) == p.name
      && (value.Some? <==> p.value.Some?)
      && (value.Some? ==> Unquote(Trim(value.value)) == Ok(p.value.value.spelling.token))
  {
    OwsIsPlain(p.before); OwsIsPlain(p.after); TokenIsPlain(p.name); TokenIsTight(p.name);
    var head := p.before + p.name + p.after;
    assert '=' !in head;
    TrimPadded(p.before, p.name, p.after);
    if p.value.Some? {
      SplitParameterAt(head, SpellValue(p.value.value));
      assert head + "=" + SpellValue(p.value.value) == SpellParam(p);
      SpelledValueReads(p.value.value);
    } else {
      SplitParameterAt(head, "");
      assert head + "" == head;
    }
  }

  lemma SpelledPositionIsValid(e: Position)
    requires WfPosition(e)
    ensures e.Extension? ==> ValidElement(SpellPosition(e)) && !IsBlank(SpellPosition(e))
    ensures e.Blank? ==> IsBlank(SpellPosition(e))
    ensures IsPart(SpellPosition(e), ',')
  {
    match e
    case Blank(space) =>
      OwsIsPlain(space);
      PlainTextIsPart(space, ',');
      TrimPadded(space, "", "");
      assert space + "" + "" == space;
    case Extension(before, name, after, params) =>
      ExtensionSegments(e);
      OwsIsPlain(before); OwsIsPlain(after); TokenIsPlain(name);
      TrimPadded(before, name, after);
      var segments := [before + name + after] + SpellParams(params);
      forall i | 1 <= i < |segments| ensures ValidParameter(segments[i]) {
        SpelledParamReads(params[i-1]);
      }
      NotBlankWith(SpellPosition(e), |before|);
  }

  lemma NotBlankWith(s: string, i: nat)
    requires i < |s| && !IsSpace(s[i])
    ensures !IsBlank(s)
  {
    var l, r := TrimSpec(s);
    assert s == l + Trim(s) + r;
    assert Trim(s) == "" ==> s == l + r;
  }

  lemma OneLine(s: string, parts: seq<string>, i: nat)
    requires IsSplit(s, ',', parts)
    requires forall j :: 0 <= j < |parts| ==> IsBlank(parts[j]) || ValidElement(parts[j])
    requires i < |parts| && !IsBlank(parts[i])
    ensures ValidField([s])
  {
    SplitIsTheDecomposition(s, ',', parts);
    assert Populated([s][0]);
  }

  /** Everything a tree spells passes the check. */
  lemma DerivableIsValid(es: seq<Position>, s: string)
    requires Derives(es, s)
    ensures ValidField([s])
  {
    var parts := SpellPositions(es);
    forall i | 0 <= i < |parts|
      ensures IsBlank(parts[i]) || ValidElement(parts[i])
      ensures IsPart(parts[i], ',')
    {
      SpelledPositionIsValid(es[i]);
    }
    var i :| 0 <= i < |es| && es[i].Extension?;
    SpelledPositionIsValid(es[i]);
    OneLine(s, parts, i);
  }

  // ---- Finding the tree.

  lemma SpacesAreOws(s: string)
    requires AllSpace(s) && Admissible(s)
    ensures IsOws(s)
  {
  }

  lemma ReadPadding(s: string) returns (l: string, r: string)
    requires Admissible(s)
    ensures IsOws(l) && IsOws(r) && s == l + Trim(s) + r
  {
    l, r := TrimSpec(s);
    assert forall i :: 0 <= i < |l| ==> l[i] == s[i];
    assert forall i :: 0 <= i < |r| ==> r[i] == s[|s| - |r| + i];
    SpacesAreOws(l);
    SpacesAreOws(r);
  }

  lemma ReadValue(s: string) returns (v: Value)
    requires Admissible(s) && Unquote(Trim(s)).Ok? && IsToken(Unquote(Trim(s)).value)
    ensures WfValue(v) && SpellValue(v) == s
  {
    var l, r := ReadPadding(s);
    var body := Trim(s);
    var token := Unquote(body).value;
    UnquoteInvertsQuoting(body, token);
    if body == token && '"' !in token {
      v := Value(l, Plain(token), r);
    } else {
      var marks :| Marks(token, marks) && body == "\"" + Spell(token, marks);
      v := Value(l, InQuotes(token, marks), r);
    }
  }

  lemma ReadFlag(name: string) returns (p: Param)
    requires Admissible(name) && IsToken(Trim(name))
    ensures WfParam(p) && SpellParam(p) == name
  {
    var l, r := ReadPadding(name);
    p := Param(l, Trim(name), r, None);
    assert name + "" == name;
  }

  lemma ReadAssignment(name: string, text: string) returns (p: Param)
    requires Admissible(name) && IsToken(Trim(name))
    requires Admissible(text) && Unquote(Trim(text)).Ok? && IsToken(Unquote(Trim(text)).value)
    ensures WfParam(p) && SpellParam(p) == name + "=" + text
  {
    var l, r := ReadPadding(name);
    var v := ReadValue(text);
    p := Param(l, Trim(name), r, Some(v));
    assert name + ("=" + text) == name + "=" + text;
  }

  lemma ReadParam(s: string) returns (p: Param)
    requires Admissible(s) && ValidParameter(s)
    ensures WfParam(p) && SpellParam(p) == s
  {
    var (name, value) := SplitParameter(s);
    SplitParameterSpec(s);
    match value
    case None => p := ReadFlag(name);
    case Some(text) =>
      assert forall i :: 0 <= i < |name| ==> name[i] == s[i];
      assert forall i :: 0 <= i < |text| ==> text[i] == s[|name| + 1 + i];
      p := ReadAssignment(name, text);
  }

  lemma {:induction false} ReadParams(segments: seq<string>) returns (ps: seq<Param>)
    requires forall i :: 0 <= i < |segments| ==> Admissible(segments[i]) && ValidParameter(segments[i])
    ensures (forall i :: 0 <= i < |ps| ==> WfParam(ps[i])) && SpellParams(ps) == segments
    decreases |segments|
  {
    if segments == [] {
      ps := [];
    } else {
      var p := ReadParam(segments[0]);
      var rest := ReadParams(segments[1..]);
      ps := [p] + rest;
      assert ps[1..] == rest;
    }
  }

  /** Pieces of an admissible value are admissible. */
  lemma {:induction false} PiecesAdmissible(parts: seq<string>, d: char)
    requires parts != [] && Admissible(Join(parts, d))
    ensures forall i :: 0 <= i < |parts| ==> Admissible(parts[i])
    decreases |parts|
  {
    if |parts| > 1 {
      var s, rest := Join(parts, d), Join(parts[1..], d);
      assert forall i :: 0 <= i < |parts[0]| ==> parts[0][i] == s[i];
      assert forall i :: 0 <= i < |rest| ==> rest[i] == s[|parts[0]| + 1 + i];
      PiecesAdmissible(parts[1..], d);
      forall i | 0 <= i < |parts| ensures Admissible(parts[i]) {
        if i > 0 { assert parts[i] == parts[1..][i-1]; }
      }
    }
  }

  lemma ReadPosition(s: string) returns (e: Position)
    requires Admissible(s) && (IsBlank(s) || ValidElement(s))
    ensures WfPosition(e) && SpellPosition(e) == s && e.Blank? == IsBlank(s)
  {
    if IsBlank(s) {
      var l, r := ReadPadding(s);
      e := Blank(s);
      assert s == l + r;
    } else {
      var segments := Split(s, ';').value;
      SplitIsTheDecomposition(s, ';', segments);
      PiecesAdmissible(segments, ';');
      var l, r := ReadPadding(segments[0]);
      var ps := ReadParams(segments[1..]);
      e := Extension(l, Trim(segments[0]), r, ps);
      assert [segments[0]] + segments[1..] == segments;
    }
  }

  lemma PositionsCons(e: Position, rest: seq<Position>)
    requires WfPosition(e) && forall i :: 0 <= i < |rest| ==> WfPosition(rest[i])
    ensures var es := [e] + rest;
      && (forall i :: 0 <= i < |es| ==> WfPosition(es[i]))
      && (forall i :: 1 <= i < |es| ==> es[i] == rest[i-1])
      && SpellPositions(es) == [SpellPosition(e)] + SpellPositions(rest)
  {
    assert ([e] + rest)[1..] == rest;
  }

  lemma {:induction false} ReadPositions(parts: seq<string>) returns (es: seq<Position>)
    requires forall i :: 0 <= i < |parts| ==> Admissible(parts[i]) && (IsBlank(parts[i]) || ValidElement(parts[i]))
    ensures (forall i :: 0 <= i < |es| ==> WfPosition(es[i])) && SpellPositions(es) == parts
    ensures forall i :: 0 <= i < |es| ==> es[i].Blank? == IsBlank(parts[i])
    decreases |parts|
  {
    if parts == [] {
      es := [];
    } else {
      var e := ReadPosition(parts[0]);
      var rest := ReadPositions(parts[1..]);
      es := [e] + rest;
      PositionsCons(e, rest);
      assert parts == [parts[0]] + parts[1..];
      assert forall i :: 1 <= i < |es| ==> parts[i] == parts[1..][i-1];
    }
  }

  /** Whatever passes the check is spelled by some tree. */
  lemma ValidIsDerivable(s: string) returns (es: seq<Position>)
    requires Admissible(s) && ValidField([s])
    ensures Derives(es, s)
  {
    assert ValidLine([s][0]) && Populated([s][0]);
    var parts := Elements(s).value;
    SplitIsTheDecomposition(s, ',', parts);
    PiecesAdmissible(parts, ',');
    es := ReadPositions(parts);
    var i :| 0 <= i < |parts| && !IsBlank(parts[i]);
    assert es[i].Extension?;
  }
}
