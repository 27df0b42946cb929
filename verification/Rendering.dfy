/** Printing parameters, and what a spelling of them can and cannot say. */
module Rendering {
  import opened Sequences
  import opened Wrappers
  import opened Errors
  import opened Quoting
  import opened Grammar
  import opened Syntax
  import opened Parameters

  // ---- Only names and tokens matter.

  type Meaning = (string, Option<string>)

  function MeaningOf(p: Param): Meaning {
    (p.name, if p.value.None? then None else Some(p.value.value.spelling.token))
  }

  function Meanings(ps: seq<Param>): (ms: seq<Meaning>)
    ensures |ms| == |ps|
  {
    if ps == [] then [] else [MeaningOf(ps[0])] + Meanings(ps[1..])
  }

  /** The plainest spelling of a parameter: no spaces, no quotes. */
  function PlainSpelling(m: Meaning): string {
    m.0 + (if m.1.None? then "" else "=" + m.1.value)
  }

  function PlainSpellings(ms: seq<Meaning>): (r: seq<string>)
    ensures |r| == |ms|
  {
    if ms == [] then [] else [PlainSpelling(ms[0])] + PlainSpellings(ms[1..])
  }

  /** Spaces, quotes and escapes never change what a parameter sets. */
  lemma SpellingIsIrrelevant(p: Param)
    requires WfParam(p)
    ensures ParseSegment(SpellParam(p)) == ParseSegment(PlainSpelling(MeaningOf(p)))
  {
    var q := Param("", p.name, "", if p.value.None? then None
                                   else Some(Value("", Plain(p.value.value.spelling.token), "")));
    assert SpellParam(q) == PlainSpelling(MeaningOf(p)) by {
      assert "" + p.name + "" == p.name;
      if p.value.Some? { assert "" + p.value.value.spelling.token + "" == p.value.value.spelling.token; }
    }
    SpelledParamReads(p);
    SpelledParamReads(q);
    if p.value.Some? {
      ParseSettingReads(p.name, SplitParameter(SpellParam(p)).1.value, SplitParameter(SpellParam(q)).1.value);
    }
  }

  lemma {:induction false} SpellingsAreIrrelevant(s: Slots, ps: seq<Param>)
    requires forall i :: 0 <= i < |ps| ==> WfParam(ps[i])
    ensures Fill(s, SpellParams(ps)) == Fill(s, PlainSpellings(Meanings(ps)))
    decreases |ps|
  {
    if ps != [] {
      SpellingIsIrrelevant(ps[0]);
      FillCons(s, SpellParam(ps[0]), SpellParams(ps[1..]));
      FillCons(s, PlainSpelling(MeaningOf(ps[0])), PlainSpellings(Meanings(ps[1..])));
      if Step(s, SpellParam(ps[0])).Ok? { SpellingsAreIrrelevant(Step(s, SpellParam(ps[0])).value, ps[1..]); }
    }
  }

  lemma {:induction false} PlainSpellingsConcat(a: seq<Meaning>, b: seq<Meaning>)
    ensures PlainSpellings(a + b) == PlainSpellings(a) + PlainSpellings(b)
    decreases |a|
  {
    if a == [] {
      assert a + b == b;
    } else {
      assert (a + b)[1..] == a[1..] + b;
      PlainSpellingsConcat(a[1..], b);
    }
  }

  lemma {:induction false} SameMeaningsSameSpellings(a: seq<Meaning>, b: seq<Meaning>)
    requires multiset(a) == multiset(b)
    ensures multiset(PlainSpellings(a)) == multiset(PlainSpellings(b))
    decreases |a|
  {
    if a == [] {
      assert |b| == |multiset(b)| == |multiset(a)| == 0;
    } else {
      assert a[0] in multiset(b);
      var i :| 0 <= i < |b| && b[i] == a[0];
      var left, right := b[..i], b[i+1..];
      SameMeaningsWithout(a, b, i);
      SameMeaningsSameSpellings(a[1..], left + right);
      assert b == (left + [a[0]]) + right;
      PlainSpellingsConcat(left + [a[0]], right);
      PlainSpellingsConcat(left, [a[0]]);
      PlainSpellingsConcat(left, right);
      assert PlainSpellings([a[0]]) == [PlainSpelling(a[0])] by { assert [a[0]][1..] == []; }
      AroundOne(PlainSpelling(a[0]), PlainSpellings(a[1..]), PlainSpellings(left), PlainSpellings(right));
    }
  }

  lemma AroundOne(x: string, rest: seq<string>, left: seq<string>, right: seq<string>)
    requires multiset(rest) == multiset(left + right)
    ensures multiset([x] + rest) == multiset((left + [x]) + right)
  {
  }

  lemma SameMeaningsWithout(a: seq<Meaning>, b: seq<Meaning>, i: nat)
    requires a != [] && multiset(a) == multiset(b) && i < |b| && b[i] == a[0]
    ensures multiset(a[1..]) == multiset(b[..i] + b[i+1..])
  {
    assert a == [a[0]] + a[1..];
    assert b == b[..i] + [a[0]] + b[i+1..];
    var x, left, right := multiset{a[0]}, multiset(a[1..]), multiset(b[..i] + b[i+1..]);
    assert x + left == multiset(a) && x + right == multiset(b);
    assert left == (x + left) - x && right == (x + right) - x;
  }

  /**
   * Two elements that set the same parameters to the same tokens decode alike:
   * order, surrounding space, quoting and escaping are all immaterial.
   */
  lemma Respelling(e: Position, e': Position)
    requires WfPosition(e) && e.Extension? && WfPosition(e') && e'.Extension?
    requires multiset(Meanings(e.params)) == multiset(Meanings(e'.params))
    ensures SameAnswer(ParseParams(SpellPosition(e)), ParseParams(SpellPosition(e')))
  {
    ExtensionSegments(e);
    ExtensionSegments(e');
    SpellingsAreIrrelevant(EMPTY, e.params);
    SpellingsAreIrrelevant(EMPTY, e'.params);
    SameMeaningsSameSpellings(Meanings(e.params), Meanings(e'.params));
    AnyOrder(EMPTY, PlainSpellings(Meanings(e.params)), PlainSpellings(Meanings(e'.params)));
    assert ([e.before + e.name + e.after] + SpellParams(e.params))[1..] == SpellParams(e.params);
    assert ([e'.before + e'.name + e'.after] + SpellParams(e'.params))[1..] == SpellParams(e'.params);
  }

  // ---- The printer.

  /** Widths a header can carry. */
  predicate Printable(p: Params) {
    && (p.serverMaxWindowBits.Some? ==> 8 <= p.serverMaxWindowBits.value <= 15)
    && (p.clientMaxWindowBits.Bits? ==> 8 <= p.clientMaxWindowBits.bits <= 15)
  }

  function FlagText(on: bool, name: string): string {
    if on then "; " + name else ""
  }

  function WidthText(name: string, bits: nat): string {
    "; " + name + "=" + Decimal(bits)
  }

  function ServerWindowText(w: Option<nat>): string {
    if w.None? then "" else WidthText(SERVER_WINDOW, w.value)
  }

  function ClientWindowText(w: ClientWindow): string {
    match w
    case Absent => ""
    case Valueless => FlagText(true, CLIENT_WINDOW)
    case Bits(bits) => WidthText(CLIENT_WINDOW, bits)
  }

  /** The header element for these parameters. */
  function Render(p: Params): string {
    NAME
    + FlagText(p.serverNoContextTakeover, SERVER_TAKEOVER)
    + FlagText(p.clientNoContextTakeover, CLIENT_TAKEOVER)
    + ServerWindowText(p.serverMaxWindowBits)
    + ClientWindowText(p.clientMaxWindowBits)
  }

  lemma PushFlag(value: string, on: bool, name: string)
    ensures value + FlagText(on, name) == if on then value + ("; " + name) else value
  {
  }

  lemma PushWidth(value: string, name: string, bits: nat)
    ensures (value + ("; " + name + "=")) + Decimal(bits) == value + WidthText(name, bits)
  {
  }

  method RenderElement(p: Params) returns (value: string)
    ensures value == Render(p)
  {
    value := NAME;
    PushFlag(value, p.serverNoContextTakeover, SERVER_TAKEOVER);
    if p.serverNoContextTakeover { value := value + ("; " + SERVER_TAKEOVER); }
    ghost var first := NAME + FlagText(p.serverNoContextTakeover, SERVER_TAKEOVER);
    assert value == first;
    PushFlag(value, p.clientNoContextTakeover, CLIENT_TAKEOVER);
    if p.clientNoContextTakeover { value := value + ("; " + CLIENT_TAKEOVER); }
    ghost var second := first + FlagText(p.clientNoContextTakeover, CLIENT_TAKEOVER);
    assert value == second;
    value := RenderServerWindow(value, p.serverMaxWindowBits);
    value := RenderClientWindow(value, p.clientMaxWindowBits);
  }

  method RenderServerWindow(before: string, w: Option<nat>) returns (value: string)
    ensures value == before + ServerWindowText(w)
  {
    value := before;
    if w.Some? {
      PushWidth(value, SERVER_WINDOW, w.value);
      value := value + ("; " + SERVER_WINDOW + "=");
      value := value + Decimal(w.value);
    }
  }

  method RenderClientWindow(before: string, w: ClientWindow) returns (value: string)
    ensures value == before + ClientWindowText(w)
  {
    value := before;
    match w {
      case Absent =>
      case Valueless =>
        PushFlag(value, true, CLIENT_WINDOW);
        value := value + ("; " + CLIENT_WINDOW);
      case Bits(bits) =>
        PushWidth(value, CLIENT_WINDOW, bits);
        value := value + ("; " + CLIENT_WINDOW + "=");
        value := value + Decimal(bits);
    }
  }

  function Flag(name: string): Param {
    Param(" ", name, "", None)
  }

  function Width(name: string, bits: nat): Param {
    Param(" ", name, "", Some(Value("", Plain(Decimal(bits)), "")))
  }

  function FlagTree(on: bool, name: string): seq<Param> {
    if on then [Flag(name)] else []
  }

  function ServerWindowTree(w: Option<nat>): seq<Param> {
    if w.None? then [] else [Width(SERVER_WINDOW, w.value)]
  }

  function ClientWindowTree(w: ClientWindow): seq<Param> {
    match w
    case Absent => []
    case Valueless => [Flag(CLIENT_WINDOW)]
    case Bits(bits) => [Width(CLIENT_WINDOW, bits)]
  }

  /** The parameters of the printed element, one tree each. */
  function Printed(p: Params): seq<Param> {
    FlagTree(p.serverNoContextTakeover, SERVER_TAKEOVER)
    + FlagTree(p.clientNoContextTakeover, CLIENT_TAKEOVER)
    + ServerWindowTree(p.serverMaxWindowBits)
    + ClientWindowTree(p.clientMaxWindowBits)
  }

  function PrintedTree(p: Params): Position {
    Extension("", NAME, "", Printed(p))
  }

  lemma NameIsToken() ensures IsToken(NAME) {}

  lemma ServerTakeoverIsToken() ensures IsToken(SERVER_TAKEOVER) {}

  lemma ClientTakeoverIsToken() ensures IsToken(CLIENT_TAKEOVER) {}

  lemma ServerWindowIsToken() ensures IsToken(SERVER_WINDOW) {}

  lemma ClientWindowIsToken() ensures IsToken(CLIENT_WINDOW) {}

  lemma {:induction false} JoinSnoc(parts: seq<string>, last: string, d: char)
    requires parts != []
    ensures Join(parts + [last], d) == Join(parts, d) + [d] + last
    decreases |parts|
  {
    if |parts| == 1 {
      assert (parts + [last])[1..] == [last];
    } else {
      assert (parts + [last])[1..] == parts[1..] + [last];
      JoinSnoc(parts[1..], last, d);
      assert parts[0] + [d] + (Join(parts[1..], d) + [d] + last) == (parts[0] + [d] + Join(parts[1..], d)) + [d] + last;
    }
  }

  lemma {:induction false} SpellParamsConcat(a: seq<Param>, b: seq<Param>)
    requires forall i :: 0 <= i < |a| ==> WfParam(a[i])
    requires forall i :: 0 <= i < |b| ==> WfParam(b[i])
    ensures SpellParams(a + b) == SpellParams(a) + SpellParams(b)
    decreases |a|
  {
    if a == [] {
      assert a + b == b;
    } else {
      assert (a + b)[1..] == a[1..] + b;
      SpellParamsConcat(a[1..], b);
    }
  }

  predicate AllWf(ps: seq<Param>) {
    forall i :: 0 <= i < |ps| ==> WfParam(ps[i])
  }

  /** What at most one parameter adds to an element. */
  function Tail(more: seq<Param>): string
    requires forall i :: 0 <= i < |more| ==> WfParam(more[i])
  {
    if more == [] then "" else ";" + SpellParam(more[0])
  }

  lemma SpellParamsOne(x: Param)
    requires WfParam(x)
    ensures SpellParams([x]) == [SpellParam(x)]
  {
    assert [x][1..] == [];
  }

  lemma SpellParamsSnoc(head: string, ps: seq<Param>, x: Param)
    requires WfParam(x) && forall i :: 0 <= i < |ps| ==> WfParam(ps[i])
    ensures [head] + SpellParams(ps + [x]) == ([head] + SpellParams(ps)) + [SpellParam(x)]
  {
    SpellParamsConcat(ps, [x]);
    SpellParamsOne(x);
    Regroup([head], SpellParams(ps), [SpellParam(x)]);
  }

  lemma SpellSnoc(head: string, ps: seq<Param>, x: Param)
    requires WfParam(x) && forall i :: 0 <= i < |ps| ==> WfParam(ps[i])
    ensures Join([head] + SpellParams(ps + [x]), ';') == Join([head] + SpellParams(ps), ';') + Tail([x])
  {
    SpellParamsSnoc(head, ps, x);
    JoinSnoc([head] + SpellParams(ps), SpellParam(x), ';');
    Regroup(Join([head] + SpellParams(ps), ';'), ";", SpellParam(x));
  }

  lemma SpellOneMore(head: string, ps: seq<Param>, more: seq<Param>)
    requires |more| <= 1 && forall i :: 0 <= i < |ps| ==> WfParam(ps[i])
    requires forall i :: 0 <= i < |more| ==> WfParam(more[i])
    ensures Join([head] + SpellParams(ps + more), ';') == Join([head] + SpellParams(ps), ';') + Tail(more)
  {
    if more == [] {
      assert ps + more == ps;
    } else {
      assert more == [more[0]];
      SpellSnoc(head, ps, more[0]);
    }
  }

  lemma SpellFour(head: string, a: seq<Param>, b: seq<Param>, c: seq<Param>, d: seq<Param>)
    requires IsToken(head)
    requires |a| <= 1 && |b| <= 1 && |c| <= 1 && |d| <= 1
    requires AllWf(a) && AllWf(b) && AllWf(c) && AllWf(d)
    ensures var tree := Extension("", head, "", a + b + c + d);
      WfPosition(tree) && SpellPosition(tree) == head + Tail(a) + Tail(b) + Tail(c) + Tail(d)
  {
    FourWf(a, b, c, d);
    FourTails(head, a, b, c, d);
    assert "" + head + "" == head;
  }

  lemma FourWf(a: seq<Param>, b: seq<Param>, c: seq<Param>, d: seq<Param>)
    requires AllWf(a) && AllWf(b) && AllWf(c) && AllWf(d)
    ensures AllWf(a + b + c + d)
  {
    assert AllWf(a + b) && AllWf(a + b + c);
  }

  lemma FourTails(head: string, a: seq<Param>, b: seq<Param>, c: seq<Param>, d: seq<Param>)
    requires |a| <= 1 && |b| <= 1 && |c| <= 1 && |d| <= 1
    requires AllWf(a) && AllWf(b) && AllWf(c) && AllWf(d)
    ensures Join([head] + SpellParams(a + b + c + d), ';') == head + Tail(a) + Tail(b) + Tail(c) + Tail(d)
  {
    SpellFirst(head, a);
    SpellOneMore(head, a, b);
    SpellOneMore(head, a + b, c);
    SpellOneMore(head, a + b + c, d);
  }

  lemma SpellFirst(head: string, a: seq<Param>)
    requires |a| <= 1 && AllWf(a)
    ensures Join([head] + SpellParams(a), ';') == head + Tail(a)
  {
    SpellOneMore(head, [], a);
    assert [] + a == a && [head] + SpellParams([]) == [head];
  }

  lemma FlagSpelling(name: string)
    requires IsToken(name)
    ensures WfParam(Flag(name)) && ";" + SpellParam(Flag(name)) == FlagText(true, name)
  {
    assert ";" + (" " + name + "" + "") == "; " + name;
  }

  lemma FlagTreeSpelling(on: bool, name: string)
    requires IsToken(name)
    ensures var tree := FlagTree(on, name);
      && (forall i :: 0 <= i < |tree| ==> WfParam(tree[i]))
      && FlagText(on, name) == Tail(tree)
  {
    FlagSpelling(name);
  }

  lemma WidthSpelling(name: string, bits: nat)
    requires IsToken(name) && 8 <= bits <= 15
    ensures WfParam(Width(name, bits)) && ";" + SpellParam(Width(name, bits)) == WidthText(name, bits)
  {
    DecimalIsToken(bits);
    assert "" + Decimal(bits) + "" == Decimal(bits);
    assert ";" + (" " + name + "" + ("=" + Decimal(bits))) == "; " + name + "=" + Decimal(bits);
  }

  lemma ServerWindowSpelling(w: Option<nat>)
    requires w.Some? ==> 8 <= w.value <= 15
    ensures var tree := ServerWindowTree(w);
      && (forall i :: 0 <= i < |tree| ==> WfParam(tree[i]))
      && ServerWindowText(w) == Tail(tree)
  {
    ServerWindowIsToken();
    if w.Some? { WidthSpelling(SERVER_WINDOW, w.value); }
  }

  lemma ClientWindowSpelling(w: ClientWindow)
    requires w.Bits? ==> 8 <= w.bits <= 15
    ensures var tree := ClientWindowTree(w);
      && (forall i :: 0 <= i < |tree| ==> WfParam(tree[i]))
      && ClientWindowText(w) == Tail(tree)
  {
    ClientWindowIsToken();
    FlagSpelling(CLIENT_WINDOW);
    if w.Bits? { WidthSpelling(CLIENT_WINDOW, w.bits); }
  }

  /** The printer writes one spelling of its parameters: a semicolon and a space before each, nothing quoted. */
  lemma RenderIsASpelling(p: Params)
    requires Printable(p)
    ensures WfPosition(PrintedTree(p)) && SpellPosition(PrintedTree(p)) == Render(p)
  {
    NameIsToken(); ServerTakeoverIsToken(); ClientTakeoverIsToken();
    FlagTreeSpelling(p.serverNoContextTakeover, SERVER_TAKEOVER);
    FlagTreeSpelling(p.clientNoContextTakeover, CLIENT_TAKEOVER);
    ServerWindowSpelling(p.serverMaxWindowBits);
    ClientWindowSpelling(p.clientMaxWindowBits);
    SpellFour(NAME, FlagTree(p.serverNoContextTakeover, SERVER_TAKEOVER),
              FlagTree(p.clientNoContextTakeover, CLIENT_TAKEOVER),
              ServerWindowTree(p.serverMaxWindowBits), ClientWindowTree(p.clientMaxWindowBits));
  }

  // ---- The printer and the decoder are inverse.

  /** The four names are four names. */
  lemma NamesDiffer()
    ensures CLIENT_TAKEOVER != SERVER_TAKEOVER
    ensures SERVER_WINDOW != SERVER_TAKEOVER && SERVER_WINDOW != CLIENT_TAKEOVER
    ensures CLIENT_WINDOW != SERVER_TAKEOVER && CLIENT_WINDOW != CLIENT_TAKEOVER && CLIENT_WINDOW != SERVER_WINDOW
  {
    assert CLIENT_TAKEOVER[0] != SERVER_TAKEOVER[0] && CLIENT_WINDOW[0] != SERVER_WINDOW[0];
    assert |SERVER_WINDOW| == |CLIENT_WINDOW| < |SERVER_TAKEOVER| == |CLIENT_TAKEOVER|;
  }

  lemma FlagParses(name: string)
    requires IsToken(name)
    ensures ParseSegment(SpellParam(Flag(name))) == ParseSetting(name, None)
  {
    SpelledParamReads(Flag(name));
  }

  lemma WidthParses(name: string, bits: nat) returns (value: string)
    requires IsToken(name) && 8 <= bits <= 15
    ensures WfParam(Width(name, bits))
    ensures ParseSegment(SpellParam(Width(name, bits))) == ParseSetting(name, Some(value))
    ensures ParseBits(value) == Ok(bits)
  {
    DecimalIsToken(bits);
    SpelledParamReads(Width(name, bits));
    value := SplitParameter(SpellParam(Width(name, bits))).1.value;
    ParseBitsExact(value, bits);
  }

  lemma FlagsSet()
    ensures WfParam(Flag(SERVER_TAKEOVER)) && ParseSegment(SpellParam(Flag(SERVER_TAKEOVER))) == Ok(ServerTakeover)
    ensures WfParam(Flag(CLIENT_TAKEOVER)) && ParseSegment(SpellParam(Flag(CLIENT_TAKEOVER))) == Ok(ClientTakeover)
    ensures WfParam(Flag(CLIENT_WINDOW)) && ParseSegment(SpellParam(Flag(CLIENT_WINDOW))) == Ok(ClientWidth(Valueless))
  {
    NamesDiffer();
    ServerTakeoverIsToken(); ClientTakeoverIsToken(); ClientWindowIsToken();
    FlagParses(SERVER_TAKEOVER); FlagParses(CLIENT_TAKEOVER); FlagParses(CLIENT_WINDOW);
  }

  lemma WidthsSet(bits: nat)
    requires 8 <= bits <= 15
    ensures WfParam(Width(SERVER_WINDOW, bits))
    ensures ParseSegment(SpellParam(Width(SERVER_WINDOW, bits))) == Ok(ServerWidth(bits))
    ensures WfParam(Width(CLIENT_WINDOW, bits))
    ensures ParseSegment(SpellParam(Width(CLIENT_WINDOW, bits))) == Ok(ClientWidth(Bits(bits)))
  {
    NamesDiffer();
    ServerWindowIsToken(); ClientWindowIsToken();
    var s := WidthParses(SERVER_WINDOW, bits);
    var c := WidthParses(CLIENT_WINDOW, bits);
  }

  /** What one optional parameter does to the slots. */
  function PutIf(s: Slots, on: bool, x: Setting): Result<Slots, NegotiationError> {
    if on then Put(s, x) else Ok(s)
  }

  /** An optional parameter that, when there, sets `x`. */
  predicate Sets(piece: seq<Param>, x: Setting) {
    |piece| <= 1 && (piece != [] ==> WfParam(piece[0]) && ParseSegment(SpellParam(piece[0])) == Ok(x))
  }

  lemma FillPiece(s: Slots, piece: seq<Param>, x: Setting, rest: seq<Param>)
    requires Sets(piece, x) && AllWf(rest)
    ensures AllWf(piece + rest)
    ensures var put := PutIf(s, piece != [], x);
      Fill(s, SpellParams(piece + rest)) == if put.Err? then put else Fill(put.value, SpellParams(rest))
  {
    if piece == [] {
      assert piece + rest == rest;
    } else {
      assert (piece + rest)[0] == piece[0] && (piece + rest)[1..] == rest;
      FillCons(s, SpellParam(piece[0]), SpellParams(rest));
    }
  }

  lemma FillFlags(a: seq<Param>, b: seq<Param>, rest: seq<Param>)
    requires Sets(a, ServerTakeover) && Sets(b, ClientTakeover) && AllWf(rest)
    ensures AllWf(a + (b + rest))
    ensures Fill(EMPTY, SpellParams(a + (b + rest))) ==
      Fill(Slots(if a == [] then None else Some(true), if b == [] then None else Some(true), None, None),
           SpellParams(rest))
  {
    FillPiece(EMPTY.(server := if a == [] then None else Some(true)), b, ClientTakeover, rest);
    FillPiece(EMPTY, a, ServerTakeover, b + rest);
  }

  lemma FillLast(s: Slots, d: seq<Param>, cw: ClientWindow)
    requires s.clientWidth.None? && Sets(d, ClientWidth(cw))
    ensures AllWf(d)
    ensures Fill(s, SpellParams(d)) == Ok(s.(clientWidth := if d == [] then None else Some(cw)))
  {
    assert d + [] == d;
    FillPiece(s, d, ClientWidth(cw), []);
  }

  lemma FillWidths(s: Slots, c: seq<Param>, d: seq<Param>, sw: nat, cw: ClientWindow)
    requires s.serverWidth.None? && s.clientWidth.None?
    requires Sets(c, ServerWidth(sw)) && Sets(d, ClientWidth(cw))
    ensures AllWf(c + d)
    ensures Fill(s, SpellParams(c + d)) ==
      Ok(s.(serverWidth := if c == [] then None else Some(sw), clientWidth := if d == [] then None else Some(cw)))
  {
    FillLast(s.(serverWidth := if c == [] then None else Some(sw)), d, cw);
    FillPiece(s, c, ServerWidth(sw), d);
  }

  /** Four optional parameters in a row, each settling a slot of its own. */
  lemma FillFour(a: seq<Param>, b: seq<Param>, c: seq<Param>, d: seq<Param>, sw: nat, cw: ClientWindow)
    requires Sets(a, ServerTakeover) && Sets(b, ClientTakeover) && Sets(c, ServerWidth(sw)) && Sets(d, ClientWidth(cw))
    ensures AllWf(a + b + c + d)
    ensures Fill(EMPTY, SpellParams(a + b + c + d)) ==
      Ok(Slots(if a == [] then None else Some(true), if b == [] then None else Some(true),
               if c == [] then None else Some(sw), if d == [] then None else Some(cw)))
  {
    Regroup(a + b, c, d);
    Regroup(a, b, c + d);
    FillWidths(Slots(if a == [] then None else Some(true), if b == [] then None else Some(true), None, None),
               c, d, sw, cw);
    FillFlags(a, b, c + d);
  }

  lemma PiecesSet(p: Params)
    requires Printable(p)
    ensures Sets(FlagTree(p.serverNoContextTakeover, SERVER_TAKEOVER), ServerTakeover)
    ensures Sets(FlagTree(p.clientNoContextTakeover, CLIENT_TAKEOVER), ClientTakeover)
    ensures p.serverMaxWindowBits.Some? ==>
      Sets(ServerWindowTree(p.serverMaxWindowBits), ServerWidth(p.serverMaxWindowBits.value))
    ensures Sets(ClientWindowTree(p.clientMaxWindowBits), ClientWidth(p.clientMaxWindowBits))
  {
    FlagsSet();
    if p.serverMaxWindowBits.Some? { WidthsSet(p.serverMaxWindowBits.value); }
    if p.clientMaxWindowBits.Bits? { WidthsSet(p.clientMaxWindowBits.bits); }
  }

  /** What the four printed pieces leave in the slots. */
  function PrintedSlots(p: Params): Slots {
    Slots(if p.serverNoContextTakeover then Some(true) else None,
          if p.clientNoContextTakeover then Some(true) else None,
          p.serverMaxWindowBits,
          if p.clientMaxWindowBits == Absent then None else Some(p.clientMaxWindowBits))
  }

  lemma PrintedFill(p: Params)
    requires Printable(p)
    ensures AllWf(Printed(p))
    ensures Fill(EMPTY, SpellParams(Printed(p))) == Ok(PrintedSlots(p))
  {
    PiecesSet(p);
    FillFour(FlagTree(p.serverNoContextTakeover, SERVER_TAKEOVER), FlagTree(p.clientNoContextTakeover, CLIENT_TAKEOVER),
             ServerWindowTree(p.serverMaxWindowBits), ClientWindowTree(p.clientMaxWindowBits),
             if p.serverMaxWindowBits.Some? then p.serverMaxWindowBits.value else 0, p.clientMaxWindowBits);
  }

  /** The printed parameters, decoded one by one. */
  lemma PrintedDecodes(p: Params)
    requires Printable(p)
    ensures AllWf(Printed(p))
    ensures Settled(Fill(EMPTY, SpellParams(Printed(p)))) == Ok(p)
  {
    PrintedFill(p);
  }

  /** Decoding what was printed gives back exactly what was printed, and it names this extension. */
  lemma ParseInvertsRender(p: Params)
    requires Printable(p)
    ensures ParseParams(Render(p)) == Ok(p) && IsDeflate(Render(p)) == Ok(true)
  {
    RenderIsASpelling(p);
    SpelledNameReads(PrintedTree(p));
    PrintedDecodes(p);
  }

  /** An element's name and parameters, read back from its spelling. */
  lemma SpelledNameReads(e: Position)
    requires WfPosition(e) && e.Extension?
    ensures IsDeflate(SpellPosition(e)) == Ok(e.name == NAME)
    ensures ParseParams(SpellPosition(e)) == Settled(Fill(EMPTY, SpellParams(e.params)))
  {
    ExtensionSegments(e);
    OwsIsPlain(e.before); OwsIsPlain(e.after); TokenIsTight(e.name);
    TrimPadded(e.before, e.name, e.after);
    assert ([e.before + e.name + e.after] + SpellParams(e.params))[1..] == SpellParams(e.params);
  }
}
