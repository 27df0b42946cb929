/**
 * The extension and its four parameters in the words RFC 7692 registers for them
 * (section 7.1), and what an element written in them says.
 */
module Texts {
  import opened Sequences
  import opened Wrappers
  import opened Errors
  import opened Grammar
  import opened Syntax
  import opened Parameters
  import opened Rendering

  // ---- What the words mean.

  /** A window width, as it is written. */
  function Numeral(n: nat): string
    requires 8 <= n <= 15
  {
    ["8", "9", "10", "11", "12", "13", "14", "15"][n - 8]
  }

  predicate IsNumeral(v: string) {
    v in ["8", "9", "10", "11", "12", "13", "14", "15"]
  }

  function WidthOf(v: string): (n: nat)
    requires IsNumeral(v)
    ensures 8 <= n <= 15 && Numeral(n) == v
  {
    if v == "8" then 8 else if v == "9" then 9 else if v == "10" then 10 else if v == "11" then 11
    else if v == "12" then 12 else if v == "13" then 13 else if v == "14" then 14 else 15
  }

  datatype Word = ServerReset | ClientReset | ServerBound | ClientBound | Unregistered

  /** The names of the four, to the letter. */
  function WordOf(name: string): Word {
    if name == "server_no_context_takeover" then ServerReset
    else if name == "client_no_context_takeover" then ClientReset
    else if name == "server_max_window_bits" then ServerBound
    else if name == "client_max_window_bits" then ClientBound
    else Unregistered
  }

  /** What is wrong with a parameter by itself. */
  function Fault(m: Meaning): Option<NegotiationError> {
    match WordOf(m.0)
    case ServerReset => if m.1.None? then None else Some(ParameterArity)
    case ClientReset => if m.1.None? then None else Some(ParameterArity)
    case ServerBound =>
      if m.1.None? then Some(ParameterArity) else if IsNumeral(m.1.value) then None else Some(InvalidWindowBits)
    case ClientBound => if m.1.None? || IsNumeral(m.1.value) then None else Some(InvalidWindowBits)
    case Unregistered => Some(UnknownParameter)
  }

  predicate Named(ms: seq<Meaning>, name: string) {
    exists i :: 0 <= i < |ms| && ms[i].0 == name
  }

  /** What is wrong with one of several: itself, or that its name was used before. */
  function FaultAt(ms: seq<Meaning>, i: nat): Option<NegotiationError>
    requires i < |ms|
  {
    if Fault(ms[i]).Some? then Fault(ms[i])
    else if Named(ms[..i], ms[i].0) then Some(DuplicateParameter)
    else None
  }

  /** Each is one of the four, in one of its forms, and none comes twice. */
  predicate Conforms(ms: seq<Meaning>) {
    forall i :: 0 <= i < |ms| ==> FaultAt(ms, i).None?
  }

  predicate FirstFault(ms: seq<Meaning>, i: nat, error: NegotiationError) {
    i < |ms| && FaultAt(ms, i) == Some(error) && Conforms(ms[..i])
  }

  /** The first of them with a fault has this one. */
  ghost predicate FailsWith(ms: seq<Meaning>, error: NegotiationError) {
    exists i: nat :: FirstFault(ms, i, error)
  }

  /** `p` is what these parameters say. */
  ghost predicate Says(ms: seq<Meaning>, p: Params) {
    && (p.serverNoContextTakeover <==> ("server_no_context_takeover", None) in ms)
    && (p.clientNoContextTakeover <==> ("client_no_context_takeover", None) in ms)
    && (forall n: nat :: p.serverMaxWindowBits == Some(n) <==>
          8 <= n <= 15 && ("server_max_window_bits", Some(Numeral(n))) in ms)
    && (p.clientMaxWindowBits == Valueless <==> ("client_max_window_bits", None) in ms)
    && (forall n: nat :: p.clientMaxWindowBits == Bits(n) <==>
          8 <= n <= 15 && ("client_max_window_bits", Some(Numeral(n))) in ms)
  }

  // ---- One parameter.

  lemma DecimalIsNumeral(n: nat)
    requires 8 <= n <= 15
    ensures Decimal(n) == Numeral(n)
  {
    if n >= 10 { assert Decimal(n / 10) == "1" && Decimal(n % 10) == [(n % 10 + '0' as int) as char]; }
  }

  lemma BitsRead(value: string, token: string)
    requires Unquote(Trim(value)) == Ok(token)
    ensures ParseBits(value) == if IsNumeral(token) then Ok(WidthOf(token)) else Err(InvalidWindowBits)
  {
    if IsNumeral(token) {
      DecimalIsNumeral(WidthOf(token));
      ParseBitsExact(value, WidthOf(token));
    } else if ParseBits(value).Ok? {
      ParseBitsExact(value, ParseBits(value).value);
      DecimalIsNumeral(ParseBits(value).value);
    }
  }

  /** What a parameter without fault sets. */
  function SettingOf(m: Meaning): Setting
    requires Fault(m).None?
  {
    match WordOf(m.0)
    case ServerReset => ServerTakeover
    case ClientReset => ClientTakeover
    case ServerBound => ServerWidth(WidthOf(m.1.value))
    case ClientBound => ClientWidth(if m.1.None? then Valueless else Bits(WidthOf(m.1.value)))
  }

  /** The decoder knows the four by the same names. */
  lemma SettingReads(name: string, value: Option<string>, m: Meaning)
    requires m.0 == name && (value.Some? <==> m.1.Some?)
    requires value.Some? ==>
      ParseBits(value.value) == if IsNumeral(m.1.value) then Ok(WidthOf(m.1.value)) else Err(InvalidWindowBits)
    ensures ParseSetting(name, value) == if Fault(m).Some? then Err(Fault(m).value) else Ok(SettingOf(m))
  {
  }

  lemma ParameterReads(p: Param)
    requires WfParam(p)
    ensures var m := MeaningOf(p);
      ParseSegment(SpellParam(p)) == if Fault(m).Some? then Err(Fault(m).value) else Ok(SettingOf(m))
  {
    SpelledParamReads(p);
    var (name, value) := SplitParameter(SpellParam(p));
    if value.Some? { BitsRead(value.value, p.value.value.spelling.token); }
    SettingReads(p.name, value, MeaningOf(p));
  }

  /** A word has one name. */
  lemma OneName(a: string, b: string)
    requires WordOf(a) == WordOf(b) && !WordOf(a).Unregistered?
    ensures a == b
  {
  }

  // ---- All of them.

  predicate Used(ms: seq<Meaning>, w: Word) {
    exists i :: 0 <= i < |ms| && WordOf(ms[i].0) == w
  }

  lemma UsedByName(ms: seq<Meaning>, name: string)
    requires !WordOf(name).Unregistered?
    ensures Named(ms, name) <==> Used(ms, WordOf(name))
  {
    if i :| 0 <= i < |ms| && WordOf(ms[i].0) == WordOf(name) { OneName(ms[i].0, name); }
  }

  lemma UsedSnoc(ms: seq<Meaning>, m: Meaning, w: Word)
    ensures Used(ms + [m], w) <==> Used(ms, w) || WordOf(m.0) == w
  {
    var more := ms + [m];
    assert more[|ms|] == m;
    if i :| 0 <= i < |ms| && WordOf(ms[i].0) == w { assert more[i] == ms[i]; }
  }

  /** The slots hold what the parameters read so far say. */
  ghost predicate Holds(s: Slots, ms: seq<Meaning>) {
    && Conforms(ms)
    && s.server == (if Used(ms, ServerReset) then Some(true) else None)
    && s.client == (if Used(ms, ClientReset) then Some(true) else None)
    && (s.serverWidth.Some? <==> Used(ms, ServerBound))
    && (s.clientWidth.Some? <==> Used(ms, ClientBound))
    && (forall i :: 0 <= i < |ms| ==> Kept(s, ms[i]))
  }

  /** A width is in its slot. */
  predicate Kept(s: Slots, m: Meaning) {
    && Fault(m).None?
    && (WordOf(m.0).ServerBound? ==> s.serverWidth == Some(WidthOf(m.1.value)))
    && (WordOf(m.0).ClientBound? ==>
          s.clientWidth == Some(if m.1.None? then Valueless else Bits(WidthOf(m.1.value))))
  }

  lemma ConformsSnoc(ms: seq<Meaning>, m: Meaning)
    requires Conforms(ms)
    ensures FaultAt(ms + [m], |ms|) ==
      if Fault(m).Some? then Fault(m) else if Used(ms, WordOf(m.0)) then Some(DuplicateParameter) else None
    ensures (ms + [m])[..|ms|] == ms
    ensures Conforms(ms + [m]) <==> FaultAt(ms + [m], |ms|).None?
  {
    var more := ms + [m];
    assert more[..|ms|] == ms && more[|ms|] == m;
    if Fault(m).None? { UsedByName(ms, m.0); }
    forall i | 0 <= i < |ms| ensures FaultAt(more, i).None? {
      assert FaultAt(ms, i).None? && more[..i] == ms[..i];
    }
  }

  /** Putting a setting into slots that hold what came before. */
  lemma PutReads(s: Slots, ms: seq<Meaning>, m: Meaning)
    requires Holds(s, ms) && Fault(m).None?
    ensures var r := Put(s, SettingOf(m));
      && (r.Ok? <==> !Used(ms, WordOf(m.0)))
      && (r.Ok? ==> Holds(r.value, ms + [m]))
      && (r.Err? ==> r.error == DuplicateParameter)
  {
    ConformsSnoc(ms, m);
    UsedSnoc(ms, m, ServerReset);
    UsedSnoc(ms, m, ClientReset);
    UsedSnoc(ms, m, ServerBound);
    UsedSnoc(ms, m, ClientBound);
    var r := Put(s, SettingOf(m));
    if r.Ok? {
      forall i | 0 <= i < |ms| ensures Kept(r.value, ms[i]) {
        assert Kept(s, ms[i]);
        assert WordOf(ms[i].0) == WordOf(m.0) ==> Used(ms, WordOf(m.0));
      }
    }
  }

  lemma StepReads(s: Slots, ms: seq<Meaning>, p: Param)
    requires Holds(s, ms) && WfParam(p)
    ensures var r, more := Step(s, SpellParam(p)), ms + [MeaningOf(p)];
      && (r.Ok? ==> Holds(r.value, more))
      && (r.Err? ==> FirstFault(more, |ms|, r.error))
  {
    ParameterReads(p);
    ConformsSnoc(ms, MeaningOf(p));
    if Fault(MeaningOf(p)).None? { PutReads(s, ms, MeaningOf(p)); }
  }

  lemma FaultStays(ms: seq<Meaning>, more: seq<Meaning>, i: nat, error: NegotiationError)
    requires FirstFault(ms, i, error)
    ensures FirstFault(ms + more, i, error)
  {
    assert (ms + more)[..i] == ms[..i] && (ms + more)[i] == ms[i];
  }

  /** What came of reading some parameters into empty slots. */
  ghost predicate Read(ms: seq<Meaning>, r: Result<Slots, NegotiationError>) {
    match r
    case Ok(s) => Holds(s, ms)
    case Err(error) => FailsWith(ms, error)
  }

  lemma ReadFails(ms: seq<Meaning>, m: Meaning, more: seq<Meaning>, error: NegotiationError)
    requires FirstFault(ms + [m], |ms|, error)
    ensures Read(ms + ([m] + more), Err(error))
  {
    FaultStays(ms + [m], more, |ms|, error);
    Regroup(ms, [m], more);
  }

  lemma {:induction false} FillReads(s: Slots, ms: seq<Meaning>, ps: seq<Param>)
    requires Holds(s, ms) && forall i :: 0 <= i < |ps| ==> WfParam(ps[i])
    ensures Read(ms + Meanings(ps), Fill(s, SpellParams(ps)))
    decreases |ps|
  {
    if ps == [] {
      NothingMore(ms);
    } else {
      var m, step := MeaningOf(ps[0]), Step(s, SpellParam(ps[0]));
      StepReads(s, ms, ps[0]);
      FillCons(s, SpellParam(ps[0]), SpellParams(ps[1..]));
      if step.Ok? {
        FillReads(step.value, ms + [m], ps[1..]);
        Regroup(ms, [m], Meanings(ps[1..]));
      } else {
        ReadFails(ms, m, Meanings(ps[1..]), step.error);
      }
    }
  }

  lemma ElementReads(e: Position)
    requires WfPosition(e) && e.Extension?
    ensures ParseParams(SpellPosition(e)) == Settled(Fill(EMPTY, SpellParams(e.params)))
    ensures Read(Meanings(e.params), Fill(EMPTY, SpellParams(e.params)))
  {
    SpelledNameReads(e);
    FillReads(EMPTY, [], e.params);
    assert [] + Meanings(e.params) == Meanings(e.params);
  }

  /** A word used without fault is used in one of its forms. */
  lemma UsedAs(ms: seq<Meaning>, w: Word) returns (m: Meaning)
    requires Conforms(ms) && Used(ms, w)
    ensures m in ms && WordOf(m.0) == w && Fault(m).None?
  {
    var i :| 0 <= i < |ms| && WordOf(ms[i].0) == w;
    assert FaultAt(ms, i).None?;
    m := ms[i];
  }

  lemma HoldsResets(s: Slots, ms: seq<Meaning>)
    requires Holds(s, ms)
    ensures s.server == Some(true) <==> ("server_no_context_takeover", None) in ms
    ensures s.client == Some(true) <==> ("client_no_context_takeover", None) in ms
  {
    if Used(ms, ServerReset) {
      var m := UsedAs(ms, ServerReset);
      OneName(m.0, "server_no_context_takeover");
    }
    if Used(ms, ClientReset) {
      var m := UsedAs(ms, ClientReset);
      OneName(m.0, "client_no_context_takeover");
    }
  }

  lemma HoldsServerBound(s: Slots, ms: seq<Meaning>, n: nat)
    requires Holds(s, ms)
    ensures s.serverWidth == Some(n) <==> 8 <= n <= 15 && ("server_max_window_bits", Some(Numeral(n))) in ms
  {
    if Used(ms, ServerBound) {
      var m := UsedAs(ms, ServerBound);
      OneName(m.0, "server_max_window_bits");
      assert Kept(s, m);
    }
    if 8 <= n <= 15 && ("server_max_window_bits", Some(Numeral(n))) in ms {
      var m := ("server_max_window_bits", Some(Numeral(n)));
      assert Kept(s, m);
      NumeralsDiffer(n);
    }
  }

  lemma HoldsClientBound(s: Slots, ms: seq<Meaning>, n: nat)
    requires Holds(s, ms)
    ensures s.clientWidth == Some(Bits(n)) <==> 8 <= n <= 15 && ("client_max_window_bits", Some(Numeral(n))) in ms
    ensures s.clientWidth == Some(Valueless) <==> ("client_max_window_bits", None) in ms
    ensures s.clientWidth != Some(Absent)
  {
    if Used(ms, ClientBound) {
      var m := UsedAs(ms, ClientBound);
      OneName(m.0, "client_max_window_bits");
      assert Kept(s, m);
    }
    if 8 <= n <= 15 && ("client_max_window_bits", Some(Numeral(n))) in ms {
      var m := ("client_max_window_bits", Some(Numeral(n)));
      assert Kept(s, m);
      NumeralsDiffer(n);
    }
    if ("client_max_window_bits", None) in ms { assert Kept(s, ("client_max_window_bits", None)); }
  }

  lemma NumeralsDiffer(n: nat)
    requires 8 <= n <= 15
    ensures IsNumeral(Numeral(n)) && WidthOf(Numeral(n)) == n
  {
  }

  lemma HoldsSays(s: Slots, ms: seq<Meaning>)
    requires Holds(s, ms)
    ensures Says(ms, Settle(s))
  {
    HoldsResets(s, ms);
    forall n: nat
      ensures s.serverWidth == Some(n) <==> 8 <= n <= 15 && ("server_max_window_bits", Some(Numeral(n))) in ms
      ensures s.clientWidth == Some(Bits(n)) <==> 8 <= n <= 15 && ("client_max_window_bits", Some(Numeral(n))) in ms
    {
      HoldsServerBound(s, ms, n);
      HoldsClientBound(s, ms, n);
    }
    HoldsClientBound(s, ms, 0);
  }

  /** What they say is one thing. */
  lemma SaysOne(ms: seq<Meaning>, p: Params, q: Params)
    requires Says(ms, p) && Says(ms, q)
    ensures p == q
  {
    if p.serverMaxWindowBits.Some? { assert q.serverMaxWindowBits == Some(p.serverMaxWindowBits.value); }
    if q.serverMaxWindowBits.Some? { assert p.serverMaxWindowBits == Some(q.serverMaxWindowBits.value); }
    if p.clientMaxWindowBits.Bits? { assert q.clientMaxWindowBits == Bits(p.clientMaxWindowBits.bits); }
    if q.clientMaxWindowBits.Bits? { assert p.clientMaxWindowBits == Bits(q.clientMaxWindowBits.bits); }
  }

  lemma PrefixFault(ms: seq<Meaning>, i: nat, j: nat)
    requires i < j <= |ms| && Conforms(ms[..j])
    ensures FaultAt(ms, i).None?
  {
    assert ms[..j][..i] == ms[..i] && FaultAt(ms[..j], i).None?;
  }

  /** There is one first fault. */
  lemma FaultsAgree(ms: seq<Meaning>, i: nat, x: NegotiationError, j: nat, y: NegotiationError)
    requires FirstFault(ms, i, x) && FirstFault(ms, j, y)
    ensures x == y
  {
    if i < j { PrefixFault(ms, i, j); }
    if j < i { PrefixFault(ms, j, i); }
  }

  // ---- Whole elements.

  /** An element is this extension's exactly if it has its name, to the letter. */
  lemma NameExact(e: Position)
    requires WfPosition(e)
    ensures IsDeflate(SpellPosition(e)) == Ok(e.Extension? && e.name == "permessage-deflate")
  {
    match e
    case Extension(_, _, _, _) => SpelledNameReads(e);
    case Blank(space) =>
      OwsIsPlain(space);
      PlainTextIsPart(space, ';');
      Quoting.CutPart(space, ';', Quoting.Bare);
      TrimPadded(space, "", "");
      assert space + "" + "" == space;
  }

  /**
   * However its parameters are ordered, spaced, quoted and escaped, an element decodes
   * exactly when every one of them is one of the four in one of its forms and none
   * comes twice, and to exactly what they say.
   */
  lemma ParametersExact(e: Position, p: Params)
    requires WfPosition(e) && e.Extension?
    ensures ParseParams(SpellPosition(e)).Ok? <==> Conforms(Meanings(e.params))
    ensures ParseParams(SpellPosition(e)) == Ok(p) <==> Conforms(Meanings(e.params)) && Says(Meanings(e.params), p)
  {
    var ms := Meanings(e.params);
    ElementReads(e);
    var r := Fill(EMPTY, SpellParams(e.params));
    if r.Ok? {
      HoldsSays(r.value, ms);
      if Says(ms, p) { SaysOne(ms, p, Settle(r.value)); }
    } else {
      var i: nat :| FirstFault(ms, i, r.error);
      assert FaultAt(ms, i).Some?;
    }
  }

  lemma ReadFaults(ms: seq<Meaning>, r: Result<Slots, NegotiationError>, error: NegotiationError)
    requires Read(ms, r)
    ensures Settled(r) == Err(error) <==> FailsWith(ms, error)
  {
    forall i: nat | FirstFault(ms, i, error)
      ensures r == Err(error)
    {
      assert FaultAt(ms, i).Some?;
      if r.Err? {
        var j: nat :| FirstFault(ms, j, r.error);
        FaultsAgree(ms, i, error, j, r.error);
      }
    }
  }

  /** And otherwise the error is that of the first of them with a fault. */
  lemma FaultsExact(e: Position, error: NegotiationError)
    requires WfPosition(e) && e.Extension?
    ensures ParseParams(SpellPosition(e)) == Err(error) <==> FailsWith(Meanings(e.params), error)
  {
    ElementReads(e);
    ReadFaults(Meanings(e.params), Fill(EMPTY, SpellParams(e.params)), error);
  }

  /** The printer's element is spelled by a tree of this name whose parameters say exactly what was printed. */
  lemma RenderSays(p: Params) returns (e: Position)
    requires Printable(p)
    ensures WfPosition(e) && e.Extension? && SpellPosition(e) == Render(p)
    ensures e.name == "permessage-deflate" && Conforms(Meanings(e.params)) && Says(Meanings(e.params), p)
  {
    e := PrintedTree(p);
    RenderIsASpelling(p);
    ParseInvertsRender(p);
    NameExact(e);
    ParametersExact(e, p);
  }

  lemma ServerResetWords(on: bool)
    ensures FlagText(on, SERVER_TAKEOVER) == if on then "; server_no_context_takeover" else ""
  {
    assert "; " + SERVER_TAKEOVER == "; server_no_context_takeover";
  }

  lemma ClientResetWords(on: bool)
    ensures FlagText(on, CLIENT_TAKEOVER) == if on then "; client_no_context_takeover" else ""
  {
    assert "; " + CLIENT_TAKEOVER == "; client_no_context_takeover";
  }

  lemma ClientBoundWords()
    ensures FlagText(true, CLIENT_WINDOW) == "; client_max_window_bits"
  {
    assert "; " + CLIENT_WINDOW == "; client_max_window_bits";
  }

  lemma WidthWords(n: nat)
    requires 8 <= n <= 15
    ensures WidthText(SERVER_WINDOW, n) == "; server_max_window_bits=" + Numeral(n)
    ensures WidthText(CLIENT_WINDOW, n) == "; client_max_window_bits=" + Numeral(n)
  {
    DecimalIsNumeral(n);
    assert "; " + SERVER_WINDOW + "=" == "; server_max_window_bits=";
    assert "; " + CLIENT_WINDOW + "=" == "; client_max_window_bits=";
  }

  /** Letter for letter. */
  lemma RenderText(p: Params)
    requires Printable(p)
    ensures Render(p) == "permessage-deflate"
      + (if p.serverNoContextTakeover then "; server_no_context_takeover" else "")
      + (if p.clientNoContextTakeover then "; client_no_context_takeover" else "")
      + (if p.serverMaxWindowBits.Some? then "; server_max_window_bits=" + Numeral(p.serverMaxWindowBits.value) else "")
      + (match p.clientMaxWindowBits
         case Absent => ""
         case Valueless => "; client_max_window_bits"
         case Bits(n) => "; client_max_window_bits=" + Numeral(n))
  {
    ServerResetWords(p.serverNoContextTakeover);
    ClientResetWords(p.clientNoContextTakeover);
    ClientBoundWords();
    if p.serverMaxWindowBits.Some? { WidthWords(p.serverMaxWindowBits.value); }
    if p.clientMaxWindowBits.Bits? { WidthWords(p.clientMaxWindowBits.bits); }
  }
}
