/**
 * The field's lines against the one list they stand for: how the header was cut
 * into lines decides nothing (section 9.1 of RFC 6455).
 */
module Layout {
  import opened Quoting
  import opened Grammar
  import opened Syntax

  /** A field's lines, read as the one list section 9.1 says they are. */
  function OneField(lines: seq<string>): string
    requires lines != []
  {
    Join(lines, ',')
  }

  predicate NoComma(s: string) {
    forall i :: 0 <= i < |s| ==> s[i] != ','
  }

  lemma {:induction false} SpellHasNoComma(text: string, marks: seq<bool>)
    requires |marks| == |text| && NoComma(text)
    ensures NoComma(Spell(text, marks))
    decreases |text|
  {
    if text != "" { SpellHasNoComma(text[1..], marks[1..]); }
  }

  lemma TrimKeepsCommas(s: string)
    requires NoComma(Trim(s))
    ensures NoComma(s)
  {
    var l, r := TrimSpec(s);
    forall i | 0 <= i < |s| ensures s[i] != ',' {
      assert s[i] == (l + Trim(s) + r)[i];
    }
  }

  lemma ValidParameterHasNoComma(s: string)
    requires ValidParameter(s)
    ensures NoComma(s)
  {
    var (name, value) := SplitParameter(s);
    SplitParameterSpec(s);
    TokenIsTight(Trim(name));
    TrimKeepsCommas(name);
    if value.Some? {
      var body := Trim(value.value);
      var token := Unquote(body).value;
      TokenIsTight(token);
      UnquoteInvertsQuoting(body, token);
      if !(body == token && '"' !in token) {
        var marks :| Marks(token, marks) && body == "\"" + Spell(token, marks);
        SpellHasNoComma(token, marks);
      }
      TrimKeepsCommas(value.value);
    }
  }

  lemma {:induction false} JoinHasNoComma(parts: seq<string>, d: char)
    requires parts != [] && d != ',' && forall i :: 0 <= i < |parts| ==> NoComma(parts[i])
    ensures NoComma(Join(parts, d))
    decreases |parts|
  {
    if |parts| > 1 { JoinHasNoComma(parts[1..], d); }
  }

  /** A valid element holds no comma at all, not even a quoted one: its values are tokens. */
  lemma ValidElementHasNoComma(e: string)
    requires IsBlank(e) || ValidElement(e)
    ensures NoComma(e)
  {
    if IsBlank(e) {
      TrimKeepsCommas(e);
    } else {
      var segments := Split(e, ';').value;
      SplitIsTheDecomposition(e, ';', segments);
      TokenIsTight(Trim(segments[0]));
      TrimKeepsCommas(segments[0]);
      forall i | 1 <= i < |segments| ensures NoComma(segments[i]) { ValidParameterHasNoComma(segments[i]); }
      JoinHasNoComma(segments, ';');
    }
  }

  lemma {:induction false} JoinBalanced(parts: seq<string>, d: char)
    requires IsDelimiter(d) && parts != [] && forall i :: 0 <= i < |parts| ==> Balanced(parts[i])
    ensures Balanced(Join(parts, d))
    decreases |parts|
  {
    if |parts| > 1 {
      JoinBalanced(parts[1..], d);
      BalancedAcross(parts[0], Join(parts[1..], d), d);
    }
  }

  lemma BalancedAcross(a: string, b: string, d: char)
    requires IsDelimiter(d) && Balanced(a)
    ensures Balanced(a + [d] + b) <==> Balanced(b)
  {
    ScanConcat(Bare, a + [d], b);
    ScanConcat(Bare, a, [d]);
  }

  /** Where pieces hold no comma, a comma in the joined text is a joint. */
  lemma {:induction false} CommasAreJoints(parts: seq<string>, a: string, b: string) returns (k: nat)
    requires parts != [] && forall i :: 0 <= i < |parts| ==> NoComma(parts[i])
    requires Join(parts, ',') == a + "," + b
    ensures 0 < k < |parts| && a == Join(parts[..k], ',') && b == Join(parts[k..], ',')
    decreases |parts|
  {
    var s := a + "," + b;
    assert s[|a|] == ',';
    assert |parts| > 1;
    var rest := Join(parts[1..], ',');
    assert s == parts[0] + "," + rest && s[|parts[0]|] == ',';
    assert forall i :: 0 <= i < |parts[0]| ==> s[i] == parts[0][i];
    assert |a| >= |parts[0]|;
    if |a| == |parts[0]| {
      k := 1;
      assert a == s[..|a|] == parts[0] && b == s[|a| + 1..] == rest;
      assert parts[..1] == [parts[0]];
    } else {
      var tail := a[|parts[0]| + 1..];
      assert a == s[..|a|] && a[..|parts[0]|] == parts[0] && a[|parts[0]|] == ',';
      assert a == parts[0] + "," + tail;
      assert rest == s[|parts[0]| + 1..] == tail + "," + b;
      var j := CommasAreJoints(parts[1..], tail, b);
      k := j + 1;
      assert parts[..k][1..] == parts[1..][..j] && parts[..k][0] == parts[0];
      assert parts[k..] == parts[1..][j..];
    }
  }

  lemma {:induction false} LinesAreBalanced(lines: seq<string>, parts: seq<string>)
    requires lines != [] && parts != []
    requires forall i :: 0 <= i < |parts| ==> NoComma(parts[i]) && Balanced(parts[i])
    requires Join(lines, ',') == Join(parts, ',')
    ensures forall i :: 0 <= i < |lines| ==> Balanced(lines[i])
    decreases |lines|
  {
    if |lines| == 1 {
      JoinBalanced(parts, ',');
    } else {
      var k := CommasAreJoints(parts, lines[0], Join(lines[1..], ','));
      JoinBalanced(parts[..k], ',');
      LinesAreBalanced(lines[1..], parts[k..]);
      assert forall i :: 1 <= i < |lines| ==> lines[i] == lines[1..][i-1];
    }
  }

  /** Every list position of every line, in order. */
  function Positions(lines: seq<string>): seq<string> {
    if lines == [] then [] else Cut(lines[0], ',', Bare) + Positions(lines[1..])
  }

  lemma {:induction false} PositionsJoined(lines: seq<string>)
    requires lines != [] && forall i :: 0 <= i < |lines| ==> Balanced(lines[i])
    ensures Positions([OneField(lines)]) == Positions(lines)
    decreases |lines|
  {
    assert [OneField(lines)][1..] == [];
    if |lines| > 1 {
      PositionsJoined(lines[1..]);
      assert [OneField(lines[1..])][1..] == [];
      CutAcross(lines[0], OneField(lines[1..]), ',', Bare);
    } else {
      assert lines[1..] == [];
    }
  }

  /** The check, said of positions instead of lines. */
  predicate ValidPositions(es: seq<string>) {
    && (forall e :: e in es ==> IsBlank(e) || ValidElement(e))
    && exists e :: e in es && !IsBlank(e)
  }

  lemma {:induction false} ValidLinesByPositions(lines: seq<string>)
    requires forall i :: 0 <= i < |lines| ==> Balanced(lines[i])
    ensures (forall i :: 0 <= i < |lines| ==> ValidLine(lines[i])) <==>
            (forall e :: e in Positions(lines) ==> IsBlank(e) || ValidElement(e))
    decreases |lines|
  {
    if lines != [] {
      ValidLinesByPositions(lines[1..]);
      assert forall i :: 1 <= i < |lines| ==> lines[i] == lines[1..][i-1];
      assert ValidLine(lines[0]) <==> forall e :: e in Cut(lines[0], ',', Bare) ==> IsBlank(e) || ValidElement(e);
    }
  }

  lemma {:induction false} PopulatedByPositions(lines: seq<string>)
    requires forall i :: 0 <= i < |lines| ==> Balanced(lines[i])
    ensures (exists i :: 0 <= i < |lines| && Populated(lines[i])) <==>
            (exists e :: e in Positions(lines) && !IsBlank(e))
    decreases |lines|
  {
    if lines != [] {
      PopulatedByPositions(lines[1..]);
      assert forall i :: 1 <= i < |lines| ==> lines[i] == lines[1..][i-1];
      assert Populated(lines[0]) <==> exists e :: e in Cut(lines[0], ',', Bare) && !IsBlank(e);
    }
  }

  lemma FieldByPositions(lines: seq<string>)
    requires forall i :: 0 <= i < |lines| ==> Balanced(lines[i])
    ensures (forall i :: 0 <= i < |lines| ==> ValidLine(lines[i])) <==>
            (forall e :: e in Positions(lines) ==> IsBlank(e) || ValidElement(e))
    ensures (exists i :: 0 <= i < |lines| && Populated(lines[i])) <==>
            (exists e :: e in Positions(lines) && !IsBlank(e))
  {
    ValidLinesByPositions(lines);
    PopulatedByPositions(lines);
  }

  lemma ValidLinesBalanced(lines: seq<string>)
    requires ValidField(lines)
    ensures forall i :: 0 <= i < |lines| ==> Balanced(lines[i])
    ensures lines != [] ==> ValidPositions(Positions(lines))
  {
    assert forall i :: 0 <= i < |lines| ==> ValidLine(lines[i]) ==> Balanced(lines[i]);
    FieldByPositions(lines);
  }

  /** A field checks out exactly when its lines are balanced and its positions check out. */
  lemma ValidByPositions(lines: seq<string>)
    requires lines != []
    ensures ValidField(lines) <==>
      (forall i :: 0 <= i < |lines| ==> Balanced(lines[i])) && ValidPositions(Positions(lines))
  {
    if ValidField(lines) { ValidLinesBalanced(lines); }
    if forall i :: 0 <= i < |lines| ==> Balanced(lines[i]) { FieldByPositions(lines); }
  }

  /** A list that checks out as one line was never cut inside a quoted string. */
  lemma JoinedLinesBalanced(lines: seq<string>)
    requires lines != [] && ValidField([OneField(lines)])
    ensures forall i :: 0 <= i < |lines| ==> Balanced(lines[i])
  {
    var s := OneField(lines);
    assert ValidLine([s][0]);
    var parts := Elements(s).value;
    SplitIsTheDecomposition(s, ',', parts);
    forall i | 0 <= i < |parts| ensures NoComma(parts[i]) { ValidElementHasNoComma(parts[i]); }
    LinesAreBalanced(lines, parts);
  }

  /**
   * Lines or one line, the check gives the same answer, and on an accepted field
   * everything downstream reads the same positions. A quote left open across a
   * line boundary is refused either way.
   */
  lemma FieldLayout(lines: seq<string>)
    requires lines != []
    ensures ValidField(lines) <==> ValidField([OneField(lines)])
    ensures ValidField(lines) ==> Positions(lines) == Positions([OneField(lines)])
  {
    var one := [OneField(lines)];
    ValidByPositions(lines);
    ValidByPositions(one);
    if ValidField(one) { JoinedLinesBalanced(lines); }
    if forall i :: 0 <= i < |lines| ==> Balanced(lines[i]) {
      PositionsJoined(lines);
      JoinBalanced(lines, ',');
    }
  }

  /** The list positions of a field a tree spells are the spellings of that tree's own positions, in order. */
  lemma PositionsSpelled(lines: seq<string>, es: seq<Position>)
    requires lines != [] && Derives(es, OneField(lines))
    ensures ValidField(lines) && Positions(lines) == SpellPositions(es)
  {
    var s, parts := OneField(lines), SpellPositions(es);
    DerivableIsValid(es, s);
    FieldLayout(lines);
    forall i | 0 <= i < |parts| ensures IsPart(parts[i], ',') { SpelledPositionIsValid(es[i]); }
    SplitIsTheDecomposition(s, ',', parts);
    assert [s][1..] == [] && parts + Positions([]) == parts;
  }

  /** The check accepts a field exactly when it is absent or some tree of the grammar spells it. */
  lemma GrammarExactness(lines: seq<string>)
    requires forall i :: 0 <= i < |lines| ==> Admissible(lines[i])
    ensures ValidField(lines) <==> lines == [] || exists es :: Derives(es, OneField(lines))
  {
    if lines != [] {
      FieldLayout(lines);
      JoinAdmissible(lines);
      if ValidField(lines) { var es := ValidIsDerivable(OneField(lines)); }
      if exists es :: Derives(es, OneField(lines)) {
        var es :| Derives(es, OneField(lines));
        DerivableIsValid(es, OneField(lines));
      }
    }
  }

  lemma {:induction false} JoinAdmissible(lines: seq<string>)
    requires lines != [] && forall i :: 0 <= i < |lines| ==> Admissible(lines[i])
    ensures Admissible(OneField(lines))
    decreases |lines|
  {
    if |lines| > 1 { JoinAdmissible(lines[1..]); }
  }
}
