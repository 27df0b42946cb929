/** The `Sec-WebSocket-Extensions` grammar as the crate checks it. */
module Grammar {
  import opened Wrappers
  import opened Errors
  import opened Quoting

  const NAME := "permessage-deflate"

  // ---- Spaces and tokens.

  predicate IsSpace(c: char) {
    c == ' ' || c == '\t' || c == '\n' || c == '\r' || c == '\U{0C}'
  }

  predicate AllSpace(s: string) {
    forall i :: 0 <= i < |s| ==> IsSpace(s[i])
  }

  function TrimStart(s: string): string {
    if s == "" || !IsSpace(s[0]) then s else TrimStart(s[1..])
  }

  function TrimEnd(s: string): string {
    if s == "" || !IsSpace(s[|s|-1]) then s else TrimEnd(s[..|s|-1])
  }

  function Trim(s: string): string {
    TrimEnd(TrimStart(s))
  }

  /** No space at either end. */
  predicate Tight(s: string) {
    s != "" ==> !IsSpace(s[0]) && !IsSpace(s[|s|-1])
  }

  lemma {:induction false} TrimStartSpec(s: string) returns (l: string)
    ensures AllSpace(l) && s == l + TrimStart(s)
    ensures TrimStart(s) != "" ==> !IsSpace(TrimStart(s)[0])
  {
    if s == "" || !IsSpace(s[0]) {
      l := "";
      assert s == l + s;
    } else {
      var rest := TrimStartSpec(s[1..]);
      l := [s[0]] + rest;
      assert s == [s[0]] + s[1..];
    }
  }

  lemma {:induction false} TrimEndSpec(s: string) returns (r: string)
    ensures AllSpace(r) && s == TrimEnd(s) + r
    ensures TrimEnd(s) != "" ==> !IsSpace(TrimEnd(s)[|TrimEnd(s)|-1])
  {
    if s == "" || !IsSpace(s[|s|-1]) {
      r := "";
    } else {
      var rest := TrimEndSpec(s[..|s|-1]);
      r := rest + [s[|s|-1]];
    }
  }

  /** Trimming takes spaces off both ends, and leaves none there. */
  lemma TrimSpec(s: string) returns (l: string, r: string)
    ensures AllSpace(l) && AllSpace(r) && Tight(Trim(s)) && s == l + Trim(s) + r
  {
    l := TrimStartSpec(s);
    r := TrimEndSpec(TrimStart(s));
  }

  lemma {:induction false} TrimStartPadded(l: string, s: string)
    requires AllSpace(l)
    ensures TrimStart(l + s) == TrimStart(s)
  {
    if l == "" {
      assert l + s == s;
    } else {
      assert (l + s)[0] == l[0] && (l + s)[1..] == l[1..] + s;
      TrimStartPadded(l[1..], s);
    }
  }

  lemma {:induction false} TrimEndPadded(s: string, r: string)
    requires AllSpace(r)
    ensures TrimEnd(s + r) == TrimEnd(s)
  {
    if r == "" {
      assert s + r == s;
    } else {
      assert (s + r)[|s + r| - 1] == r[|r|-1] && (s + r)[..|s + r| - 1] == s + r[..|r|-1];
      TrimEndPadded(s, r[..|r|-1]);
    }
  }

  lemma {:induction false} AllSpaceTrimsAway(s: string)
    requires AllSpace(s)
    ensures TrimStart(s) == ""
  {
    if s != "" { AllSpaceTrimsAway(s[1..]); }
  }

  /** Any padding around a tight string trims away. */
  lemma TrimPadded(l: string, t: string, r: string)
    requires AllSpace(l) && AllSpace(r) && Tight(t)
    ensures Trim(l + t + r) == t
  {
    assert l + t + r == l + (t + r);
    TrimStartPadded(l, t + r);
    if t == "" {
      assert t + r == r;
      AllSpaceTrimsAway(r);
    } else {
      assert TrimStart(t + r) == t + r;
      TrimEndPadded(t, r);
    }
  }

  /** The characters a token admits, as the crate lists them. */
  predicate IsTchar(c: char) {
    c == '!' || '#' <= c <= '\'' || c == '*' || c == '+' || c == '-' || c == '.'
    || '0' <= c <= '9' || 'A' <= c <= 'Z' || '^' <= c <= 'z' || c == '|' || c == '~'
  }

  predicate IsToken(s: string) {
    s != "" && forall i :: 0 <= i < |s| ==> IsTchar(s[i])
  }

  /** RFC 2616, section 2.2: any CHAR except controls and separators. */
  predicate IsRfcTokenChar(c: char) {
    ' ' <= c < '\U{7F}' && c !in "()<>@,;:\\\"/[]?={} "
  }

  lemma TcharIsTheRfcSet(c: char)
    ensures IsTchar(c) <==> IsRfcTokenChar(c)
  {
  }

  lemma TokenIsTight(s: string)
    requires IsToken(s)
    ensures Tight(s) && forall i :: 0 <= i < |s| ==> s[i] !in ",;=\"\\"
  {
  }

  // ---- Values.

  function PrependOk(c: char, r: Result<string, NegotiationError>): Result<string, NegotiationError> {
    if r.Err? then r else Ok([c] + r.value)
  }

  /** The inside of a quoted string, up to the quote that must be its last character. */
  function Unescape(s: string): Result<string, NegotiationError>
    decreases |s|
  {
    if s == "" then Err(MalformedHeader)
    else if s[0] == '\\' then
      if |s| == 1 then Err(MalformedHeader) else PrependOk(s[1], Unescape(s[2..]))
    else if s[0] == '"' then
      if |s| == 1 then Ok("") else Err(MalformedHeader)
    else PrependOk(s[0], Unescape(s[1..]))
  }

  function Unquote(value: string): Result<string, NegotiationError> {
    if value != "" && value[0] == '"' then Unescape(value[1..])
    else if '"' in value then Err(MalformedHeader)
    else Ok(value)
  }

  /** One way to write `text` inside quotes: `marks` says which characters are escaped. */
  function Spell(text: string, marks: seq<bool>): string
    requires |marks| == |text|
  {
    if text == "" then "\""
    else (if marks[0] then ['\\', text[0]] else [text[0]]) + Spell(text[1..], marks[1..])
  }

  /** A quote or a backslash has to be escaped; anything else may be. */
  predicate Marks(text: string, marks: seq<bool>) {
    |marks| == |text| && forall i :: 0 <= i < |text| ==> text[i] in "\"\\" ==> marks[i]
  }

  lemma {:induction false} UnescapeSpelled(text: string, marks: seq<bool>)
    requires Marks(text, marks)
    ensures Unescape(Spell(text, marks)) == Ok(text)
    decreases |text|
  {
    if text != "" {
      UnescapeSpelled(text[1..], marks[1..]);
      var rest := Spell(text[1..], marks[1..]);
      if marks[0] {
        assert Spell(text, marks)[2..] == rest;
      } else {
        assert Spell(text, marks)[1..] == rest;
      }
      assert [text[0]] + text[1..] == text;
    }
  }

  lemma {:induction false} UnescapeOnlySpelled(s: string) returns (marks: seq<bool>)
    requires Unescape(s).Ok?
    ensures Marks(Unescape(s).value, marks) && s == Spell(Unescape(s).value, marks)
    decreases |s|
  {
    if s[0] == '\\' {
      var rest := UnescapeOnlySpelled(s[2..]);
      marks := [true] + rest;
      assert s == ['\\', s[1]] + s[2..] && Unescape(s).value[1..] == Unescape(s[2..]).value;
    } else if s[0] == '"' {
      marks := [];
    } else {
      var rest := UnescapeOnlySpelled(s[1..]);
      marks := [false] + rest;
      assert s == [s[0]] + s[1..] && Unescape(s).value[1..] == Unescape(s[1..]).value;
    }
  }

  lemma {:induction false} UnescapeFails(s: string)
    ensures Unescape(s).Err? ==> Unescape(s).error == MalformedHeader
    decreases |s|
  {
    if s != "" && s[0] == '\\' {
      if |s| > 1 { UnescapeFails(s[2..]); }
    } else if s != "" && s[0] != '"' {
      UnescapeFails(s[1..]);
    }
  }

  /** Unquoting undoes every way of quoting, and nothing else unquotes. */
  lemma UnquoteInvertsQuoting(value: string, text: string)
    ensures Unquote(value) == Ok(text) <==>
      (value == text && '"' !in text) || exists marks :: Marks(text, marks) && value == "\"" + Spell(text, marks)
    ensures Unquote(value).Err? ==> Unquote(value).error == MalformedHeader
  {
    if value != "" { UnescapeFails(value[1..]); }
    if Unquote(value) == Ok(text) && value != "" && value[0] == '"' {
      var marks := UnescapeOnlySpelled(value[1..]);
      assert value == "\"" + value[1..];
    }
    forall marks | Marks(text, marks) && value == "\"" + Spell(text, marks)
      ensures Unquote(value) == Ok(text)
    {
      UnescapeSpelled(text, marks);
      assert value[1..] == Spell(text, marks);
    }
  }

  method UnquoteValue(value: string) returns (r: Result<string, NegotiationError>)
    ensures r == Unquote(value)
  {
    if value == "" || value[0] != '"' {
      if '"' in value { return Err(MalformedHeader); }
      return Ok(value);
    }
    var rest := value[1..];
    var output := "";
    var i := 0;
    assert rest[0..] == rest;
    assert Unescape(rest).Ok? ==> "" + Unescape(rest).value == Unescape(rest).value;
    while i < |rest|
      invariant i <= |rest|
      invariant Unescape(rest) == PrependAll(output, Unescape(rest[i..]))
    {
      var byte := rest[i];
      i := i + 1;
      if byte == '\\' {
        if i == |rest| { return Err(MalformedHeader); }
        PrependAllOne(output, rest[i], Unescape(rest[i+1..]));
        assert rest[i-1..][2..] == rest[i+1..];
        output := output + [rest[i]];
        i := i + 1;
      } else if byte == '"' {
        if i < |rest| { return Err(MalformedHeader); }
        assert output + "" == output;
        return Ok(output);
      } else {
        PrependAllOne(output, byte, Unescape(rest[i..]));
        assert rest[i-1..][1..] == rest[i..];
        output := output + [byte];
      }
    }
    r := Err(MalformedHeader);
  }

  function PrependAll(s: string, r: Result<string, NegotiationError>): Result<string, NegotiationError> {
    if r.Err? then r else Ok(s + r.value)
  }

  lemma PrependAllOne(s: string, c: char, r: Result<string, NegotiationError>)
    ensures PrependAll(s, PrependOk(c, r)) == PrependAll(s + [c], r)
  {
    if r.Ok? { assert s + ([c] + r.value) == (s + [c]) + r.value; }
  }

  /** A parameter is its name and, behind the first equals sign, its value. */
  function SplitParameter(segment: string): (string, Option<string>)
  {
    if segment == "" then ("", None)
    else if segment[0] == '=' then ("", Some(segment[1..]))
    else
      var (name, value) := SplitParameter(segment[1..]);
      ([segment[0]] + name, value)
  }

  lemma {:induction false} SplitParameterAt(name: string, value: string)
    requires '=' !in name
    ensures SplitParameter(name) == (name, None)
    ensures SplitParameter(name + "=" + value) == (name, Some(value))
  {
    if name == "" {
      assert (name + "=" + value)[1..] == value;
    } else {
      assert (name + "=" + value)[1..] == name[1..] + "=" + value;
      SplitParameterAt(name[1..], value);
      assert [name[0]] + name[1..] == name;
    }
  }

  lemma {:induction false} SplitParameterSpec(segment: string)
    ensures var (name, value) := SplitParameter(segment);
      && '=' !in name
      && segment == match value case None => name case Some(v) => name + "=" + v
  {
    if segment != "" && segment[0] != '=' {
      SplitParameterSpec(segment[1..]);
      assert segment == [segment[0]] + segment[1..];
    } else if segment != "" {
      assert segment == "" + "=" + segment[1..];
    }
  }

  // ---- Elements and the whole field.

  predicate IsBlank(element: string) {
    Trim(element) == ""
  }

  predicate ValidParameter(segment: string) {
    var (name, value) := SplitParameter(segment);
    && IsToken(Trim(name))
    && (value.Some? ==> Unquote(Trim(value.value)).Ok? && IsToken(Unquote(Trim(value.value)).value))
  }

  predicate ValidElement(element: string) {
    && Split(element, ';').Ok?
    && var segments := Split(element, ';').value;
    && IsToken(Trim(segments[0]))
    && forall i :: 1 <= i < |segments| ==> ValidParameter(segments[i])
  }

  function Segments(element: string): Result<seq<string>, NegotiationError> {
    Split(element, ';')
  }

  function Elements(line: string): Result<seq<string>, NegotiationError> {
    Split(line, ',')
  }

  function IsDeflate(element: string): Result<bool, NegotiationError> {
    var segments := Segments(element);
    if segments.Err? then Err(segments.error) else Ok(Trim(segments.value[0]) == NAME)
  }

  predicate ValidLine(line: string) {
    && Elements(line).Ok?
    && forall i :: 0 <= i < |Elements(line).value| ==>
         IsBlank(Elements(line).value[i]) || ValidElement(Elements(line).value[i])
  }

  predicate Populated(line: string) {
    && Elements(line).Ok?
    && exists i :: 0 <= i < |Elements(line).value| && !IsBlank(Elements(line).value[i])
  }

  /** A field is its lines; an absent one is no lines at all. */
  predicate ValidField(lines: seq<string>) {
    && (forall i :: 0 <= i < |lines| ==> ValidLine(lines[i]))
    && (lines != [] ==> exists i :: 0 <= i < |lines| && Populated(lines[i]))
  }

  method ValidateElement(element: string) returns (r: Result<(), NegotiationError>)
    ensures r == if ValidElement(element) then Ok(()) else Err(MalformedHeader)
  {
    var split := SplitOn(element, ';');
    if split.Err? { return Err(split.error); }
    var segments := split.value;
    if !IsToken(Trim(segments[0])) { return Err(MalformedHeader); }
    for i := 1 to |segments|
      invariant forall j :: 1 <= j < i ==> ValidParameter(segments[j])
    {
      var (name, value) := SplitParameter(segments[i]);
      if !IsToken(Trim(name)) { return Err(MalformedHeader); }
      if value.Some? {
        var text := UnquoteValue(Trim(value.value));
        if text.Err? || !IsToken(text.value) { return Err(MalformedHeader); }
      }
    }
    r := Ok(());
  }

  method ValidateLine(line: string) returns (r: Result<bool, NegotiationError>)
    ensures r == if ValidLine(line) then Ok(Populated(line)) else Err(MalformedHeader)
  {
    var elements := SplitOn(line, ',');
    if elements.Err? { return Err(elements.error); }
    var populated := false;
    for i := 0 to |elements.value|
      invariant forall j :: 0 <= j < i ==> IsBlank(elements.value[j]) || ValidElement(elements.value[j])
      invariant populated <==> exists j :: 0 <= j < i && !IsBlank(elements.value[j])
    {
      if IsBlank(elements.value[i]) { continue; }
      populated := true;
      var checked := ValidateElement(elements.value[i]);
      if checked.Err? { return Err(checked.error); }
    }
    r := Ok(populated);
  }

  /** The pre-pass over the whole field. */
  method Validate(lines: seq<string>) returns (r: Result<(), NegotiationError>)
    ensures r == if ValidField(lines) then Ok(()) else Err(MalformedHeader)
  {
    var present, populated := false, false;
    for i := 0 to |lines|
      invariant present <==> i > 0
      invariant forall j :: 0 <= j < i ==> ValidLine(lines[j])
      invariant populated <==> exists j :: 0 <= j < i && Populated(lines[j])
    {
      present := true;
      var line := ValidateLine(lines[i]);
      if line.Err? { return Err(line.error); }
      if line.value { populated := true; }
    }
    if present && !populated { return Err(MalformedHeader); }
    r := Ok(());
  }
}
