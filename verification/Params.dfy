/** The four RFC 7692 parameters: decoding them, printing them, and what spelling cannot change. */
module Parameters {
  import opened Wrappers
  import opened Errors
  import opened Quoting
  import opened Grammar

  const SERVER_TAKEOVER := "server_no_context_takeover"
  const CLIENT_TAKEOVER := "client_no_context_takeover"
  const SERVER_WINDOW := "server_max_window_bits"
  const CLIENT_WINDOW := "client_max_window_bits"

  datatype ClientWindow = Absent | Valueless | Bits(bits: nat)

  datatype Params = Params(
    serverNoContextTakeover: bool,
    clientNoContextTakeover: bool,
    serverMaxWindowBits: Option<nat>,
    clientMaxWindowBits: ClientWindow)

  // ---- Window widths.

  predicate IsDigit(c: char) {
    '0' <= c <= '9'
  }

  function DigitValue(c: char): nat
    requires IsDigit(c)
  {
    (c as int) - ('0' as int)
  }

  predicate AllDigits(s: string) {
    forall i :: 0 <= i < |s| ==> IsDigit(s[i])
  }

  /** The fold the crate runs, in an unsigned octet that must not overflow. */
  function CheckedFold(total: nat, digits: string): Option<nat>
    requires AllDigits(digits)
    decreases |digits|
  {
    if digits == "" then Some(total)
    else if total * 10 > 255 || total * 10 + DigitValue(digits[0]) > 255 then None
    else CheckedFold(total * 10 + DigitValue(digits[0]), digits[1..])
  }

  function ParseBits(value: string): Result<nat, NegotiationError> {
    var unquoted := Unquote(Trim(value));
    if unquoted.Err? then Err(unquoted.error) else
    var digits := unquoted.value;
    if digits == "" || !AllDigits(digits) then Err(InvalidWindowBits)
    else if |digits| > 1 && digits[0] == '0' then Err(InvalidWindowBits)
    else
      var bits := CheckedFold(0, digits);
      if bits.None? || !(8 <= bits.value <= 15) then Err(InvalidWindowBits) else Ok(bits.value)
  }

  /** The decimal numeral, with no leading zero. */
  function Decimal(n: nat): string {
    if n < 10 then [(n + '0' as int) as char] else Decimal(n / 10) + Decimal(n % 10)
  }

  lemma {:induction false} FoldGrows(total: nat, digits: string)
    requires AllDigits(digits)
    ensures CheckedFold(total, digits).Some? ==> CheckedFold(total, digits).value >= total
    decreases |digits|
  {
    if digits != "" && total * 10 + DigitValue(digits[0]) <= 255 {
      FoldGrows(total * 10 + DigitValue(digits[0]), digits[1..]);
    }
  }

  /** Three digits or more, the first not a zero, are worth at least a hundred or overflow. */
  lemma LongNumeralsAreTooBig(digits: string)
    requires AllDigits(digits) && |digits| >= 3 && digits[0] != '0'
    ensures CheckedFold(0, digits).Some? ==> CheckedFold(0, digits).value >= 100
  {
    var a, b, c := DigitValue(digits[0]), DigitValue(digits[1]), DigitValue(digits[2]);
    assert digits[1..][1..] == digits[2..] && digits[2..][1..] == digits[3..];
    var t := (a * 10 + b) * 10 + c;
    assert CheckedFold(0, digits) == CheckedFold(a, digits[1..]) == CheckedFold(a * 10 + b, digits[2..]);
    if t <= 255 {
      assert CheckedFold(0, digits) == CheckedFold(t, digits[3..]);
      FoldGrows(t, digits[3..]);
    }
  }

  lemma ShortNumerals(a: char, b: char)
    requires IsDigit(a) && IsDigit(b)
    ensures CheckedFold(0, [a]) == Some(DigitValue(a)) && Decimal(DigitValue(a)) == [a]
    ensures a != '0' ==>
      var n := 10 * DigitValue(a) + DigitValue(b);
      CheckedFold(0, [a, b]) == Some(n) && Decimal(n) == [a, b]
  {
    assert [a][1..] == "" && [a, b][1..] == [b] && [b][1..] == "";
    assert CheckedFold(DigitValue(a), [b]) == CheckedFold(DigitValue(a) * 10 + DigitValue(b), "");
    assert Decimal(DigitValue(b)) == [b];
  }

  /** What parses is the canonical decimal of its value. */
  lemma ParsedIsCanonical(digits: string)
    requires digits != "" && AllDigits(digits) && (|digits| > 1 ==> digits[0] != '0')
    requires CheckedFold(0, digits).Some? && CheckedFold(0, digits).value <= 15
    ensures digits == Decimal(CheckedFold(0, digits).value)
  {
    if |digits| >= 3 {
      LongNumeralsAreTooBig(digits);
    } else {
      ShortNumerals(digits[0], digits[|digits|-1]);
      assert |digits| == 1 ==> digits == [digits[0]];
      assert |digits| == 2 ==> digits == [digits[0], digits[1]];
    }
  }

  lemma CanonicalParses(n: nat)
    requires 8 <= n <= 15
    ensures var digits := Decimal(n);
      && digits != "" && AllDigits(digits) && (|digits| > 1 ==> digits[0] != '0')
      && CheckedFold(0, digits) == Some(n)
  {
    var last := (n % 10 + '0' as int) as char;
    ShortNumerals(last, '0');
    ShortNumerals('1', last);
  }

  /** Only the canonical decimals of 8 to 15 parse, each to its own value, at any length of digit string. */
  lemma ParseBitsExact(value: string, n: nat)
    ensures ParseBits(value) == Ok(n) <==> 8 <= n <= 15 && Unquote(Trim(value)) == Ok(Decimal(n))
  {
    if ParseBits(value).Ok? { ParsedIsCanonical(Unquote(Trim(value)).value); }
    if 8 <= n <= 15 { CanonicalParses(n); }
  }

  lemma DecimalIsToken(n: nat)
    requires 8 <= n <= 15
    ensures IsToken(Decimal(n))
  {
    if n >= 10 { assert Decimal(n / 10) == "1"; }
  }

  // ---- Parameters.

  datatype Setting =
    | ServerTakeover
    | ClientTakeover
    | ServerWidth(bits: nat)
    | ClientWidth(window: ClientWindow)

  function NoValue(value: Option<string>, flag: Setting): Result<Setting, NegotiationError> {
    if value.None? then Ok(flag) else Err(ParameterArity)
  }

  function ParseSetting(name: string, value: Option<string>): Result<Setting, NegotiationError> {
    if name == SERVER_TAKEOVER then NoValue(value, ServerTakeover)
    else if name == CLIENT_TAKEOVER then NoValue(value, ClientTakeover)
    else if name == SERVER_WINDOW then
      if value.None? then Err(ParameterArity) else
      var bits := ParseBits(value.value);
      if bits.Err? then Err(bits.error) else Ok(ServerWidth(bits.value))
    else if name == CLIENT_WINDOW then
      if value.None? then Ok(ClientWidth(Valueless)) else
      var bits := ParseBits(value.value);
      if bits.Err? then Err(bits.error) else Ok(ClientWidth(Bits(bits.value)))
    else Err(UnknownParameter)
  }

  /** A value counts for what it unquotes to. */
  lemma ParseSettingReads(name: string, a: string, b: string)
    requires Unquote(Trim(a)) == Unquote(Trim(b))
    ensures ParseSetting(name, Some(a)) == ParseSetting(name, Some(b))
  {
    assert ParseBits(a) == ParseBits(b);
  }

  function ParseSegment(segment: string): Result<Setting, NegotiationError> {
    var (name, value) := SplitParameter(segment);
    ParseSetting(Trim(name), value)
  }

  /** One slot a parameter; a full one has been seen. */
  datatype Slots = Slots(
    server: Option<bool>,
    client: Option<bool>,
    serverWidth: Option<nat>,
    clientWidth: Option<ClientWindow>)

  const EMPTY := Slots(None, None, None, None)

  function Put(s: Slots, x: Setting): Result<Slots, NegotiationError> {
    match x
    case ServerTakeover => if s.server.Some? then Err(DuplicateParameter) else Ok(s.(server := Some(true)))
    case ClientTakeover => if s.client.Some? then Err(DuplicateParameter) else Ok(s.(client := Some(true)))
    case ServerWidth(bits) => if s.serverWidth.Some? then Err(DuplicateParameter) else Ok(s.(serverWidth := Some(bits)))
    case ClientWidth(w) => if s.clientWidth.Some? then Err(DuplicateParameter) else Ok(s.(clientWidth := Some(w)))
  }

  function Step(s: Slots, segment: string): Result<Slots, NegotiationError> {
    PutParsed(s, ParseSegment(segment))
  }

  function PutParsed(s: Slots, setting: Result<Setting, NegotiationError>): Result<Slots, NegotiationError> {
    if setting.Err? then Err(setting.error) else Put(s, setting.value)
  }

  function Fill(s: Slots, segments: seq<string>): Result<Slots, NegotiationError>
    decreases |segments|
  {
    if segments == [] then Ok(s) else
    var next := Step(s, segments[0]);
    if next.Err? then next else Fill(next.value, segments[1..])
  }

  function Settle(s: Slots): Params {
    Params(s.server == Some(true), s.client == Some(true), s.serverWidth,
           if s.clientWidth.Some? then s.clientWidth.value else Absent)
  }

  function Settled(r: Result<Slots, NegotiationError>): Result<Params, NegotiationError> {
    if r.Err? then Err(r.error) else Ok(Settle(r.value))
  }

  function ParseParams(element: string): Result<Params, NegotiationError> {
    var segments := Segments(element);
    if segments.Err? then Err(segments.error) else Settled(Fill(EMPTY, segments.value[1..]))
  }

  /** The decoder of a `permessage-deflate` element, one slot a parameter. */
  method ParseParamsOf(element: string) returns (r: Result<Params, NegotiationError>)
    ensures r == ParseParams(element)
  {
    var split := SplitOn(element, ';');
    if split.Err? { return Err(split.error); }
    var segments := split.value;
    var slots := EMPTY;
    for i := 1 to |segments|
      invariant Fill(EMPTY, segments[1..]) == Fill(slots, segments[i..])
    {
      assert segments[i..][1..] == segments[i + 1..];
      var (name, value) := SplitParameter(segments[i]);
      var setting := ParseSetting(Trim(name), value);
      if setting.Err? { return Err(setting.error); }
      var put := Put(slots, setting.value);
      if put.Err? { return Err(put.error); }
      slots := put.value;
    }
    r := Ok(Settle(slots));
  }

  lemma {:induction false} FillNeverMalformed(s: Slots, segments: seq<string>)
    requires forall i :: 0 <= i < |segments| ==> ValidParameter(segments[i])
    ensures Fill(s, segments) != Err(MalformedHeader)
    decreases |segments|
  {
    if segments != [] {
      assert ValidParameter(segments[0]);
      if Step(s, segments[0]).Ok? { FillNeverMalformed(Step(s, segments[0]).value, segments[1..]); }
    }
  }

  /** An element that checks out is never refused as malformed: what may be wrong with it is what it asks for. */
  lemma ValidIsNeverMalformed(e: string)
    requires ValidElement(e)
    ensures ParseParams(e) != Err(MalformedHeader)
  {
    FillNeverMalformed(EMPTY, Segments(e).value[1..]);
  }

  // ---- Order.

  /** Both succeed or neither, and successes agree; which error comes first may differ. */
  predicate SameAnswer<T(==)>(a: Result<T, NegotiationError>, b: Result<T, NegotiationError>) {
    (a.Ok? <==> b.Ok?) && (a.Ok? ==> a == b)
  }

  function PutTwo(s: Slots, x: Result<Setting, NegotiationError>, y: Result<Setting, NegotiationError>)
    : Result<Slots, NegotiationError>
  {
    if PutParsed(s, x).Err? then PutParsed(s, x) else PutParsed(PutParsed(s, x).value, y)
  }

  lemma PutsCommute(s: Slots, x: Result<Setting, NegotiationError>, y: Result<Setting, NegotiationError>)
    ensures SameAnswer(PutTwo(s, x, y), PutTwo(s, y, x))
  {
  }

  lemma FillTwo(s: Slots, x: string, y: string, rest: seq<string>)
    ensures var two := PutTwo(s, ParseSegment(x), ParseSegment(y));
      Fill(s, [x, y] + rest) == if two.Err? then two else Fill(two.value, rest)
  {
    assert ([x, y] + rest)[1..] == [y] + rest;
    assert ([y] + rest)[1..] == rest;
  }

  lemma StepsCommute(s: Slots, x: string, y: string, rest: seq<string>)
    ensures SameAnswer(Fill(s, [x, y] + rest), Fill(s, [y, x] + rest))
  {
    FillTwo(s, x, y, rest);
    FillTwo(s, y, x, rest);
    PutsCommute(s, ParseSegment(x), ParseSegment(y));
  }

  lemma {:induction false} MoveToFront(s: Slots, before: seq<string>, x: string, after: seq<string>)
    ensures SameAnswer(Fill(s, before + [x] + after), Fill(s, [x] + (before + after)))
    decreases |before|
  {
    if before == [] {
      assert before + [x] + after == [x] + (before + after);
    } else {
      var y, rest := before[0], before[1..];
      assert (before + [x] + after)[1..] == rest + [x] + after;
      assert [y, x] + (rest + after) == [y] + ([x] + (rest + after));
      assert [x, y] + (rest + after) == [x] + (before + after);
      assert ([y] + ([x] + (rest + after)))[1..] == [x] + (rest + after);
      if Step(s, y).Ok? { MoveToFront(Step(s, y).value, rest, x, after); }
      StepsCommute(s, y, x, rest + after);
    }
  }

  lemma FillCons(s: Slots, x: string, rest: seq<string>)
    ensures Fill(s, [x] + rest) == if Step(s, x).Err? then Step(s, x) else Fill(Step(s, x).value, rest)
  {
    assert ([x] + rest)[1..] == rest;
  }

  lemma SameWithout(a: seq<string>, b: seq<string>, i: nat)
    requires a != [] && multiset(a) == multiset(b) && i < |b| && b[i] == a[0]
    ensures multiset(a[1..]) == multiset(b[..i] + b[i+1..])
  {
    assert a == [a[0]] + a[1..];
    assert b == b[..i] + [a[0]] + b[i+1..];
    assert multiset(a) == multiset{a[0]} + multiset(a[1..]);
    assert multiset(b) == multiset(b[..i]) + multiset{a[0]} + multiset(b[i+1..]);
    var x, left, right := multiset{a[0]}, multiset(a[1..]), multiset(b[..i] + b[i+1..]);
    assert x + left == multiset(a) && x + right == multiset(b);
    assert left == (x + left) - x && right == (x + right) - x;
  }

  /** Parameters may come in any order. */
  lemma {:induction false} AnyOrder(s: Slots, a: seq<string>, b: seq<string>)
    requires multiset(a) == multiset(b)
    ensures SameAnswer(Fill(s, a), Fill(s, b))
    decreases |a|
  {
    if a == [] {
      assert |b| == |multiset(b)| == |multiset(a)| == 0;
    } else {
      assert a[0] in multiset(b);
      var i :| 0 <= i < |b| && b[i] == a[0];
      var rest := b[..i] + b[i+1..];
      SameWithout(a, b, i);
      MoveToFront(s, b[..i], a[0], b[i+1..]);
      assert b == b[..i] + [a[0]] + b[i+1..] && a == [a[0]] + a[1..];
      FillCons(s, a[0], a[1..]);
      FillCons(s, a[0], rest);
      if Step(s, a[0]).Ok? { AnyOrder(Step(s, a[0]).value, a[1..], rest); }
    }
  }
}
