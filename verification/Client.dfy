/** The client half of the handshake: install, seal, finish. */
module ClientSide {
  import opened Wrappers
  import opened Errors
  import opened Sizes
  import opened Quoting
  import opened Grammar
  import opened Layout
  import opened Parameters
  import opened Rendering
  import opened Negotiation

  /** The field's lines in a header map under construction. */
  class Headers {
    var lines: seq<string>

    constructor ()
      ensures lines == []
    {
      lines := [];
    }
  }

  datatype ClientOffer = ClientOffer(config: ClientConfig, installed: string)

  datatype SealedOffer = SealedOffer(config: ClientConfig, sealed: string)

  /** `None` is a request proved to carry no offer at all. */
  datatype ClientHandshake = ClientHandshake(offer: Option<SealedOffer>)

  /** What an offer says: full width is left unsaid for the server and said without a value for the client. */
  function Offered(c: ClientConfig): Params {
    Params(c.serverNoContextTakeover, c.clientNoContextTakeover,
           if c.serverMaxWindowBits == MAX_WINDOW_BITS then None else Some(c.serverMaxWindowBits),
           if c.clientMaxWindowBits == MAX_WINDOW_BITS then Valueless else Bits(c.clientMaxWindowBits))
  }

  // ---- Looking for an element, line by line; a later line is not read once the answer is known.

  function FindDeflate(es: seq<string>): Result<bool, NegotiationError> {
    if es == [] then Ok(false)
    else if IsDeflate(es[0]) == Ok(false) then FindDeflate(es[1..])
    else IsDeflate(es[0])
  }

  function ContainsDeflate(lines: seq<string>): Result<bool, NegotiationError> {
    if lines == [] then Ok(false)
    else if Elements(lines[0]).Err? then Err(Elements(lines[0]).error)
    else if FindDeflate(Elements(lines[0]).value) == Ok(false) then ContainsDeflate(lines[1..])
    else FindDeflate(Elements(lines[0]).value)
  }

  method FindDeflateIn(elements: seq<string>) returns (r: Result<bool, NegotiationError>)
    ensures r == FindDeflate(elements)
  {
    for j := 0 to |elements|
      invariant FindDeflate(elements) == FindDeflate(elements[j..])
    {
      assert elements[j..][1..] == elements[j+1..];
      var named := NamesDeflateIn(elements[j]);
      if named.Err? || named.value { return named; }
    }
    r := Ok(false);
  }

  method ContainsDeflateIn(lines: seq<string>) returns (r: Result<bool, NegotiationError>)
    ensures r == ContainsDeflate(lines)
  {
    for i := 0 to |lines|
      invariant ContainsDeflate(lines) == ContainsDeflate(lines[i..])
    {
      assert lines[i..][1..] == lines[i+1..];
      var elements := SplitOn(lines[i], ',');
      if elements.Err? { return Err(elements.error); }
      var found := FindDeflateIn(elements.value);
      if found.Err? || found.value { return found; }
    }
    r := Ok(false);
  }

  /** Over the pieces of a list, the search finds this extension exactly when one of them names it. */
  lemma {:induction false} FindMeans(es: seq<string>)
    requires Nameable(es)
    ensures FindDeflate(es) == Ok(Deflates(es) != [])
    decreases |es|
  {
    if es != [] { FindMeans(es[1..]); }
  }

  /** No line hides a quote left open, and no position names this extension. */
  ghost predicate Untouched(lines: seq<string>) {
    AllBalanced(lines) && Deflates(Positions(lines)) == []
  }

  lemma UntouchedCons(lines: seq<string>)
    requires lines != []
    ensures Untouched(lines) <==>
      Balanced(lines[0]) && Deflates(Cut(lines[0], ',', Bare)) == [] && Untouched(lines[1..])
  {
    BalancedCons(lines);
    DeflatesConcat(Cut(lines[0], ',', Bare), Positions(lines[1..]));
  }

  /** By line `i`, with no quote left open so far, some position has named this extension. */
  ghost predicate TouchedBy(lines: seq<string>, i: nat) {
    i < |lines| && AllBalanced(lines[..i + 1]) && Deflates(Positions(lines[..i + 1])) != []
  }

  lemma TouchedCons(lines: seq<string>, i: nat)
    requires i < |lines|
    ensures TouchedBy(lines, i) <==>
      && Balanced(lines[0]) && AllBalanced(lines[1..][..i])
      && (Deflates(Cut(lines[0], ',', Bare)) != [] || (i > 0 && TouchedBy(lines[1..], i - 1)))
  {
    var upTo := lines[..i + 1];
    assert upTo[0] == lines[0] && upTo[1..] == lines[1..][..i];
    BalancedCons(upTo);
    DeflatesConcat(Cut(lines[0], ',', Bare), Positions(upTo[1..]));
  }

  /** The search over a whole field says no exactly when the field is untouched by this extension. */
  lemma {:induction false} ContainsMeans(lines: seq<string>)
    ensures ContainsDeflate(lines) == Ok(false) <==> Untouched(lines)
    ensures ContainsDeflate(lines).Err? ==> ContainsDeflate(lines).error == MalformedHeader
    decreases |lines|
  {
    if lines != [] {
      UntouchedCons(lines);
      ContainsMeans(lines[1..]);
      if Balanced(lines[0]) {
        PositionsAreNameable(lines[0]);
        FindMeans(Elements(lines[0]).value);
      }
    }
  }

  /** It says yes exactly when an element of this name stands before any quote is left open. */
  lemma {:induction false} CollisionMeans(lines: seq<string>)
    ensures ContainsDeflate(lines) == Ok(true) <==> exists i: nat :: TouchedBy(lines, i)
    decreases |lines|
  {
    if lines != [] && Balanced(lines[0]) {
      PositionsAreNameable(lines[0]);
      FindMeans(Elements(lines[0]).value);
      CollisionMeans(lines[1..]);
      if Deflates(Cut(lines[0], ',', Bare)) != [] {
        TouchedCons(lines, 0);
        assert TouchedBy(lines, 0);
      } else {
        forall i: nat | i < |lines| ensures TouchedBy(lines, i) <==> i > 0 && TouchedBy(lines[1..], i - 1) {
          TouchedCons(lines, i);
          if i > 0 && TouchedBy(lines[1..], i - 1) { assert lines[1..][..i - 1 + 1] == lines[1..][..i]; }
        }
        if i: nat :| TouchedBy(lines[1..], i) { assert TouchedBy(lines, i + 1); }
      }
    } else if i: nat :| TouchedBy(lines, i) {
      TouchedCons(lines, i);
    }
  }

  method Install(config: ClientConfig, headers: Headers) returns (r: Result<ClientOffer, NegotiationError>)
    modifies headers
    ensures r.Ok? <==> Untouched(old(headers.lines))
    ensures r.Ok? ==> r.value == ClientOffer(config, Render(Offered(config)))
    ensures headers.lines == old(headers.lines) + if r.Ok? then [Render(Offered(config))] else []
    ensures r.Err? ==> r.error in {MalformedHeader, OfferCollision}
    ensures r == Err(OfferCollision) <==> exists i: nat :: TouchedBy(old(headers.lines), i)
  {
    var present := ContainsDeflateIn(headers.lines);
    ContainsMeans(headers.lines);
    CollisionMeans(headers.lines);
    if present.Err? { return Err(present.error); }
    if present.value { return Err(OfferCollision); }
    var installed := RenderElement(Offered(config));
    headers.lines := headers.lines + [installed];
    r := Ok(ClientOffer(config, installed));
  }

  method SealWithoutOffer(lines: seq<string>) returns (r: Result<ClientHandshake, NegotiationError>)
    ensures r.Ok? <==> Untouched(lines)
    ensures r.Ok? ==> r.value == ClientHandshake(None)
    ensures r.Err? ==> r.error in {MalformedHeader, OfferCollision}
    ensures r == Err(OfferCollision) <==> exists i: nat :: TouchedBy(lines, i)
  {
    ContainsMeans(lines);
    CollisionMeans(lines);
    var present := ContainsDeflateIn(lines);
    if present.Err? { return Err(present.error); }
    if present.value { return Err(OfferCollision); }
    r := Ok(ClientHandshake(None));
  }

  // ---- Sealing.

  function SealLines(lines: seq<string>, installed: string, found: nat): Result<nat, NegotiationError>
    decreases |lines|
  {
    if lines == [] then Ok(found)
    else if Elements(lines[0]).Err? then Err(Elements(lines[0]).error)
    else
      var here := CountExact(Elements(lines[0]).value, installed, found, OfferAltered);
      if here.Err? then here else SealLines(lines[1..], installed, here.value)
  }

  /** The request about to leave carries the installed element once and no other of this name. */
  ghost predicate Carries(lines: seq<string>, installed: string) {
    && AllBalanced(lines)
    && |Deflates(Positions(lines))| == 1
    && Trim(Deflates(Positions(lines))[0]) == installed
  }

  /** Line `i` leaves a quote open, and none before it does or carries another element of this name. */
  ghost predicate BrokenAt(lines: seq<string>, installed: string, i: nat) {
    && i < |lines| && !Balanced(lines[i]) && AllBalanced(lines[..i])
    && AllTrimTo(Deflates(Positions(lines[..i])), installed)
  }

  lemma BrokenCons(lines: seq<string>, installed: string, i: nat)
    requires i < |lines|
    ensures BrokenAt(lines, installed, i) <==>
      if i == 0 then !Balanced(lines[0])
      else
        && Balanced(lines[0]) && AllTrimTo(Deflates(Cut(lines[0], ',', Bare)), installed)
        && BrokenAt(lines[1..], installed, i - 1)
  {
    if i > 0 {
      var upTo := lines[..i];
      assert upTo[0] == lines[0] && upTo[1..] == lines[1..][..i-1];
      BalancedCons(upTo);
      DeflatesConcat(Cut(lines[0], ',', Bare), Positions(upTo[1..]));
      AllTrimConcat(Deflates(Cut(lines[0], ',', Bare)), Deflates(Positions(upTo[1..])), installed);
    }
  }

  lemma {:induction false} SealBreaks(lines: seq<string>, installed: string, found: nat)
    ensures SealLines(lines, installed, found) == Err(MalformedHeader) <==>
      exists i: nat :: BrokenAt(lines, installed, i)
    decreases |lines|
  {
    if lines != [] {
      BrokenCons(lines, installed, 0);
      if Balanced(lines[0]) {
        PositionsAreNameable(lines[0]);
        CountExactMeans(Elements(lines[0]).value, installed, found, OfferAltered);
        var here := CountExact(Elements(lines[0]).value, installed, found, OfferAltered);
        if here.Ok? { SealBreaks(lines[1..], installed, here.value); }
        forall i: nat | 0 < i < |lines|
          ensures BrokenAt(lines, installed, i) <==> here.Ok? && BrokenAt(lines[1..], installed, i - 1)
        {
          BrokenCons(lines, installed, i);
        }
        if i: nat :| BrokenAt(lines[1..], installed, i) {
          assert here.Ok? ==> BrokenAt(lines, installed, i + 1);
        }
      } else {
        assert BrokenAt(lines, installed, 0);
      }
    }
  }

  method Seal(offer: ClientOffer, lines: seq<string>) returns (r: Result<ClientHandshake, NegotiationError>)
    ensures r.Ok? <==> Carries(lines, offer.installed)
    ensures r.Ok? ==> r.value == ClientHandshake(Some(SealedOffer(offer.config, offer.installed)))
    ensures r.Err? ==> r.error in {MalformedHeader, OfferAltered}
    ensures r == Err(MalformedHeader) <==> exists i: nat :: BrokenAt(lines, offer.installed, i)
  {
    var found := 0;
    SealLinesMeans(lines, offer.installed, 0);
    SealBreaks(lines, offer.installed, 0);
    for i := 0 to |lines|
      invariant SealLines(lines, offer.installed, 0) == SealLines(lines[i..], offer.installed, found)
    {
      assert lines[i..][1..] == lines[i+1..];
      var elements := SplitOn(lines[i], ',');
      if elements.Err? { return Err(elements.error); }
      var here := CountExactIn(elements.value, offer.installed, found, OfferAltered);
      if here.Err? { return Err(here.error); }
      found := here.value;
    }
    if found != 1 { return Err(OfferAltered); }
    r := Ok(ClientHandshake(Some(SealedOffer(offer.config, offer.installed))));
  }

  /** What one more line in front means for all of them. */
  lemma SealLineMeans(lines: seq<string>, installed: string, found: nat)
    requires lines != [] && Elements(lines[0]).Ok?
    ensures var here, rest := Elements(lines[0]).value, lines[1..];
      var counted := CountExact(here, installed, found, OfferAltered);
      && (AllBalanced(lines) <==> AllBalanced(rest))
      && |Deflates(Positions(lines))| == |Deflates(here)| + |Deflates(Positions(rest))|
      && (AllTrimTo(Deflates(Positions(lines)), installed) <==>
            counted.Ok? && AllTrimTo(Deflates(Positions(rest)), installed))
      && (counted.Ok? ==> counted.value == found + |Deflates(here)|)
      && (counted.Err? ==> counted.error == OfferAltered)
  {
    var here, later := Elements(lines[0]).value, Positions(lines[1..]);
    PositionsAreNameable(lines[0]);
    CountExactMeans(here, installed, found, OfferAltered);
    DeflatesConcat(here, later);
    assert Positions(lines) == here + later;
    AllTrimConcat(Deflates(here), Deflates(later), installed);
    BalancedCons(lines);
  }

  lemma {:induction false} SealLinesMeans(lines: seq<string>, installed: string, found: nat)
    ensures var r := SealLines(lines, installed, found);
      && (r.Ok? <==> AllBalanced(lines) && AllTrimTo(Deflates(Positions(lines)), installed))
      && (r.Ok? ==> r.value == found + |Deflates(Positions(lines))|)
      && (r.Err? ==> r.error in {MalformedHeader, OfferAltered})
    decreases |lines|
  {
    if lines != [] && Elements(lines[0]).Ok? {
      SealLineMeans(lines, installed, found);
      var counted := CountExact(Elements(lines[0]).value, installed, found, OfferAltered);
      if counted.Ok? { SealLinesMeans(lines[1..], installed, counted.value); }
    }
  }

  lemma BalancedCons(lines: seq<string>)
    requires lines != []
    ensures AllBalanced(lines) <==> Balanced(lines[0]) && AllBalanced(lines[1..])
  {
    assert forall i :: 1 <= i < |lines| ==> lines[i] == lines[1..][i-1];
  }

  // ---- Finishing.

  /** The one selection in a response: none yet, or its parameters. */
  function SoleFrom(es: seq<string>, selected: Option<Params>): Result<Option<Params>, NegotiationError>
    decreases |es|
  {
    if es == [] then Ok(selected)
    else if IsBlank(es[0]) || IsDeflate(es[0]) == Ok(false) then SoleFrom(es[1..], selected)
    else if IsDeflate(es[0]).Err? then Err(IsDeflate(es[0]).error)
    else if ParseParams(es[0]).Err? then Err(ParseParams(es[0]).error)
    else if selected.Some? then Err(DuplicateExtension)
    else SoleFrom(es[1..], Some(ParseParams(es[0]).value))
  }

  method SoleDeflateIn(elements: seq<string>, before: Option<Params>)
    returns (r: Result<Option<Params>, NegotiationError>)
    ensures r == SoleFrom(elements, before)
  {
    var selected := before;
    for j := 0 to |elements|
      invariant SoleFrom(elements, before) == SoleFrom(elements[j..], selected)
    {
      assert elements[j..][1..] == elements[j+1..];
      if IsBlank(elements[j]) { continue; }
      var named := NamesDeflateIn(elements[j]);
      if named.Err? { return Err(named.error); }
      if !named.value { continue; }
      var params := ParseParamsOf(elements[j]);
      if params.Err? { return Err(params.error); }
      if selected.Some? { return Err(DuplicateExtension); }
      selected := Some(params.value);
    }
    r := Ok(selected);
  }

  lemma {:induction false} SoleConcat(a: seq<string>, b: seq<string>, selected: Option<Params>)
    ensures var first := SoleFrom(a, selected);
      SoleFrom(a + b, selected) == if first.Err? then first else SoleFrom(b, first.value)
    decreases |a|
  {
    if a == [] {
      assert a + b == b;
    } else {
      assert (a + b)[0] == a[0] && (a + b)[1..] == a[1..] + b;
      SoleConcat(a[1..], b, selected);
      if ParseParams(a[0]).Ok? { SoleConcat(a[1..], b, Some(ParseParams(a[0]).value)); }
    }
  }

  /** All lines of a response whose quotes close, read as one list. */
  method SoleDeflate(lines: seq<string>) returns (r: Result<Option<Params>, NegotiationError>)
    requires ValidField(lines)
    ensures r == SoleFrom(Positions(lines), None)
  {
    var selected := None;
    for i := 0 to |lines|
      invariant SoleFrom(Positions(lines), None) == SoleFrom(Positions(lines[i..]), selected)
    {
      assert lines[i..][1..] == lines[i+1..];
      assert ValidLine(lines[i]);
      SoleConcat(Cut(lines[i], ',', Bare), Positions(lines[i+1..]), selected);
      var elements := SplitOn(lines[i], ',');
      var here := SoleDeflateIn(elements.value, selected);
      if here.Err? { return here; }
      selected := here.value;
    }
    r := Ok(selected);
  }

  /**
   * What a response settles (section 7.1 of RFC 7692). A reset it was asked for
   * must be confirmed and a bound answered no wider; a client window is taken
   * as answered but never past the client's own bound.
   */
  function Agree(config: ClientConfig, params: Params): Result<Negotiated, NegotiationError> {
    if config.serverNoContextTakeover && !params.serverNoContextTakeover then Err(ServerTakeoverNotHonoured) else
    var clientNoContextTakeover := config.clientNoContextTakeover || params.clientNoContextTakeover;
    var offeredServer := config.serverMaxWindowBits;
    if params.serverMaxWindowBits.Some? && params.serverMaxWindowBits.value > offeredServer
    then Err(ServerWindowTooLarge)
    else if params.serverMaxWindowBits.None? && offeredServer < MAX_WINDOW_BITS then Err(ServerWindowUnconfirmed) else
    var serverBits := if params.serverMaxWindowBits.Some? then params.serverMaxWindowBits.value else MAX_WINDOW_BITS;
    var offeredClient := config.clientMaxWindowBits;
    match params.clientMaxWindowBits
    case Valueless => Err(ClientWindowValueless)
    case Bits(bits) =>
      if bits < 9 then Err(ClientWindowTooNarrow)
      else Ok(Negotiated(Client, Settings(params.serverNoContextTakeover, clientNoContextTakeover,
                                          serverBits, Min(bits, offeredClient))))
    case Absent =>
      Ok(Negotiated(Client, Settings(params.serverNoContextTakeover, clientNoContextTakeover,
                                     serverBits, offeredClient)))
  }

  function Finish(h: ClientHandshake, lines: seq<string>, composition: PmdComposition)
    : Result<Option<Negotiated>, NegotiationError>
  {
    if !ValidField(lines) then Err(MalformedHeader) else
    var sole := SoleFrom(Positions(lines), None);
    if sole.Err? then Err(sole.error)
    else if sole.value.None? then Ok(None)
    else if h.offer.None? then Err(UnsolicitedExtension)
    else if composition == Conflict then Err(ExtensionConflict)
    else
      var agreed := Agree(h.offer.value.config, sole.value.value);
      if agreed.Err? then Err(agreed.error) else Ok(Some(agreed.value))
  }

  method FinishHandshake(h: ClientHandshake, lines: seq<string>, composition: PmdComposition)
    returns (r: Result<Option<Negotiated>, NegotiationError>)
    ensures r == Finish(h, lines, composition)
  {
    var valid := Validate(lines);
    if valid.Err? { return Err(valid.error); }
    var params := SoleDeflate(lines);
    if params.Err? { return Err(params.error); }
    if params.value.None? { return Ok(None); }
    if h.offer.None? { return Err(UnsolicitedExtension); }
    if composition == Conflict { return Err(ExtensionConflict); }
    var agreed := Agree(h.offer.value.config, params.value.value);
    if agreed.Err? { return Err(agreed.error); }
    r := Ok(Some(agreed.value));
  }

  /** What a second element of this name gets: its own fault first, if it has one. */
  function OneTooMany(e: string): NegotiationError {
    if ParseParams(e).Err? then ParseParams(e).error else DuplicateExtension
  }

  /** The fold over positions is decided by the elements of this name alone. */
  lemma {:induction false} SoleByDeflates(es: seq<string>)
    requires Nameable(es)
    ensures Deflates(es) == [] ==> SoleFrom(es, None) == Ok(None)
    ensures |Deflates(es)| == 1 ==>
      SoleFrom(es, None) == match ParseParams(Deflates(es)[0]) case Ok(p) => Ok(Some(p)) case Err(e) => Err(e)
    ensures |Deflates(es)| > 1 ==>
      SoleFrom(es, None) ==
        match ParseParams(Deflates(es)[0]) case Ok(_) => Err(OneTooMany(Deflates(es)[1])) case Err(e) => Err(e)
    decreases |es|
  {
    if es != [] {
      SoleByDeflates(es[1..]);
      if NamesDeflate(es[0]) {
        NamedIsNotBlank(es[0]);
        if ParseParams(es[0]).Ok? { SoleOnceFound(es[1..], ParseParams(es[0]).value); }
      }
    }
  }

  lemma {:induction false} SoleOnceFound(es: seq<string>, p: Params)
    requires Nameable(es)
    ensures SoleFrom(es, Some(p)) == if Deflates(es) == [] then Ok(Some(p)) else Err(OneTooMany(Deflates(es)[0]))
    decreases |es|
  {
    if es != [] {
      SoleOnceFound(es[1..], p);
      if NamesDeflate(es[0]) { NamedIsNotBlank(es[0]); }
    }
  }

  // ---- What finishing answers, for every response.

  /** Section 7.1 of RFC 7692, the client's side: a reset asked for is confirmed. */
  predicate Honours(config: ClientConfig, answer: Params) {
    config.serverNoContextTakeover ==> answer.serverNoContextTakeover
  }

  /** A bound asked for is answered, and no wider. */
  predicate Confirms(config: ClientConfig, answer: Params) {
    Bound(answer.serverMaxWindowBits) <= config.serverMaxWindowBits
  }

  /** And what is asked of this side is a window it can build. */
  predicate Agreeable(config: ClientConfig, answer: Params) {
    && Honours(config, answer) && Confirms(config, answer)
    && !answer.clientMaxWindowBits.Valueless? && ClientBound(answer.clientMaxWindowBits) >= 9
  }

  /** What such an answer settles. */
  function Settled(config: ClientConfig, answer: Params): Settings {
    Settings(answer.serverNoContextTakeover,
             config.clientNoContextTakeover || answer.clientNoContextTakeover,
             Bound(answer.serverMaxWindowBits),
             Min(config.clientMaxWindowBits, ClientBound(answer.clientMaxWindowBits)))
  }

  /** Why any other is refused. */
  function Refusal(config: ClientConfig, answer: Params): NegotiationError
    requires !Agreeable(config, answer)
  {
    if !Honours(config, answer) then ServerTakeoverNotHonoured
    else if !Confirms(config, answer) then
      if answer.serverMaxWindowBits.Some? then ServerWindowTooLarge else ServerWindowUnconfirmed
    else if answer.clientMaxWindowBits.Valueless? then ClientWindowValueless
    else ClientWindowTooNarrow
  }

  lemma AgreeExact(config: ClientConfig, answer: Params)
    ensures Agree(config, answer) ==
      if Agreeable(config, answer) then Ok(Negotiated(Client, Settled(config, answer)))
      else Err(Refusal(config, answer))
  {
  }

  lemma OursNeverMalformed(lines: seq<string>)
    requires ValidField(lines)
    ensures forall i :: 0 <= i < |Deflates(Positions(lines))| ==>
      ParseParams(Deflates(Positions(lines))[i]) != Err(MalformedHeader)
  {
    DeflatesAreValid(lines);
    var ours := Deflates(Positions(lines));
    forall i | 0 <= i < |ours| ensures ParseParams(ours[i]) != Err(MalformedHeader) { ValidIsNeverMalformed(ours[i]); }
  }

  /**
   * Every response, whatever this side offered: what `finish` answers, read off the
   * field's validity, its elements of this name and what they decode to.
   */
  lemma FinishExact(h: ClientHandshake, lines: seq<string>, composition: PmdComposition)
    ensures Finish(h, lines, composition) == Err(MalformedHeader) <==> !ValidField(lines)
    ensures ValidField(lines) ==>
      var ours := Deflates(Positions(lines));
      Finish(h, lines, composition) ==
        if ours == [] then Ok(None)
        else if ParseParams(ours[0]).Err? then Err(ParseParams(ours[0]).error)
        else if |ours| > 1 then Err(OneTooMany(ours[1]))
        else if h.offer.None? then Err(UnsolicitedExtension)
        else if composition == Conflict then Err(ExtensionConflict)
        else
          var config, answer := h.offer.value.config, ParseParams(ours[0]).value;
          if Agreeable(config, answer) then Ok(Some(Negotiated(Client, Settled(config, answer))))
          else Err(Refusal(config, answer))
  {
    if ValidField(lines) {
      var ours := Deflates(Positions(lines));
      ValidLinesBalanced(lines);
      AllPositionsNameable(lines);
      SoleByDeflates(Positions(lines));
      OursNeverMalformed(lines);
      if |ours| == 1 && ParseParams(ours[0]).Ok? && h.offer.Some? {
        AgreeExact(h.offer.value.config, ParseParams(ours[0]).value);
      }
    }
  }
}
