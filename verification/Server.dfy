/** The server half of the handshake: accept an alternative, then commit it. */
module ServerSide {
  import opened Wrappers
  import opened Errors
  import opened Sizes
  import opened Quoting
  import opened Grammar
  import opened Layout
  import opened Parameters
  import opened Rendering
  import opened Negotiation

  /** A selection made but not yet on the wire: the response element, and what it would settle. */
  datatype ServerHandshake = ServerHandshake(proposed: string, agreement: Negotiated)

  /**
   * What an alternative would settle (section 7.1 of RFC 7692): the union of both
   * sides' resets and the smaller of their bounds. `None` where there is a bound
   * the server cannot build, or one the client did not say it could be told.
   */
  function Select(config: ServerConfig, offer: Params): Option<ServerHandshake> {
    var serverNoContextTakeover := config.serverNoContextTakeover || offer.serverNoContextTakeover;
    var clientNoContextTakeover := config.clientNoContextTakeover || offer.clientNoContextTakeover;
    if offer.serverMaxWindowBits == Some(8) then None else
    var serverWindow :=
      if offer.serverMaxWindowBits.Some? then Some(Min(offer.serverMaxWindowBits.value, config.serverMaxWindowBits))
      else if config.serverMaxWindowBits < MAX_WINDOW_BITS then Some(config.serverMaxWindowBits)
      else None;
    if offer.clientMaxWindowBits.Absent? && config.clientMaxWindowBits < MAX_WINDOW_BITS then None else
    var clientWindow :=
      match offer.clientMaxWindowBits
      case Absent => None
      case Valueless => Some(config.clientMaxWindowBits)
      case Bits(bits) => Some(Min(bits, config.clientMaxWindowBits));
    Some(ServerHandshake(
      Render(Params(serverNoContextTakeover, clientNoContextTakeover, serverWindow,
                    if clientWindow.Some? && clientWindow.value < MAX_WINDOW_BITS
                    then Bits(clientWindow.value) else Absent)),
      Negotiated(Server, Settings(serverNoContextTakeover, clientNoContextTakeover,
                                  if serverWindow.Some? then serverWindow.value else MAX_WINDOW_BITS,
                                  if clientWindow.Some? then clientWindow.value else MAX_WINDOW_BITS))))
  }

  // ---- Accepting.

  function FirstSupportable(config: ServerConfig, es: seq<string>): Result<Option<ServerHandshake>, NegotiationError>
    decreases |es|
  {
    if es == [] then Ok(None)
    else if IsBlank(es[0]) || IsDeflate(es[0]) == Ok(false) then FirstSupportable(config, es[1..])
    else if IsDeflate(es[0]).Err? then Err(IsDeflate(es[0]).error)
    else if ParseParams(es[0]).Err? then FirstSupportable(config, es[1..])
    else
      var accepted := Select(config, ParseParams(es[0]).value);
      if accepted.Some? then Ok(accepted) else FirstSupportable(config, es[1..])
  }

  method FirstSupportableIn(config: ServerConfig, elements: seq<string>)
    returns (r: Result<Option<ServerHandshake>, NegotiationError>)
    ensures r == FirstSupportable(config, elements)
  {
    for j := 0 to |elements|
      invariant FirstSupportable(config, elements) == FirstSupportable(config, elements[j..])
    {
      assert elements[j..][1..] == elements[j+1..];
      if IsBlank(elements[j]) { continue; }
      var named := NamesDeflateIn(elements[j]);
      if named.Err? { return Err(named.error); }
      if !named.value { continue; }
      // An alternative that does not decode declines itself; a later one may do.
      var offer := ParseParamsOf(elements[j]);
      if offer.Err? { continue; }
      var accepted := Select(config, offer.value);
      if accepted.Some? { return Ok(accepted); }
    }
    r := Ok(None);
  }

  lemma {:induction false} FirstConcat(config: ServerConfig, a: seq<string>, b: seq<string>)
    ensures var first := FirstSupportable(config, a);
      FirstSupportable(config, a + b) == if first == Ok(None) then FirstSupportable(config, b) else first
    decreases |a|
  {
    if a == [] {
      assert a + b == b;
    } else {
      assert (a + b)[0] == a[0] && (a + b)[1..] == a[1..] + b;
      FirstConcat(config, a[1..], b);
    }
  }

  function Accept(config: ServerConfig, lines: seq<string>): Result<Option<ServerHandshake>, NegotiationError> {
    if !ValidField(lines) then Err(MalformedHeader) else FirstSupportable(config, Positions(lines))
  }

  method AcceptRequest(config: ServerConfig, lines: seq<string>)
    returns (r: Result<Option<ServerHandshake>, NegotiationError>)
    ensures r == Accept(config, lines)
  {
    var valid := Validate(lines);
    if valid.Err? { return Err(valid.error); }
    for i := 0 to |lines|
      invariant FirstSupportable(config, Positions(lines)) == FirstSupportable(config, Positions(lines[i..]))
    {
      assert lines[i..][1..] == lines[i+1..];
      assert ValidLine(lines[i]);
      FirstConcat(config, Cut(lines[i], ',', Bare), Positions(lines[i+1..]));
      var elements := SplitOn(lines[i], ',');
      var here := FirstSupportableIn(config, elements.value);
      if here.Err? || here.value.Some? { return here; }
    }
    r := Ok(None);
  }

  /** What one position offers this configuration. */
  function Supported(config: ServerConfig, e: string): Option<ServerHandshake> {
    if NamesDeflate(e) && ParseParams(e).Ok? then Select(config, ParseParams(e).value) else None
  }

  lemma FirstStep(config: ServerConfig, es: seq<string>)
    requires es != [] && IsDeflate(es[0]).Ok?
    ensures FirstSupportable(config, es) ==
      if Supported(config, es[0]).Some? then Ok(Supported(config, es[0])) else FirstSupportable(config, es[1..])
  {
    if NamesDeflate(es[0]) { NamedIsNotBlank(es[0]); }
  }

  /** Nothing before `i` is supportable, and position `i`, if there is one, is. */
  predicate FirstAt(config: ServerConfig, es: seq<string>, i: nat) {
    && i <= |es| && (forall j :: 0 <= j < i ==> Supported(config, es[j]).None?)
    && (i < |es| ==> Supported(config, es[i]).Some?)
  }

  lemma FirstFurther(config: ServerConfig, es: seq<string>, i: nat)
    requires es != [] && Supported(config, es[0]).None? && FirstAt(config, es[1..], i)
    ensures FirstAt(config, es, i + 1)
  {
    assert forall j :: 1 <= j < |es| ==> es[j] == es[1..][j-1];
  }

  /** The accepted alternative is the first supportable one in the client's order. */
  lemma {:induction false} AcceptsTheFirst(config: ServerConfig, es: seq<string>) returns (i: nat)
    requires Nameable(es)
    ensures FirstAt(config, es, i)
    ensures FirstSupportable(config, es) == Ok(if i < |es| then Supported(config, es[i]) else None)
    decreases |es|
  {
    if es == [] {
      i := 0;
    } else {
      FirstStep(config, es);
      if Supported(config, es[0]).Some? {
        i := 0;
      } else {
        var k := AcceptsTheFirst(config, es[1..]);
        FirstFurther(config, es, k);
        i := k + 1;
      }
    }
  }

  // ---- Committing.

  function Finish(h: ServerHandshake, lines: seq<string>, composition: PmdComposition)
    : Result<Option<Negotiated>, NegotiationError>
  {
    if !ValidField(lines) then Err(MalformedHeader)
    else Conclude(h, CountExact(Positions(lines), h.proposed, 0, ResponseAltered), composition)
  }

  /** What the number of selections found in the response comes to. */
  function Conclude(h: ServerHandshake, found: Result<nat, NegotiationError>, composition: PmdComposition)
    : Result<Option<Negotiated>, NegotiationError>
  {
    if found.Err? then Err(found.error)
    else if found.value == 0 then Ok(None)
    else if found.value > 1 then Err(ResponseAltered)
    else if composition == Conflict then Err(ExtensionConflict)
    else Ok(Some(h.agreement))
  }

  lemma {:induction false} CountConcat(a: seq<string>, b: seq<string>, expected: string, found: nat,
                                       otherwise: NegotiationError)
    ensures var first := CountExact(a, expected, found, otherwise);
      CountExact(a + b, expected, found, otherwise) ==
        if first.Err? then first else CountExact(b, expected, first.value, otherwise)
    decreases |a|
  {
    if a == [] {
      assert a + b == b;
    } else {
      assert (a + b)[0] == a[0] && (a + b)[1..] == a[1..] + b;
      CountConcat(a[1..], b, expected, found, otherwise);
      CountConcat(a[1..], b, expected, found + 1, otherwise);
    }
  }

  method FinishHandshake(h: ServerHandshake, lines: seq<string>, composition: PmdComposition)
    returns (r: Result<Option<Negotiated>, NegotiationError>)
    ensures r == Finish(h, lines, composition)
  {
    var valid := Validate(lines);
    if valid.Err? { return Err(valid.error); }
    var found := 0;
    for i := 0 to |lines|
      invariant CountExact(Positions(lines), h.proposed, 0, ResponseAltered)
        == CountExact(Positions(lines[i..]), h.proposed, found, ResponseAltered)
    {
      assert lines[i..][1..] == lines[i+1..];
      assert ValidLine(lines[i]);
      CountConcat(Cut(lines[i], ',', Bare), Positions(lines[i+1..]), h.proposed, found, ResponseAltered);
      var elements := SplitOn(lines[i], ',');
      var here := CountExactIn(elements.value, h.proposed, found, ResponseAltered);
      if here.Err? { return Err(here.error); }
      found := here.value;
    }
    if found == 0 { return Ok(None); }
    if found > 1 { return Err(ResponseAltered); }
    if composition == Conflict { return Err(ExtensionConflict); }
    r := Ok(Some(h.agreement));
  }

  /**
   * A selection answers what was asked: a requested reset is confirmed, a bound on
   * the server's window is confirmed at most as wide, and the client's window is
   * bounded only for a client that said it understands the parameter.
   */
  lemma SelectionConforms(config: ServerConfig, offer: Params)
    requires Printable(offer)
    ensures Select(config, offer).None? <==>
      || offer.serverMaxWindowBits == Some(8)
      || (offer.clientMaxWindowBits.Absent? && config.clientMaxWindowBits < MAX_WINDOW_BITS)
    ensures Select(config, offer).Some? ==>
      var answer := ParseParams(Select(config, offer).value.proposed);
      && answer.Ok?
      && (offer.serverNoContextTakeover ==> answer.value.serverNoContextTakeover)
      && (offer.serverMaxWindowBits.Some? ==>
            answer.value.serverMaxWindowBits.Some?
            && answer.value.serverMaxWindowBits.value <= offer.serverMaxWindowBits.value)
      && (offer.clientMaxWindowBits.Absent? ==> answer.value.clientMaxWindowBits.Absent?)
      && !answer.value.clientMaxWindowBits.Valueless?
  {
    if Select(config, offer).Some? {
      ParseInvertsRender(Answer(config, offer));
    }
  }

  /** A selection stays inside what the server supports, and its own window is one it can build. */
  lemma SelectionWidths(config: ServerConfig, offer: Params)
    requires Printable(offer) && Select(config, offer).Some?
    ensures var n := Select(config, offer).value.agreement;
      && n.role == Server
      && 9 <= n.LocalMaxWindowBits() <= config.serverMaxWindowBits
      && 8 <= n.PeerMaxWindowBits() <= config.clientMaxWindowBits
      && (config.serverNoContextTakeover ==> n.LocalNoContextTakeover())
      && (config.clientNoContextTakeover ==> n.PeerNoContextTakeover())
  {
  }

  /** The parameters a selection puts on the wire: full width is left unsaid unless a bound was asked for. */
  function Answer(config: ServerConfig, offer: Params): Params {
    var granted := Granted(config, offer);
    Params(granted.serverNoContextTakeover, granted.clientNoContextTakeover,
           if offer.serverMaxWindowBits.None? && granted.serverMaxWindowBits == 15 then None
           else Some(granted.serverMaxWindowBits),
           if granted.clientMaxWindowBits == 15 then Absent else Bits(granted.clientMaxWindowBits))
  }

  /** What an alternative is granted: every reset either side asks for, and the narrower bound on each window. */
  function Granted(config: ServerConfig, offer: Params): Settings {
    Settings(config.serverNoContextTakeover || offer.serverNoContextTakeover,
             config.clientNoContextTakeover || offer.clientNoContextTakeover,
             Min(config.serverMaxWindowBits, Bound(offer.serverMaxWindowBits)),
             Min(config.clientMaxWindowBits, ClientBound(offer.clientMaxWindowBits)))
  }

  /** Whether it can be: no window of 8 to build, and no bound for a client that did not say it can be told. */
  predicate Supports(config: ServerConfig, offer: Params) {
    && offer.serverMaxWindowBits != Some(8)
    && (offer.clientMaxWindowBits.Absent? ==> config.clientMaxWindowBits == 15)
  }

  lemma SelectExact(config: ServerConfig, offer: Params)
    ensures Select(config, offer) ==
      if Supports(config, offer)
      then Some(ServerHandshake(Render(Answer(config, offer)), Negotiated(Server, Granted(config, offer))))
      else None
  {
  }

  lemma SelectionRenders(config: ServerConfig, offer: Params)
    requires Printable(offer) && Select(config, offer).Some?
    ensures Printable(Answer(config, offer)) && Select(config, offer).value.proposed == Render(Answer(config, offer))
  {
  }

  // ---- What both halves answer, for every field.

  /** A position this server can serve. */
  predicate Serves(config: ServerConfig, e: string) {
    NamesDeflate(e) && ParseParams(e).Ok? && Supports(config, ParseParams(e).value)
  }

  /**
   * Every request: malformed and declined are different answers, and what is
   * accepted is the first position that can be served, as `Granted` has it.
   */
  lemma AcceptExact(config: ServerConfig, lines: seq<string>) returns (i: nat)
    ensures Accept(config, lines) == Err(MalformedHeader) <==> !ValidField(lines)
    ensures ValidField(lines) ==>
      var es := Positions(lines);
      && i <= |es| && (forall j :: 0 <= j < i ==> !Serves(config, es[j]))
      && (i == |es| ==> Accept(config, lines) == Ok(None))
      && (i < |es| ==>
            && Serves(config, es[i])
            && var offer := ParseParams(es[i]).value;
            Accept(config, lines) ==
              Ok(Some(ServerHandshake(Render(Answer(config, offer)), Negotiated(Server, Granted(config, offer))))))
  {
    i := 0;
    if ValidField(lines) {
      var es := Positions(lines);
      ValidLinesBalanced(lines);
      AllPositionsNameable(lines);
      i := AcceptsTheFirst(config, es);
      forall j | 0 <= j < |es| ensures Serves(config, es[j]) <==> Supported(config, es[j]).Some? {
        if ParseParams(es[j]).Ok? { SelectExact(config, ParseParams(es[j]).value); }
      }
      if i < |es| { SelectExact(config, ParseParams(es[i]).value); }
    }
  }

  /** The count tells no element, exactly the proposed one, and any other response apart. */
  predicate Distinguishes(ours: seq<string>, proposed: string, r: Result<nat, NegotiationError>) {
    && (r == Ok(0) <==> ours == [])
    && (r == Ok(1) <==> |ours| == 1 && Trim(ours[0]) == proposed)
    && (r.Err? ==> r.error == ResponseAltered)
  }

  lemma CountTells(ours: seq<string>, proposed: string, r: Result<nat, NegotiationError>)
    requires r.Ok? <==> AllTrimTo(ours, proposed)
    requires r.Ok? ==> r.value == |ours|
    requires r.Err? ==> r.error == ResponseAltered
    ensures Distinguishes(ours, proposed, r)
  {
    if |ours| == 1 { assert ours[0] in ours; }
  }

  lemma CountDecides(es: seq<string>, proposed: string)
    requires Nameable(es)
    ensures Distinguishes(Deflates(es), proposed, CountExact(es, proposed, 0, ResponseAltered))
  {
    CountExactMeans(es, proposed, 0, ResponseAltered);
    CountTells(Deflates(es), proposed, CountExact(es, proposed, 0, ResponseAltered));
  }

  /** What a response with these elements of this name is answered with. */
  ghost predicate Concludes(h: ServerHandshake, ours: seq<string>, composition: PmdComposition,
                            r: Result<Option<Negotiated>, NegotiationError>)
  {
    r == if ours == [] then Ok(None)
         else if |ours| > 1 || Trim(ours[0]) != h.proposed then Err(ResponseAltered)
         else if composition == Conflict then Err(ExtensionConflict)
         else Ok(Some(h.agreement))
  }

  lemma ConcludeExact(h: ServerHandshake, ours: seq<string>, found: Result<nat, NegotiationError>,
                      composition: PmdComposition)
    requires Distinguishes(ours, h.proposed, found)
    ensures Concludes(h, ours, composition, Conclude(h, found, composition))
  {
  }

  /** Every response: what the host did to it, read off its elements of this name. */
  lemma FinishExact(h: ServerHandshake, lines: seq<string>, composition: PmdComposition)
    ensures Finish(h, lines, composition) == Err(MalformedHeader) <==> !ValidField(lines)
    ensures ValidField(lines) ==>
      Concludes(h, Deflates(Positions(lines)), composition, Finish(h, lines, composition))
  {
    if ValidField(lines) {
      ValidLinesBalanced(lines);
      AllPositionsNameable(lines);
      CountDecides(Positions(lines), h.proposed);
      ConcludeExact(h, Deflates(Positions(lines)), CountExact(Positions(lines), h.proposed, 0, ResponseAltered),
                    composition);
    }
  }
}
