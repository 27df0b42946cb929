/** The two halves of the handshake against each other, and what any agreement guarantees. */
module Handshakes {
  import opened Wrappers
  import opened Errors
  import opened Sizes
  import opened Quoting
  import opened Grammar
  import opened Syntax
  import opened Layout
  import opened Parameters
  import opened Rendering
  import opened Negotiation
  import opened ClientSide
  import ServerSide

  // ---- The layout of a field never matters to either half.

  /** Both ends answer a field cut into lines as they answer it joined into one. */
  lemma LayoutNeverMatters(lines: seq<string>, config: ServerConfig, hs: ServerSide.ServerHandshake,
                           hc: ClientHandshake, composition: PmdComposition)
    requires lines != []
    ensures ServerSide.Accept(config, lines) == ServerSide.Accept(config, [OneField(lines)])
    ensures ServerSide.Finish(hs, lines, composition) == ServerSide.Finish(hs, [OneField(lines)], composition)
    ensures Finish(hc, lines, composition) == Finish(hc, [OneField(lines)], composition)
  {
    FieldLayout(lines);
    ServerFinishLayout(lines, hs, composition);
    ClientFinishLayout(lines, hc, composition);
  }

  lemma ServerFinishLayout(lines: seq<string>, h: ServerSide.ServerHandshake, composition: PmdComposition)
    requires lines != []
    ensures ServerSide.Finish(h, lines, composition) == ServerSide.Finish(h, [OneField(lines)], composition)
  {
    FieldLayout(lines);
  }

  lemma ClientFinishLayout(lines: seq<string>, h: ClientHandshake, composition: PmdComposition)
    requires lines != []
    ensures Finish(h, lines, composition) == Finish(h, [OneField(lines)], composition)
  {
    FieldLayout(lines);
  }

  // ---- Widths, for arbitrary header octets.

  /**
   * A client that agreed to `answer` inflates at the width answered for the server and
   * expects the resets answered for it, and in what it sends keeps to what was answered
   * for the client.
   */
  predicate Obeys(n: Negotiated, answer: Params) {
    && n.PeerMaxWindowBits() == Bound(answer.serverMaxWindowBits)
    && n.PeerNoContextTakeover() == answer.serverNoContextTakeover
    && (answer.clientMaxWindowBits.Bits? ==> n.LocalMaxWindowBits() <= answer.clientMaxWindowBits.bits)
    && (answer.clientNoContextTakeover ==> n.LocalNoContextTakeover())
  }

  lemma AgreedWidths(config: ClientConfig, p: Params)
    requires Printable(p) && Agree(config, p).Ok?
    ensures var n := Agree(config, p).value;
      && n.role == Client && Obeys(n, p)
      && 9 <= n.LocalMaxWindowBits() <= config.clientMaxWindowBits
      && 8 <= n.PeerMaxWindowBits() <= config.serverMaxWindowBits
      && (config.serverNoContextTakeover ==> n.PeerNoContextTakeover())
      && (config.clientNoContextTakeover ==> n.LocalNoContextTakeover())
  {
  }

  /** The answer is the one element of this name, decoded. */
  ghost predicate Chosen(lines: seq<string>, answer: Params) {
    |Deflates(Positions(lines))| == 1 && ParseParams(Deflates(Positions(lines))[0]) == Ok(answer)
  }

  /** An agreement comes of one answer to one offer. */
  lemma AgreedOn(h: ClientHandshake, lines: seq<string>, composition: PmdComposition) returns (answer: Params)
    requires Finish(h, lines, composition).Ok? && Finish(h, lines, composition).value.Some?
    ensures h.offer.Some? && Printable(answer) && Chosen(lines, answer)
    ensures Agree(h.offer.value.config, answer) == Ok(Finish(h, lines, composition).value.value)
  {
    ValidLinesBalanced(lines);
    AllPositionsNameable(lines);
    SoleByDeflates(Positions(lines));
    ParsedIsPrintable(Deflates(Positions(lines))[0]);
    answer := ParseParams(Deflates(Positions(lines))[0]).value;
  }

  /**
   * Whatever a server answers, a client's agreement keeps to that answer and stays
   * inside what this client asked for and can build.
   */
  lemma ClientWidths(h: ClientHandshake, lines: seq<string>, composition: PmdComposition) returns (answer: Params)
    requires Finish(h, lines, composition).Ok? && Finish(h, lines, composition).value.Some?
    ensures h.offer.Some? && Chosen(lines, answer)
    ensures var n := Finish(h, lines, composition).value.value;
      && n.role == Client && Obeys(n, answer)
      && 9 <= n.LocalMaxWindowBits() <= h.offer.value.config.clientMaxWindowBits
      && 8 <= n.PeerMaxWindowBits() <= h.offer.value.config.serverMaxWindowBits
      && (h.offer.value.config.serverNoContextTakeover ==> n.PeerNoContextTakeover())
      && (h.offer.value.config.clientNoContextTakeover ==> n.LocalNoContextTakeover())
  {
    answer := AgreedOn(h, lines, composition);
    AgreedWidths(h.offer.value.config, answer);
  }

  /**
   * A server that accepted `offer` keeps to what was asked of it, and bounds no client that did not
   * say it can be bounded.
   */
  predicate Grants(n: Negotiated, offer: Params) {
    && (offer.serverMaxWindowBits.Some? ==> n.LocalMaxWindowBits() <= offer.serverMaxWindowBits.value)
    && (offer.serverNoContextTakeover ==> n.LocalNoContextTakeover())
    && (offer.clientMaxWindowBits.Absent? ==> n.PeerMaxWindowBits() == MAX_WINDOW_BITS)
    && (offer.clientMaxWindowBits.Bits? ==> n.PeerMaxWindowBits() <= offer.clientMaxWindowBits.bits)
    && (offer.clientNoContextTakeover ==> n.PeerNoContextTakeover())
  }

  /** And `answer` tells the client exactly what this server will do and expects. */
  predicate Tells(n: Negotiated, answer: Params) {
    && n.LocalMaxWindowBits() == Bound(answer.serverMaxWindowBits)
    && n.LocalNoContextTakeover() == answer.serverNoContextTakeover
    && !answer.clientMaxWindowBits.Valueless?
    && n.PeerMaxWindowBits() == ClientBound(answer.clientMaxWindowBits)
    && n.PeerNoContextTakeover() == answer.clientNoContextTakeover
  }

  lemma SelectionGrants(config: ServerConfig, offer: Params)
    requires ServerSide.Select(config, offer).Some?
    ensures Grants(ServerSide.Select(config, offer).value.agreement, offer)
    ensures Tells(ServerSide.Select(config, offer).value.agreement, ServerSide.Answer(config, offer))
  {
  }

  lemma SelectionTells(config: ServerConfig, offer: Params) returns (answer: Params)
    requires Printable(offer) && ServerSide.Select(config, offer).Some?
    ensures var hs := ServerSide.Select(config, offer).value;
      Grants(hs.agreement, offer) && ParseParams(hs.proposed) == Ok(answer) && Tells(hs.agreement, answer)
  {
    answer := ServerSide.Answer(config, offer);
    SelectionGrants(config, offer);
    ServerSide.SelectionRenders(config, offer);
    ParseInvertsRender(answer);
  }

  /**
   * Whatever a client offers, a server's agreement keeps to the alternative it took,
   * says so in its answer, and stays inside what this server supports and can build.
   */
  lemma ServerWidths(config: ServerConfig, lines: seq<string>) returns (i: nat, answer: Params)
    requires ServerSide.Accept(config, lines).Ok? && ServerSide.Accept(config, lines).value.Some?
    ensures i < |Positions(lines)| && NamesDeflate(Positions(lines)[i]) && ParseParams(Positions(lines)[i]).Ok?
    ensures var hs := ServerSide.Accept(config, lines).value.value;
      var n := hs.agreement;
      && n.role == Server && Grants(n, ParseParams(Positions(lines)[i]).value)
      && ParseParams(hs.proposed) == Ok(answer) && Tells(n, answer)
      && 9 <= n.LocalMaxWindowBits() <= config.serverMaxWindowBits
      && 8 <= n.PeerMaxWindowBits() <= config.clientMaxWindowBits
      && (config.serverNoContextTakeover ==> n.LocalNoContextTakeover())
      && (config.clientNoContextTakeover ==> n.PeerNoContextTakeover())
  {
    ValidLinesBalanced(lines);
    AllPositionsNameable(lines);
    i := ServerSide.AcceptsTheFirst(config, Positions(lines));
    ParsedIsPrintable(Positions(lines)[i]);
    var offer := ParseParams(Positions(lines)[i]).value;
    ServerSide.SelectionWidths(config, offer);
    answer := SelectionTells(config, offer);
  }

  // ---- Both ends of one connection.

  /** A field in which this extension appears once, spelled exactly `element`, among any others. */
  ghost predicate Names(lines: seq<string>, element: string) {
    && ValidField(lines)
    && |Deflates(Positions(lines))| == 1
    && Trim(Deflates(Positions(lines))[0]) == element
  }

  /** The one element, decoded, says what was rendered, however it was padded. */
  lemma NamedDecodes(lines: seq<string>, p: Params)
    requires Printable(p) && Names(lines, Render(p))
    ensures ParseParams(Deflates(Positions(lines))[0]) == Ok(p)
    ensures Nameable(Positions(lines))
  {
    ValidLinesBalanced(lines);
    AllPositionsNameable(lines);
    ParseInvertsRender(p);
    PaddingIsIrrelevant(Deflates(Positions(lines))[0]);
  }

  /** With one element of this name, the server decides on it alone. */
  lemma {:induction false} FirstByDeflates(config: ServerConfig, es: seq<string>)
    requires Nameable(es) && |Deflates(es)| <= 1
    ensures FirstByDeflatesPost(config, es)
    decreases |es|
  {
    if es != [] {
      if NamesDeflate(es[0]) {
        NamedIsNotBlank(es[0]);
        assert Deflates(es) == [es[0]] + Deflates(es[1..]);
      } else {
        assert Deflates(es) == Deflates(es[1..]);
      }
      FirstByDeflates(config, es[1..]);
    }
  }

  ghost predicate FirstByDeflatesPost(config: ServerConfig, es: seq<string>) {
    ServerSide.FirstSupportable(config, es) ==
      if Deflates(es) == [] || ParseParams(Deflates(es)[0]).Err? then Ok(None)
      else Ok(ServerSide.Select(config, ParseParams(Deflates(es)[0]).value))
  }

  /**
   * What two configurations come to: every reset either side asks for, and every window as narrow
   * as the narrower bound.
   */
  function Terms(cc: ClientConfig, sc: ServerConfig): Settings {
    Settings(cc.serverNoContextTakeover || sc.serverNoContextTakeover,
             cc.clientNoContextTakeover || sc.clientNoContextTakeover,
             Min(cc.serverMaxWindowBits, sc.serverMaxWindowBits),
             Min(cc.clientMaxWindowBits, sc.clientMaxWindowBits))
  }

  /** What the server makes of this crate's own offer. */
  lemma ServerAccepts(cc: ClientConfig, sc: ServerConfig, request: seq<string>)
    requires Names(request, Render(Offered(cc)))
    ensures ServerSide.Accept(sc, request) == Ok(ServerSide.Select(sc, Offered(cc)))
    ensures ServerSide.Select(sc, Offered(cc)).None? <==> cc.serverMaxWindowBits == 8
    ensures cc.serverMaxWindowBits != 8 ==>
      ServerSide.Select(sc, Offered(cc)).value.agreement == Negotiated(Server, Terms(cc, sc))
  {
    NamedDecodes(request, Offered(cc));
    FirstByDeflates(sc, Positions(request));
  }

  /** The server commits exactly the selection it proposed. */
  lemma ServerCommits(h: ServerSide.ServerHandshake, response: seq<string>)
    requires Names(response, h.proposed)
    ensures ServerSide.Finish(h, response, Compatible) == Ok(Some(h.agreement))
  {
    ValidLinesBalanced(response);
    AllPositionsNameable(response);
    CountExactMeans(Positions(response), h.proposed, 0, ResponseAltered);
    assert Deflates(Positions(response)) == [Deflates(Positions(response))[0]];
  }

  /** Section 7.1 of RFC 7692, both sides of it: the server's answer against the client's offer. */
  lemma AnswerIsAgreed(cc: ClientConfig, sc: ServerConfig)
    requires ServerSide.Select(sc, Offered(cc)).Some?
    ensures Agree(cc, ServerSide.Answer(sc, Offered(cc))) ==
      if sc.clientMaxWindowBits == 8 then Err(ClientWindowTooNarrow)
      else Ok(Negotiated(Client, ServerSide.Select(sc, Offered(cc)).value.agreement.settings))
  {
  }

  /** What the client makes of this crate's own answer. */
  lemma ClientAgrees(cc: ClientConfig, sc: ServerConfig, response: seq<string>, h: ClientHandshake)
    requires h.offer == Some(SealedOffer(cc, Render(Offered(cc))))
    requires ServerSide.Select(sc, Offered(cc)).Some?
    requires Names(response, ServerSide.Select(sc, Offered(cc)).value.proposed)
    ensures Finish(h, response, Compatible) ==
      if sc.clientMaxWindowBits == 8 then Err(ClientWindowTooNarrow)
      else Ok(Some(Negotiated(Client, ServerSide.Select(sc, Offered(cc)).value.agreement.settings)))
  {
    var answer := ServerSide.Answer(sc, Offered(cc));
    ServerSide.SelectionRenders(sc, Offered(cc));
    NamedDecodes(response, answer);
    SoleByDeflates(Positions(response));
    AnswerIsAgreed(cc, sc);
  }

  /**
   * The joint handshake, for every pair of configurations and any well-formed
   * other extensions around the offer and the answer: the server declines exactly
   * when its own window was bounded to 8; otherwise the client refuses exactly when
   * its own window was bounded to 8; otherwise both hold the four settings the
   * configurations come to, so that each side's local settings are the other's peer
   * settings.
   */
  lemma JointHandshake(cc: ClientConfig, sc: ServerConfig, request: seq<string>, response: seq<string>,
                       h: ClientHandshake)
    requires h.offer == Some(SealedOffer(cc, Render(Offered(cc))))
    requires Names(request, Render(Offered(cc)))
    ensures ServerSide.Accept(sc, request) == Ok(None) <==> cc.serverMaxWindowBits == 8
    ensures cc.serverMaxWindowBits != 8 ==>
      && ServerSide.Accept(sc, request).Ok? && ServerSide.Accept(sc, request).value.Some?
      && var hs := ServerSide.Accept(sc, request).value.value;
      && (Names(response, hs.proposed) ==>
            var server, client := ServerSide.Finish(hs, response, Compatible), Finish(h, response, Compatible);
            && server == Ok(Some(hs.agreement))
            && (if sc.clientMaxWindowBits == 8 then client == Err(ClientWindowTooNarrow)
                else client == Ok(Some(Negotiated(Client, Terms(cc, sc)))))
            && hs.agreement == Negotiated(Server, Terms(cc, sc)))
  {
    ServerAccepts(cc, sc, request);
    if cc.serverMaxWindowBits != 8 {
      var hs := ServerSide.Select(sc, Offered(cc)).value;
      if Names(response, hs.proposed) {
        ServerCommits(hs, response);
        ClientAgrees(cc, sc, response, h);
      }
    }
  }

  /** One side's local settings are the other's peer settings. */
  predicate Mirrored(a: Negotiated, b: Negotiated) {
    && a.role != b.role && a.settings == b.settings
    && a.LocalNoContextTakeover() == b.PeerNoContextTakeover()
    && a.PeerNoContextTakeover() == b.LocalNoContextTakeover()
    && a.LocalMaxWindowBits() == b.PeerMaxWindowBits()
    && a.PeerMaxWindowBits() == b.LocalMaxWindowBits()
  }

  // ---- From an untouched request to a sealed one.

  lemma {:induction false} PositionsConcat(a: seq<string>, b: seq<string>)
    ensures Positions(a + b) == Positions(a) + Positions(b)
    decreases |a|
  {
    if a == [] {
      assert a + b == b;
    } else {
      assert (a + b)[0] == a[0] && (a + b)[1..] == a[1..] + b;
      PositionsConcat(a[1..], b);
    }
  }

  /** A rendered element is one position, quotes and commas considered. */
  lemma RenderedIsOnePosition(p: Params)
    requires Printable(p)
    ensures Balanced(Render(p)) && Positions([Render(p)]) == [Render(p)]
  {
    RenderIsASpelling(p);
    ExtensionSegments(PrintedTree(p));
    CutPart(Render(p), ',', Bare);
    OnlyPosition(Render(p));
  }

  lemma OnlyPosition(line: string)
    requires Cut(line, ',', Bare) == [line]
    ensures Positions([line]) == [line]
  {
    assert [line][1..] == [];
    assert [line] + Positions([]) == [line];
  }

  /** And a whole valid field on its own. */
  lemma RenderedIsValid(p: Params)
    requires Printable(p)
    ensures ValidField([Render(p)])
  {
    RenderIsASpelling(p);
    ExtensionSegments(PrintedTree(p));
    CutPart(Render(p), ',', Bare);
    SpelledPositionIsValid(PrintedTree(p));
    OneLine(Render(p), [Render(p)], 0);
  }

  lemma RenderedIsTight(p: Params)
    requires Printable(p)
    ensures Trim(Render(p)) == Render(p)
  {
    RenderEnds(p);
    var s := Render(p);
    assert s[0] == NAME[0];
    TrimPadded("", s, "");
    assert "" + s + "" == s;
  }

  /** The last character printed is a letter of some name or a digit. */
  lemma RenderEnds(p: Params)
    requires Printable(p)
    ensures var s := Render(p); s != "" && !IsSpace(s[|s|-1]) && NAME <= s
  {
    NameIsToken(); ServerTakeoverIsToken(); ClientTakeoverIsToken();
    FlagEnds(p.serverNoContextTakeover, SERVER_TAKEOVER);
    FlagEnds(p.clientNoContextTakeover, CLIENT_TAKEOVER);
    ServerWindowEnds(p.serverMaxWindowBits);
    ClientWindowEnds(p.clientMaxWindowBits);
    TokenIsTight(NAME);
    FourEnd(NAME, FlagText(p.serverNoContextTakeover, SERVER_TAKEOVER),
            FlagText(p.clientNoContextTakeover, CLIENT_TAKEOVER),
            ServerWindowText(p.serverMaxWindowBits), ClientWindowText(p.clientMaxWindowBits));
  }

  /** Nothing, or something that does not end in a space. */
  predicate EndsTight(s: string) {
    s != "" ==> !IsSpace(s[|s|-1])
  }

  lemma FourEnd(head: string, a: string, b: string, c: string, d: string)
    requires head != "" && EndsTight(head) && EndsTight(a) && EndsTight(b) && EndsTight(c) && EndsTight(d)
    ensures var s := head + a + b + c + d; s != "" && EndsTight(s) && head <= s
  {
    AppendEnds(head, a);
    AppendEnds(head + a, b);
    AppendEnds(head + a + b, c);
    AppendEnds(head + a + b + c, d);
  }

  lemma AppendEnds(s: string, more: string)
    requires EndsTight(s) && EndsTight(more)
    ensures EndsTight(s + more)
  {
    if more == "" { assert s + more == s; }
  }

  lemma FlagEnds(on: bool, name: string)
    requires IsToken(name)
    ensures EndsTight(FlagText(on, name))
  {
    TokenIsTight(name);
  }

  lemma WidthEnds(name: string, bits: nat)
    requires 8 <= bits <= 15
    ensures EndsTight(WidthText(name, bits))
  {
    DecimalIsToken(bits);
    TokenIsTight(Decimal(bits));
  }

  lemma ServerWindowEnds(w: Option<nat>)
    requires w.Some? ==> 8 <= w.value <= 15
    ensures EndsTight(ServerWindowText(w))
  {
    if w.Some? { WidthEnds(SERVER_WINDOW, w.value); }
  }

  lemma ClientWindowEnds(w: ClientWindow)
    requires w.Bits? ==> 8 <= w.bits <= 15
    ensures EndsTight(ClientWindowText(w))
  {
    match w
    case Absent =>
    case Valueless => ClientWindowIsToken(); FlagEnds(true, CLIENT_WINDOW);
    case Bits(bits) => WidthEnds(CLIENT_WINDOW, bits);
  }

  lemma AppendedDeflates(others: seq<string>, p: Params)
    requires Printable(p) && Deflates(Positions(others)) == []
    ensures Deflates(Positions(others + [Render(p)])) == [Render(p)]
  {
    RenderedIsOnePosition(p);
    ParseInvertsRender(p);
    PositionsConcat(others, [Render(p)]);
    DeflatesConcat(Positions(others), [Render(p)]);
    OnlyDeflate(Render(p));
  }

  lemma OnlyDeflate(e: string)
    requires NamesDeflate(e)
    ensures Deflates([e]) == [e]
  {
    assert [e][1..] == [];
  }

  lemma AppendedIsValid(others: seq<string>, p: Params)
    requires Printable(p) && ValidField(others)
    ensures ValidField(others + [Render(p)])
  {
    RenderedIsValid(p);
    FieldConcat(others, [Render(p)]);
  }

  lemma FieldConcat(a: seq<string>, b: seq<string>)
    requires ValidField(a) && ValidField(b) && b != []
    ensures ValidField(a + b)
  {
    ValidLinesBalanced(a);
    ValidLinesBalanced(b);
    PositionsConcat(a, b);
    ValidByPositions(a + b);
  }

  /** A rendered element appended to a field without one is the one element of its name there. */
  lemma AppendedIsCarried(others: seq<string>, p: Params)
    requires Printable(p) && Untouched(others)
    ensures Carries(others + [Render(p)], Render(p))
  {
    AppendedDeflates(others, p);
    RenderedIsOnePosition(p);
    RenderedIsTight(p);
  }

  /**
   * What `install` leaves behind is what `seal` accepts and, among well-formed
   * extensions, what the server will read as the offer: `install` succeeds on
   * exactly the fields this starts from.
   */
  lemma InstalledIsSealed(others: seq<string>, config: ClientConfig)
    requires Untouched(others)
    ensures var lines := others + [Render(Offered(config))];
      Carries(lines, Render(Offered(config))) && (ValidField(others) ==> Names(lines, Render(Offered(config))))
  {
    var p := Offered(config);
    AppendedIsCarried(others, p);
    if ValidField(others) { AppendedIsValid(others, p); }
  }

  /** The answer among well-formed extensions the server's host adds. */
  lemma AnswerIsNamed(others: seq<string>, config: ServerConfig, offer: Params)
    requires Printable(offer) && ServerSide.Select(config, offer).Some?
    requires ValidField(others) && Untouched(others)
    ensures var proposed := ServerSide.Select(config, offer).value.proposed;
      Names(others + [proposed], proposed)
  {
    var answer := ServerSide.Answer(config, offer);
    ServerSide.SelectionRenders(config, offer);
    AppendedIsCarried(others, answer);
    AppendedIsValid(others, answer);
  }

  /**
   * One handshake, every call of it: the client installs and seals, the server
   * accepts and commits, the client finishes. `request` and `extras` hold whatever
   * other well-formed extensions the two hosts use.
   */
  method Meet(cc: ClientConfig, sc: ServerConfig, request: Headers, extras: seq<string>)
    returns (client: Result<Option<Negotiated>, NegotiationError>, server: Result<Option<Negotiated>, NegotiationError>)
    requires ValidField(request.lines) && Untouched(request.lines)
    requires ValidField(extras) && Untouched(extras)
    modifies request
    // The server declines exactly when its window was bounded to 8, and then nothing is agreed.
    ensures cc.serverMaxWindowBits == 8 ==> client == Ok(None) && server == Ok(None)
    // Otherwise it commits, and the client refuses exactly when its own window was.
    ensures cc.serverMaxWindowBits != 8 ==> server == Ok(Some(Negotiated(Server, Terms(cc, sc))))
    ensures cc.serverMaxWindowBits != 8 && sc.clientMaxWindowBits == 8 ==> client == Err(ClientWindowTooNarrow)
    ensures cc.serverMaxWindowBits != 8 && sc.clientMaxWindowBits != 8 ==>
      client == Ok(Some(Negotiated(Client, Terms(cc, sc))))
  {
    InstalledIsSealed(request.lines, cc);
    var offer := Install(cc, request);
    var sealed := Seal(offer.value, request.lines);
    var accepted := ServerSide.AcceptRequest(sc, request.lines);
    JointHandshake(cc, sc, request.lines, extras, sealed.value);
    if accepted.value.None? {
      client := FinishHandshake(sealed.value, extras, Compatible);
      NothingSelected(sealed.value, extras);
      return client, Ok(None);
    }
    var response := extras + [accepted.value.value.proposed];
    ServerAccepts(cc, sc, request.lines);
    AnswerIsNamed(extras, sc, Offered(cc));
    JointHandshake(cc, sc, request.lines, response, sealed.value);
    server := ServerSide.FinishHandshake(accepted.value.value, response, Compatible);
    client := FinishHandshake(sealed.value, response, Compatible);
  }

  lemma NothingSelected(h: ClientHandshake, lines: seq<string>)
    requires ValidField(lines) && Untouched(lines)
    ensures Finish(h, lines, Compatible) == Ok(None)
  {
    AllPositionsNameable(lines);
    SoleByDeflates(Positions(lines));
  }
}
