/** What the two halves make of a field, said of the trees that spell it and of the registered texts. */
module Outcomes {
  import opened Wrappers
  import opened Errors
  import opened Syntax
  import opened Layout
  import opened Parameters
  import opened Rendering
  import opened Texts
  import opened Negotiation
  import ClientSide
  import ServerSide

  predicate Ours(e: Position) {
    e.Extension? && e.name == "permessage-deflate"
  }

  /** An element of this name, its parameters all in order, and what they say. */
  ghost predicate Written(e: Position, p: Params) {
    Ours(e) && Conforms(Meanings(e.params)) && Says(Meanings(e.params), p)
  }

  /** A list position reads as its tree says. */
  lemma PositionReads(e: Position, p: Params)
    requires WfPosition(e)
    ensures NamesDeflate(SpellPosition(e)) <==> Ours(e)
    ensures Ours(e) && ParseParams(SpellPosition(e)) == Ok(p) <==> Written(e, p)
    ensures Ours(e) && ParseParams(SpellPosition(e)).Ok? <==> Ours(e) && Conforms(Meanings(e.params))
  {
    NameExact(e);
    if e.Extension? { ParametersExact(e, p); }
  }

  // ---- Requests.

  /** An alternative this server can serve. */
  ghost predicate Servable(config: ServerConfig, e: Position) {
    exists offer :: Written(e, offer) && ServerSide.Supports(config, offer)
  }

  lemma ServableReads(config: ServerConfig, e: Position)
    requires WfPosition(e)
    ensures Servable(config, e) <==> ServerSide.Serves(config, SpellPosition(e))
  {
    var r := ParseParams(SpellPosition(e));
    if r.Ok? { PositionReads(e, r.value); }
    if offer :| Written(e, offer) && ServerSide.Supports(config, offer) { PositionReads(e, offer); }
    if ServerSide.Serves(config, SpellPosition(e)) {
      PositionReads(e, r.value);
      assert Written(e, r.value) && ServerSide.Supports(config, r.value);
    }
  }

  /**
   * A request is declined exactly if none of its elements of this name is written in
   * order and can be served; and else the first that is gets what both sides can hold.
   */
  lemma RequestExact(config: ServerConfig, lines: seq<string>, es: seq<Position>) returns (i: nat)
    requires lines != [] && Derives(es, OneField(lines))
    ensures i <= |es| && forall j :: 0 <= j < i ==> !Servable(config, es[j])
    ensures i == |es| ==> ServerSide.Accept(config, lines) == Ok(None)
    ensures i < |es| ==> exists offer ::
      && Written(es[i], offer) && ServerSide.Supports(config, offer)
      && ServerSide.Accept(config, lines) ==
           Ok(Some(ServerSide.ServerHandshake(Render(ServerSide.Answer(config, offer)),
                                              Negotiated(Server, ServerSide.Granted(config, offer)))))
  {
    PositionsSpelled(lines, es);
    i := ServerSide.AcceptExact(config, lines);
    forall j | 0 <= j < |es|
      ensures Servable(config, es[j]) <==> ServerSide.Serves(config, Positions(lines)[j])
    {
      ServableReads(config, es[j]);
    }
    if i < |es| {
      var offer := ParseParams(Positions(lines)[i]).value;
      PositionReads(es[i], offer);
    }
  }

  // ---- Responses.

  /** The elements of this name, in order. */
  function OursOf(es: seq<Position>): (r: seq<Position>)
    ensures forall i :: 0 <= i < |r| ==> Ours(r[i]) && r[i] in es
  {
    if es == [] then [] else (if Ours(es[0]) then [es[0]] else []) + OursOf(es[1..])
  }

  lemma {:induction false} DeflatesSpelled(es: seq<Position>)
    requires forall i :: 0 <= i < |es| ==> WfPosition(es[i])
    ensures forall i :: 0 <= i < |OursOf(es)| ==> WfPosition(OursOf(es)[i])
    ensures Deflates(SpellPositions(es)) == SpellPositions(OursOf(es))
    decreases |es|
  {
    if es != [] {
      DeflatesSpelled(es[1..]);
      NameExact(es[0]);
      assert SpellPositions(es)[1..] == SpellPositions(es[1..]);
      if Ours(es[0]) {
        PositionsCons(es[0], OursOf(es[1..]));
      } else {
        assert OursOf(es) == OursOf(es[1..]);
      }
    }
  }

  /** One answer, written in order: that answer, this side's offer and the host decide. */
  lemma ResponseExact(h: ClientSide.ClientHandshake, lines: seq<string>, es: seq<Position>, answer: Params,
                      composition: PmdComposition)
    requires lines != [] && Derives(es, OneField(lines))
    requires |OursOf(es)| == 1 && Written(OursOf(es)[0], answer)
    ensures ClientSide.Finish(h, lines, composition) ==
      if h.offer.None? then Err(UnsolicitedExtension)
      else if composition == Conflict then Err(ExtensionConflict)
      else
        var config := h.offer.value.config;
        if ClientSide.Agreeable(config, answer)
        then Ok(Some(Negotiated(Client, ClientSide.Settled(config, answer))))
        else Err(ClientSide.Refusal(config, answer))
  {
    PositionsSpelled(lines, es);
    DeflatesSpelled(es);
    PositionReads(OursOf(es)[0], answer);
    ClientSide.FinishExact(h, lines, composition);
  }

  /** An answer that is not: its first fault is the error. None at all: no agreement, and no error. */
  lemma ResponseFaults(h: ClientSide.ClientHandshake, lines: seq<string>, es: seq<Position>, error: NegotiationError,
                       composition: PmdComposition)
    requires lines != [] && Derives(es, OneField(lines))
    ensures OursOf(es) == [] <==> ClientSide.Finish(h, lines, composition) == Ok(None)
    ensures OursOf(es) != [] && FailsWith(Meanings(OursOf(es)[0].params), error) ==>
      ClientSide.Finish(h, lines, composition) == Err(error)
  {
    PositionsSpelled(lines, es);
    DeflatesSpelled(es);
    if OursOf(es) != [] { FaultsExact(OursOf(es)[0], error); }
    ClientSide.FinishExact(h, lines, composition);
  }

  // ---- What is written.

  /** A client always says it can be bounded, and states each bound that is not the widest. */
  lemma OfferText(c: ClientConfig)
    ensures Render(ClientSide.Offered(c)) == "permessage-deflate"
      + (if c.serverNoContextTakeover then "; server_no_context_takeover" else "")
      + (if c.clientNoContextTakeover then "; client_no_context_takeover" else "")
      + (if c.serverMaxWindowBits < 15 then "; server_max_window_bits=" + Numeral(c.serverMaxWindowBits) else "")
      + (if c.clientMaxWindowBits < 15 then "; client_max_window_bits=" + Numeral(c.clientMaxWindowBits)
         else "; client_max_window_bits")
  {
    RenderText(ClientSide.Offered(c));
  }

  /** A server confirms every reset it grants and every bound it was asked for or imposes. */
  lemma AnswerText(config: ServerConfig, offer: Params)
    requires Printable(offer) && ServerSide.Supports(config, offer)
    ensures var granted := ServerSide.Granted(config, offer);
      && 8 <= granted.clientMaxWindowBits <= 15 && 9 <= granted.serverMaxWindowBits <= 15
      && Render(ServerSide.Answer(config, offer)) == "permessage-deflate"
           + (if granted.serverNoContextTakeover then "; server_no_context_takeover" else "")
           + (if granted.clientNoContextTakeover then "; client_no_context_takeover" else "")
           + (if offer.serverMaxWindowBits.Some? || granted.serverMaxWindowBits < 15
              then "; server_max_window_bits=" + Numeral(granted.serverMaxWindowBits) else "")
           + (if granted.clientMaxWindowBits < 15
              then "; client_max_window_bits=" + Numeral(granted.clientMaxWindowBits) else "")
  {
    RenderText(ServerSide.Answer(config, offer));
  }
}
