/** From two configurations to messages received: the handshake feeding the codec. */
module EndToEnd {
  import opened Wrappers
  import opened Errors
  import opened Sizes
  import opened Octets
  import opened Transducer
  import opened Decoding
  import opened Compressors
  import opened Encoding
  import opened Formats
  import opened Connections
  import opened Grammar
  import opened Rendering
  import opened Negotiation
  import opened ClientSide
  import opened Handshakes
  import opened Hosts
  import ServerSide
  import StoredBlocks
  import FixedCode

  /** A backend, by the window its compressor is built with and the one its peer's inflater is. */
  type Backend<!S, !C, !H> = (nat, nat) -> Format<S, C, H>

  /** An inflater at least as wide as the compressor keeps the contract. */
  ghost predicate Conforming<S(!new), C(!new), H(!new)>(backend: Backend<S, C, H>) {
    forall w: nat, v: nat {:trigger backend(w, v)} :: 9 <= w <= v <= 15 ==> Lawful(backend(w, v))
  }

  /** The pair of codecs one agreement describes; a local width outside 9 to 15 would be a crate defect. */
  method IntoCodecs<S(!new, 0), C(!new, 0), H(!new, 0)>(
    n: Negotiated, deflaters: nat -> Deflater<C, H>, inflaters: nat -> Machine<S>,
    reliable: bool, pace: Option<Pace<C>>, conforming: bool)
    returns (encoder: Encoder<C, H>, decoder: Decoder<S>)
    requires 9 <= n.LocalMaxWindowBits() <= 15 && Drains(deflaters(n.LocalMaxWindowBits()))
    ensures fresh(encoder) && encoder.Valid() && encoder.compressor != null && fresh(encoder.compressor)
    ensures encoder.compressor.deflater == deflaters(n.LocalMaxWindowBits())
    ensures encoder.compressor.reliable == reliable && encoder.compressor.pace == pace
    ensures encoder.compressor.state == encoder.compressor.deflater.start && encoder.compressor.Idle()
    ensures encoder.resetBetweenMessages == n.LocalNoContextTakeover()
    ensures fresh(decoder) && decoder.Valid() && fresh(decoder.inflater) && !decoder.poisoned
    ensures decoder.config == InflaterConfig.ForPeerWindow(n.PeerMaxWindowBits())
    ensures decoder.M() == inflaters(decoder.config.windowBits) && decoder.Live() == Channel(Start(decoder.M()), 0)
    ensures decoder.resetBetweenMessages == n.PeerNoContextTakeover() && decoder.conforming == conforming
  {
    encoder := new Encoder(deflaters(n.LocalMaxWindowBits()), n.LocalNoContextTakeover(), reliable, pace);
    decoder := new Decoder(n.PeerMaxWindowBits(), n.PeerNoContextTakeover(), inflaters, conforming);
  }

  /** The width this end's inflater is built at. */
  function DecoderWindow(n: Negotiated): nat {
    InflaterConfig.ForPeerWindow(n.PeerMaxWindowBits()).windowBits
  }

  /** One direction: the sender's local settings at one end, the receiver's peer settings at the other. */
  function Direction<S, C, H>(backend: Backend<S, C, H>, sender: Negotiated, receiver: Negotiated): Link<S, C, H> {
    Link(backend(sender.LocalMaxWindowBits(), DecoderWindow(receiver)),
         sender.LocalNoContextTakeover(), receiver.PeerNoContextTakeover())
  }

  /** Mirrored agreements make a link that keeps the contract, with both ends resetting alike. */
  lemma MirroredDirection<S(!new), C(!new), H(!new)>(backend: Backend<S, C, H>, sender: Negotiated,
                                                     receiver: Negotiated)
    requires Conforming(backend) && Mirrored(sender, receiver) && 9 <= sender.LocalMaxWindowBits() <= 15
    ensures var k := Direction(backend, sender, receiver);
      Lawful(k.format) && k.senderResets == k.receiverResets
  {
  }

  /**
   * The whole path. Any two configurations that settle on an agreement, with any
   * well-formed other extensions in the headers, give two directions in each of
   * which every run of messages, streams and abandoned candidates is received
   * without loss and without error under ceilings that suffice, and under any others
   * without a wrong octet.
   */
  lemma AgreementIsLossless<S(!new), C(!new), H(!new)>(
    backend: Backend<S, C, H>, cc: ClientConfig, sc: ServerConfig,
    request: seq<string>, response: seq<string>, h: ClientHandshake, hs: ServerSide.ServerHandshake,
    moves: seq<Move<C>>, fromClient: bool)
    requires Conforming(backend)
    requires h.offer == Some(SealedOffer(cc, Render(Offered(cc)))) && Names(request, Render(Offered(cc)))
    requires ServerSide.Accept(sc, request) == Ok(Some(hs)) && Names(response, hs.proposed)
    requires sc.clientMaxWindowBits != 8
    ensures ServerSide.Finish(hs, response, Compatible) == Ok(Some(hs.agreement))
    ensures Finish(h, response, Compatible).Ok? && Finish(h, response, Compatible).value.Some?
    ensures
      var client, server := Finish(h, response, Compatible).value.value, hs.agreement;
      var k := if fromClient then Direction(backend, client, server) else Direction(backend, server, client);
      Legal(k, Initial(k), moves) ==>
        var w := Run(k, Initial(k), moves);
        && Begins(w.got, w.partGot, w.sent, w.partSent)
        && (w.receiver.Some? ==> w.got == w.sent && w.partGot == w.partSent)
        && (Roomy(k, Initial(k), moves) ==> w.receiver.Some?)
  {
    JointHandshake(cc, sc, request, response, h);
    var client, server := Finish(h, response, Compatible).value.value, hs.agreement;
    var sender, receiver := if fromClient then client else server, if fromClient then server else client;
    MirroredDirection(backend, sender, receiver);
    var k := Direction(backend, sender, receiver);
    if Legal(k, Initial(k), moves) {
      NothingInvented(k, moves);
      if Roomy(k, Initial(k), moves) { Lossless(k, moves); }
    }
  }

  /** A direction that has carried nothing yet. */
  ghost predicate Ready<S(!new, 0), C(!new, 0), H(!new, 0)>(h: Host<S, C, H>, k: Link<S, C, H>, reliable: bool)
    reads h, h.encoder, h.engine, h.decoder, h.decoder.inflater
  {
    h.Valid() && h.guard.Free? && h.moves == [] && h.link == k && Matched(k) && h.engine.reliable == reliable
  }

  /** Nothing a call on one host may change is the other's. */
  ghost predicate Apart<S(!new, 0), C(!new, 0), H(!new, 0)>(a: Host<S, C, H>, b: Host<S, C, H>)
    reads a, a.decoder, b, b.decoder
  {
    && a != b && a.encoder != b.encoder && a.engine != b.engine
    && a.decoder != b.decoder && a.decoder.inflater != b.decoder.inflater
  }

  /** Everything a call on this host may change is new, and so its caller's to change. */
  twostate predicate Owned<S(!new, 0), C(!new, 0), H(!new, 0)>(new h: Host<S, C, H>)
    reads h, h.decoder
  {
    fresh(h) && fresh(h.encoder) && fresh(h.engine) && fresh(h.decoder) && fresh(h.decoder.inflater)
  }

  /** One end's encoder and the other end's decoder, as a direction. */
  method Join<S(!new, 0), C(!new, 0), H(!new, 0)>(k: Link<S, C, H>, encoder: Encoder<C, H>, decoder: Decoder<S>)
    returns (h: Host<S, C, H>)
    requires Matched(k) && encoder.compressor != null && encoder.compressor.Idle()
    requires encoder.compressor.deflater == k.format.deflater && encoder.compressor.state == k.format.deflater.start
    requires encoder.resetBetweenMessages == k.senderResets
    requires decoder.Valid() && decoder.conforming && !decoder.poisoned
    requires decoder.M() == k.format.machine && decoder.Live() == Channel(Start(k.format.machine), 0)
    requires decoder.resetBetweenMessages == k.receiverResets
    ensures fresh(h) && h.encoder == encoder && h.engine == encoder.compressor && h.decoder == decoder
    ensures Ready(h, k, encoder.compressor.reliable)
  {
    h := new Host(k.format, encoder, decoder);
  }

  /**
   * The two directions of one agreement on their real objects. They are the caller's
   * own: `Hosts.Host` says what may be done with them, and `HostLossless` that
   * nothing done loses anything.
   */
  method Connect<S(!new, 0), C(!new, 0), H(!new, 0)>(
    backend: Backend<S, C, H>, client: Negotiated, server: Negotiated, reliable: bool)
    returns (toServer: Host<S, C, H>, toClient: Host<S, C, H>)
    requires Conforming(backend) && Mirrored(client, server)
    requires 9 <= client.LocalMaxWindowBits() <= 15 && 9 <= server.LocalMaxWindowBits() <= 15
    ensures Ready(toServer, Direction(backend, client, server), reliable) && Owned(toServer)
    ensures Ready(toClient, Direction(backend, server, client), reliable) && Owned(toClient)
    // Nothing done in one direction touches the other.
    ensures Apart(toServer, toClient)
  {
    var there, back := Direction(backend, client, server), Direction(backend, server, client);
    var clientWindow, serverWindow := client.LocalMaxWindowBits(), server.LocalMaxWindowBits();
    MirroredDirection(backend, client, server);
    MirroredDirection(backend, server, client);
    var clientEncoder, clientDecoder := IntoCodecs(
      client, w => backend(w, DecoderWindow(server)).deflater, v => backend(serverWindow, v).machine,
      reliable, None, true);
    var serverEncoder, serverDecoder := IntoCodecs(
      server, w => backend(w, DecoderWindow(client)).deflater, v => backend(clientWindow, v).machine,
      reliable, None, true);
    toServer := Join(there, clientEncoder, serverDecoder);
    toClient := Join(back, serverEncoder, clientDecoder);
  }

  /** From two configurations to two live directions, or to none exactly when one of them asks for a window of 8. */
  method Establish<S(!new, 0), C(!new, 0), H(!new, 0)>(
    backend: Backend<S, C, H>, cc: ClientConfig, sc: ServerConfig, request: Headers, extras: seq<string>,
    reliable: bool)
    returns (pair: Option<(Host<S, C, H>, Host<S, C, H>)>)
    requires Conforming(backend)
    requires ValidField(request.lines) && Untouched(request.lines) && ValidField(extras) && Untouched(extras)
    modifies request
    ensures pair.None? <==> cc.serverMaxWindowBits == 8 || sc.clientMaxWindowBits == 8
    ensures pair.Some? ==>
      var client, server := Negotiated(Client, Terms(cc, sc)), Negotiated(Server, Terms(cc, sc));
      && Ready(pair.value.0, Direction(backend, client, server), reliable) && Owned(pair.value.0)
      && Ready(pair.value.1, Direction(backend, server, client), reliable) && Owned(pair.value.1)
      && Apart(pair.value.0, pair.value.1)
  {
    var client, server := Meet(cc, sc, request, extras);
    if cc.serverMaxWindowBits == 8 || sc.clientMaxWindowBits == 8 { return None; }
    var there, back := Connect(backend, client.value.value, server.value.value, reliable);
    pair := Some((there, back));
  }

  /** What an outcome of `Hosts.Send` is on a direction nothing was sent on before. */
  predicate Arrived(r: Result<bytes, CodecError>, payload: bytes, limit: nat) {
    if Min(|payload|, USIZE_MAX) <= limit then r == Ok(payload) else r.Err? && r.error.MessageTooLong?
  }

  /** One message each way. */
  method Greet<S(!new, 0), C(!new, 0), H(!new, 0)>(
    toServer: Host<S, C, H>, toClient: Host<S, C, H>, hello: bytes, welcome: bytes, limit: nat)
    returns (atServer: Result<bytes, CodecError>, atClient: Result<bytes, CodecError>)
    requires Ready(toServer, toServer.link, true) && Ready(toClient, toClient.link, true) && Apart(toServer, toClient)
    requires limit <= USIZE_MAX
    modifies toServer, toServer.encoder`compressor, toServer.engine, toServer.decoder, toServer.decoder.inflater
    modifies toClient, toClient.encoder`compressor, toClient.engine, toClient.decoder, toClient.decoder.inflater
    ensures toServer.Valid() && toServer.guard.Free? && toClient.Valid() && toClient.guard.Free?
    ensures Arrived(atServer, hello, limit) && Arrived(atClient, welcome, limit)
  {
    atServer := Send(toServer, hello, limit);
    atClient := Send(toClient, welcome, limit);
  }

  /** From two configurations and a message each way to what each end received. */
  method Converse<S(!new, 0), C(!new, 0), H(!new, 0)>(
    backend: Backend<S, C, H>, cc: ClientConfig, sc: ServerConfig, request: Headers, extras: seq<string>,
    hello: bytes, welcome: bytes, limit: nat)
    returns (heard: Option<(Result<bytes, CodecError>, Result<bytes, CodecError>)>)
    requires Conforming(backend) && limit <= USIZE_MAX
    requires ValidField(request.lines) && Untouched(request.lines) && ValidField(extras) && Untouched(extras)
    modifies request
    ensures heard.None? <==> cc.serverMaxWindowBits == 8 || sc.clientMaxWindowBits == 8
    ensures heard.Some? ==> Arrived(heard.value.0, hello, limit) && Arrived(heard.value.1, welcome, limit)
  {
    var pair := Establish(backend, cc, sc, request, extras, true);
    if pair.None? { return None; }
    var atServer, atClient := Greet(pair.value.0, pair.value.1, hello, welcome, limit);
    heard := Some((atServer, atClient));
  }

  // ---- The contract has real instances.

  lemma FixedCodeConforms()
    ensures Conforming(FixedCode.FormatAt)
  {
    forall w: nat, v: nat | 9 <= w <= v <= 15
      ensures Lawful(FixedCode.FormatAt(w, v))
    {
      FixedCode.FixedCodeIsLawful(w, v);
    }
  }

  /** Stored blocks as long as they can be. */
  lemma MaximalBlocksConform()
    ensures Conforming((w: nat, v: nat) => StoredBlocks.MaximalFormat())
  {
    StoredBlocks.MaximalIsLawful();
  }

  lemma StoredBlocksConform()
    ensures Conforming((w: nat, v: nat) => StoredBlocks.TheFormat())
  {
    StoredBlocks.StoredIsLawful();
  }
}
