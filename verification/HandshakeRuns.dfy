// Whole handshakes: a client and a server that take their honest steps in any
// order the messages allow, while each may at any moment also be handed
// messages that it rejects.
module HandshakeRuns {
  import opened Bytes
  import opened Framing
  import opened Hellos
  import opened Handshakes

  datatype Parties = Parties(
    k: Suite, clientIdentity: Identity, serverIdentity: Identity, clientCaps: Capabilities, serverCaps: Capabilities,
    clientId: u64, serverId: u64, clientSecret: Secret, serverSecret: Secret)

  // Both contexts, how many of its three honest steps each party has taken, and
  // the bytes of the four honest messages sent so far.
  datatype System = System(
    client: Context, server: Context, clientSteps: nat, serverSteps: nat,
    clientHello: bytes, serverHello: bytes, serverFinished: bytes, clientFinished: bytes)

  // The next honest step (of the client, when both could move and it is
  // preferred), or the arrival of a message to be rejected.
  datatype Event =
    | Advance(clientFirst: bool)
    | BadClientHello(frame: Frame, newId: u64, ephemeral: Secret)
    | BadServerHello(frame: Frame)
    | BadFinishedAtClient(frame: Frame)
    | BadFinishedAtServer(frame: Frame)

  // ---------- rejections ----------

  // The ServerHello does not parse, or its proof is no signature over what we
  // have heard so far.
  predicate ProofFails(k: Suite, c: Context, frame: Frame) {
    match DecodeServerHello(frame.payload)
    case Panicked => false
    case Failed(_) => true
    case Done(hello) => |hello.identityProof| != 64 || !k.verify(hello.identityPublicKey, c.transcript, hello.identityProof)
  }

  // The ServerHello is rejected although its proof passes: our secret is used up,
  // or not there yet.
  predicate Spoils(k: Suite, c: Context, frame: Frame) {
    c.HandleServerHello(k, frame).1.Failed? && !ProofFails(k, c, frame)
  }

  // What a ServerHello says about its sender.
  datatype Claim = Claim(id: u64, public: Key, identity: Key)

  function ClaimOf(frame: Frame): Option<Claim> {
    match DecodeServerHello(frame.payload)
    case Done(hello) => Some(Claim(hello.sourceConnectionId, hello.x25519Public, hello.identity))
    case _ => None
  }

  function Believe(c: Context, claim: Option<Claim>): Context {
    match claim
    case None => c
    case Some(x) => c.(peerConnectionId := Some(x.id), peerPublic := Some(x.public), peerIdentity := Some(x.identity))
  }

  lemma RejectedClientHelloIsHarmless(c: Context, k: Suite, frame: Frame, id: Identity, caps: Capabilities, newId: u64,
                                      ephemeral: Secret)
    ensures var (after, r) := c.HandleClientHello(k, frame, id, caps, newId, ephemeral);
            && (!r.Done? <==> after == c)
            && (r.Failed? <==>
                  var d := DecodeClientHello(frame.payload);
                  d.Failed? || (d.Done? && AETHER_VERSION !in d.value.supportedVersions))
            && (r.Failed? ==>
                  var d := DecodeClientHello(frame.payload);
                  r.error == if d.Failed? then d.error else Error.VersionNegotiation)
            && (r.Done? ==> after.state == KeysDerived && |after.transcript| > |c.transcript|)
  {
    hide DecodeClientHello, EncodeServerHello, MakeServerHello, HandshakeFrame, Meet;
  }

  // A proof failure is an error, touches neither transcript, secret, state,
  // session key nor capabilities, but takes over what the message claims.
  lemma RejectedServerHelloIsBelieved(c: Context, k: Suite, frame: Frame)
    ensures ProofFails(k, c, frame) ==>
              var (after, r) := c.HandleServerHello(k, frame);
              var d := DecodeServerHello(frame.payload);
              r == Failed(if d.Failed? then d.error else Error.Crypto) && after == Believe(c, ClaimOf(frame))
  {
    hide DecodeServerHello;
  }

  // Such a message has already become part of the transcript when it is rejected.
  lemma SpoilingExtendsTranscript(c: Context, k: Suite, frame: Frame)
    ensures Spoils(k, c, frame) <==> c.secret.None? && DecodeServerHello(frame.payload).Done? && !ProofFails(k, c, frame)
    ensures Spoils(k, c, frame) ==>
              var (after, r) := c.HandleServerHello(k, frame);
              r == Failed(InvalidState) && after.transcript == c.transcript + SERVER_LABEL + frame.payload
  {
    hide DecodeServerHello;
  }

  // Whatever a ServerHello leads to, the transcript is only ever added to.
  lemma ServerHelloAddsTo(c: Context, k: Suite, frame: Frame)
    ensures var after := c.HandleServerHello(k, frame).0;
            && c.transcript <= after.transcript && after.ourConnectionId == c.ourConnectionId
  {
    hide DecodeServerHello;
  }

  lemma RejectedFinishedIsHarmless(c: Context, k: Suite, frame: Frame)
    ensures c.HandleFinished(k, frame).1.Err? && (c.sessionKey.Some? ==> c.peerConnectionId.Some?) ==>
              c.HandleFinished(k, frame).0 == c
    ensures c.VerifyFinished(k, frame).1.Err? ==>
              c.VerifyFinished(k, frame).0 == c && c.HandleFinished(k, frame).0 == c && c.HandleFinished(k, frame).1.Err?
    ensures c.VerifyFinished(k, frame).1.Ok? <==>
              c.sessionKey.Some? && frame.payload == k.finishedMac(c.sessionKey.value, c.transcript)
    ensures var r := c.VerifyFinished(k, frame).1;
            r.Err? ==> r.error == if c.sessionKey.None? then InvalidState else Error.Crypto
    ensures c.CreateFinished(k).Err? <==> c.sessionKey.None? || c.peerConnectionId.None?
    ensures c.CreateFinished(k).Err? ==> c.CreateFinished(k) == Err(InvalidState)
  {
  }

  // Deriving keys uses the secret up, whether or not it succeeds.
  lemma DerivingUsesUpSecret(c: Context, k: Suite)
    ensures var (after, r) := c.DeriveKeys(k);
            && after == c.(secret := None, sessionKey := after.sessionKey)
            && (r.Ok? <==> c.secret.Some? && c.peerPublic.Some?)
            && (r.Ok? ==> after.sessionKey.Some?)
            && (r.Err? ==> r == Err(InvalidState) && after.sessionKey == c.sessionKey)
  {
  }

  // ---------- runs ----------

  function Start(p: Parties): System {
    System(NewClient(p.clientId), NewServer(), 0, 0, [], [], [], [])
  }

  predicate ClientCanMove(s: System) {
    s.clientSteps == 0 || (s.clientSteps == 1 && s.serverSteps >= 1) || (s.clientSteps == 2 && s.serverSteps >= 2)
  }

  predicate ServerCanMove(s: System) {
    (s.serverSteps == 0 && s.clientSteps >= 1) || s.serverSteps == 1 || (s.serverSteps == 2 && s.clientSteps >= 3)
  }

  function SendClientHello(p: Parties, s: System): System {
    var (client, frame) := s.client.CreateClientHello(p.k, p.clientIdentity, p.clientCaps, p.clientSecret);
    s.(client := client, clientSteps := 1, clientHello := EncodeFrame(frame))
  }

  function ReceiveServerHello(p: Parties, s: System): System {
    match DecodeFrame(s.serverHello)
    case Err(_) => s
    case Ok(frame) =>
      var (client, r) := s.client.HandleServerHello(p.k, frame);
      s.(client := client, clientSteps := if r.Done? then 2 else s.clientSteps)
  }

  function ReceiveServerFinished(p: Parties, s: System): System {
    match DecodeFrame(s.serverFinished)
    case Err(_) => s
    case Ok(frame) =>
      var (client, r) := s.client.HandleFinished(p.k, frame);
      if r.Err? then s.(client := client)
      else s.(client := client, clientSteps := 3, clientFinished := EncodeFrame(r.value))
  }

  function ReceiveClientHello(p: Parties, s: System): System {
    match DecodeFrame(s.clientHello)
    case Err(_) => s
    case Ok(frame) =>
      var (server, r) := s.server.HandleClientHello(p.k, frame, p.serverIdentity, p.serverCaps, p.serverId, p.serverSecret);
      if !r.Done? then s.(server := server)
      else s.(server := server, serverSteps := 1, serverHello := EncodeFrame(r.value))
  }

  function SendServerFinished(p: Parties, s: System): System {
    var r := s.server.CreateFinished(p.k);
    if r.Err? then s else s.(serverSteps := 2, serverFinished := EncodeFrame(r.value))
  }

  function ReceiveClientFinished(p: Parties, s: System): System {
    match DecodeFrame(s.clientFinished)
    case Err(_) => s
    case Ok(frame) =>
      var (server, r) := s.server.VerifyFinished(p.k, frame);
      s.(server := server, serverSteps := if r.Ok? then 3 else s.serverSteps)
  }

  function ClientMove(p: Parties, s: System): System {
    if s.clientSteps == 0 then SendClientHello(p, s)
    else if s.clientSteps == 1 then ReceiveServerHello(p, s)
    else ReceiveServerFinished(p, s)
  }

  function ServerMove(p: Parties, s: System): System {
    if s.serverSteps == 0 then ReceiveClientHello(p, s)
    else if s.serverSteps == 1 then SendServerFinished(p, s)
    else ReceiveClientFinished(p, s)
  }

  // An event whose message would not be rejected is no event of this kind.
  function Step(p: Parties, s: System, e: Event): System {
    match e
    case Advance(clientFirst) =>
      if ClientCanMove(s) && (clientFirst || !ServerCanMove(s)) then ClientMove(p, s)
      else if ServerCanMove(s) then ServerMove(p, s)
      else s
    case BadClientHello(frame, newId, ephemeral) =>
      var (server, r) := s.server.HandleClientHello(p.k, frame, p.serverIdentity, p.serverCaps, newId, ephemeral);
      if r.Failed? then s.(server := server) else s
    case BadServerHello(frame) =>
      var (client, r) := s.client.HandleServerHello(p.k, frame);
      if r.Failed? then s.(client := client) else s
    case BadFinishedAtClient(frame) =>
      var (client, r) := s.client.HandleFinished(p.k, frame);
      if r.Err? then s.(client := client) else s
    case BadFinishedAtServer(frame) =>
      if s.server.VerifyFinished(p.k, frame).1.Err? then s.(server := s.server.VerifyFinished(p.k, frame).0) else s
  }

  function Run(p: Parties, es: seq<Event>): System {
    if es == [] then Start(p) else Step(p, Run(p, es[..|es| - 1]), es[|es| - 1])
  }

  function Advances(es: seq<Event>): nat {
    if es == [] then 0 else Advances(es[..|es| - 1]) + if es[|es| - 1].Advance? then 1 else 0
  }

  // Some rejected ServerHello of the run passed the proof check.
  ghost predicate Spoiled(p: Parties, es: seq<Event>) {
    es != []
    && (Spoiled(p, es[..|es| - 1])
        || (es[|es| - 1].BadServerHello? && Spoils(p.k, Run(p, es[..|es| - 1]).client, es[|es| - 1].frame)))
  }

  // What the last ServerHello rejected after the honest one was accepted claims.
  function NextClaim(p: Parties, s: System, e: Event, late: Option<Claim>): Option<Claim> {
    if e.BadServerHello? && s.clientSteps >= 2 && s.client.HandleServerHello(p.k, e.frame).1.Failed? && ClaimOf(e.frame).Some?
    then ClaimOf(e.frame)
    else late
  }

  function LateClaim(p: Parties, es: seq<Event>): Option<Claim> {
    if es == [] then None
    else NextClaim(p, Run(p, es[..|es| - 1]), es[|es| - 1], LateClaim(p, es[..|es| - 1]))
  }

  // ---------- the values both sides should end with ----------

  function HonestClientHello(p: Parties): ClientHello {
    MakeClientHello(p.k, p.clientId, p.k.publicOf(p.clientSecret), p.clientIdentity, p.clientCaps)
  }

  function FirstHalf(p: Parties): bytes {
    [] + CLIENT_LABEL + EncodeClientHello(HonestClientHello(p))
  }

  function HonestServerHello(p: Parties): ServerHello {
    MakeServerHello(p.k, p.serverId, p.clientId, p.k.publicOf(p.serverSecret), p.serverIdentity, FirstHalf(p),
                    Meet(p.serverCaps, p.clientCaps))
  }

  function FullTranscript(p: Parties): bytes {
    FirstHalf(p) + SERVER_LABEL + EncodeServerHello(HonestServerHello(p))
  }

  function SharedKey(p: Parties): Key {
    p.k.sessionKey(p.k.dh(p.serverSecret, p.k.publicOf(p.clientSecret)), FullTranscript(p))
  }

  function HashOf(k: Suite, id: Identity): Key {
    k.identityHash(k.verifyingKey(id))
  }

  function HonestClaim(p: Parties): Claim {
    Claim(p.serverId, p.k.publicOf(p.serverSecret), HashOf(p.k, p.serverIdentity))
  }

  function ClientAfter(p: Parties, steps: nat): Context {
    var caps := Meet(p.serverCaps, p.clientCaps);
    if steps == 0 then NewClient(p.clientId)
    else if steps == 1 then
      Context(HelloSent, p.clientId, None, Some(p.clientSecret), None, FirstHalf(p), None, None, None, true)
    else
      Believe(Context(if steps == 2 then KeysDerived else Complete, p.clientId, None, None, None, FullTranscript(p),
                      Some(SharedKey(p)), Some(caps), None, true),
              Some(HonestClaim(p)))
  }

  function ServerAfter(p: Parties, steps: nat): Context {
    if steps == 0 then NewServer()
    else
      Context(if steps <= 2 then KeysDerived else Complete, p.serverId, Some(p.clientId), None,
              Some(p.k.publicOf(p.clientSecret)), FullTranscript(p), Some(SharedKey(p)),
              Some(Meet(p.serverCaps, p.clientCaps)), Some(HashOf(p.k, p.clientIdentity)), false)
  }

  // All but what a rejected ServerHello may replace.
  function Core(c: Context): Context {
    c.(peerConnectionId := None, peerPublic := None, peerIdentity := None)
  }

  function MacPayload(p: Parties): bytes {
    p.k.finishedMac(SharedKey(p), FullTranscript(p))
  }

  // The message decodes to a long frame of this type and version 0 on the control
  // stream, from this id, with this payload.
  predicate Carries(wire: bytes, t: FrameType, from: u64, payload: bytes) {
    match DecodeFrame(wire)
    case Err(_) => false
    case Ok(f) =>
      && f.longHeader.Some? && f.longHeader.value.sourceConnectionId == from && f.longHeader.value.short == f.header
      && f.header.version == 0 && f.header.frameType == t && f.header.streamId == 0
      && f.extensions == [] && f.payload == payload
  }

  // A frame is addressed by the upper half of a connection id.
  predicate Addressed(wire: bytes, toward: u64) {
    match DecodeFrame(wire)
    case Err(_) => false
    case Ok(f) => f.header.connectionId == toward / 0x1_0000_0000
  }

  ghost predicate Good(p: Parties, s: System) {
    && s.clientSteps <= 3 && s.serverSteps <= 3
    && (s.serverSteps >= 1 ==> s.clientSteps >= 1)
    && (s.clientSteps >= 2 ==> s.serverSteps >= 1)
    && (s.clientSteps == 3 ==> s.serverSteps >= 2)
    && (s.serverSteps == 3 ==> s.clientSteps == 3)
    && Core(s.client) == Core(ClientAfter(p, s.clientSteps))
    && (s.clientSteps >= 2 ==> s.client.peerConnectionId.Some?)
    && s.server == ServerAfter(p, s.serverSteps)
    && (s.clientSteps >= 1 ==> Carries(s.clientHello, FrameType.Initial, p.clientId, EncodeClientHello(HonestClientHello(p))))
    && (s.serverSteps >= 1 ==> Carries(s.serverHello, FrameType.Initial, p.serverId, EncodeServerHello(HonestServerHello(p))))
    && (s.serverSteps >= 2 ==> Carries(s.serverFinished, FrameType.Handshake, p.serverId, MacPayload(p)))
    && (s.clientSteps == 3 ==> Carries(s.clientFinished, FrameType.Handshake, p.clientId, MacPayload(p)))
    && (s.clientSteps >= 1 ==> Addressed(s.clientHello, p.clientId))
    && (s.serverSteps >= 1 ==> Addressed(s.serverHello, p.clientId))
    && (s.serverSteps >= 2 ==> Addressed(s.serverFinished, p.clientId))
  }

  lemma FrameCarries(t: FrameType, toward: u64, from: u64, payload: bytes)
    requires t == FrameType.Initial || t == FrameType.Handshake
    requires |payload| < U32
    ensures var wire := EncodeFrame(HandshakeFrame(t, toward, from, payload));
            Carries(wire, t, from, payload) && Addressed(wire, toward)
  {
    var f := HandshakeFrame(t, toward, from, payload);
    assert Coherent(f) && f.payload == payload && f.longHeader == Some(LongHeader(f.header, from)) && f.extensions == [];
    assert f.header == ShortHeader(0, t, false, 0, 0, |payload|, toward / U32);
    hide EncodeFrame, DecodeFrame, Coherent, HandshakeFrame;
    FrameRoundTrip(f, []);
    assert EncodeFrame(f) + [] == EncodeFrame(f);
  }

  // The honest hellos decode, whatever follows from their fields.
  lemma HonestHellosDecode(p: Parties)
    ensures DecodeClientHello(EncodeClientHello(HonestClientHello(p))) == Done(HonestClientHello(p))
    ensures DecodeServerHello(EncodeServerHello(HonestServerHello(p))) == Done(HonestServerHello(p))
    ensures |EncodeClientHello(HonestClientHello(p))| < U32 && |EncodeServerHello(HonestServerHello(p))| < U32
  {
    var c, s := HonestClientHello(p), HonestServerHello(p);
    assert |c.supportedVersions| == 1 && |s.identityProof| == 64;
    hide DecodeClientHello, DecodeServerHello, HonestClientHello, HonestServerHello, EncodeCapabilities, Be;
    assert |EncodeClientHello(c)| < U32 && |EncodeServerHello(s)| < U32;
    hide EncodeClientHello, EncodeServerHello;
    ClientHelloRoundTrip(c, []);
    ServerHelloRoundTrip(s, []);
    assert EncodeClientHello(c) + [] == EncodeClientHello(c) && EncodeServerHello(s) + [] == EncodeServerHello(s);
  }

  // ---------- what each honest step does ----------

  lemma ClientHelloIsSent(p: Parties, s: System)
    requires Good(p, s) && s.clientSteps == 0
    ensures var t := SendClientHello(p, s);
            && Good(p, t) && t.clientSteps == 1 && t.serverSteps == s.serverSteps
            && t.client.peerPublic == None
  {
    var payload := EncodeClientHello(HonestClientHello(p));
    hide EncodeClientHello, EncodeServerHello, HonestServerHello, MakeClientHello, HandshakeFrame, Carries, Addressed,
      EncodeFrame;
    HonestHellosDecode(p);
    FrameCarries(FrameType.Initial, p.clientId, p.clientId, payload);
  }

  // A fresh server answers the honest hello, whatever the client has become since.
  lemma FreshServerAnswers(p: Parties, s: System)
    requires s.server == NewServer()
    requires Carries(s.clientHello, FrameType.Initial, p.clientId, EncodeClientHello(HonestClientHello(p)))
    ensures var t := ReceiveClientHello(p, s);
            && t == s.(server := ServerAfter(p, 1), serverSteps := 1, serverHello := t.serverHello)
            && Carries(t.serverHello, FrameType.Initial, p.serverId, EncodeServerHello(HonestServerHello(p)))
            && Addressed(t.serverHello, p.clientId)
  {
    HonestHellosDecode(p);
    FrameCarries(FrameType.Initial, p.clientId, p.serverId, EncodeServerHello(HonestServerHello(p)));
    assert AETHER_VERSION in HonestClientHello(p).supportedVersions;
    hide EncodeClientHello, EncodeServerHello, DecodeClientHello, DecodeServerHello, HandshakeFrame, EncodeFrame,
      DecodeFrame, Meet;
  }

  lemma ClientHelloIsAnswered(p: Parties, s: System)
    requires Good(p, s) && s.serverSteps == 0 && s.clientSteps >= 1
    ensures var t := ReceiveClientHello(p, s);
            Good(p, t) && t.serverSteps == 1 && t.clientSteps == s.clientSteps && t.client == s.client
  {
    FreshServerAnswers(p, s);
    hide ReceiveClientHello, Carries, Addressed, Core, FullTranscript, SharedKey, EncodeClientHello, EncodeServerHello;
  }

  lemma ServerFinishedIsSent(p: Parties, s: System)
    requires Good(p, s) && s.serverSteps == 1
    ensures var t := SendServerFinished(p, s);
            Good(p, t) && t.serverSteps == 2 && t.clientSteps == s.clientSteps && t.client == s.client
  {
    FrameCarries(FrameType.Handshake, p.clientId, p.serverId, MacPayload(p));
    hide EncodeClientHello, EncodeServerHello, HonestClientHello, HonestServerHello, HandshakeFrame, EncodeFrame,
      Carries, Addressed, Meet;
  }

  lemma ServerHelloIsAccepted(p: Parties, s: System)
    requires Lawful(p.k) && Good(p, s) && s.clientSteps == 1 && s.serverSteps >= 1
    ensures var t := ReceiveServerHello(p, s);
            && Good(p, t) && t.clientSteps == 2 && t.serverSteps == s.serverSteps
            && t.client == ClientAfter(p, 2)
  {
    HonestHellosDecode(p);
    assert p.k.dh(p.clientSecret, p.k.publicOf(p.serverSecret)) == p.k.dh(p.serverSecret, p.k.publicOf(p.clientSecret));
    hide EncodeClientHello, EncodeServerHello, DecodeClientHello, DecodeServerHello, DecodeFrame, HonestClientHello, Meet;
  }

  lemma ServerFinishedIsAccepted(p: Parties, s: System)
    requires Good(p, s) && s.clientSteps == 2 && s.serverSteps >= 2
    ensures var t := ReceiveServerFinished(p, s);
            && Good(p, t) && t.clientSteps == 3 && t.serverSteps == s.serverSteps
            && t.client == s.client.(state := Complete)
            && Addressed(t.clientFinished, s.client.peerConnectionId.value)
  {
    FrameCarries(FrameType.Handshake, s.client.peerConnectionId.value, p.clientId, MacPayload(p));
    hide EncodeClientHello, EncodeServerHello, HonestClientHello, HonestServerHello, HandshakeFrame, EncodeFrame,
      DecodeFrame, Meet;
  }

  lemma ClientFinishedIsAccepted(p: Parties, s: System)
    requires Good(p, s) && s.serverSteps == 2 && s.clientSteps == 3
    ensures var t := ReceiveClientFinished(p, s);
            Good(p, t) && t.serverSteps == 3 && t.clientSteps == 3 && t.client == s.client
  {
    hide EncodeClientHello, EncodeServerHello, HonestClientHello, HonestServerHello, DecodeFrame, Meet;
  }

  // ---------- every run ----------

  // What the client believes about its peer once it has accepted a ServerHello.
  function Believed(p: Parties, late: Option<Claim>): Claim {
    match late
    case None => HonestClaim(p)
    case Some(x) => x
  }

  ghost predicate Tracks(p: Parties, s: System, late: Option<Claim>) {
    && Good(p, s)
    && (s.clientSteps >= 2 ==> s.client == Believe(ClientAfter(p, s.clientSteps), Some(Believed(p, late))))
    && (s.clientSteps < 2 ==> late.None?)
  }

  lemma ClientMoveTracks(p: Parties, s: System, late: Option<Claim>)
    requires Lawful(p.k) && Tracks(p, s, late) && ClientCanMove(s)
    ensures var t := ClientMove(p, s);
            Tracks(p, t, late) && t.clientSteps == s.clientSteps + 1 && t.serverSteps == s.serverSteps
  {
    hide Good, FullTranscript, SharedKey, HonestClaim, SendClientHello, ReceiveServerHello, ReceiveServerFinished, Lawful;
    if s.clientSteps == 0 {
      ClientHelloIsSent(p, s);
    } else if s.clientSteps == 1 {
      ServerHelloIsAccepted(p, s);
    } else {
      ServerFinishedIsAccepted(p, s);
    }
  }

  lemma ServerMoveTracks(p: Parties, s: System, late: Option<Claim>)
    requires Tracks(p, s, late) && ServerCanMove(s) && s.clientSteps <= 3
    ensures var t := ServerMove(p, s);
            Tracks(p, t, late) && t.serverSteps == s.serverSteps + 1 && t.clientSteps == s.clientSteps
  {
    hide Good, Believe, ClientAfter, ReceiveClientHello, SendServerFinished, ReceiveClientFinished;
    if s.serverSteps == 0 {
      ClientHelloIsAnswered(p, s);
    } else if s.serverSteps == 1 {
      ServerFinishedIsSent(p, s);
    } else {
      ClientFinishedIsAccepted(p, s);
    }
  }

  lemma Counts(p: Parties, s: System)
    requires Good(p, s)
    ensures s.clientSteps <= 3 && s.serverSteps <= 3
    ensures !ClientCanMove(s) && !ServerCanMove(s) <==> s.clientSteps == 3 && s.serverSteps == 3
  {
    hide Core, ClientAfter, ServerAfter, Carries, Addressed, MacPayload;
  }

  // An honest step is never refused, whatever has been rejected before it.
  lemma AdvanceTracks(p: Parties, s: System, late: Option<Claim>, clientFirst: bool)
    requires Lawful(p.k) && Tracks(p, s, late)
    ensures var t := Step(p, s, Advance(clientFirst));
            && Tracks(p, t, late)
            && t.clientSteps + t.serverSteps == Least(s.clientSteps + s.serverSteps + 1, 6)
  {
    assert Good(p, s);
    hide Tracks, Good, ClientMove, ServerMove, ClientCanMove, ServerCanMove;
    Counts(p, s);
    if ClientCanMove(s) && (clientFirst || !ServerCanMove(s)) {
      ClientMoveTracks(p, s, late);
    } else if ServerCanMove(s) {
      ServerMoveTracks(p, s, late);
    }
  }

  lemma BelievingKeepsTrack(p: Parties, s: System, late: Option<Claim>, claim: Option<Claim>)
    requires Tracks(p, s, late)
    ensures Tracks(p, s.(client := Believe(s.client, claim)),
                   if s.clientSteps >= 2 && claim.Some? then claim else late)
  {
    hide Carries, Addressed, ServerAfter, SharedKey, HonestClaim, MacPayload;
  }

  lemma NoLeftoverKey(p: Parties, s: System)
    requires Good(p, s)
    ensures s.client.sessionKey.Some? ==> s.client.peerConnectionId.Some?
  {
    hide Carries, Addressed, ServerAfter, MacPayload, FullTranscript, SharedKey;
  }

  // A rejection, unless it spoils the transcript, changes nothing but what the
  // client believes of its peer.
  lemma RejectionTracks(p: Parties, s: System, late: Option<Claim>, e: Event)
    requires Tracks(p, s, late) && !e.Advance? && !(e.BadServerHello? && Spoils(p.k, s.client, e.frame))
    ensures var t := Step(p, s, e);
            && Tracks(p, t, NextClaim(p, s, e, late))
            && t.clientSteps == s.clientSteps && t.serverSteps == s.serverSteps
  {
    NoLeftoverKey(p, s);
    hide Tracks, ProofFails, ClaimOf, Believe, Context.HandleClientHello, Context.HandleServerHello,
      Context.VerifyFinished, Context.HandleFinished;
    match e {
      case BadClientHello(frame, newId, ephemeral) =>
        RejectedClientHelloIsHarmless(s.server, p.k, frame, p.serverIdentity, p.serverCaps, newId, ephemeral);
      case BadServerHello(frame) =>
        RejectedServerHelloIsBelieved(s.client, p.k, frame);
        BelievingKeepsTrack(p, s, late, ClaimOf(frame));
      case BadFinishedAtClient(frame) =>
        RejectedFinishedIsHarmless(s.client, p.k, frame);
      case BadFinishedAtServer(frame) =>
        RejectedFinishedIsHarmless(s.server, p.k, frame);
      case _ =>
    }
  }

  // ---------- spoiled transcripts ----------

  predicate StartsWrong(t: bytes) {
    t != [] && t[0] == SERVER_LABEL[0]
  }

  // The client has recorded what the server never said: before all else, or
  // after all that both have said.
  ghost predicate Apart(p: Parties, s: System) {
    && s.client.ourConnectionId == p.clientId
    && (s.serverSteps == 0 ==> s.server == NewServer())
    && (s.serverSteps >= 1 ==> s.server.transcript == FullTranscript(p))
    && (s.clientSteps >= 1 ==> Carries(s.clientHello, FrameType.Initial, p.clientId, EncodeClientHello(HonestClientHello(p))))
    && (StartsWrong(s.client.transcript)
        || (s.clientSteps >= 2 && s.serverSteps >= 1 && |s.client.transcript| > |FullTranscript(p)|))
  }

  lemma FullStartsRight(p: Parties)
    ensures FullTranscript(p) != [] && FullTranscript(p)[0] == CLIENT_LABEL[0] != SERVER_LABEL[0]
  {
    hide EncodeClientHello, EncodeServerHello;
  }

  lemma ApartDiffers(p: Parties, s: System)
    requires Apart(p, s)
    ensures s.client.transcript != s.server.transcript
  {
    FullStartsRight(p);
    hide FullTranscript, Carries, Addressed;
  }

  lemma SpoilingSetsApart(p: Parties, s: System, frame: Frame)
    requires Good(p, s) && Spoils(p.k, s.client, frame)
    ensures Apart(p, Step(p, s, BadServerHello(frame)))
  {
    SpoilingExtendsTranscript(s.client, p.k, frame);
    ServerHelloAddsTo(s.client, p.k, frame);
    hide Context.HandleServerHello, Carries, Addressed, FullTranscript, FirstHalf, SharedKey, MacPayload, ProofFails,
      DecodeServerHello, EncodeClientHello, EncodeServerHello;
  }

  // A change at the client that only adds to its transcript.
  lemma ClientStaysApart(p: Parties, s: System, t: System)
    requires Apart(p, s) && t.server == s.server && t.serverSteps == s.serverSteps
    requires s.client.transcript <= t.client.transcript && t.client.ourConnectionId == p.clientId
    requires t.clientSteps >= s.clientSteps
    requires t.clientSteps >= 1 ==>
               Carries(t.clientHello, FrameType.Initial, p.clientId, EncodeClientHello(HonestClientHello(p)))
    ensures Apart(p, t)
  {
    hide FullTranscript, Carries, Addressed, EncodeClientHello;
  }

  lemma ClientMoveStaysApart(p: Parties, s: System)
    requires Apart(p, s) && ClientCanMove(s)
    ensures Apart(p, ClientMove(p, s))
  {
    hide Apart, EncodeClientHello, EncodeFrame, DecodeFrame, HonestClientHello, Context.HandleServerHello,
      Context.HandleFinished;
    if s.clientSteps == 0 {
      HelloStaysApart(p, s);
    } else if s.clientSteps == 1 {
      AnswerStaysApart(p, s);
    } else {
      FinishedStaysApart(p, s);
    }
  }

  lemma HelloAddsTo(p: Parties, s: System)
    requires s.client.ourConnectionId == p.clientId
    ensures var t := SendClientHello(p, s);
            && s.client.transcript <= t.client.transcript && t.client.ourConnectionId == p.clientId
            && t == s.(client := t.client, clientSteps := 1, clientHello := t.clientHello)
            && Carries(t.clientHello, FrameType.Initial, p.clientId, EncodeClientHello(HonestClientHello(p)))
  {
    var payload := EncodeClientHello(HonestClientHello(p));
    HonestHellosDecode(p);
    FrameCarries(FrameType.Initial, p.clientId, p.clientId, payload);
    hide EncodeClientHello, EncodeServerHello, MakeClientHello, HandshakeFrame, Carries, Addressed, EncodeFrame;
    Regroup(s.client.transcript, CLIENT_LABEL, payload);
  }

  lemma HelloStaysApart(p: Parties, s: System)
    requires Apart(p, s) && s.clientSteps == 0
    ensures Apart(p, SendClientHello(p, s))
  {
    HelloAddsTo(p, s);
    hide SendClientHello, Carries, Addressed, FullTranscript, EncodeClientHello;
    ClientStaysApart(p, s, SendClientHello(p, s));
  }

  lemma AnswerStaysApart(p: Parties, s: System)
    requires Apart(p, s) && s.clientSteps == 1
    ensures Apart(p, ReceiveServerHello(p, s))
  {
    hide DecodeFrame, EncodeClientHello, FullTranscript, Carries, Addressed, Context.HandleServerHello;
    if DecodeFrame(s.serverHello).Ok? {
      ServerHelloAddsTo(s.client, p.k, DecodeFrame(s.serverHello).value);
      ClientStaysApart(p, s, ReceiveServerHello(p, s));
    }
  }

  lemma FinishedStaysApart(p: Parties, s: System)
    requires Apart(p, s) && s.clientSteps == 2
    ensures Apart(p, ReceiveServerFinished(p, s))
  {
    hide DecodeFrame, EncodeFrame, EncodeClientHello, FullTranscript, Carries, Addressed, HandshakeFrame;
    ClientStaysApart(p, s, ReceiveServerFinished(p, s));
  }

  lemma ServerMoveStaysApart(p: Parties, s: System)
    requires Apart(p, s) && ServerCanMove(s)
    ensures Apart(p, ServerMove(p, s))
  {
    if s.serverSteps == 0 {
      FreshServerAnswers(p, s);
      hide ReceiveClientHello, FullTranscript, Carries, Addressed, EncodeClientHello, EncodeServerHello;
    } else {
      hide FullTranscript, Carries, Addressed, EncodeClientHello, EncodeFrame, DecodeFrame, HandshakeFrame;
    }
  }

  lemma FinishedKeepsTranscript(c: Context, k: Suite, frame: Frame)
    ensures c.HandleFinished(k, frame).0.transcript == c.transcript == c.VerifyFinished(k, frame).0.transcript
    ensures c.HandleFinished(k, frame).0.ourConnectionId == c.ourConnectionId
    ensures c.VerifyFinished(k, frame).1.Err? ==> c.VerifyFinished(k, frame).0 == c
  {
  }

  // Nothing that happens later brings the transcripts together again.
  lemma StaysApart(p: Parties, s: System, e: Event)
    requires Apart(p, s)
    ensures Apart(p, Step(p, s, e))
  {
    hide ClientMove, ServerMove, ClientCanMove, ServerCanMove, FullTranscript, Carries, Addressed, EncodeClientHello,
      Context.HandleClientHello, Context.HandleServerHello, Context.VerifyFinished, Context.HandleFinished;
    match e {
      case Advance(clientFirst) =>
        if ClientCanMove(s) && (clientFirst || !ServerCanMove(s)) {
          ClientMoveStaysApart(p, s);
        } else if ServerCanMove(s) {
          ServerMoveStaysApart(p, s);
        }
      case BadClientHello(frame, newId, ephemeral) =>
        RejectedClientHelloIsHarmless(s.server, p.k, frame, p.serverIdentity, p.serverCaps, newId, ephemeral);
      case BadServerHello(frame) =>
        ServerHelloAddsTo(s.client, p.k, frame);
        ClientStaysApart(p, s, Step(p, s, e));
      case BadFinishedAtClient(frame) =>
        FinishedKeepsTranscript(s.client, p.k, frame);
        ClientStaysApart(p, s, Step(p, s, e));
      case BadFinishedAtServer(frame) =>
        FinishedKeepsTranscript(s.server, p.k, frame);
    }
  }

  // Every run is where its honest steps have brought it, or spoiled for good.
  lemma {:induction false} RunsTrack(p: Parties, es: seq<Event>)
    requires Lawful(p.k)
    ensures var s := Run(p, es);
            if Spoiled(p, es) then Apart(p, s)
            else Tracks(p, s, LateClaim(p, es)) && s.clientSteps + s.serverSteps == Least(Advances(es), 6)
  {
    if es == [] {
      assert Good(p, Start(p));
    } else {
      var before, e := es[..|es| - 1], es[|es| - 1];
      var s := Run(p, before);
      RunsTrack(p, before);
      assert Run(p, es) == Step(p, s, e);
      assert Tracks(p, s, LateClaim(p, before)) ==> Good(p, s);
      hide Tracks, Good, Apart, Step, Lawful, Spoils;
      if Spoiled(p, before) {
        StaysApart(p, s, e);
      } else if Spoiled(p, es) {
        SpoilingSetsApart(p, s, e.frame);
      } else if e.Advance? {
        AdvanceTracks(p, s, LateClaim(p, before), e.clientFirst);
      } else {
        RejectionTracks(p, s, LateClaim(p, before), e);
      }
    }
  }

  // What was negotiated: more than one path only if both can, each limit the
  // lower of both, and the acknowledgement frequency as the client has it.
  predicate Negotiated(caps: Capabilities, client: Capabilities, server: Capabilities) {
    && (caps.multipath <==> client.multipath && server.multipath)
    && LowerOf(caps.maxStreams, client.maxStreams, server.maxStreams)
    && LowerOf(caps.maxStreamData, client.maxStreamData, server.maxStreamData)
    && LowerOf(caps.idleTimeoutMs, client.idleTimeoutMs, server.idleTimeoutMs)
    && caps.ackFrequency == client.ackFrequency
  }

  predicate LowerOf(x: int, a: int, b: int) {
    x <= a && x <= b && (x == a || x == b)
  }

  lemma MeetIsNegotiated(client: Capabilities, server: Capabilities)
    ensures Negotiated(Meet(server, client), client, server)
  {
  }

  // Both sides are Complete and share transcript, capabilities and the key of
  // their shared secret and that transcript, and the server knows the client.
  ghost predicate Agree(p: Parties, s: System) {
    && s.client.state == Complete && s.server.state == Complete
    && s.client.transcript == s.server.transcript == Transcript(HonestClientHello(p), HonestServerHello(p))
    && s.client.sessionKey == s.server.sessionKey
       == Some(p.k.sessionKey(p.k.dh(p.clientSecret, p.k.publicOf(p.serverSecret)), s.client.transcript))
    && s.client.capabilities.Some? && s.client.capabilities == s.server.capabilities
    && Negotiated(s.client.capabilities.value, p.clientCaps, p.serverCaps)
    && s.client.secret == s.server.secret == None
    && s.client.ourConnectionId == p.clientId && s.server.ourConnectionId == p.serverId
    && s.server.peerConnectionId == Some(p.clientId)
    && s.server.peerIdentity == Some(HashOf(p.k, p.clientIdentity))
  }

  lemma CompleteRunsAgree(p: Parties, s: System, late: Option<Claim>)
    requires Lawful(p.k) && Tracks(p, s, late) && s.clientSteps + s.serverSteps == 6
    ensures Agree(p, s) && s.clientSteps == 3 && s.serverSteps == 3
    ensures s.client.peerConnectionId == Some(Believed(p, late).id)
    ensures s.client.peerIdentity == Some(Believed(p, late).identity)
  {
    assert s.clientSteps == 3 && s.serverSteps == 3;
    assert [] + CLIENT_LABEL == CLIENT_LABEL;
    MeetIsNegotiated(p.clientCaps, p.serverCaps);
    assert p.k.dh(p.clientSecret, p.k.publicOf(p.serverSecret)) == p.k.dh(p.serverSecret, p.k.publicOf(p.clientSecret));
    hide EncodeClientHello, EncodeServerHello, MakeClientHello, MakeServerHello, Meet, Negotiated, Carries, Addressed, Lawful;
  }

  // Agreement. Once six honest steps have been tried, in whatever order and
  // with whatever rejections between them, both sides agree, and their
  // transcripts do, if and only if no rejected ServerHello passed the proof
  // check. The client then knows the server exactly if no rejected ServerHello
  // arrived after the accepted one and claimed otherwise.
  lemma Agreement(p: Parties, es: seq<Event>)
    requires Lawful(p.k) && Advances(es) >= 6
    ensures var s := Run(p, es);
            && (Agree(p, s) <==> !Spoiled(p, es))
            && (s.client.transcript == s.server.transcript <==> !Spoiled(p, es))
    ensures var s, late := Run(p, es), LateClaim(p, es);
            !Spoiled(p, es) ==>
              && (s.client.peerConnectionId == Some(p.serverId) <==> late.None? || late.value.id == p.serverId)
              && (s.client.peerIdentity == Some(HashOf(p.k, p.serverIdentity))
                  <==> late.None? || late.value.identity == HashOf(p.k, p.serverIdentity))
  {
    var s := Run(p, es);
    RunsTrack(p, es);
    assert Agree(p, s) ==> s.client.transcript == s.server.transcript;
    hide Run, LateClaim, Advances, Lawful, Tracks, Apart, Agree, Spoiled, Transcript;
    if Spoiled(p, es) {
      ApartDiffers(p, s);
    } else {
      CompleteRunsAgree(p, s, LateClaim(p, es));
    }
  }

  function PayloadOf(wire: bytes): bytes {
    match DecodeFrame(wire)
    case Err(_) => []
    case Ok(f) => f.payload
  }

  // What the four messages of a run say. The server signs the client's hello, with
  // its label, and nothing else; either Finished is the MAC of the transcript,
  // which is made of both hellos with their labels, under the session key.
  ghost predicate HellosSay(p: Parties, s: System) {
    var hello, answer := PayloadOf(s.clientHello), PayloadOf(s.serverHello);
    && Carries(s.clientHello, FrameType.Initial, p.clientId, hello) && Addressed(s.clientHello, p.clientId)
    && Carries(s.serverHello, FrameType.Initial, p.serverId, answer) && Addressed(s.serverHello, p.clientId)
    && DecodeClientHello(hello) == Done(ClientHello(
         0, p.clientId, [0], Aes256Gcm, p.k.publicOf(p.clientSecret), HashOf(p.k, p.clientIdentity),
         p.k.verifyingKey(p.clientIdentity), p.clientCaps))
    && s.server.capabilities.Some?
    && DecodeServerHello(answer) == Done(ServerHello(
         0, p.serverId, p.clientId, p.k.publicOf(p.serverSecret), HashOf(p.k, p.serverIdentity),
         p.k.verifyingKey(p.serverIdentity), p.k.sign(p.serverIdentity, CLIENT_LABEL + hello),
         s.server.capabilities.value))
    && s.client.transcript == CLIENT_LABEL + hello + SERVER_LABEL + answer
  }

  ghost predicate FinishedsSay(p: Parties, s: System) {
    && s.client.sessionKey.Some?
    && var mac := p.k.finishedMac(s.client.sessionKey.value, s.client.transcript);
    && Carries(s.serverFinished, FrameType.Handshake, p.serverId, mac) && Addressed(s.serverFinished, p.clientId)
    && Carries(s.clientFinished, FrameType.Handshake, p.clientId, mac)
  }

  lemma CarriedPayload(wire: bytes, t: FrameType, from: u64, payload: bytes)
    requires Carries(wire, t, from, payload)
    ensures PayloadOf(wire) == payload
  {
    hide DecodeFrame;
  }

  lemma TrackedHellosSay(p: Parties, s: System)
    requires Good(p, s) && s.clientSteps == s.serverSteps == 3
    ensures HellosSay(p, s)
  {
    hide DecodeFrame, DecodeClientHello, DecodeServerHello, EncodeClientHello, EncodeServerHello, Carries, Addressed, PayloadOf,
      Meet;
    HonestHellosDecode(p);
    CarriedPayload(s.clientHello, FrameType.Initial, p.clientId, EncodeClientHello(HonestClientHello(p)));
    CarriedPayload(s.serverHello, FrameType.Initial, p.serverId, EncodeServerHello(HonestServerHello(p)));
    assert [] + CLIENT_LABEL == CLIENT_LABEL;
  }

  lemma TrackedFinishedsSay(p: Parties, s: System)
    requires Good(p, s) && s.clientSteps == s.serverSteps == 3
    ensures FinishedsSay(p, s)
  {
    hide Carries, Addressed, EncodeClientHello, EncodeServerHello, FullTranscript, SharedKey;
  }

  lemma MessagesSay(p: Parties, es: seq<Event>)
    requires Lawful(p.k) && Advances(es) >= 6 && !Spoiled(p, es)
    ensures HellosSay(p, Run(p, es)) && FinishedsSay(p, Run(p, es))
  {
    var s := Run(p, es);
    RunsTrack(p, es);
    CompleteRunsAgree(p, s, LateClaim(p, es));
    hide Run, Lawful, Spoiled, Apart, Spoils, LateClaim, Advances, Good, HellosSay, FinishedsSay, Agree;
    TrackedHellosSay(p, s);
    TrackedFinishedsSay(p, s);
  }

  // Every bad ServerHello comes before the honest one is accepted.
  ghost predicate NoLateServerHello(p: Parties, es: seq<Event>) {
    forall i | 0 <= i < |es| :: es[i].BadServerHello? ==> Run(p, es[..i]).clientSteps < 2
  }

  lemma {:induction false} EarlyRejectionsMakeNoClaim(p: Parties, es: seq<Event>)
    requires NoLateServerHello(p, es)
    ensures LateClaim(p, es) == None
  {
    if es != [] {
      var n := |es| - 1;
      assert forall i | 0 <= i < n :: es[..n][i] == es[i] && es[..n][..i] == es[..i];
      EarlyRejectionsMakeNoClaim(p, es[..n]);
      assert es[n].BadServerHello? ==> Run(p, es[..n]).clientSteps < 2;
    }
  }

  // Then, and if none of them passes the proof check, the two sides agree on
  // everything.
  lemma FullAgreement(p: Parties, es: seq<Event>)
    requires Lawful(p.k) && Advances(es) >= 6 && NoLateServerHello(p, es) && !Spoiled(p, es)
    ensures var s := Run(p, es);
            && Agree(p, s)
            && s.client.peerConnectionId == Some(s.server.ourConnectionId)
            && s.server.peerConnectionId == Some(s.client.ourConnectionId)
            && s.client.peerIdentity == Some(HashOf(p.k, p.serverIdentity))
            && s.server.peerIdentity == Some(HashOf(p.k, p.clientIdentity))
  {
    EarlyRejectionsMakeNoClaim(p, es);
    hide Run, LateClaim, Advances, Lawful, NoLateServerHello, Spoiled, Transcript;
    Agreement(p, es);
  }

  // In particular when they all come while the client waits for the honest one.
  ghost predicate OnlyAwaited(p: Parties, es: seq<Event>) {
    forall i | 0 <= i < |es| :: es[i].BadServerHello? ==> Run(p, es[..i]).clientSteps == 1
  }

  lemma WaitingHasSecret(p: Parties, s: System)
    requires Good(p, s) && s.clientSteps == 1
    ensures s.client.secret.Some?
  {
    hide Carries, Addressed, ServerAfter, MacPayload, FirstHalf;
  }

  lemma {:induction false} AwaitedRejectionsAreSafe(p: Parties, es: seq<Event>)
    requires Lawful(p.k) && OnlyAwaited(p, es)
    ensures !Spoiled(p, es) && NoLateServerHello(p, es)
  {
    if es != [] {
      var n := |es| - 1;
      var before, e := es[..n], es[n];
      assert forall i | 0 <= i < n :: before[i] == es[i] && before[..i] == es[..i];
      AwaitedRejectionsAreSafe(p, before);
      RunsTrack(p, before);
      assert e.BadServerHello? ==> Run(p, before).clientSteps == 1;
      assert Good(p, Run(p, before));
      hide Good, Tracks, Apart, Lawful, Run, Spoils, Context.HandleServerHello;
      if e.BadServerHello? {
        WaitingHasSecret(p, Run(p, before));
        SpoilingExtendsTranscript(Run(p, before).client, p.k, e.frame);
      }
    }
  }

  // A ServerHello without any proof, claiming some id.
  function Proofless(p: Parties, id: u64): Frame {
    var blank: Key := seq(32, _ => 0);
    HandshakeFrame(FrameType.Initial, p.clientId, id,
                   EncodeServerHello(ServerHello(AETHER_VERSION, id, p.clientId, blank, blank, blank, [], p.serverCaps)))
  }

  lemma ProoflessFails(p: Parties, c: Context, id: u64)
    ensures ProofFails(p.k, c, Proofless(p, id))
    ensures ClaimOf(Proofless(p, id)).Some? && ClaimOf(Proofless(p, id)).value.id == id
  {
    var blank: Key := seq(32, _ => 0);
    var hello := ServerHello(AETHER_VERSION, id, p.clientId, blank, blank, blank, [], p.serverCaps);
    assert Proofless(p, id).payload == EncodeServerHello(hello);
    hide EncodeServerHello, DecodeServerHello, HandshakeFrame;
    ServerHelloRoundTrip(hello, []);
    assert EncodeServerHello(hello) + [] == EncodeServerHello(hello);
  }

  // A single ServerHello without any proof, after any run in which both agree, is
  // rejected and still leaves the client with the wrong peer id.
  lemma LateServerHelloMisleads(p: Parties, es: seq<Event>) returns (e: Event)
    requires Lawful(p.k) && Advances(es) >= 6 && !Spoiled(p, es)
    ensures e.BadServerHello? && Run(p, es).client.HandleServerHello(p.k, e.frame).1.Failed?
    ensures var s := Run(p, es + [e]);
            Agree(p, s) && s.client.peerConnectionId != Some(s.server.ourConnectionId)
  {
    var wrong: u64 := if p.serverId == 0 then 1 else 0;
    e := BadServerHello(Proofless(p, wrong));
    assert (es + [e])[..|es + [e]| - 1] == es;
    assert Advances(es + [e]) == Advances(es);
    RunsTrack(p, es);
    CompleteRunsAgree(p, Run(p, es), LateClaim(p, es));
    hide Lawful, Proofless, ProofFails, ClaimOf, Context.HandleServerHello, Run, Advances, Tracks, Step, Transcript;
    ProoflessFails(p, Run(p, es).client, wrong);
    RejectedServerHelloIsBelieved(Run(p, es).client, p.k, e.frame);
    assert LateClaim(p, es + [e]) == ClaimOf(e.frame);
    assert !Spoiled(p, es + [e]);
    Agreement(p, es + [e]);
  }

  // A ServerHello that makes exactly the honest claim, signed by anyone at all
  // over what the client has heard.
  function Signed(p: Parties, heard: bytes, id: Identity): Frame {
    HandshakeFrame(FrameType.Initial, p.clientId, p.serverId,
                   EncodeServerHello(ServerHello(AETHER_VERSION, p.serverId, p.clientId, p.k.publicOf(p.serverSecret),
                                                 HashOf(p.k, p.serverIdentity), p.k.verifyingKey(id), p.k.sign(id, heard),
                                                 p.serverCaps)))
  }

  lemma SignedPasses(p: Parties, c: Context, id: Identity)
    requires Lawful(p.k)
    ensures !ProofFails(p.k, c, Signed(p, c.transcript, id))
    ensures DecodeServerHello(Signed(p, c.transcript, id).payload).Done?
    ensures ClaimOf(Signed(p, c.transcript, id)) == Some(HonestClaim(p))
  {
    var frame := Signed(p, c.transcript, id);
    var hello := ServerHello(AETHER_VERSION, p.serverId, p.clientId, p.k.publicOf(p.serverSecret),
                             HashOf(p.k, p.serverIdentity), p.k.verifyingKey(id), p.k.sign(id, c.transcript), p.serverCaps);
    assert frame.payload == EncodeServerHello(hello);
    assert p.k.verify(p.k.verifyingKey(id), c.transcript, p.k.sign(id, c.transcript));
    hide EncodeServerHello, DecodeServerHello, HandshakeFrame, Lawful;
    ServerHelloRoundTrip(hello, []);
    assert EncodeServerHello(hello) + [] == EncodeServerHello(hello);
  }

  // Once the client has accepted the honest ServerHello its secret is used up. A
  // ServerHello with a passing proof, from any identity and with the honest claim,
  // is then rejected, and has become part of its transcript.
  lemma UsedUpSecretSpoils(p: Parties, es: seq<Event>, id: Identity) returns (e: Event)
    requires Lawful(p.k) && !Spoiled(p, es) && Run(p, es).clientSteps >= 2
    ensures e.BadServerHello? && ClaimOf(e.frame) == Some(HonestClaim(p))
    ensures !ProofFails(p.k, Run(p, es).client, e.frame)
    ensures Run(p, es).client.HandleServerHello(p.k, e.frame).1 == Failed(InvalidState)
    ensures |Run(p, es + [e]).client.transcript| > |Run(p, es).client.transcript|
    ensures Spoiled(p, es + [e]) && Run(p, es + [e]).client.transcript != Run(p, es + [e]).server.transcript
  {
    var s := Run(p, es);
    e := BadServerHello(Signed(p, s.client.transcript, id));
    assert (es + [e])[..|es + [e]| - 1] == es;
    RunsTrack(p, es);
    assert s.client.secret.None?;
    SignedPasses(p, s.client, id);
    SpoilingExtendsTranscript(s.client, p.k, e.frame);
    assert Run(p, es + [e]).client == s.client.HandleServerHello(p.k, e.frame).0;
    hide Lawful, Signed, ProofFails, ClaimOf, Context.HandleServerHello, Run, Tracks, Apart, Step, DecodeServerHello;
    RunsTrack(p, es + [e]);
    ApartDiffers(p, Run(p, es + [e]));
  }

  // ---------- honest messages that come again ----------

  // A Finished that comes again, at either side, changes nothing.
  lemma DuplicateFinishedIsHarmless(p: Parties, es: seq<Event>)
    requires Lawful(p.k) && Advances(es) >= 6 && !Spoiled(p, es)
    ensures var s := Run(p, es);
            && DecodeFrame(s.serverFinished).Ok? && DecodeFrame(s.clientFinished).Ok?
            && s.client.HandleFinished(p.k, DecodeFrame(s.serverFinished).value).0 == s.client
            && s.client.HandleFinished(p.k, DecodeFrame(s.serverFinished).value).1.Ok?
            && s.server.VerifyFinished(p.k, DecodeFrame(s.clientFinished).value) == (s.server, Ok(()))
  {
    var s := Run(p, es);
    RunsTrack(p, es);
    CompleteRunsAgree(p, s, LateClaim(p, es));
    assert Carries(s.serverFinished, FrameType.Handshake, p.serverId, MacPayload(p));
    assert Carries(s.clientFinished, FrameType.Handshake, p.clientId, MacPayload(p));
    assert Core(s.client) == Core(ClientAfter(p, 3)) && s.server == ServerAfter(p, 3);
    hide Run, LateClaim, Tracks, Good, Agree, Spoiled, Advances, DecodeFrame, FullTranscript, SharedKey, HandshakeFrame;
  }

  // A ClientHello that comes again is answered again: the server's transcript
  // grows, and the two sides no longer agree.
  lemma DuplicateClientHelloRekeys(p: Parties, es: seq<Event>, newId: u64, ephemeral: Secret)
    requires Lawful(p.k) && Advances(es) >= 6 && !Spoiled(p, es)
    ensures var s := Run(p, es);
            && DecodeFrame(s.clientHello).Ok?
            && var (server, r) := s.server.HandleClientHello(p.k, DecodeFrame(s.clientHello).value, p.serverIdentity,
                                                            p.serverCaps, newId, ephemeral);
               r.Done? && server.ourConnectionId == newId && server.transcript != s.client.transcript
  {
    var s := Run(p, es);
    RunsTrack(p, es);
    CompleteRunsAgree(p, s, LateClaim(p, es));
    assert Carries(s.clientHello, FrameType.Initial, p.clientId, EncodeClientHello(HonestClientHello(p)));
    HonestHellosDecode(p);
    assert AETHER_VERSION in HonestClientHello(p).supportedVersions;
    var frame := DecodeFrame(s.clientHello).value;
    assert s.client.transcript == s.server.transcript;
    hide Run, LateClaim, Tracks, Good, Agree, Spoiled, Advances, DecodeFrame, DecodeClientHello, EncodeClientHello, Lawful,
      HonestClientHello, HonestServerHello;
    RejectedClientHelloIsHarmless(s.server, p.k, frame, p.serverIdentity, p.serverCaps, newId, ephemeral);
    AnswerTakesNewId(s.server, p.k, frame, p.serverIdentity, p.serverCaps, newId, ephemeral);
  }

  lemma AnswerTakesNewId(c: Context, k: Suite, frame: Frame, id: Identity, caps: Capabilities, newId: u64, ephemeral: Secret)
    ensures c.HandleClientHello(k, frame, id, caps, newId, ephemeral).1.Done? ==>
              c.HandleClientHello(k, frame, id, caps, newId, ephemeral).0.ourConnectionId == newId
  {
    hide DecodeClientHello, EncodeServerHello, MakeServerHello, HandshakeFrame, Meet;
  }
}
