// One side of the handshake: HandshakeContext in aether-core/src/handshake.rs.
// The cryptography is a record of functions, of which only the laws in Lawful
// are ever used; random ids and keys are arguments.
module Handshakes {
  import opened Bytes
  import opened Framing
  import opened Hellos

  datatype Secret = Secret(seed: nat)
  datatype Identity = Identity(seed: nat)

  datatype Suite = Suite(
    publicOf: Secret -> Key,
    dh: (Secret, Key) -> Key,
    sessionKey: (Key, bytes) -> Key,
    finishedMac: (Key, bytes) -> Key,
    verifyingKey: Identity -> Key,
    identityHash: Key -> Key,
    sign: (Identity, bytes) -> Signature,
    verify: (Key, bytes, Signature) -> bool)

  // Key agreement commutes, and what an identity signs verifies under its key.
  ghost predicate Lawful(k: Suite) {
    && (forall a: Secret, b: Secret :: k.dh(a, k.publicOf(b)) == k.dh(b, k.publicOf(a)))
    && (forall id: Identity, m: bytes :: k.verify(k.verifyingKey(id), m, k.sign(id, m)))
  }

  function Filled(first: byte, n: nat): (b: bytes)
    requires n > 0
    ensures |b| == n && b[0] == first
  {
    [first] + seq(n - 1, _ => 0)
  }

  // A suite of no cryptographic worth, all of whose values are one byte long.
  function ToySuite(): Suite {
    Suite(
      (s: Secret) => Filled(s.seed % 0x100, 32),
      (s: Secret, p: Key) => Filled((s.seed % 0x100 + p[0]) % 0x100, 32),
      (s: Key, t: bytes) => s, (s: Key, t: bytes) => s,
      (id: Identity) => Filled(id.seed % 0x100, 32), (p: Key) => p,
      (id: Identity, m: bytes) => Filled(id.seed % 0x100, 64),
      (p: Key, m: bytes, g: Signature) => g[0] == p[0])
  }

  lemma ToySuiteIsLawful()
    ensures Lawful(ToySuite())
  {
    hide Filled;
    var k := ToySuite();
    forall a: Secret, b: Secret ensures k.dh(a, k.publicOf(b)) == k.dh(b, k.publicOf(a)) {
      assert k.publicOf(a)[0] == a.seed % 0x100 && k.publicOf(b)[0] == b.seed % 0x100;
    }
  }

  // The laws can be met, and by a suite that tells secrets apart and rejects
  // what was not signed.
  lemma LawsAreConsistent()
    ensures exists k :: Lawful(k)
              && k.dh(Secret(0), k.publicOf(Secret(0))) != k.dh(Secret(0), k.publicOf(Secret(1)))
              && !k.verify(k.verifyingKey(Identity(0)), [], k.sign(Identity(1), []))
  {
    ToySuiteIsLawful();
    hide Filled, Lawful;
    var k := ToySuite();
    assert k.dh(Secret(0), k.publicOf(Secret(0)))[0] == 0 && k.dh(Secret(0), k.publicOf(Secret(1)))[0] == 1;
    assert k.verifyingKey(Identity(0))[0] == 0 && k.sign(Identity(1), [])[0] == 1;
  }

  datatype HandshakeState = Initial | HelloSent | KeysDerived | Complete | FailedState

  function Least(a: int, b: int): int {
    if a <= b then a else b
  }

  // What both sides can do; the acknowledgement frequency is the client's choice.
  function Meet(server: Capabilities, client: Capabilities): Capabilities {
    Capabilities(server.multipath && client.multipath, Least(server.maxStreams, client.maxStreams),
                 Least(server.maxStreamData, client.maxStreamData), client.ackFrequency,
                 Least(server.idleTimeoutMs, client.idleTimeoutMs))
  }

  function MakeClientHello(k: Suite, connectionId: u64, public: Key, id: Identity, caps: Capabilities): ClientHello {
    ClientHello(AETHER_VERSION, connectionId, [AETHER_VERSION], Aes256Gcm, public,
                k.identityHash(k.verifyingKey(id)), k.verifyingKey(id), caps)
  }

  function MakeServerHello(k: Suite, sourceId: u64, destId: u64, public: Key, id: Identity, transcript: bytes,
                           caps: Capabilities): ServerHello {
    ServerHello(AETHER_VERSION, sourceId, destId, public, k.identityHash(k.verifyingKey(id)),
                k.verifyingKey(id), k.sign(id, transcript), caps)
  }

  // Handshake messages travel in long frames on the control stream.
  function HandshakeFrame(t: FrameType, toward: u64, from: u64, payload: bytes): Frame {
    NewLong(t, CONTROL_STREAM_ID, toward / U32, from, payload)
  }

  datatype Context = Context(
    state: HandshakeState, ourConnectionId: u64, peerConnectionId: Option<u64>, secret: Option<Secret>,
    peerPublic: Option<Key>, transcript: bytes, sessionKey: Option<Key>,
    capabilities: Option<Capabilities>, peerIdentity: Option<Key>, isClient: bool)
  {
    // Uses up our secret, even when the peer's key is missing.
    function DeriveKeys(k: Suite): (Context, Result<()>) {
      if secret.None? then (this, Err(InvalidState))
      else if peerPublic.None? then (this.(secret := None), Err(InvalidState))
      else
        (this.(secret := None, sessionKey := Some(k.sessionKey(k.dh(secret.value, peerPublic.value), transcript))),
         Ok(()))
    }

    function CreateClientHello(k: Suite, id: Identity, caps: Capabilities, ephemeral: Secret): (Context, Frame) {
      var payload := EncodeClientHello(MakeClientHello(k, ourConnectionId, k.publicOf(ephemeral), id, caps));
      (this.(secret := Some(ephemeral), peerPublic := None, transcript := transcript + CLIENT_LABEL + payload,
             state := HelloSent),
       HandshakeFrame(FrameType.Initial, ourConnectionId, ourConnectionId, payload))
    }

    function HandleClientHello(k: Suite, frame: Frame, id: Identity, caps: Capabilities, newId: u64, ephemeral: Secret)
      : (Context, Attempt<Frame>)
    {
      match DecodeClientHello(frame.payload)
      case Panicked => (this, Panicked)
      case Failed(e) => (this, Failed(e))
      case Done(hello) =>
        if AETHER_VERSION !in hello.supportedVersions then (this, Failed(Error.VersionNegotiation))
        else AnswerClientHello(k, hello, frame.payload, id, caps, newId, ephemeral)
    }

    function AnswerClientHello(k: Suite, hello: ClientHello, payload: bytes, id: Identity, caps: Capabilities,
                               newId: u64, ephemeral: Secret): (Context, Attempt<Frame>)
    {
      var heard := transcript + CLIENT_LABEL + payload;
      var negotiated := Meet(caps, hello.capabilities);
      var answer := EncodeServerHello(
        MakeServerHello(k, newId, hello.connectionId, k.publicOf(ephemeral), id, heard, negotiated));
      var ready := this.(
        peerConnectionId := Some(hello.connectionId), ourConnectionId := newId,
        peerPublic := Some(hello.x25519Public), peerIdentity := Some(hello.identity),
        transcript := heard + SERVER_LABEL + answer, secret := Some(ephemeral));
      (ready.DeriveKeys(k).0.(capabilities := Some(negotiated), state := KeysDerived),
       Done(HandshakeFrame(FrameType.Initial, hello.connectionId, newId, answer)))
    }

    // The peer's id, key and identity are taken over before the proof is checked.
    function HandleServerHello(k: Suite, frame: Frame): (Context, Attempt<()>) {
      match DecodeServerHello(frame.payload)
      case Panicked => (this, Panicked)
      case Failed(e) => (this, Failed(e))
      case Done(hello) =>
        var seen := this.(peerConnectionId := Some(hello.sourceConnectionId), peerPublic := Some(hello.x25519Public),
                          peerIdentity := Some(hello.identity));
        if |hello.identityProof| != 64 then (seen, Failed(Error.Crypto))
        else if !k.verify(hello.identityPublicKey, transcript, hello.identityProof) then (seen, Failed(Error.Crypto))
        else
          var (keyed, outcome) := seen.(transcript := transcript + SERVER_LABEL + frame.payload).DeriveKeys(k);
          if outcome.Err? then (keyed, Failed(outcome.error))
          else (keyed.(capabilities := Some(hello.capabilities), state := KeysDerived), Done(()))
    }

    function CreateFinished(k: Suite): Result<Frame> {
      if sessionKey.None? || peerConnectionId.None? then Err(InvalidState)
      else Ok(HandshakeFrame(FrameType.Handshake, peerConnectionId.value, ourConnectionId,
                             k.finishedMac(sessionKey.value, transcript)))
    }

    function VerifyFinished(k: Suite, frame: Frame): (Context, Result<()>) {
      if sessionKey.None? then (this, Err(InvalidState))
      else if k.finishedMac(sessionKey.value, transcript) != frame.payload then (this, Err(Error.Crypto))
      else (this.(state := Complete), Ok(()))
    }

    // Checks the peer's Finished and answers with ours. The state is Complete
    // even when the answer then cannot be addressed.
    function HandleFinished(k: Suite, frame: Frame): (Context, Result<Frame>) {
      var (done, outcome) := VerifyFinished(k, frame);
      if outcome.Err? then (this, Err(outcome.error)) else (done, done.CreateFinished(k))
    }
  }

  function NewClient(connectionId: u64): Context {
    Context(HandshakeState.Initial, connectionId, None, None, None, [], None, None, None, true)
  }

  function NewServer(): Context {
    Context(HandshakeState.Initial, 0, None, None, None, [], None, None, None, false)
  }

  class HandshakeContext {
    var state: HandshakeState
    var ourConnectionId: u64
    var peerConnectionId: Option<u64>
    var secret: Option<Secret>
    var peerPublic: Option<Key>
    var transcript: bytes
    var sessionKey: Option<Key>
    var capabilities: Option<Capabilities>
    var peerIdentity: Option<Key>
    const isClient: bool

    ghost function View(): Context
      reads this
    {
      Context(state, ourConnectionId, peerConnectionId, secret, peerPublic, transcript, sessionKey,
              capabilities, peerIdentity, isClient)
    }

    constructor Client(connectionId: u64)
      ensures View() == NewClient(connectionId)
    {
      state, ourConnectionId, isClient := HandshakeState.Initial, connectionId, true;
      peerConnectionId, secret, peerPublic, transcript := None, None, None, [];
      sessionKey, capabilities, peerIdentity := None, None, None;
    }

    constructor Server()
      ensures View() == NewServer()
    {
      state, ourConnectionId, isClient := HandshakeState.Initial, 0, false;
      peerConnectionId, secret, peerPublic, transcript := None, None, None, [];
      sessionKey, capabilities, peerIdentity := None, None, None;
    }

    method DeriveKeys(k: Suite) returns (r: Result<()>)
      modifies this
      ensures (View(), r) == old(View()).DeriveKeys(k)
    {
      if secret.None? {
        return Err(InvalidState);
      }
      var ours := secret.value;
      secret := None;
      if peerPublic.None? {
        return Err(InvalidState);
      }
      var shared := k.dh(ours, peerPublic.value);
      sessionKey := Some(k.sessionKey(shared, transcript));
      r := Ok(());
    }

    method CreateClientHello(k: Suite, id: Identity, caps: Capabilities, ephemeral: Secret) returns (frame: Frame)
      modifies this
      ensures (View(), frame) == old(View()).CreateClientHello(k, id, caps, ephemeral)
    {
      secret := Some(ephemeral);
      peerPublic := None;
      var data := WriteClientHello(MakeClientHello(k, ourConnectionId, k.publicOf(ephemeral), id, caps));
      transcript := transcript + CLIENT_LABEL;
      transcript := transcript + data;
      state := HelloSent;
      frame := HandshakeFrame(FrameType.Initial, ourConnectionId, ourConnectionId, data);
    }

    method HandleClientHello(k: Suite, frame: Frame, id: Identity, caps: Capabilities, newId: u64, ephemeral: Secret)
      returns (r: Attempt<Frame>)
      modifies this
      ensures (View(), r) == old(View()).HandleClientHello(k, frame, id, caps, newId, ephemeral)
    {
      hide Context.AnswerClientHello, DecodeClientHello;
      var decoded := ReadClientHello(frame.payload);
      match decoded {
        case Panicked => return Panicked;
        case Failed(e) => return Failed(e);
        case Done(hello) =>
          if AETHER_VERSION !in hello.supportedVersions {
            return Failed(Error.VersionNegotiation);
          }
          r := AnswerClientHello(k, hello, frame.payload, id, caps, newId, ephemeral);
      }
    }

    method AnswerClientHello(k: Suite, hello: ClientHello, payload: bytes, id: Identity, caps: Capabilities,
                             newId: u64, ephemeral: Secret) returns (r: Attempt<Frame>)
      modifies this
      ensures (View(), r) == old(View()).AnswerClientHello(k, hello, payload, id, caps, newId, ephemeral)
    {
      hide EncodeServerHello, Be, Meet, MakeServerHello, HandshakeFrame;
      peerConnectionId := Some(hello.connectionId);
      ourConnectionId := newId;
      peerPublic := Some(hello.x25519Public);
      peerIdentity := Some(hello.identity);
      transcript := transcript + CLIENT_LABEL;
      transcript := transcript + payload;
      secret := Some(ephemeral);
      var negotiated := Meet(caps, hello.capabilities);
      var data := WriteServerHello(
        MakeServerHello(k, newId, hello.connectionId, k.publicOf(ephemeral), id, transcript, negotiated));
      transcript := transcript + SERVER_LABEL;
      transcript := transcript + data;
      var keyed := DeriveKeys(k);
      assert keyed.Ok?;  // both keys have just been set
      capabilities := Some(negotiated);
      state := KeysDerived;
      r := Done(HandshakeFrame(FrameType.Initial, hello.connectionId, newId, data));
    }

    method HandleServerHello(k: Suite, frame: Frame) returns (r: Attempt<()>)
      modifies this
      ensures (View(), r) == old(View()).HandleServerHello(k, frame)
    {
      hide DecodeServerHello;
      var decoded := ReadServerHello(frame.payload);
      match decoded {
        case Panicked => return Panicked;
        case Failed(e) => return Failed(e);
        case Done(hello) =>
          peerConnectionId := Some(hello.sourceConnectionId);
          peerPublic := Some(hello.x25519Public);
          peerIdentity := Some(hello.identity);
          if |hello.identityProof| != 64 {
            return Failed(Error.Crypto);
          }
          if !k.verify(hello.identityPublicKey, transcript, hello.identityProof) {
            return Failed(Error.Crypto);
          }
          transcript := transcript + SERVER_LABEL;
          transcript := transcript + frame.payload;
          var keyed := DeriveKeys(k);
          if keyed.Err? {
            return Failed(keyed.error);
          }
          capabilities := Some(hello.capabilities);
          state := KeysDerived;
          r := Done(());
      }
    }

    method CreateFinished(k: Suite) returns (r: Result<Frame>)
      ensures r == View().CreateFinished(k)
    {
      if sessionKey.None? || peerConnectionId.None? {
        return Err(InvalidState);
      }
      var mac := k.finishedMac(sessionKey.value, transcript);
      r := Ok(HandshakeFrame(FrameType.Handshake, peerConnectionId.value, ourConnectionId, mac));
    }

    method HandleFinishedAndRespond(k: Suite, frame: Frame) returns (r: Result<Frame>)
      modifies this
      ensures (View(), r) == old(View()).HandleFinished(k, frame)
    {
      if sessionKey.None? {
        return Err(InvalidState);
      }
      if k.finishedMac(sessionKey.value, transcript) != frame.payload {
        return Err(Error.Crypto);
      }
      var mac := k.finishedMac(sessionKey.value, transcript);
      state := Complete;
      if peerConnectionId.None? {
        return Err(InvalidState);
      }
      r := Ok(HandshakeFrame(FrameType.Handshake, peerConnectionId.value, ourConnectionId, mac));
    }

    method VerifyFinished(k: Suite, frame: Frame) returns (r: Result<()>)
      modifies this
      ensures (View(), r) == old(View()).VerifyFinished(k, frame)
    {
      if sessionKey.None? {
        return Err(InvalidState);
      }
      if k.finishedMac(sessionKey.value, transcript) != frame.payload {
        return Err(Error.Crypto);
      }
      state := Complete;
      r := Ok(());
    }
  }
}
