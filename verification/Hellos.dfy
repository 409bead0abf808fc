// The two hello messages of the handshake and their codecs
// (aether-core/src/handshake.rs). The decoders index their input without
// checking its length first; where the library would stop with an out-of-range
// index, the decoders here return Panicked.
module Hellos {
  import opened Bytes

  type Key = b: bytes | |b| == 32 witness seq(32, _ => 0)
  type Signature = b: bytes | |b| == 64 witness seq(64, _ => 0)

  datatype Attempt<+T> = Done(value: T) | Failed(error: Error) | Panicked

  datatype AeadAlgorithm = Aes256Gcm | ChaCha20Poly1305 {
    function Code(): byte {
      if Aes256Gcm? then 0 else 1
    }
  }

  datatype Capabilities = Capabilities(
    multipath: bool, maxStreams: u32, maxStreamData: u64, ackFrequency: byte, idleTimeoutMs: u64)

  datatype ClientHello = ClientHello(
    version: byte, connectionId: u64, supportedVersions: seq<byte>, aead: AeadAlgorithm,
    x25519Public: Key, identity: Key, identityPublicKey: Key, capabilities: Capabilities)

  datatype ServerHello = ServerHello(
    version: byte, sourceConnectionId: u64, destConnectionId: u64, x25519Public: Key,
    identity: Key, identityPublicKey: Key, identityProof: bytes, capabilities: Capabilities)

  // ---------- what the encoders write ----------

  function EncodeCapabilities(c: Capabilities): (b: bytes)
    ensures |b| == 22
  {
    [if c.multipath then 1 else 0] + Be(c.maxStreams, 4) + Be(c.maxStreamData, 8)
    + [c.ackFrequency] + Be(c.idleTimeoutMs, 8)
  }

  function EncodeKeys(a: Key, b: Key, c: Key): (k: bytes)
    ensures |k| == 96
  {
    a + b + c
  }

  function ClientHead(h: ClientHello): (b: bytes)
    ensures |b| == 10
  {
    [h.version] + Be(h.connectionId, 8) + [|h.supportedVersions| % 0x100]
  }

  // The number of versions goes out as one byte.
  function EncodeClientHello(h: ClientHello): bytes {
    ClientHead(h) + h.supportedVersions + [h.aead.Code()]
    + EncodeKeys(h.x25519Public, h.identity, h.identityPublicKey) + EncodeCapabilities(h.capabilities)
  }

  function ServerHead(h: ServerHello): (b: bytes)
    ensures |b| == 17
  {
    [h.version] + Be(h.sourceConnectionId, 8) + Be(h.destConnectionId, 8)
  }

  // The length of the proof goes out as two bytes.
  function EncodeServerHello(h: ServerHello): bytes {
    ServerHead(h) + EncodeKeys(h.x25519Public, h.identity, h.identityPublicKey)
    + Be(|h.identityProof|, 2) + h.identityProof + EncodeCapabilities(h.capabilities)
  }

  // ---------- what the decoders read ----------

  function DecodeCapabilities(b: bytes): Capabilities
    requires |b| == 22
  {
    Capabilities(b[0] != 0, ReadU32(b[1..5]), ReadU64(b[5..13]), b[13], ReadU64(b[14..22]))
  }

  function DecodeClientHello(data: bytes): Attempt<ClientHello> {
    if |data| < 80 then Failed(ProtocolViolation)
    else
      var n: nat := data[9];
      if |data| < 11 + n then Panicked
      else if data[10 + n] > 1 then Failed(ProtocolViolation)
      else if |data| < 129 + n then Panicked
      else Done(ClientHello(
        data[0], ReadU64(data[1..9]), data[10..10 + n],
        if data[10 + n] == 0 then Aes256Gcm else ChaCha20Poly1305,
        data[11 + n..43 + n], data[43 + n..75 + n], data[75 + n..107 + n],
        DecodeCapabilities(data[107 + n..129 + n])))
  }

  function DecodeServerHello(data: bytes): Attempt<ServerHello> {
    if |data| < 115 then Panicked
    else
      var n: nat := ReadU16(data[113..115]);
      if |data| < 137 + n then Panicked
      else Done(ServerHello(
        data[0], ReadU64(data[1..9]), ReadU64(data[9..17]), data[17..49], data[49..81], data[81..113],
        data[115..115 + n], DecodeCapabilities(data[115 + n..137 + n])))
  }

  // ---------- the codecs as the library runs them ----------

  method WriteCapabilities(c: Capabilities, buf: Buffer)
    modifies buf
    ensures buf.data == old(buf.data) + EncodeCapabilities(c)
  {
    buf.Push(if c.multipath then 1 else 0);
    buf.Extend(Be(c.maxStreams, 4));
    buf.Extend(Be(c.maxStreamData, 8));
    buf.Push(c.ackFrequency);
    buf.Extend(Be(c.idleTimeoutMs, 8));
  }

  method WriteClientHello(h: ClientHello) returns (wire: bytes)
    ensures wire == EncodeClientHello(h)
  {
    hide EncodeCapabilities, Be;
    var buf := new Buffer();
    buf.Push(h.version);
    buf.Extend(Be(h.connectionId, 8));
    buf.Push(|h.supportedVersions| % 0x100);
    assert buf.data == ClientHead(h);
    var i := 0;
    while i < |h.supportedVersions|
      invariant i <= |h.supportedVersions|
      invariant buf.data == ClientHead(h) + h.supportedVersions[..i]
    {
      buf.Push(h.supportedVersions[i]);
      i := i + 1;
    }
    buf.Push(h.aead.Code());
    buf.Extend(h.x25519Public);
    buf.Extend(h.identity);
    buf.Extend(h.identityPublicKey);
    assert buf.data == ClientHead(h) + h.supportedVersions + [h.aead.Code()]
                     + EncodeKeys(h.x25519Public, h.identity, h.identityPublicKey);
    WriteCapabilities(h.capabilities, buf);
    wire := buf.data;
  }

  method WriteServerHello(h: ServerHello) returns (wire: bytes)
    ensures wire == EncodeServerHello(h)
  {
    hide EncodeCapabilities, Be;
    var buf := new Buffer();
    buf.Push(h.version);
    buf.Extend(Be(h.sourceConnectionId, 8));
    buf.Extend(Be(h.destConnectionId, 8));
    buf.Extend(h.x25519Public);
    buf.Extend(h.identity);
    buf.Extend(h.identityPublicKey);
    assert buf.data == ServerHead(h) + EncodeKeys(h.x25519Public, h.identity, h.identityPublicKey);
    buf.Extend(Be(|h.identityProof|, 2));
    buf.Extend(h.identityProof);
    WriteCapabilities(h.capabilities, buf);
    wire := buf.data;
  }

  method ReadCapabilities(data: bytes, start: nat) returns (r: Attempt<Capabilities>)
    requires start <= |data|
    ensures r == if |data| < start + 22 then Panicked else Done(DecodeCapabilities(data[start..start + 22]))
  {
    var offset: nat := start;
    if |data| < offset + 22 {
      return Panicked;
    }
    var multipath := data[offset] != 0;
    offset := offset + 1;
    var maxStreams := ReadU32(data[offset..offset + 4]);
    offset := offset + 4;
    var maxStreamData := ReadU64(data[offset..offset + 8]);
    offset := offset + 8;
    var ackFrequency := data[offset];
    offset := offset + 1;
    var idleTimeoutMs := ReadU64(data[offset..offset + 8]);
    ghost var b := data[start..start + 22];
    assert b[1..5] == data[start + 1..start + 5] && b[5..13] == data[start + 5..start + 13]
        && b[14..22] == data[start + 14..start + 22];
    r := Done(Capabilities(multipath, maxStreams, maxStreamData, ackFrequency, idleTimeoutMs));
  }

  method ReadClientHello(data: bytes) returns (r: Attempt<ClientHello>)
    ensures r == DecodeClientHello(data)
  {
    hide DecodeCapabilities, FromBe;
    if |data| < 80 {
      return Failed(ProtocolViolation);
    }
    var offset: nat := 0;
    var version := data[offset];
    offset := offset + 1;
    var connectionId := ReadU64(data[offset..offset + 8]);
    offset := offset + 8;
    var count: nat := data[offset];
    offset := offset + 1;
    var supportedVersions := [];
    var i := 0;
    while i < count
      invariant i <= count && offset == 10 + i <= |data| && supportedVersions == data[10..offset]
    {
      if offset >= |data| {
        return Panicked;
      }
      supportedVersions := supportedVersions + [data[offset]];
      offset := offset + 1;
      i := i + 1;
    }
    if offset >= |data| {
      return Panicked;
    }
    if data[offset] > 1 {
      return Failed(ProtocolViolation);
    }
    var aead := if data[offset] == 0 then Aes256Gcm else ChaCha20Poly1305;
    offset := offset + 1;
    if |data| < offset + 96 {
      return Panicked;
    }
    var x25519Public := data[offset..offset + 32];
    offset := offset + 32;
    var identity := data[offset..offset + 32];
    offset := offset + 32;
    var identityPublicKey := data[offset..offset + 32];
    offset := offset + 32;
    var capabilities := ReadCapabilities(data, offset);
    if capabilities.Panicked? {
      return Panicked;
    }
    r := Done(ClientHello(version, connectionId, supportedVersions, aead, x25519Public, identity,
                          identityPublicKey, capabilities.value));
  }

  method ReadServerHello(data: bytes) returns (r: Attempt<ServerHello>)
    ensures r == DecodeServerHello(data)
  {
    hide DecodeCapabilities, FromBe;
    if |data| < 115 {
      return Panicked;
    }
    var offset: nat := 0;
    var version := data[offset];
    offset := offset + 1;
    var sourceConnectionId := ReadU64(data[offset..offset + 8]);
    offset := offset + 8;
    var destConnectionId := ReadU64(data[offset..offset + 8]);
    offset := offset + 8;
    var x25519Public := data[offset..offset + 32];
    offset := offset + 32;
    var identity := data[offset..offset + 32];
    offset := offset + 32;
    var identityPublicKey := data[offset..offset + 32];
    offset := offset + 32;
    var proofLen: nat := ReadU16(data[offset..offset + 2]);
    offset := offset + 2;
    if |data| < offset + proofLen {
      return Panicked;
    }
    var identityProof := data[offset..offset + proofLen];
    offset := offset + proofLen;
    var capabilities := ReadCapabilities(data, offset);
    if capabilities.Panicked? {
      return Panicked;
    }
    r := Done(ServerHello(version, sourceConnectionId, destConnectionId, x25519Public, identity,
                          identityPublicKey, identityProof, capabilities.value));
  }

  // ---------- properties ----------

  // A slice within the first part of a concatenation, and the second part.
  lemma Before(x: bytes, rest: bytes, i: nat, j: nat)
    requires i <= j <= |x|
    ensures (x + rest)[i..j] == x[i..j]
  {
  }

  lemma Last(x: bytes, part: bytes)
    ensures (x + part)[|x|..|x| + |part|] == part
  {
  }

  // The five parts of a message, each in its place.
  lemma FiveParts(a: bytes, b: bytes, c: bytes, d: bytes, e: bytes, junk: bytes, data: bytes)
    requires data == a + b + c + d + e + junk
    ensures var p, q, r, s := |a|, |a| + |b|, |a| + |b| + |c|, |a| + |b| + |c| + |d|;
            && |data| >= s + |e|
            && data[0..p] == a && data[p..q] == b && data[q..r] == c && data[r..s] == d && data[s..s + |e|] == e
  {
    var ab := a + b;
    var abc := ab + c;
    var abcd := abc + d;
    var all := abcd + e;
    var p, q, r, s := |a|, |ab|, |abc|, |abcd|;
    Before(all, junk, 0, p); Before(abcd, e, 0, p); Before(abc, d, 0, p); Before(ab, c, 0, p); Before(a, b, 0, p);
    Before(all, junk, p, q); Before(abcd, e, p, q); Before(abc, d, p, q); Before(ab, c, p, q); Last(a, b);
    Before(all, junk, q, r); Before(abcd, e, q, r); Before(abc, d, q, r); Last(ab, c);
    Before(all, junk, r, s); Before(abcd, e, r, s); Last(abc, d);
    Before(all, junk, s, s + |e|); Last(abcd, e);
  }

  // A slice of a slice.
  lemma Inner(data: bytes, part: bytes, start: nat, i: nat, j: nat)
    requires start + |part| <= |data| && data[start..start + |part|] == part && i <= j <= |part|
    ensures data[start + i..start + j] == part[i..j]
  {
    forall x | 0 <= x < j - i ensures data[start + i..start + j][x] == part[i..j][x] {
      assert part[i + x] == data[start..start + |part|][i + x];
    }
  }

  lemma CapabilitiesRoundTrip(c: Capabilities)
    ensures DecodeCapabilities(EncodeCapabilities(c)) == c
  {
    var b := EncodeCapabilities(c);
    assert b[1..5] == Be(c.maxStreams, 4) && b[5..13] == Be(c.maxStreamData, 8) && b[14..22] == Be(c.idleTimeoutMs, 8);
    hide Be, FromBe;
    FieldU32(c.maxStreams);
    FieldU64(c.maxStreamData);
    FieldU64(c.idleTimeoutMs);
  }

  lemma KeysAt(data: bytes, start: nat, a: Key, b: Key, c: Key)
    requires start + 96 <= |data| && data[start..start + 96] == EncodeKeys(a, b, c)
    ensures data[start..start + 32] == a && data[start + 32..start + 64] == b && data[start + 64..start + 96] == c
  {
    var k := EncodeKeys(a, b, c);
    assert k[0..32] == a && k[32..64] == b && k[64..96] == c;
    Inner(data, k, start, 0, 32);
    Inner(data, k, start, 32, 64);
    Inner(data, k, start, 64, 96);
  }

  // Where the parts of an encoded client hello are.
  lemma ClientHelloParts(h: ClientHello, junk: bytes)
    requires |h.supportedVersions| < 0x100
    ensures var n, data := |h.supportedVersions|, EncodeClientHello(h) + junk;
            && |data| >= 129 + n
            && data[0] == h.version && data[1..9] == Be(h.connectionId, 8) && data[9] == n
            && data[10..10 + n] == h.supportedVersions && data[10 + n] == h.aead.Code()
            && data[11 + n..107 + n] == EncodeKeys(h.x25519Public, h.identity, h.identityPublicKey)
            && data[107 + n..129 + n] == EncodeCapabilities(h.capabilities)
  {
    var n, data := |h.supportedVersions|, EncodeClientHello(h) + junk;
    var keys, caps := EncodeKeys(h.x25519Public, h.identity, h.identityPublicKey), EncodeCapabilities(h.capabilities);
    var head, code := ClientHead(h), [h.aead.Code()];
    assert head[1..9] == Be(h.connectionId, 8) && head[0] == h.version && head[9] == n;
    assert data == head + h.supportedVersions + code + keys + caps + junk;
    hide *;
    FiveParts(head, h.supportedVersions, code, keys, caps, junk, data);
    Inner(data, head, 0, 1, 9);
    assert data[0] == data[0..10][0] && data[9] == data[0..10][9] && data[10 + n] == data[10 + n..11 + n][0];
  }

  lemma ClientHelloRoundTrip(h: ClientHello, junk: bytes)
    requires |h.supportedVersions| < 0x100
    ensures DecodeClientHello(EncodeClientHello(h) + junk) == Done(h)
  {
    var n, data := |h.supportedVersions|, EncodeClientHello(h) + junk;
    hide EncodeClientHello, EncodeKeys, EncodeCapabilities, DecodeCapabilities, Be, FromBe;
    ClientHelloParts(h, junk);
    KeysAt(data, 11 + n, h.x25519Public, h.identity, h.identityPublicKey);
    FieldU64(h.connectionId);
    CapabilitiesRoundTrip(h.capabilities);
  }

  // Where the parts of an encoded server hello are.
  lemma ServerHelloParts(h: ServerHello, junk: bytes)
    requires |h.identityProof| < 0x1_0000
    ensures var n, data := |h.identityProof|, EncodeServerHello(h) + junk;
            && |data| >= 137 + n
            && data[0] == h.version && data[1..9] == Be(h.sourceConnectionId, 8) && data[9..17] == Be(h.destConnectionId, 8)
            && data[17..113] == EncodeKeys(h.x25519Public, h.identity, h.identityPublicKey)
            && data[113..115] == Be(n, 2) && data[115..115 + n] == h.identityProof
            && data[115 + n..137 + n] == EncodeCapabilities(h.capabilities)
  {
    var n, data := |h.identityProof|, EncodeServerHello(h) + junk;
    var keys, caps := EncodeKeys(h.x25519Public, h.identity, h.identityPublicKey), EncodeCapabilities(h.capabilities);
    var head, len, proof := ServerHead(h), Be(n, 2), h.identityProof;
    assert head[1..9] == Be(h.sourceConnectionId, 8) && head[9..17] == Be(h.destConnectionId, 8) && head[0] == h.version;
    assert data == head + keys + len + proof + caps + junk;
    hide *;
    FiveParts(head, keys, len, proof, caps, junk, data);
    Inner(data, head, 0, 1, 9);
    Inner(data, head, 0, 9, 17);
    assert data[0] == data[0..17][0];
  }

  lemma ServerHelloRoundTrip(h: ServerHello, junk: bytes)
    requires |h.identityProof| < 0x1_0000
    ensures DecodeServerHello(EncodeServerHello(h) + junk) == Done(h)
  {
    var n, data := |h.identityProof|, EncodeServerHello(h) + junk;
    hide EncodeServerHello, EncodeKeys, EncodeCapabilities, DecodeCapabilities, Be, FromBe;
    FieldU16(n);
    ServerHelloParts(h, junk);
    KeysAt(data, 17, h.x25519Public, h.identity, h.identityPublicKey);
    FieldU64(h.sourceConnectionId);
    FieldU64(h.destConnectionId);
    CapabilitiesRoundTrip(h.capabilities);
    assert ReadU16(data[113..115]) == n;
  }

  // Which hellos survive the wire: those whose counts fit their fields.
  lemma ClientHelloRoundTripIff(h: ClientHello, junk: bytes)
    ensures DecodeClientHello(EncodeClientHello(h) + junk) == Done(h) <==> |h.supportedVersions| < 0x100
  {
    if |h.supportedVersions| < 0x100 {
      ClientHelloRoundTrip(h, junk);
    } else {
      hide EncodeClientHello, DecodeCapabilities, FromBe;
    }
  }

  lemma ServerHelloRoundTripIff(h: ServerHello, junk: bytes)
    ensures DecodeServerHello(EncodeServerHello(h) + junk) == Done(h) <==> |h.identityProof| < 0x1_0000
  {
    if |h.identityProof| < 0x1_0000 {
      ServerHelloRoundTrip(h, junk);
    } else {
      hide EncodeServerHello, DecodeCapabilities, FromBe;
    }
  }

  // The lengths at which some input makes a decoder run off its end. The check
  // for 80 bytes does not protect the client hello, of which up to 384 are read.
  lemma ClientHelloPanicLengths(len: nat)
    ensures (exists data: bytes :: |data| == len && DecodeClientHello(data).Panicked?) <==> 80 <= len < 384
  {
    if 80 <= len < 384 {
      var data: bytes := seq(len, i requires 0 <= i < len => if i == 9 then 0xFF else 0);
      assert |data| == len && DecodeClientHello(data).Panicked?;
    }
  }

  lemma TwoFullBytes(b: bytes)
    requires b == [0xFF, 0xFF]
    ensures ReadU16(b) == 0xFFFF
  {
    assert b[..1] == [0xFF];
    assert FromBe(b[..1]) == 0xFF;
  }

  lemma ServerHelloPanics(len: nat) returns (data: bytes)
    requires len < 65672
    ensures |data| == len && DecodeServerHello(data).Panicked?
  {
    data := seq(len, i requires 0 <= i < len => 0xFF);
    if len >= 115 {
      TwoFullBytes(data[113..115]);
    }
  }

  lemma ServerHelloPanicLengths(len: nat)
    ensures (exists data: bytes :: |data| == len && DecodeServerHello(data).Panicked?) <==> len < 65672
  {
    if len < 65672 {
      var data := ServerHelloPanics(len);
    }
  }

  // ---------- the transcript ----------

  // "ClientHello:" and "ServerHello:" in ASCII.
  const CLIENT_LABEL: bytes := [0x43, 0x6C, 0x69, 0x65, 0x6E, 0x74, 0x48, 0x65, 0x6C, 0x6C, 0x6F, 0x3A]
  const SERVER_LABEL: bytes := [0x53, 0x65, 0x72, 0x76, 0x65, 0x72, 0x48, 0x65, 0x6C, 0x6C, 0x6F, 0x3A]

  // The bytes of a text without special characters.
  function Ascii(s: string): bytes
    requires forall i | 0 <= i < |s| :: s[i] < 128 as char
  {
    seq(|s|, i requires 0 <= i < |s| => s[i] as int)
  }

  lemma LabelsAreAscii()
    ensures CLIENT_LABEL == Ascii("ClientHello:") && SERVER_LABEL == Ascii("ServerHello:")
  {
    assert |CLIENT_LABEL| == |SERVER_LABEL| == 12;
  }

  function Transcript(c: ClientHello, s: ServerHello): bytes {
    CLIENT_LABEL + EncodeClientHello(c) + SERVER_LABEL + EncodeServerHello(s)
  }

  lemma PrefixesCancel(a: bytes, x: bytes, y: bytes)
    requires a + x == a + y
    ensures x == y
  {
    assert (a + x)[|a|..] == x && (a + y)[|a|..] == y;
  }

  // Equal transcripts come from equal hellos: what both sides hash determines
  // every field of both messages.
  lemma TranscriptUnambiguous(c1: ClientHello, s1: ServerHello, c2: ClientHello, s2: ServerHello)
    requires |c1.supportedVersions| < 0x100 && |c2.supportedVersions| < 0x100
    requires |s1.identityProof| < 0x1_0000 && |s2.identityProof| < 0x1_0000
    requires Transcript(c1, s1) == Transcript(c2, s2)
    ensures c1 == c2 && s1 == s2
  {
    var e1, e2, f1, f2 := EncodeClientHello(c1), EncodeClientHello(c2), EncodeServerHello(s1), EncodeServerHello(s2);
    var rest1, rest2 := SERVER_LABEL + f1, SERVER_LABEL + f2;
    assert Transcript(c1, s1) == CLIENT_LABEL + (e1 + rest1) && Transcript(c2, s2) == CLIENT_LABEL + (e2 + rest2);
    hide *;
    PrefixesCancel(CLIENT_LABEL, e1 + rest1, e2 + rest2);
    ClientHelloRoundTrip(c1, rest1);
    ClientHelloRoundTrip(c2, rest2);
    PrefixesCancel(e1, rest1, rest2);
    PrefixesCancel(SERVER_LABEL, f1, f2);
    ServerHelloRoundTrip(s1, []);
    ServerHelloRoundTrip(s2, []);
    assert f1 + [] == f2 + [];
  }
}
