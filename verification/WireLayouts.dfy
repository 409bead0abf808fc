// What stands where on the wire: the bytes that the encoders write, read off
// without the decoders.
module WireLayouts {
  import opened Bytes
  import opened Framing
  import opened Hellos

  // The types in the order of their numbers.
  const FRAME_TYPES := [Initial, Handshake, Data, Ack, Close, Ping, PathChallenge, PathResponse, StreamOpen, StreamClose]
  const EXT_TYPES := [Terminator, Timestamp, Priority, Padding, PathId, FlowControlExt]

  lemma DivideTwice(x: nat, p: nat)
    requires p > 0
    ensures x / 256 / p == x / (256 * p)
  {
    var q, r := x / 256, x % 256;
    var q', r' := q / p, q % p;
    assert x == 256 * q + r && q == p * q' + r';
    assert x == 256 * (p * q' + r') + r == (256 * p) * q' + (256 * r' + r);
    assert 0 <= 256 * r' + r < 256 * p;
    QuotientIs(x, 256 * p, q', 256 * r' + r);
  }

  lemma Multiples(d: nat, k: int)
    ensures k >= 1 ==> d * k >= d
    ensures k <= -1 ==> d * k + d <= 0
  {
  }

  lemma QuotientIs(x: nat, d: nat, q: nat, r: nat)
    requires d > 0 && x == d * q + r && r < d
    ensures x / d == q && x % d == r
  {
    var k := x / d - q;
    Multiples(d, k);
    assert d * k == r - x % d by {
      assert x == d * (x / d) + x % d;
    }
  }

  // Integers are written most significant byte first, and their excess is cut off.
  lemma {:induction false} BigEndian(x: nat, n: nat, i: nat)
    requires i < n
    ensures Be(x, n)[i] == x / Pow256(n - 1 - i) % 256
  {
    if i == n - 1 {
      assert Pow256(0) == 1;
    } else {
      BigEndian(x / 256, n - 1, i);
      DivideTwice(x, Pow256(n - 2 - i));
      assert Pow256(n - 1 - i) == 256 * Pow256(n - 2 - i);
    }
  }

  lemma {:induction false} BeCuts(x: nat, n: nat)
    ensures FromBe(Be(x, n)) == x % Pow256(n)
  {
    if n > 0 {
      BeCuts(x / 256, n - 1);
      assert Be(x, n)[..n - 1] == Be(x / 256, n - 1);
      var p := Pow256(n - 1);
      ModTwice(x, p);
    }
  }

  lemma ModTwice(x: nat, p: nat)
    requires p > 0
    ensures x / 256 % p * 256 + x % 256 == x % (256 * p)
  {
    var q := x / 256;
    DivideTwice(x, p);
    assert x == 256 * q + x % 256 && q == p * (q / p) + q % p;
    assert 256 * (p * (q / p)) == (256 * p) * (x / (256 * p));
  }

  // The codes are the numbers of the types.
  lemma Codes(t: FrameType, e: ExtType)
    ensures t.Code() < |FRAME_TYPES| && FRAME_TYPES[t.Code()] == t
    ensures e.Code() < |EXT_TYPES| && EXT_TYPES[e.Code()] == e
  {
  }

  // The six bits of a header that number its type.
  function TypeBits(b: bytes): nat
    requires |b| >= 2
  {
    b[0] % 16 * 4 + b[1] / 64
  }

  // The fields of a header: four bits of version and six of type, the long and the
  // extension bit, two bits that nothing reads, the top two bits of the stream id,
  // and in big-endian bytes its other sixteen, the offset, the length and the
  // connection id.
  ghost predicate HeaderAt(b: bytes, h: ShortHeader, long: bool) {
    && |b| >= 16
    && b[0] / 16 == h.version % 16
    && TypeBits(b) < |FRAME_TYPES| && FRAME_TYPES[TypeBits(b)] == h.frameType
    && (b[1] / 32 % 2 == 1 <==> long)
    && (b[1] / 16 % 2 == 1 <==> h.hasExtensions)
    && b[1] % 4 * 0x1_0000 + FromBe(b[2..4]) == h.streamId % 0x4_0000
    && FromBe(b[4..8]) == h.offset
    && FromBe(b[8..12]) == h.length
    && FromBe(b[12..16]) == h.connectionId
  }

  lemma FirstBytes(h: ShortHeader, long: bool)
    ensures var b := EncodeHeader(h, long);
            && b[0] / 16 == h.version % 16
            && TypeBits(b) == h.frameType.Code()
            && (b[1] / 32 % 2 == 1 <==> long)
            && (b[1] / 16 % 2 == 1 <==> h.hasExtensions)
            && b[1] / 4 % 4 == 0
            && b[1] % 4 == h.streamId / 0x1_0000 % 4
  {
    var b := EncodeHeader(h, long);
    var v, t, s := h.version % 16, h.frameType.Code(), h.streamId / 0x1_0000 % 4;
    var l, e := if long then 1 else 0, if h.hasExtensions then 1 else 0;
    assert b[0] == v * 16 + t / 4 && b[1] == t % 4 * 64 + l * 32 + e * 16 + s;
    hide EncodeHeader, FrameType.Code;
    PackedBytes(b[0], b[1], v, t, l, e, s);
    Reserved(b[1], t % 4, l, e, s);
  }

  lemma Reserved(b: byte, t: nat, l: nat, e: nat, s: nat)
    requires b == t * 64 + l * 32 + e * 16 + s && s < 4
    ensures b / 4 % 4 == 0
  {
    assert b / 4 == 4 * (4 * t + 2 * l + e);
  }

  lemma HeaderFields(h: ShortHeader, long: bool)
    ensures var b := EncodeHeader(h, long);
            && b[2..4] == Be(h.streamId, 2) && b[4..8] == Be(h.offset, 4)
            && b[8..12] == Be(h.length, 4) && b[12..16] == Be(h.connectionId, 4)
  {
    hide Be, FrameType.Code;
  }

  lemma HeaderLayout(h: ShortHeader, long: bool)
    ensures HeaderAt(EncodeHeader(h, long), h, long) && EncodeHeader(h, long)[1] / 4 % 4 == 0
  {
    HeaderFields(h, long);
    hide Be, FromBe, FrameType.Code, Pow256, EncodeHeader, TypeBits;
    FirstBytes(h, long);
    Codes(h.frameType, Terminator);
    Pow256Values();
    BeCuts(h.streamId, 2);
    BeWidths(h.offset);
    BeWidths(h.length);
    BeWidths(h.connectionId);
    LowBits(h.streamId);
  }

  lemma LowBits(x: nat)
    ensures x / 0x1_0000 % 4 * 0x1_0000 + x % 0x1_0000 == x % 0x4_0000
  {
  }

  // The header that leads a frame.
  function Leading(f: Frame): ShortHeader {
    if f.longHeader.Some? then f.longHeader.value.short else f.header
  }

  // An extension: its type, the length of its value in three bytes, its value.
  lemma ExtensionLayout(e: Extension)
    ensures var b := EncodeExtension(e);
            && b[0] < |EXT_TYPES| && EXT_TYPES[b[0]] == e.extType
            && FromBe(b[1..4]) == |e.value| % 0x100_0000
            && b[4..] == e.value
  {
    Codes(Data, e.extType);
    Pow256Values();
    BeCuts(|e.value|, 3);
    hide Be, FromBe, ExtType.Code, Pow256;
    var b := EncodeExtension(e);
    assert b[1..4] == Be(|e.value|, 3);
  }

  lemma ThreeParts(front: bytes, chain: bytes, payload: bytes)
    ensures var b := front + chain + payload;
            && b[..|front|] == front && b[|b| - |payload|..] == payload
            && b[|front|..|b| - |payload|] == chain
  {
  }

  lemma FrontLayout(f: Frame)
    ensures var front, long := EncodeFrontMatter(f), f.longHeader.Some?;
            && |front| == (if long then 24 else 16)
            && HeaderAt(front, Leading(f), long)
            && (long ==> FromBe(front[16..24]) == f.longHeader.value.sourceConnectionId)
  {
    var header, long, front := Leading(f), f.longHeader.Some?, EncodeFrontMatter(f);
    HeaderLayout(header, long);
    hide EncodeHeader, Be, FromBe, HeaderAt;
    assert front[..16] == EncodeHeader(header, long);
    HeaderStays(front[..16], front, header, long);
    if long {
      FieldU64(f.longHeader.value.sourceConnectionId);
      assert front[16..24] == Be(f.longHeader.value.sourceConnectionId, 8);
    }
  }

  // A frame: its header, a source id of eight bytes if it is long, its extensions
  // and an empty one of type Terminator if the header says so, and its payload.
  lemma FrameLayout(f: Frame)
    ensures var b, size := EncodeFrame(f), if f.longHeader.Some? then 24 else 16;
            && HeaderAt(b, Leading(f), f.longHeader.Some?)
            && |b| >= size + |f.payload|
            && (f.longHeader.Some? ==> FromBe(b[16..24]) == f.longHeader.value.sourceConnectionId)
            && b[|b| - |f.payload|..] == f.payload
            && b[size..|b| - |f.payload|]
               == if f.header.hasExtensions then EncodeExtensions(f.extensions) + [0, 0, 0, 0] else []
  {
    var front, chain, b := EncodeFrontMatter(f), EncodeChain(f), EncodeFrame(f);
    EmptyTerminator();
    FrontLayout(f);
    ThreeParts(front, chain, f.payload);
    hide EncodeFrontMatter, EncodeExtensions, EncodeExtension, Be, FromBe, HeaderAt;
    assert |b| >= |front| && b[..16] == front[..16];
    HeaderStays(front, b, Leading(f), f.longHeader.Some?);
    if f.longHeader.Some? {
      assert b[16..24] == front[16..24];
    }
  }

  lemma HeaderStays(a: bytes, b: bytes, h: ShortHeader, long: bool)
    requires |a| >= 16 && |b| >= 16 && a[..16] == b[..16] && HeaderAt(a, h, long)
    ensures HeaderAt(b, h, long)
  {
    assert a[0] == a[..16][0] == b[0] && a[1] == a[..16][1] == b[1];
    assert a[2..4] == a[..16][2..4] == b[2..4] && a[4..8] == a[..16][4..8] == b[4..8];
    assert a[8..12] == a[..16][8..12] == b[8..12] && a[12..16] == a[..16][12..16] == b[12..16];
    hide FromBe;
  }

  lemma EmptyTerminator()
    ensures EncodeExtension(TERMINATOR) == [0, 0, 0, 0]
  {
    assert Be(0, 3) == [0, 0, 0] by {
      assert Be(0, 2) == Be(0, 1) + [0];
      assert Be(0, 3) == Be(0, 2) + [0];
    }
  }

  lemma {:induction false} EncodeAppend(es: seq<Extension>, e: Extension)
    ensures EncodeExtensions(es + [e]) == EncodeExtensions(es) + EncodeExtension(e)
  {
    hide EncodeExtension;
    if es == [] {
      assert [] + [e] == [e] && [e][1..] == [];
    } else {
      EncodeAppend(es[1..], e);
      assert (es + [e])[1..] == es[1..] + [e];
      Regroup(EncodeExtension(es[0]), EncodeExtensions(es[1..]), EncodeExtension(e));
    }
  }

  // An extension that is added goes after those that are there, and its frame says
  // that it has some; a long header that goes out does not.
  lemma AddedGoesLast(f: Frame, e: Extension)
    ensures var g := AddExtension(f, e);
            && EncodeChain(g) == EncodeExtensions(f.extensions) + EncodeExtension(e) + [0, 0, 0, 0]
            && g.header == f.header.(hasExtensions := true) && g.payload == f.payload
            && (f.longHeader.Some? ==> EncodeFrontMatter(g) == EncodeFrontMatter(f))
  {
    EncodeAppend(f.extensions, e);
    EmptyTerminator();
  }

  // ---------- which bytes are accepted ----------

  lemma HeaderAccepted(b: bytes)
    ensures DecodeHeader(b).Ok? <==> |b| >= 16 && TypeBits(b) < 10
    ensures DecodeHeader(b).Ok? ==> HeaderAt(b, DecodeHeader(b).value, HasLongBit(b))
    ensures DecodeHeader(b).Err? ==> DecodeHeader(b) == Err(ProtocolViolation)
  {
    if |b| >= 16 {
      TypeNumbers(b[0] % 16 * 4 + b[1] / 64);
      hide FromBe, FrameTypeFrom;
    }
  }

  lemma TypeNumbers(code: byte)
    requires code < 64
    ensures FrameTypeFrom(code) == if code < |FRAME_TYPES| then Some(FRAME_TYPES[code]) else None
  {
  }

  // The extensions that follow a header, and the bytes they take.
  function ChainAt(h: ShortHeader, body: bytes): Result<(seq<Extension>, nat)> {
    if h.hasExtensions then DecodeChain(body) else Ok(([], 0))
  }

  // What is read of a frame whose header of the given size is h.
  ghost predicate BodyAccepted(b: bytes, size: nat, h: ShortHeader, r: Result<Frame>)
    requires |b| >= size && size in {16, 24}
  {
    match ChainAt(h, b[size..])
    case Err(_) => r.Err?
    case Ok((es, used)) =>
      if |b| < size + used + h.length then r.Err?
      else
        && r.Ok?
        && r.value.longHeader == (if size == 24 then Some(LongHeader(h, ReadU64(b[16..24]))) else None)
        && r.value.header == h && r.value.extensions == es
        && r.value.payload == b[size + used..size + used + h.length]
  }

  lemma BodyOutcome(b: bytes, size: nat, h: ShortHeader)
    requires |b| >= size && size in {16, 24}
    ensures var long := if size == 24 then Some(LongHeader(h, ReadU64(b[16..24]))) else None;
            var r := DecodeBody(long, h, b[size..]);
            BodyAccepted(b, size, h, r) && (r.Err? ==> r == Err(ProtocolViolation))
  {
    DecodeErrors(b[size..]);
    hide DecodeChain, FromBe;
    var chain := ChainAt(h, b[size..]);
    if chain.Ok? {
      var used := chain.value.1;
      if size + used + h.length <= |b| {
        RestOf(b, size, used, used + h.length);
      }
    }
  }

  lemma RestOf(b: bytes, size: nat, i: nat, j: nat)
    requires i <= j && size + j <= |b|
    ensures b[size..][i..j] == b[size + i..size + j]
  {
  }

  lemma LongTypes(b: bytes, h: ShortHeader, long: bool)
    requires HeaderAt(b, h, long)
    ensures h.frameType.RequiresLongHeader() <==> TypeBits(b) <= 1
  {
    hide TypeBits, FromBe;
  }

  // A frame is accepted if and only if its type is known, is Initial or Handshake
  // where the long bit is set, its extensions end, and its payload is all there. It
  // is then what stands where its fields should; what follows it is ignored.
  ghost predicate FrameRead(b: bytes, long: bool, r: Result<Frame>) {
    var size := if long then 24 else 16;
    if |b| < size || TypeBits(b) >= 10 || (long && TypeBits(b) > 1) then r == Err(ProtocolViolation)
    else
      && (r.Err? ==> r == Err(ProtocolViolation))
      && exists h :: HeaderAt(b, h, long) && BodyAccepted(b, size, h, r)
  }

  lemma ShortFrameRead(b: bytes)
    requires !HasLongBit(b)
    ensures FrameRead(b, false, DecodeFrame(b))
  {
    HeaderAccepted(b);
    hide DecodeHeader, HeaderAt, FromBe, TypeBits, DecodeChain, DecodeBody, BodyAccepted;
    if DecodeHeader(b).Ok? {
      var h := DecodeHeader(b).value;
      BodyOutcome(b, 16, h);
      assert HeaderAt(b, h, false) && BodyAccepted(b, 16, h, DecodeFrame(b));
    }
  }

  lemma LongFrameRead(b: bytes)
    requires HasLongBit(b)
    ensures FrameRead(b, true, DecodeFrame(b))
  {
    hide DecodeHeader, HeaderAt, FromBe, DecodeChain, DecodeBody, BodyAccepted;
    if |b| >= 24 {
      HeaderAccepted(b[..16]);
      if DecodeHeader(b[..16]).Ok? {
        var h := DecodeHeader(b[..16]).value;
        LongTypes(b[..16], h, true);
        HeaderStays(b[..16], b, h, true);
        BodyOutcome(b, 24, h);
        assert h.frameType.RequiresLongHeader() ==>
            HeaderAt(b, h, true) && BodyAccepted(b, 24, h, DecodeFrame(b));
      }
    }
  }

  lemma FrameAccepted(b: bytes)
    ensures FrameRead(b, |b| > 1 && b[1] / 32 % 2 == 1, DecodeFrame(b))
  {
    hide FrameRead, DecodeFrame;
    if HasLongBit(b) {
      LongFrameRead(b);
    } else {
      ShortFrameRead(b);
    }
  }

  // ---------- the hellos ----------

  ghost predicate CapabilitiesAt(b: bytes, c: Capabilities) {
    && |b| == 22
    && (b[0] != 0 <==> c.multipath) && FromBe(b[1..5]) == c.maxStreams && FromBe(b[5..13]) == c.maxStreamData
    && b[13] == c.ackFrequency && FromBe(b[14..22]) == c.idleTimeoutMs
  }

  ghost predicate ClientHelloAt(b: bytes, h: ClientHello) {
    var n := |h.supportedVersions|;
    && |b| >= 129 + n
    && b[0] == h.version && FromBe(b[1..9]) == h.connectionId && b[9] == n && b[10..10 + n] == h.supportedVersions
    && b[10 + n] == (if h.aead == Aes256Gcm then 0 else 1)
    && b[11 + n..43 + n] == h.x25519Public && b[43 + n..75 + n] == h.identity && b[75 + n..107 + n] == h.identityPublicKey
    && CapabilitiesAt(b[107 + n..129 + n], h.capabilities)
  }

  ghost predicate ServerHelloAt(b: bytes, h: ServerHello) {
    var n := |h.identityProof|;
    && |b| >= 137 + n
    && b[0] == h.version && FromBe(b[1..9]) == h.sourceConnectionId && FromBe(b[9..17]) == h.destConnectionId
    && b[17..49] == h.x25519Public && b[49..81] == h.identity && b[81..113] == h.identityPublicKey
    && FromBe(b[113..115]) == n && b[115..115 + n] == h.identityProof
    && CapabilitiesAt(b[115 + n..137 + n], h.capabilities)
  }

  // A client hello is accepted if and only if its algorithm is 0 or 1 and it has
  // the length its list of versions calls for; it is then what stands where its
  // fields should. It is refused if it is shorter than 80 bytes or its algorithm is
  // unknown, and runs off the end otherwise.
  lemma ClientHelloAccepted(b: bytes)
    ensures DecodeClientHello(b).Done? <==> |b| >= 80 && |b| >= 129 + b[9] as int && b[10 + b[9]] <= 1
    ensures DecodeClientHello(b).Done? ==> ClientHelloAt(b, DecodeClientHello(b).value)
    ensures DecodeClientHello(b).Failed? <==> |b| < 80 || (|b| >= 11 + b[9] as int && b[10 + b[9]] > 1)
    ensures DecodeClientHello(b).Failed? ==> DecodeClientHello(b) == Failed(ProtocolViolation)
  {
    hide FromBe;
  }

  lemma ServerHelloAccepted(b: bytes)
    ensures DecodeServerHello(b).Done? <==> |b| >= 115 && |b| >= 137 + FromBe(b[113..115])
    ensures DecodeServerHello(b).Done? ==> ServerHelloAt(b, DecodeServerHello(b).value)
  {
    hide FromBe;
  }

  // And so is what the encoders write.
  lemma HelloLayouts(c: ClientHello, s: ServerHello)
    ensures |c.supportedVersions| < 0x100 ==>
              ClientHelloAt(EncodeClientHello(c), c) && |EncodeClientHello(c)| == 129 + |c.supportedVersions|
    ensures EncodeCapabilities(c.capabilities)[0] == if c.capabilities.multipath then 1 else 0
    ensures |s.identityProof| < 0x1_0000 ==>
              ServerHelloAt(EncodeServerHello(s), s) && |EncodeServerHello(s)| == 137 + |s.identityProof|
  {
    var b, d := EncodeClientHello(c), EncodeServerHello(s);
    assert |b| == 129 + |c.supportedVersions| && |d| == 137 + |s.identityProof|;
    hide DecodeClientHello, DecodeServerHello, EncodeClientHello, EncodeServerHello, ClientHelloAt, ServerHelloAt;
    assert b + [] == b && d + [] == d;
    if |c.supportedVersions| < 0x100 {
      ClientHelloRoundTrip(c, []);
      ClientHelloAccepted(b);
    }
    if |s.identityProof| < 0x1_0000 {
      ServerHelloRoundTrip(s, []);
      ServerHelloAccepted(d);
    }
  }
}
