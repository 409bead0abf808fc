// The wire format: short and long headers, the TLV extension chain and whole
// frames (aether-core/src/framing.rs).
//
// Bit fields are written arithmetically: a mask of the low k bits is % 2^k, a
// shift is a product or a quotient, and an `or` of disjoint fields is a sum.
// HeaderBits shows that this is what the masks and shifts compute.
module Framing {
  import opened Bytes

  const AETHER_VERSION: byte := 0
  const SHORT_HEADER_SIZE := 16
  const LONG_HEADER_SIZE := 24
  const MAX_STREAM_ID: u32 := 0x3FFFF
  const CONTROL_STREAM_ID: u32 := 0

  datatype FrameType =
    | Initial | Handshake | Data | Ack | Close | Ping
    | PathChallenge | PathResponse | StreamOpen | StreamClose
  {
    function Code(): (c: byte)
      ensures c < 10
    {
      match this
      case Initial => 0
      case Handshake => 1
      case Data => 2
      case Ack => 3
      case Close => 4
      case Ping => 5
      case PathChallenge => 6
      case PathResponse => 7
      case StreamOpen => 8
      case StreamClose => 9
    }

    predicate RequiresLongHeader() {
      Initial? || Handshake?
    }
  }

  // Only the six low-order bits name the type.
  function FrameTypeFrom(code: byte): (t: Option<FrameType>)
    ensures t.Some? <==> code % 64 < 10
    ensures t.Some? ==> t.value.Code() == code % 64
  {
    var bits := code % 64;
    if bits == 0 then Some(Initial)
    else if bits == 1 then Some(Handshake)
    else if bits == 2 then Some(Data)
    else if bits == 3 then Some(Ack)
    else if bits == 4 then Some(Close)
    else if bits == 5 then Some(Ping)
    else if bits == 6 then Some(PathChallenge)
    else if bits == 7 then Some(PathResponse)
    else if bits == 8 then Some(StreamOpen)
    else if bits == 9 then Some(StreamClose)
    else None
  }

  datatype ExtType = Terminator | Timestamp | Priority | Padding | PathId | FlowControlExt {
    function Code(): (c: byte)
      ensures c < 6
    {
      match this
      case Terminator => 0
      case Timestamp => 1
      case Priority => 2
      case Padding => 3
      case PathId => 4
      case FlowControlExt => 5
    }
  }

  // An unknown extension type is read as a terminator.
  function ExtTypeFrom(code: byte): (t: ExtType)
    ensures code < 6 ==> t.Code() == code
    ensures code >= 6 ==> t == Terminator
  {
    if code == 1 then Timestamp
    else if code == 2 then Priority
    else if code == 3 then Padding
    else if code == 4 then PathId
    else if code == 5 then FlowControlExt
    else Terminator
  }

  datatype Extension = Extension(extType: ExtType, value: bytes)

  datatype ShortHeader = ShortHeader(
    version: byte, frameType: FrameType, hasExtensions: bool, streamId: u32,
    offset: u32, length: u32, connectionId: u32)

  datatype LongHeader = LongHeader(short: ShortHeader, sourceConnectionId: u64)

  datatype Frame = Frame(
    longHeader: Option<LongHeader>, header: ShortHeader,
    extensions: seq<Extension>, payload: bytes)

  // ---------- frame constructors ----------

  function NewShort(t: FrameType, streamId: u32, connectionId: u32, offset: u32, payload: bytes): Frame {
    Frame(None,
          ShortHeader(AETHER_VERSION, t, false, streamId, offset, |payload| % U32, connectionId),
          [], payload)
  }

  function NewLong(t: FrameType, streamId: u32, destId: u32, sourceId: u64, payload: bytes): Frame {
    var short := ShortHeader(AETHER_VERSION, t, false, streamId, 0, |payload| % U32, destId);
    Frame(Some(LongHeader(short, sourceId)), short, [], payload)
  }

  // Only the copy of the header in the frame learns of the extension; a long
  // header keeps its own E bit.
  function AddExtension(f: Frame, e: Extension): Frame {
    f.(header := f.header.(hasExtensions := true), extensions := f.extensions + [e])
  }

  function DataFrame(streamId: u32, connectionId: u32, offset: u32, data: bytes): Frame {
    NewShort(Data, streamId, connectionId, offset, data)
  }

  function PathFrame(t: FrameType, connectionId: u32, pathId: byte, nonce: u64): Frame {
    AddExtension(NewShort(t, CONTROL_STREAM_ID, connectionId, 0, Be(nonce, 8)),
                 Extension(PathId, [pathId]))
  }

  // ---------- what the encoders write ----------

  function EncodeHeader(h: ShortHeader, long: bool): (b: bytes)
    ensures |b| == SHORT_HEADER_SIZE
  {
    [h.version % 16 * 16 + h.frameType.Code() / 4,
     h.frameType.Code() % 4 * 64 + (if long then 32 else 0) + (if h.hasExtensions then 16 else 0)
       + h.streamId / 0x1_0000 % 4]
    + Be(h.streamId, 2) + Be(h.offset, 4) + Be(h.length, 4) + Be(h.connectionId, 4)
  }

  function EncodeExtension(e: Extension): (b: bytes)
    ensures |b| == 4 + |e.value|
  {
    [e.extType.Code()] + Be(|e.value|, 3) + e.value
  }

  const TERMINATOR := Extension(Terminator, [])

  function EncodeExtensions(es: seq<Extension>): bytes {
    if es == [] then [] else EncodeExtension(es[0]) + EncodeExtensions(es[1..])
  }

  function EncodeFrontMatter(f: Frame): bytes {
    match f.longHeader
    case Some(l) => EncodeHeader(l.short, true) + Be(l.sourceConnectionId, 8)
    case None => EncodeHeader(f.header, false)
  }

  function EncodeChain(f: Frame): bytes {
    if f.header.hasExtensions then EncodeExtensions(f.extensions) + EncodeExtension(TERMINATOR) else []
  }

  function EncodeFrame(f: Frame): bytes {
    EncodeFrontMatter(f) + EncodeChain(f) + f.payload
  }

  function ExtensionsSize(es: seq<Extension>): nat {
    if es == [] then 0 else 4 + |es[0].value| + ExtensionsSize(es[1..])
  }

  function WireSize(f: Frame): nat {
    (if f.longHeader.Some? then LONG_HEADER_SIZE else SHORT_HEADER_SIZE)
    + (if f.header.hasExtensions then ExtensionsSize(f.extensions) + 4 else 0)
    + |f.payload|
  }

  // ---------- what the decoders read ----------

  function DecodeHeader(data: bytes): Result<ShortHeader> {
    if |data| < SHORT_HEADER_SIZE then Err(ProtocolViolation)
    else
      match FrameTypeFrom(data[0] % 16 * 4 + data[1] / 64)
      case None => Err(ProtocolViolation)
      case Some(t) =>
        Ok(ShortHeader(data[0] / 16, t, data[1] / 16 % 2 == 1,
                       data[1] % 4 * 0x1_0000 + ReadU16(data[2..4]),
                       ReadU32(data[4..8]), ReadU32(data[8..12]), ReadU32(data[12..16])))
  }

  function DecodeLong(data: bytes): Result<LongHeader> {
    if |data| < LONG_HEADER_SIZE then Err(ProtocolViolation)
    else
      match DecodeHeader(data[..16])
      case Err(e) => Err(e)
      case Ok(short) => Ok(LongHeader(short, ReadU64(data[16..24])))
  }

  // The extension at the front of data and the number of bytes it takes.
  function DecodeExtension(data: bytes): (r: Result<(Extension, nat)>)
    ensures r.Ok? ==> 4 <= r.value.1 <= |data| && r.value.1 == 4 + |r.value.0.value|
  {
    if |data| < 4 then Err(ProtocolViolation)
    else
      var len := ReadU24(data[1..4]);
      if |data| < 4 + len then Err(ProtocolViolation)
      else Ok((Extension(ExtTypeFrom(data[0]), data[4..4 + len]), 4 + len))
  }

  // The chain at the front of data, up to its terminator, and the bytes it takes.
  function DecodeChain(data: bytes): (r: Result<(seq<Extension>, nat)>)
    ensures r.Ok? ==> r.value.1 <= |data|
    decreases |data|
  {
    if data == [] then Err(ProtocolViolation)
    else
      match DecodeExtension(data)
      case Err(e) => Err(e)
      case Ok((ext, used)) =>
        if ext.extType == Terminator then Ok(([], used))
        else
          match DecodeChain(data[used..])
          case Err(e) => Err(e)
          case Ok((rest, more)) => Ok(([ext] + rest, used + more))
  }

  function DecodeBody(long: Option<LongHeader>, h: ShortHeader, body: bytes): Result<Frame> {
    var chain := if h.hasExtensions then DecodeChain(body) else Ok(([], 0));
    match chain
    case Err(e) => Err(e)
    case Ok((es, used)) =>
      if used + h.length <= |body| then Ok(Frame(long, h, es, body[used..used + h.length]))
      else Err(ProtocolViolation)
  }

  predicate HasLongBit(data: bytes) {
    |data| > 1 && data[1] / 32 % 2 == 1
  }

  function DecodeFrame(data: bytes): Result<Frame> {
    if data == [] then Err(ProtocolViolation)
    else if HasLongBit(data) then
      match DecodeLong(data)
      case Err(e) => Err(e)
      case Ok(l) =>
        if !l.short.frameType.RequiresLongHeader() then Err(ProtocolViolation)
        else DecodeBody(Some(l), l.short, data[LONG_HEADER_SIZE..])
    else
      match DecodeHeader(data)
      case Err(e) => Err(e)
      case Ok(h) => DecodeBody(None, h, data[SHORT_HEADER_SIZE..])
  }

  // ---------- the codecs as the library runs them ----------

  method WriteHeader(h: ShortHeader, long: bool, buf: Buffer)
    modifies buf
    ensures buf.data == old(buf.data) + EncodeHeader(h, long)
  {
    buf.Push(h.version % 16 * 16 + h.frameType.Code() / 4);
    var hBit := if long then 32 else 0;
    var eBit := if h.hasExtensions then 16 else 0;
    buf.Push(h.frameType.Code() % 4 * 64 + hBit + eBit + h.streamId / 0x1_0000 % 4);
    buf.Extend(Be(h.streamId, 2));
    buf.Extend(Be(h.offset, 4));
    buf.Extend(Be(h.length, 4));
    buf.Extend(Be(h.connectionId, 4));
  }

  method WriteExtension(e: Extension, buf: Buffer)
    modifies buf
    ensures buf.data == old(buf.data) + EncodeExtension(e)
  {
    buf.Push(e.extType.Code());
    buf.Extend(Be(|e.value|, 3));
    buf.Extend(e.value);
  }

  method WriteChain(es: seq<Extension>, buf: Buffer)
    modifies buf
    ensures buf.data == old(buf.data) + (EncodeExtensions(es) + EncodeExtension(TERMINATOR))
  {
    ghost var front := buf.data;
    var i := 0;
    while i < |es|
      invariant 0 <= i <= |es|
      invariant front + EncodeExtensions(es) == buf.data + EncodeExtensions(es[i..])
    {
      assert es[i..][0] == es[i] && es[i..][1..] == es[i + 1..];
      WriteExtension(es[i], buf);
      i := i + 1;
    }
    assert buf.data + EncodeExtensions(es[i..]) == buf.data;
    WriteExtension(TERMINATOR, buf);
    assert buf.data == front + EncodeExtensions(es) + EncodeExtension(TERMINATOR);
  }

  method WriteFrame(f: Frame) returns (wire: bytes)
    ensures wire == EncodeFrame(f)
  {
    var buf := new Buffer();
    match f.longHeader {
      case Some(l) =>
        WriteHeader(l.short, true, buf);
        buf.Extend(Be(l.sourceConnectionId, 8));
      case None =>
        WriteHeader(f.header, false, buf);
    }
    assert buf.data == EncodeFrontMatter(f);
    if f.header.hasExtensions {
      WriteChain(f.extensions, buf);
    }
    buf.Extend(f.payload);
    wire := buf.data;
  }

  // The extension loop, shared by the long and the short branch: reads from
  // `start` and returns the extensions and the offset after the terminator.
  method ReadChain(data: bytes, start: nat) returns (r: Result<(seq<Extension>, nat)>)
    requires start <= |data|
    ensures r.Ok? <==> DecodeChain(data[start..]).Ok?
    ensures r.Ok? ==> r.value == (DecodeChain(data[start..]).value.0, start + DecodeChain(data[start..]).value.1)
    ensures r.Err? ==> r == Err(ProtocolViolation)
  {
    hide DecodeExtension, DecodeChain;
    NoChain();
    var offset, extensions := start, [];
    while true
      invariant start <= offset <= |data|
      invariant var whole, rest := DecodeChain(data[start..]), DecodeChain(data[offset..]);
                && (whole.Ok? <==> rest.Ok?)
                && (rest.Ok? ==> whole.value.0 == extensions + rest.value.0)
                && (rest.Ok? ==> start + whole.value.1 == offset + rest.value.1)
      decreases |data| - offset
    {
      if offset >= |data| {
        return Err(ProtocolViolation);
      }
      var one := DecodeExtension(data[offset..]);
      if one.Err? {
        BadTurn(data[offset..]);
        return Err(ProtocolViolation);
      }
      var (ext, used) := one.value;
      ChainTurn(data[offset..]);
      assert data[offset..][used..] == data[offset + used..];
      offset := offset + used;
      if ext.extType == Terminator {
        assert extensions + [] == extensions;
        return Ok((extensions, offset));
      }
      extensions := extensions + [ext];
    }
  }

  // The rest of either branch: extensions, then `length` bytes of payload.
  method ReadBody(long: Option<LongHeader>, header: ShortHeader, data: bytes, start: nat) returns (r: Result<Frame>)
    requires start <= |data|
    ensures r == DecodeBody(long, header, data[start..])
  {
    var offset, extensions := start, [];
    if header.hasExtensions {
      var chain := ReadChain(data, start);
      if chain.Err? {
        DecodeErrors(data[start..]);
        return Err(ProtocolViolation);
      }
      extensions, offset := chain.value.0, chain.value.1;
    }
    if offset + header.length > |data| {
      return Err(ProtocolViolation);
    }
    var payload := data[offset..offset + header.length];
    assert payload == data[start..][offset - start..offset - start + header.length];
    return Ok(Frame(long, header, extensions, payload));
  }

  method ReadFrame(data: bytes) returns (r: Result<Frame>)
    ensures r == DecodeFrame(data)
  {
    if data == [] {
      return Err(ProtocolViolation);
    }
    if HasLongBit(data) {
      var long := DecodeLong(data);
      if long.Err? {
        return Err(long.error);
      }
      if !long.value.short.frameType.RequiresLongHeader() {
        return Err(ProtocolViolation);
      }
      r := ReadBody(Some(long.value), long.value.short, data, LONG_HEADER_SIZE);
    } else {
      var header := DecodeHeader(data);
      if header.Err? {
        return Err(header.error);
      }
      r := ReadBody(None, header.value, data, SHORT_HEADER_SIZE);
    }
  }

  lemma {:induction false} DecodeErrors(data: bytes)
    ensures DecodeChain(data).Err? ==> DecodeChain(data) == Err(ProtocolViolation)
    decreases |data|
  {
    if data != [] {
      match DecodeExtension(data)
      case Err(_) =>
      case Ok((_, used)) => DecodeErrors(data[used..]);
    }
  }

  // ---------- properties ----------

  // The masks and shifts of the first two header bytes, in both directions, and
  // the arithmetic used for them here.
  lemma HeaderBits(version: bv8, code: bv8, id: bv8, long: bool, extended: bool, b0: bv8, b1: bv8)
    ensures ((version & 0x0F) << 4) | ((code & 0x3F) >> 2) == version % 16 * 16 + code % 64 / 4
    ensures var h, e := if long then 0x20 else 0, if extended then 0x10 else 0;
            ((code & 0x03) << 6) | h | e | (id & 0x03)
            == code % 4 * 64 + (if long then 32 else 0) + (if extended then 16 else 0) + id % 4
    ensures (b0 >> 4) & 0x0F == b0 / 16 && code & 0x3F == code % 64
    ensures (((b0 & 0x0F) & 0x3F) << 2) | ((b1 >> 6) & 0x03) == b0 % 16 * 4 + b1 / 64
    ensures (b1 & 0x20 != 0) == (b1 / 32 % 2 == 1) && (b1 & 0x10 != 0) == (b1 / 16 % 2 == 1) && b1 & 0x03 == b1 % 4
  {
  }

  // The same of the stream id, whose two high bits travel in the second byte.
  lemma StreamIdBits(id: bv32, high: bv32, low: bv32)
    ensures (id >> 16) & 0x03 == id / 0x1_0000 % 4 && id & 0xFFFF == id % 0x1_0000
    ensures high < 4 && low < 0x1_0000 ==> (high << 16) | low == high * 0x1_0000 + low
  {
  }

  // A frame that some byte string decodes to.
  predicate CoherentExtension(e: Extension) {
    e.extType != Terminator && |e.value| < 0x100_0000
  }

  predicate CoherentHeader(h: ShortHeader) {
    h.version < 16 && h.streamId <= MAX_STREAM_ID
  }

  predicate Coherent(f: Frame) {
    && CoherentHeader(f.header)
    && (f.longHeader.Some? ==> f.longHeader.value.short == f.header && f.header.frameType.RequiresLongHeader())
    && (forall e <- f.extensions :: CoherentExtension(e))
    && (!f.header.hasExtensions ==> f.extensions == [])
    && f.header.length == |f.payload|
  }

  lemma {:induction false} ExtensionsLength(es: seq<Extension>)
    ensures |EncodeExtensions(es)| == ExtensionsSize(es)
  {
    if es != [] { ExtensionsLength(es[1..]); }
  }

  // wire_size is the encoded length, of any frame at all.
  lemma WireSizeIsLength(f: Frame)
    ensures |EncodeFrame(f)| == WireSize(f)
  {
    ExtensionsLength(f.extensions);
  }

  lemma PackedBytes(b0: byte, b1: byte, version: byte, code: byte, h: nat, e: nat, id: nat)
    requires version < 16 && code < 10 && h < 2 && e < 2 && id < 4
    requires b0 == version * 16 + code / 4
    requires b1 == code % 4 * 64 + h * 32 + e * 16 + id
    ensures b0 / 16 == version && b0 % 16 * 4 + b1 / 64 == code
    ensures b1 / 32 % 2 == h && b1 / 16 % 2 == e && b1 % 4 == id
  {
  }

  lemma TwoBytes(high: byte, low: byte)
    ensures ReadU16([high, low]) == high * 256 + low
  {
    assert [high, low][..1] == [high] && [high][..0] == [];
    assert FromBe([high]) == high;
  }

  lemma LowHalf(id: nat)
    ensures id / 256 % 256 * 256 + id % 256 == id % 0x1_0000
  {
  }

  lemma StreamIdField(id: u32)
    ensures ReadU16(Be(id, 2)) == id % 0x1_0000
  {
    assert Be(id / 256, 1) == [id / 256 % 256];
    assert Be(id, 2) == [id / 256 % 256, id % 256];
    hide *;
    TwoBytes(id / 256 % 256, id % 256);
    LowHalf(id);
  }

  lemma HeaderFields(h: ShortHeader, long: bool, data: bytes)
    requires CoherentHeader(h) && |data| >= 16
    requires data[0] == h.version * 16 + h.frameType.Code() / 4
    requires data[1] == h.frameType.Code() % 4 * 64 + (if long then 1 else 0) * 32
                      + (if h.hasExtensions then 1 else 0) * 16 + h.streamId / 0x1_0000
    requires ReadU16(data[2..4]) == h.streamId % 0x1_0000
    requires ReadU32(data[4..8]) == h.offset
    requires ReadU32(data[8..12]) == h.length
    requires ReadU32(data[12..16]) == h.connectionId
    ensures DecodeHeader(data) == Ok(h)
    ensures HasLongBit(data) == long
  {
    PackedBytes(data[0], data[1], h.version, h.frameType.Code(),
                if long then 1 else 0, if h.hasExtensions then 1 else 0, h.streamId / 0x1_0000);
    CodeRoundTrip(h.frameType);
  }

  lemma HeaderRoundTrip(h: ShortHeader, long: bool, rest: bytes)
    requires CoherentHeader(h)
    ensures DecodeHeader(EncodeHeader(h, long) + rest) == Ok(h)
    ensures HasLongBit(EncodeHeader(h, long) + rest) == long
  {
    var data := EncodeHeader(h, long) + rest;
    assert data[2..4] == Be(h.streamId, 2) && data[4..8] == Be(h.offset, 4)
        && data[8..12] == Be(h.length, 4) && data[12..16] == Be(h.connectionId, 4);
    StreamIdField(h.streamId);
    FieldU32(h.offset);
    FieldU32(h.length);
    FieldU32(h.connectionId);
    HeaderFields(h, long, data);
  }

  lemma CodeRoundTrip(t: FrameType)
    ensures FrameTypeFrom(t.Code()) == Some(t)
  {
  }

  lemma ExtensionRoundTrip(e: Extension, rest: bytes)
    requires |e.value| < 0x100_0000
    ensures DecodeExtension(EncodeExtension(e) + rest) == Ok((e, 4 + |e.value|))
  {
    var data := EncodeExtension(e) + rest;
    assert data[1..4] == Be(|e.value|, 3);
    assert data[4..4 + |e.value|] == e.value;
    BeWidths(|e.value|);
  }

  // One turn of the chain: an extension at the front of data and what follows it.
  lemma ChainTurn(data: bytes)
    requires DecodeExtension(data).Ok?
    ensures var (ext, used) := DecodeExtension(data).value;
            var rest := DecodeChain(data[used..]);
            DecodeChain(data) == if ext.extType == Terminator then Ok(([], used))
                                 else if rest.Err? then Err(rest.error)
                                 else Ok(([ext] + rest.value.0, used + rest.value.1))
  {
    hide DecodeExtension;
  }

  lemma BadTurn(data: bytes)
    requires DecodeExtension(data).Err?
    ensures DecodeChain(data).Err?
  {
  }

  lemma NoChain()
    ensures DecodeChain([]).Err?
  {
  }

  lemma ChainStep(e: Extension, more: bytes)
    requires CoherentExtension(e) && DecodeChain(more).Ok?
    ensures DecodeChain(EncodeExtension(e) + more)
         == Ok(([e] + DecodeChain(more).value.0, |EncodeExtension(e)| + DecodeChain(more).value.1))
  {
    hide DecodeChain, DecodeExtension, EncodeExtension;
    ExtensionRoundTrip(e, more);
    Seam(EncodeExtension(e), more);
    ChainTurn(EncodeExtension(e) + more);
  }

  lemma ChainEnd(rest: bytes)
    ensures DecodeChain(EncodeExtension(TERMINATOR) + rest) == Ok(([], 4))
  {
    ExtensionRoundTrip(TERMINATOR, rest);
  }

  lemma {:induction false} ChainRoundTrip(es: seq<Extension>, tail: bytes)
    requires forall i | 0 <= i < |es| :: CoherentExtension(es[i])
    requires DecodeChain(tail) == Ok(([], 4))
    ensures DecodeChain(EncodeExtensions(es) + tail) == Ok((es, |EncodeExtensions(es)| + 4))
  {
    hide DecodeChain, DecodeExtension;
    if es == [] {
      assert EncodeExtensions(es) + tail == tail;
    } else {
      var first, rest := EncodeExtension(es[0]), EncodeExtensions(es[1..]);
      ChainRoundTrip(es[1..], tail);
      ChainStep(es[0], rest + tail);
      assert EncodeExtensions(es) + tail == first + (rest + tail);
      assert [es[0]] + es[1..] == es;
    }
  }

  lemma FrameChainRoundTrip(f: Frame, rest: bytes)
    requires f.header.hasExtensions && forall e <- f.extensions :: CoherentExtension(e)
    ensures DecodeChain(EncodeChain(f) + rest) == Ok((f.extensions, |EncodeChain(f)|))
  {
    hide DecodeChain, EncodeExtensions, EncodeExtension;
    var chain, end := EncodeExtensions(f.extensions), EncodeExtension(TERMINATOR);
    assert EncodeChain(f) + rest == chain + (end + rest);
    ChainEnd(rest);
    ChainRoundTrip(f.extensions, end + rest);
  }

  lemma Middle(a: bytes, b: bytes, c: bytes)
    ensures (a + b + c)[|a|..|a| + |b|] == b && a + b + c == a + (b + c)
  {
  }

  lemma BodyRoundTrip(f: Frame, junk: bytes)
    requires Coherent(f)
    ensures DecodeBody(f.longHeader, f.header, EncodeChain(f) + f.payload + junk) == Ok(f)
  {
    var chain := EncodeChain(f);
    assert !f.header.hasExtensions ==> chain == [];
    hide DecodeChain, EncodeExtensions, EncodeExtension, EncodeChain, CoherentExtension, CoherentHeader;
    Middle(chain, f.payload, junk);
    if f.header.hasExtensions {
      FrameChainRoundTrip(f, f.payload + junk);
    }
  }

  lemma LongRoundTrip(l: LongHeader, rest: bytes)
    requires CoherentHeader(l.short)
    ensures DecodeLong(EncodeHeader(l.short, true) + Be(l.sourceConnectionId, 8) + rest) == Ok(l)
    ensures HasLongBit(EncodeHeader(l.short, true) + Be(l.sourceConnectionId, 8) + rest)
  {
    var head, tail := EncodeHeader(l.short, true), Be(l.sourceConnectionId, 8) + rest;
    var data := EncodeHeader(l.short, true) + Be(l.sourceConnectionId, 8) + rest;
    assert data == head + tail;
    HeaderRoundTrip(l.short, true, tail);
    assert data[..16] == head + [];
    HeaderRoundTrip(l.short, true, []);
    assert data[16..24] == Be(l.sourceConnectionId, 8);
    FieldU64(l.sourceConnectionId);
  }

  // What is left to decode once the header is read.
  lemma AfterShortHeader(front: bytes, body: bytes, h: ShortHeader)
    requires |front| == SHORT_HEADER_SIZE && !HasLongBit(front + body) && DecodeHeader(front + body) == Ok(h)
    ensures DecodeFrame(front + body) == DecodeBody(None, h, body)
  {
    hide DecodeHeader, DecodeBody, HasLongBit;
    Seam(front, body);
  }

  lemma AfterLongHeader(front: bytes, body: bytes, l: LongHeader)
    requires |front| == LONG_HEADER_SIZE && HasLongBit(front + body) && DecodeLong(front + body) == Ok(l)
    requires l.short.frameType.RequiresLongHeader()
    ensures DecodeFrame(front + body) == DecodeBody(Some(l), l.short, body)
  {
    hide DecodeLong, DecodeBody, HasLongBit;
    Seam(front, body);
  }

  lemma FourParts(a: bytes, b: bytes, c: bytes, d: bytes)
    ensures a + b + c + d == a + (b + c + d)
  {
    Regroup(a, b, c);
    Regroup(a, b + c, d);
  }

  lemma FrontRoundTrip(f: Frame, body: bytes)
    requires Coherent(f)
    ensures DecodeFrame(EncodeFrontMatter(f) + body) == DecodeBody(f.longHeader, f.header, body)
  {
    hide EncodeHeader, Be, DecodeFrame, DecodeHeader, DecodeLong, DecodeBody, HasLongBit, CoherentHeader, CoherentExtension;
    match f.longHeader {
      case None =>
        HeaderRoundTrip(f.header, false, body);
        AfterShortHeader(EncodeFrontMatter(f), body, f.header);
      case Some(l) =>
        LongRoundTrip(l, body);
        AfterLongHeader(EncodeFrontMatter(f), body, l);
    }
  }

  lemma FrameRoundTrip(f: Frame, junk: bytes)
    requires Coherent(f)
    ensures DecodeFrame(EncodeFrame(f) + junk) == Ok(f)
  {
    assert EncodeFrame(f) == EncodeFrontMatter(f) + EncodeChain(f) + f.payload;
    hide *;
    FourParts(EncodeFrontMatter(f), EncodeChain(f), f.payload, junk);
    FrontRoundTrip(f, EncodeChain(f) + f.payload + junk);
    BodyRoundTrip(f, junk);
  }

  lemma {:induction false} ChainIsNormal(data: bytes)
    requires DecodeChain(data).Ok?
    ensures forall e <- DecodeChain(data).value.0 :: CoherentExtension(e)
    ensures ExtensionsSize(DecodeChain(data).value.0) + 4 <= DecodeChain(data).value.1
    decreases |data|
  {
    var (ext, used) := DecodeExtension(data).value;
    if ext.extType != Terminator {
      ChainIsNormal(data[used..]);
    }
  }

  // Every accepted byte string yields a coherent frame whose canonical form is
  // no longer than the input and decodes to the same frame.
  lemma DecodeYieldsNormalForm(data: bytes)
    requires DecodeFrame(data).Ok?
    ensures var f := DecodeFrame(data).value;
            && Coherent(f)
            && DecodeFrame(EncodeFrame(f)) == Ok(f)
            && |EncodeFrame(f)| == WireSize(f) <= |data|
  {
    var f := DecodeFrame(data).value;
    var body := data[if HasLongBit(data) then LONG_HEADER_SIZE else SHORT_HEADER_SIZE..];
    if f.header.hasExtensions {
      ChainIsNormal(body);
    }
    FrameRoundTrip(f, []);
    assert EncodeFrame(f) + [] == EncodeFrame(f);
    WireSizeIsLength(f);
  }

  // Coherence is exactly what the round trip needs, whatever follows the frame.
  lemma RoundTripIffCoherent(f: Frame, junk: bytes)
    ensures DecodeFrame(EncodeFrame(f) + junk) == Ok(f) <==> Coherent(f)
  {
    if Coherent(f) {
      FrameRoundTrip(f, junk);
    } else if DecodeFrame(EncodeFrame(f) + junk) == Ok(f) {
      DecodeYieldsNormalForm(EncodeFrame(f) + junk);
    }
  }

  // Encodings delimit themselves: a stream of bytes splits in one way only.
  lemma SelfDelimiting(f: Frame, g: Frame, junkF: bytes, junkG: bytes)
    requires Coherent(f) && Coherent(g)
    requires EncodeFrame(f) + junkF == EncodeFrame(g) + junkG
    ensures f == g && junkF == junkG
  {
    FrameRoundTrip(f, junkF);
    FrameRoundTrip(g, junkG);
    Seam(EncodeFrame(f), junkF);
    Seam(EncodeFrame(g), junkG);
  }

  // An extension added to a long frame is lost: the E bit that is sent is the
  // long header's own.
  lemma ExtendedLongFrameNeverRoundTrips(t: FrameType, streamId: u32, dest: u32, source: u64, payload: bytes,
                                         e: Extension, junk: bytes)
    ensures var f := AddExtension(NewLong(t, streamId, dest, source, payload), e);
            DecodeFrame(EncodeFrame(f) + junk) != Ok(f)
  {
    hide EncodeFrame, DecodeFrame;
    RoundTripIffCoherent(AddExtension(NewLong(t, streamId, dest, source, payload), e), junk);
  }
}
