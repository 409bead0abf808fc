// Extensions of types this version does not know. A comment on ExtType promises
// that they are ignored; the decoder takes the first of them for the terminator
// (aether-core/src/framing.rs:127-173). Exactly when that goes unnoticed.
module UnknownExtensions {
  import opened Bytes
  import opened Framing

  // A TLV of any type but the terminator's, with a length that fits its field.
  datatype RawTlv = RawTlv(code: byte, value: bytes) {
    predicate Valid() {
      code != 0 && |value| < 0x100_0000
    }

    predicate Known() {
      code < 6
    }

    function Encode(): (b: bytes)
      ensures |b| == 4 + |value|
    {
      [code] + Be(|value|, 3) + value
    }

    function AsExtension(): Extension {
      Extension(ExtTypeFrom(code), value)
    }
  }

  function EncodeRaw(raws: seq<RawTlv>): bytes {
    if raws == [] then [] else raws[0].Encode() + EncodeRaw(raws[1..])
  }

  function KnownOne(t: RawTlv): seq<Extension> {
    if t.Known() then [t.AsExtension()] else []
  }

  // What ignoring the unknown extensions would leave.
  function KnownOnes(raws: seq<RawTlv>): seq<Extension> {
    if raws == [] then []
    else KnownOne(raws[0]) + KnownOnes(raws[1..])
  }

  // How many extensions come before the first unknown one.
  function Stop(raws: seq<RawTlv>): (k: nat)
    ensures k <= |raws| && (k < |raws| ==> !raws[k].Known())
    ensures forall i | 0 <= i < k :: raws[i].Known()
  {
    if raws == [] || !raws[0].Known() then 0 else 1 + Stop(raws[1..])
  }

  // The bytes that the decoder is left with after the chain.
  function Unread(raws: seq<RawTlv>, rest: bytes): bytes {
    if Stop(raws) == |raws| then rest
    else EncodeRaw(raws[Stop(raws) + 1..]) + EncodeExtension(TERMINATOR) + rest
  }

  ghost predicate AllValid(raws: seq<RawTlv>) {
    forall i | 0 <= i < |raws| :: raws[i].Valid()
  }

  lemma RawRoundTrip(t: RawTlv, rest: bytes)
    requires t.Valid()
    ensures DecodeExtension(t.Encode() + rest) == Ok((t.AsExtension(), 4 + |t.value|))
  {
    var data := t.Encode() + rest;
    assert data[1..4] == Be(|t.value|, 3);
    assert data[4..4 + |t.value|] == t.value;
    BeWidths(|t.value|);
  }

  // How the first extension decides what is seen and what is left unread.
  lemma FirstDecides(raws: seq<RawTlv>, rest: bytes)
    requires raws != []
    ensures raws[0].Known() ==>
              && KnownOnes(raws[..Stop(raws)]) == [raws[0].AsExtension()] + KnownOnes(raws[1..][..Stop(raws[1..])])
              && Unread(raws, rest) == Unread(raws[1..], rest)
    ensures !raws[0].Known() ==>
              && KnownOnes(raws[..Stop(raws)]) == []
              && Unread(raws, rest) == EncodeRaw(raws[1..]) + EncodeExtension(TERMINATOR) + rest
  {
    hide EncodeRaw, EncodeExtension, RawTlv.Known, RawTlv.AsExtension;
    if raws[0].Known() {
      var k := Stop(raws[1..]);
      assert Stop(raws) == k + 1;
      assert raws[..k + 1][0] == raws[0] && raws[..k + 1][1..] == raws[1..][..k];
      assert k < |raws[1..]| ==> raws[1..][k + 1..] == raws[k + 2..];
    }
  }

  // A chain that begins with an extension of any type.
  lemma RawTurn(t: RawTlv, more: bytes)
    requires t.Valid()
    ensures !t.Known() ==> DecodeChain(t.Encode() + more) == Ok(([], |t.Encode()|))
    ensures t.Known() && DecodeChain(more).Ok? ==>
              DecodeChain(t.Encode() + more)
              == Ok(([t.AsExtension()] + DecodeChain(more).value.0, |t.Encode()| + DecodeChain(more).value.1))
  {
    hide DecodeChain, DecodeExtension, RawTlv.Encode;
    RawRoundTrip(t, more);
    Seam(t.Encode(), more);
    ChainTurn(t.Encode() + more);
  }

  lemma SkipFront(front: bytes, more: bytes, used: nat)
    requires used <= |more|
    ensures (front + more)[|front| + used..] == more[used..]
  {
  }

  // The chain is read as it was written up to the first unknown extension; there
  // it ends, and the decoder is left with all that follows.
  ghost predicate StopsAtUnknown(raws: seq<RawTlv>, rest: bytes, data: bytes) {
    && DecodeChain(data).Ok?
    && var (es, used) := DecodeChain(data).value;
       es == KnownOnes(raws[..Stop(raws)]) && used <= |data| && data[used..] == Unread(raws, rest)
  }

  lemma StopsAtTerminator(rest: bytes)
    ensures StopsAtUnknown([], rest, EncodeExtension(TERMINATOR) + rest)
  {
    hide DecodeChain, EncodeExtension;
    ChainEnd(rest);
    Seam(EncodeExtension(TERMINATOR), rest);
  }

  lemma StopsAfterFirst(raws: seq<RawTlv>, rest: bytes, more: bytes)
    requires raws != [] && raws[0].Valid()
    requires more == EncodeRaw(raws[1..]) + EncodeExtension(TERMINATOR) + rest
    requires StopsAtUnknown(raws[1..], rest, more)
    ensures StopsAtUnknown(raws, rest, raws[0].Encode() + more)
  {
    FirstDecides(raws, rest);
    hide DecodeChain, EncodeExtension, EncodeRaw, KnownOnes, Stop, Unread, RawTlv.Encode, RawTlv.Known, RawTlv.AsExtension;
    RawTurn(raws[0], more);
    if raws[0].Known() {
      SkipFront(raws[0].Encode(), more, DecodeChain(more).value.1);
    } else {
      Seam(raws[0].Encode(), more);
    }
  }

  lemma {:induction false} ChainStopsAtUnknown(raws: seq<RawTlv>, rest: bytes)
    requires AllValid(raws)
    ensures StopsAtUnknown(raws, rest, EncodeRaw(raws) + EncodeExtension(TERMINATOR) + rest)
  {
    var end := EncodeExtension(TERMINATOR);
    if raws == [] {
      assert EncodeRaw(raws) + end == end;
      StopsAtTerminator(rest);
    } else {
      var head, tail := raws[0].Encode(), EncodeRaw(raws[1..]);
      assert EncodeRaw(raws) == head + tail && raws[0].Valid() && AllValid(raws[1..]);
      hide *;
      Regroup(head, tail, end);
      Regroup(head, tail + end, rest);
      ChainStopsAtUnknown(raws[1..], rest);
      StopsAfterFirst(raws, rest, tail + end + rest);
    }
  }

  lemma {:induction false} NoneKnown(raws: seq<RawTlv>, k: nat)
    requires k <= |raws|
    ensures KnownOnes(raws[k..]) == [] <==> forall i | k <= i < |raws| :: !raws[i].Known()
    decreases |raws| - k
  {
    hide RawTlv.Known, RawTlv.AsExtension;
    if k < |raws| {
      NoneKnown(raws, k + 1);
      assert raws[k..][0] == raws[k] && raws[k..][1..] == raws[k + 1..];
    }
  }

  lemma FirstCancels<T>(x: T, a: seq<T>, b: seq<T>)
    ensures [x] + a == [x] + b <==> a == b
  {
    assert ([x] + a)[1..] == a && ([x] + b)[1..] == b;
  }

  lemma UnknownFirst(raws: seq<RawTlv>)
    requires raws != [] && !raws[0].Known()
    ensures Stop(raws) == 0 && KnownOnes(raws[..0]) == [] && KnownOnes(raws) == KnownOnes(raws[1..])
  {
    assert [] + KnownOnes(raws[1..]) == KnownOnes(raws[1..]);
  }

  lemma {:induction false} KnownAfterStop(raws: seq<RawTlv>)
    ensures KnownOnes(raws[..Stop(raws)]) == KnownOnes(raws)
       <==> Stop(raws) == |raws| || KnownOnes(raws[Stop(raws) + 1..]) == []
  {
    if raws == [] {
    } else if raws[0].Known() {
      var tail := raws[1..];
      FirstDecides(raws, []);
      assert KnownOnes(raws) == [raws[0].AsExtension()] + KnownOnes(tail) && Stop(raws) == Stop(tail) + 1;
      hide KnownOnes, Stop, RawTlv.Known, RawTlv.AsExtension, Unread;
      FirstCancels(raws[0].AsExtension(), KnownOnes(tail[..Stop(tail)]), KnownOnes(tail));
      KnownAfterStop(tail);
      assert Stop(tail) < |tail| ==> tail[Stop(tail) + 1..] == raws[Stop(raws) + 1..];
    } else {
      UnknownFirst(raws);
    }
  }

  lemma KnownBeforeStop(raws: seq<RawTlv>)
    ensures KnownOnes(raws[..Stop(raws)]) == KnownOnes(raws)
       <==> forall i | Stop(raws) < i < |raws| :: !raws[i].Known()
  {
    hide KnownOnes, Stop, RawTlv.Known;
    KnownAfterStop(raws);
    if Stop(raws) < |raws| {
      NoneKnown(raws, Stop(raws) + 1);
    }
  }

  // Headers that announce extensions and a payload of this length.
  predicate Announces(long: Option<LongHeader>, h: ShortHeader, payload: bytes) {
    && CoherentHeader(h) && h.hasExtensions && h.length == |payload|
    && (long.Some? ==> long.value.short == h && h.frameType.RequiresLongHeader())
  }

  function EncodeWithRaw(long: Option<LongHeader>, h: ShortHeader, raws: seq<RawTlv>, rest: bytes): bytes {
    EncodeFrontMatter(Frame(long, h, [], [])) + (EncodeRaw(raws) + EncodeExtension(TERMINATOR) + rest)
  }

  lemma BodyUpToUnknown(long: Option<LongHeader>, h: ShortHeader, raws: seq<RawTlv>, payload: bytes, rest: bytes, body: bytes)
    requires h.hasExtensions && h.length == |payload| && |payload| <= |Unread(raws, rest)|
    requires StopsAtUnknown(raws, rest, body)
    ensures DecodeBody(long, h, body) == Ok(Frame(long, h, KnownOnes(raws[..Stop(raws)]), Unread(raws, rest)[..|payload|]))
  {
    hide DecodeChain, KnownOnes, Stop, Unread;
    var used := DecodeChain(body).value.1;
    assert body[used..used + |payload|] == body[used..][..|payload|];
  }

  // What comes of a frame with extensions of any types: never an error, but the
  // known extensions before the first unknown one, and as payload whatever
  // bytes follow that.
  lemma DecodesUpToUnknown(long: Option<LongHeader>, h: ShortHeader, raws: seq<RawTlv>, payload: bytes, junk: bytes)
    requires Announces(long, h, payload) && AllValid(raws)
    ensures |payload| <= |Unread(raws, payload + junk)|
    ensures DecodeFrame(EncodeWithRaw(long, h, raws, payload + junk))
         == Ok(Frame(long, h, KnownOnes(raws[..Stop(raws)]), Unread(raws, payload + junk)[..|payload|]))
  {
    var front := EncodeFrontMatter(Frame(long, h, [], []));
    var rest := payload + junk;
    var body := EncodeRaw(raws) + EncodeExtension(TERMINATOR) + rest;
    ChainStopsAtUnknown(raws, rest);
    assert |rest| <= |Unread(raws, rest)|;
    hide EncodeRaw, EncodeExtension, KnownOnes, Stop, Unread, AllValid;
    BodyUpToUnknown(long, h, raws, payload, rest, body);
    hide StopsAtUnknown, DecodeChain, DecodeBody, EncodeHeader, Be, DecodeHeader, DecodeLong, HasLongBit, CoherentHeader;
    Seam(front, body);
    match long {
      case None => HeaderRoundTrip(h, false, body);
      case Some(l) => LongRoundTrip(l, body);
    }
  }

  // Unknown extensions are ignored, as promised, if and only if there are none,
  // or none but unknown ones follow the first, and the payload happens to begin
  // the bytes after that one.
  lemma IgnoredIff(long: Option<LongHeader>, h: ShortHeader, raws: seq<RawTlv>, payload: bytes, junk: bytes)
    requires Announces(long, h, payload) && AllValid(raws)
    ensures DecodeFrame(EncodeWithRaw(long, h, raws, payload + junk)) == Ok(Frame(long, h, KnownOnes(raws), payload))
       <==> || Stop(raws) == |raws|
            || ((forall i | Stop(raws) < i < |raws| :: !raws[i].Known())
                && payload <= EncodeRaw(raws[Stop(raws) + 1..]) + EncodeExtension(TERMINATOR) + (payload + junk))
  {
    var rest := payload + junk;
    hide EncodeWithRaw, EncodeRaw, EncodeExtension, DecodeFrame, KnownOnes, Announces, RawTlv.Known, Stop;
    DecodesUpToUnknown(long, h, raws, payload, junk);
    KnownBeforeStop(raws);
    Seam(payload, junk);
    StartsWith(Unread(raws, rest), payload);
  }

  lemma StartsWith(data: bytes, front: bytes)
    ensures |front| <= |data| && data[..|front|] == front <==> front <= data
  {
  }

  // An unknown extension of no length, and then a payload of one byte, 1: what
  // is read is the first byte of the terminator, 0.
  lemma UnknownExtensionCorruptsPayload(h: ShortHeader)
    requires Announces(None, h, [1])
    ensures var wire := EncodeHeader(h, false) + [6, 0, 0, 0] + [0, 0, 0, 0] + [1];
            DecodeFrame(wire) == Ok(Frame(None, h, [], [0]))
  {
    var t := RawTlv(6, []);
    var raws: seq<RawTlv> := [t];
    var none: seq<RawTlv> := [];
    assert raws[1..] == none == raws[..0] && Stop(raws) == 0 && KnownOnes(none) == [] && EncodeRaw(none) == [];
    ZeroLength();
    assert t.Encode() == [6, 0, 0, 0] && EncodeExtension(TERMINATOR) == [0, 0, 0, 0];
    assert EncodeRaw(raws) == t.Encode() + [] == [6, 0, 0, 0];
    assert EncodeFrontMatter(Frame(None, h, [], [])) == EncodeHeader(h, false);
    hide EncodeRaw, EncodeExtension, EncodeHeader, EncodeFrontMatter, DecodeFrame, Announces, KnownOnes, Stop, RawTlv.Encode;
    DecodesUpToUnknown(None, h, raws, [1], []);
    assert Unread(raws, [1] + [])[..1] == [0];
    assert EncodeWithRaw(None, h, raws, [1] + []) == EncodeHeader(h, false) + [6, 0, 0, 0] + [0, 0, 0, 0] + [1];
  }

  lemma ZeroLength()
    ensures Be(0, 3) == [0, 0, 0]
  {
    assert Be(0, 1) == [0] && Be(0, 2) == [0, 0];
  }
}
