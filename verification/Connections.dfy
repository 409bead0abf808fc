// Sending stream data: the chunking loop of a connection
// (aether-core/src/connection.rs). The socket and the packet protection are
// cut away: what is sent is the list of encoded frames.
module Connections {
  import opened Bytes
  import opened Framing

  const MAX_PAYLOAD_SIZE := 1376

  datatype ConnectionState = Init | Handshaking | Active | Closing | Closed

  function ChunkCount(data: bytes): nat {
    (|data| + MAX_PAYLOAD_SIZE - 1) / MAX_PAYLOAD_SIZE
  }

  // Where chunk i starts; the end of the data when there is no chunk i.
  function ChunkStart(data: bytes, i: nat): (at: nat)
    ensures at <= |data|
  {
    if i * MAX_PAYLOAD_SIZE <= |data| then i * MAX_PAYLOAD_SIZE else |data|
  }

  function Chunk(data: bytes, i: nat): bytes {
    data[ChunkStart(data, i)..ChunkStart(data, i + 1)]
  }

  // The offset goes out as a 32-bit product.
  function ChunkFrame(streamId: u32, connectionId: u32, data: bytes, i: nat): Frame {
    DataFrame(streamId, connectionId, i % U32 * MAX_PAYLOAD_SIZE % U32, Chunk(data, i))
  }

  function ChunkWires(streamId: u32, connectionId: u32, data: bytes, n: nat): (w: seq<bytes>)
    ensures |w| == n
  {
    seq(n, i requires 0 <= i => EncodeFrame(ChunkFrame(streamId, connectionId, data, i)))
  }

  lemma ChunkWiresStep(streamId: u32, connectionId: u32, data: bytes, n: nat)
    ensures ChunkWires(streamId, connectionId, data, n + 1)
         == ChunkWires(streamId, connectionId, data, n) + [EncodeFrame(ChunkFrame(streamId, connectionId, data, n))]
  {
    hide ChunkFrame, EncodeFrame;
  }

  // What the receiver of the i-th datagram of a transfer finds in it.
  ghost predicate ChunkArrives(wire: bytes, streamId: u32, connectionId: u32, data: bytes, i: nat) {
    match DecodeFrame(wire)
    case Err(_) => false
    case Ok(f) =>
      && f.longHeader.None? && f.extensions == []
      && f.header.version == 0 && f.header.frameType == Data
      && f.header.streamId == streamId && f.header.connectionId == connectionId
      && f.header.offset == i % U32 * 1376 % U32
      && i * 1376 < |data|
      && f.payload == data[i * 1376..if |data| < (i + 1) * 1376 then |data| else (i + 1) * 1376]
  }

  ghost predicate DataArrives(wires: seq<bytes>, streamId: u32, connectionId: u32, data: bytes) {
    |wires| == ChunkCount(data)
    && forall i | 0 <= i < |wires| :: ChunkArrives(wires[i], streamId, connectionId, data, i)
  }

  // Datagrams carry one chunk each, addressed as they were sent, and none is
  // longer than 1392 bytes.
  lemma DatagramsSay(streamId: u32, connectionId: u32, data: bytes, i: nat)
    requires streamId <= MAX_STREAM_ID && i < ChunkCount(data)
    ensures var wire := EncodeFrame(ChunkFrame(streamId, connectionId, data, i));
            ChunkArrives(wire, streamId, connectionId, data, i) && 16 < |wire| <= 1392
  {
    var f := ChunkFrame(streamId, connectionId, data, i);
    assert f.header == ShortHeader(0, Data, false, streamId, i % U32 * 1376 % U32, |Chunk(data, i)|, connectionId);
    assert f.payload == data[i * 1376..if |data| < (i + 1) * 1376 then |data| else (i + 1) * 1376];
    assert Coherent(f) && f.longHeader.None? && f.extensions == [];
    assert WireSize(f) == 16 + |f.payload|;
    hide EncodeFrame, DecodeFrame, Coherent, ChunkFrame, WireSize, Chunk;
    WireSizeIsLength(f);
    FrameRoundTrip(f, []);
    assert EncodeFrame(f) + [] == EncodeFrame(f);
  }

  lemma TransferSays(streamId: u32, connectionId: u32, data: bytes)
    requires streamId <= MAX_STREAM_ID
    ensures DataArrives(ChunkWires(streamId, connectionId, data, ChunkCount(data)), streamId, connectionId, data)
  {
    var wires := ChunkWires(streamId, connectionId, data, ChunkCount(data));
    hide ChunkArrives, EncodeFrame, ChunkFrame, ChunkCount;
    forall i | 0 <= i < |wires| ensures ChunkArrives(wires[i], streamId, connectionId, data, i) {
      DatagramsSay(streamId, connectionId, data, i);
    }
  }

  // There are as many as it takes.
  lemma ChunkCountIsLeast(data: bytes)
    ensures var n := ChunkCount(data); n * 1376 >= |data| && (n > 0 ==> (n - 1) * 1376 < |data|)
  {
  }

  class Connection {
    var state: ConnectionState
    const ourConnectionId: u32
    const peerConnectionId: Option<u32>
    var sent: seq<bytes>

    constructor (state: ConnectionState, ours: u32, peers: Option<u32>)
      ensures this.state == state && ourConnectionId == ours && peerConnectionId == peers && sent == []
    {
      this.state, ourConnectionId, peerConnectionId, sent := state, ours, peers, [];
    }

    method SendFrame(frame: Frame) returns (r: Result<()>)
      modifies this`sent
      ensures state == Active ==> r == Ok(()) && sent == old(sent) + [EncodeFrame(frame)]
      ensures state != Active ==> r == Err(InvalidState) && sent == old(sent)
    {
      if state != Active {
        return Err(InvalidState);
      }
      var wire := WriteFrame(frame);
      sent := sent + [wire];
      r := Ok(());
    }

    method SendStreamData(streamId: u32, data: bytes) returns (r: Result<()>)
      modifies this`sent
      ensures state == Active ==>
                var target := if peerConnectionId.Some? then peerConnectionId.value else ourConnectionId;
                r == Ok(()) && sent == old(sent) + ChunkWires(streamId, target, data, ChunkCount(data))
      ensures state != Active ==>
                sent == old(sent) && r == if data == [] then Ok(()) else Err(InvalidState)
      ensures state == Active && streamId <= MAX_STREAM_ID ==>
                && old(sent) <= sent
                && DataArrives(sent[|old(sent)|..], streamId,
                               if peerConnectionId.Some? then peerConnectionId.value else ourConnectionId, data)
    {
      hide DataArrives, EncodeFrame, ChunkFrame;
      var target := if peerConnectionId.Some? then peerConnectionId.value else ourConnectionId;
      var i := 0;
      while i < ChunkCount(data)
        invariant i <= ChunkCount(data)
        invariant sent == old(sent) + ChunkWires(streamId, target, data, i)
        invariant i > 0 ==> state == Active
      {
        var outcome := SendFrame(ChunkFrame(streamId, target, data, i));
        if outcome.Err? {
          return outcome;
        }
        ChunkWiresStep(streamId, target, data, i);
        i := i + 1;
      }
      if streamId <= MAX_STREAM_ID {
        TransferSays(streamId, target, data);
        assert sent[|old(sent)|..] == ChunkWires(streamId, target, data, ChunkCount(data));
      }
      r := Ok(());
    }
  }
}
