// Reassembly over whole runs: reads between the arrivals of one transfer, and
// the frames of several transfers, on one stream or on many, that arrive mixed.
module ReassemblyRuns {
  import opened Bytes
  import opened Framing
  import opened Streams
  import opened Connections
  import opened Reassembly
  import opened Splices
  import R = ReadRuns

  // ---------- several transfers ----------

  datatype Sending = Sending(streamId: u32, data: bytes)

  // Which chunk of which transfer.
  datatype Arrival = Arrival(which: nat, chunk: nat)

  ghost predicate Sendable(sends: seq<Sending>) {
    forall j | 0 <= j < |sends| :: sends[j].streamId <= MAX_STREAM_ID && |sends[j].data| < U32
  }

  predicate Sent(a: Arrival, sends: seq<Sending>) {
    a.which < |sends| && a.chunk < ChunkCount(sends[a.which].data)
  }

  ghost predicate AllSent(arrivals: seq<Arrival>, sends: seq<Sending>) {
    forall i | 0 <= i < |arrivals| :: Sent(arrivals[i], sends)
  }

  function WireOf(sends: seq<Sending>, connectionId: u32, a: Arrival): bytes
    requires Sent(a, sends)
  {
    EncodeFrame(ChunkFrame(sends[a.which].streamId, connectionId, sends[a.which].data, a.chunk))
  }

  // The buffer of one stream, when a frame's stream id decides where it goes.
  function ArriveAt(streamId: u32, buf: seq<Fragment>, wire: bytes): seq<Fragment> {
    match DecodeFrame(wire)
    case Ok(f) => if f.header.streamId == streamId then buf + [Fragment(f.header.offset, f.payload)] else buf
    case Err(_) => buf
  }

  function Buffer(streamId: u32, sends: seq<Sending>, connectionId: u32, arrivals: seq<Arrival>): seq<Fragment>
    requires AllSent(arrivals, sends)
  {
    if arrivals == [] then []
    else
      ArriveAt(streamId, Buffer(streamId, sends, connectionId, arrivals[..|arrivals| - 1]),
               WireOf(sends, connectionId, arrivals[|arrivals| - 1]))
  }

  lemma ArrivesWhereItBelongs(streamId: u32, sends: seq<Sending>, connectionId: u32, a: Arrival, buf: seq<Fragment>)
    requires Sendable(sends) && Sent(a, sends)
    ensures ArriveAt(streamId, buf, WireOf(sends, connectionId, a))
         == if sends[a.which].streamId == streamId then buf + [Piece(sends[a.which].data, a.chunk)] else buf
  {
    hide EncodeFrame, DecodeFrame, ChunkFrame, ChunkCount, Piece;
    ChunkDecodes(sends[a.which].streamId, connectionId, sends[a.which].data, a.chunk);
  }

  // The chunks of one transfer, in order of arrival.
  function ChunksOf(arrivals: seq<Arrival>, which: nat): seq<nat> {
    if arrivals == [] then []
    else
      var last := arrivals[|arrivals| - 1];
      ChunksOf(arrivals[..|arrivals| - 1], which) + if last.which == which then [last.chunk] else []
  }

  lemma {:induction false} ChunksAreSent(arrivals: seq<Arrival>, sends: seq<Sending>, which: nat)
    requires AllSent(arrivals, sends) && which < |sends|
    ensures Delivery(ChunksOf(arrivals, which), ChunkCount(sends[which].data))
  {
    hide ChunkCount;
    if arrivals != [] {
      assert Sent(arrivals[|arrivals| - 1], sends);
      ChunksAreSent(arrivals[..|arrivals| - 1], sends, which);
    }
  }

  ghost predicate Apart(sends: seq<Sending>) {
    forall i, j | 0 <= i < j < |sends| :: sends[i].streamId != sends[j].streamId
  }

  // Transfers on different streams do not disturb each other: each buffer holds
  // the chunks of its own transfer as if they had arrived alone.
  lemma {:induction false} StreamsStayApart(sends: seq<Sending>, connectionId: u32, arrivals: seq<Arrival>, which: nat)
    requires Sendable(sends) && Apart(sends) && AllSent(arrivals, sends) && which < |sends|
    ensures Delivery(ChunksOf(arrivals, which), ChunkCount(sends[which].data))
    ensures Buffer(sends[which].streamId, sends, connectionId, arrivals)
         == Pieces(sends[which].data, ChunksOf(arrivals, which))
  {
    ChunksAreSent(arrivals, sends, which);
    var chunks := ChunksOf(arrivals, which);
    if arrivals == [] {
      assert chunks == [];
    } else {
      var init, last := arrivals[..|arrivals| - 1], arrivals[|arrivals| - 1];
      assert Sent(last, sends);
      assert chunks == ChunksOf(init, which) + if last.which == which then [last.chunk] else [];
      assert Buffer(sends[which].streamId, sends, connectionId, arrivals)
          == ArriveAt(sends[which].streamId, Buffer(sends[which].streamId, sends, connectionId, init),
                      WireOf(sends, connectionId, last));
      assert last.which != which ==> sends[last.which].streamId != sends[which].streamId;
      hide ChunksOf, Buffer, ArriveAt, WireOf, ChunkCount, Pieces, Piece, Apart, Sendable;
      StreamsStayApart(sends, connectionId, init, which);
      ArrivesWhereItBelongs(sends[which].streamId, sends, connectionId, last,
                            Buffer(sends[which].streamId, sends, connectionId, init));
      if last.which == which {
        PiecesAppend(sends[which].data, ChunksOf(init, which), last.chunk);
      } else {
        assert ChunksOf(init, which) + [] == ChunksOf(init, which);
      }
    }
  }

  // So each of them, once complete, is read whole, however the others are mixed in.
  lemma StreamsReassembleApart(state: StreamState, sends: seq<Sending>, connectionId: u32, arrivals: seq<Arrival>,
                               which: nat, maxLen: nat)
    requires Sendable(sends) && Apart(sends) && AllSent(arrivals, sends) && which < |sends| && sends[which].data != []
    requires EachOnce(ChunksOf(arrivals, which), ChunkCount(sends[which].data)) && HasRoom(sends[which].data, maxLen, 0)
    ensures var out := ReadBuffer(state, Buffer(sends[which].streamId, sends, connectionId, arrivals), maxLen);
            out.result == Ok(sends[which].data) && out.kept == []
  {
    assert |sends[which].data| < U32;
    hide ReadBuffer, Buffer, ChunksOf, ChunkCount, HasRoom, EachOnce;
    StreamsStayApart(sends, connectionId, arrivals, which);
    var chunks := ChunksOf(arrivals, which);
    HoldsItself(sends[which].data, chunks);
    AllPiecesRead(state, sends[which].data, chunks, Pieces(sends[which].data, chunks), maxLen);
  }

  // The transfers on a stream whose i-th chunk has arrived, in order of arrival.
  function Landed(streamId: u32, sends: seq<Sending>, arrivals: seq<Arrival>, i: nat): (s: seq<nat>)
    requires AllSent(arrivals, sends)
    ensures forall k | 0 <= k < |s| :: s[k] < |sends| && i < ChunkCount(sends[s[k]].data)
  {
    if arrivals == [] then []
    else
      var last := arrivals[|arrivals| - 1];
      assert Sent(last, sends);
      Landed(streamId, sends, arrivals[..|arrivals| - 1], i)
      + if last.chunk == i && sends[last.which].streamId == streamId then [last.which] else []
  }

  lemma PieceOnGrid(data: bytes, chunk: nat, i: nat)
    requires |data| < U32 && chunk < ChunkCount(data)
    ensures FitsGrid(Piece(data, chunk)) && Piece(data, chunk).data == Chunk(data, chunk)
    ensures Piece(data, chunk).offset == i * SIZE <==> chunk == i
    ensures chunk * SIZE < U32
  {
    ChunkBounds(data, chunk);
  }

  // What lies at a grid position are the chunks that have landed there.
  ghost predicate SlotIs(slot: seq<Fragment>, landed: seq<nat>, sends: seq<Sending>, i: nat)
    requires Sendable(sends) && forall k | 0 <= k < |landed| :: landed[k] < |sends| && i < ChunkCount(sends[landed[k]].data)
  {
    |slot| == |landed| && forall k | 0 <= k < |slot| :: slot[k] == Piece(sends[landed[k]].data, i)
  }

  lemma {:induction false} BufferOnGrid(streamId: u32, sends: seq<Sending>, connectionId: u32, arrivals: seq<Arrival>)
    requires Sendable(sends) && AllSent(arrivals, sends)
    ensures OnGrid(Buffer(streamId, sends, connectionId, arrivals))
  {
    hide ChunkCount, Piece, ArriveAt, WireOf, FitsGrid;
    if arrivals != [] {
      var init, last := arrivals[..|arrivals| - 1], arrivals[|arrivals| - 1];
      assert Sent(last, sends);
      BufferOnGrid(streamId, sends, connectionId, init);
      ArrivesWhereItBelongs(streamId, sends, connectionId, last, Buffer(streamId, sends, connectionId, init));
      PieceOnGrid(sends[last.which].data, last.chunk, 0);
    }
  }

  lemma SlotAppend(buf: seq<Fragment>, f: Fragment, i: nat)
    ensures Slot(buf + [f], i) == Slot(buf, i) + if i * SIZE < U32 && f.offset == i * SIZE then [f] else []
  {
    if i * SIZE < U32 {
      AtAppend(buf, f, i * SIZE);
    }
  }

  lemma {:induction false} SlotsAreLanded(streamId: u32, sends: seq<Sending>, connectionId: u32, arrivals: seq<Arrival>, i: nat)
    requires Sendable(sends) && AllSent(arrivals, sends)
    ensures SlotIs(Slot(Buffer(streamId, sends, connectionId, arrivals), i), Landed(streamId, sends, arrivals, i), sends, i)
  {
    hide ChunkCount, Piece, ArriveAt, WireOf;
    if arrivals != [] {
      var init, last := arrivals[..|arrivals| - 1], arrivals[|arrivals| - 1];
      assert Sent(last, sends);
      var buf, piece := Buffer(streamId, sends, connectionId, init), Piece(sends[last.which].data, last.chunk);
      SlotsAreLanded(streamId, sends, connectionId, init, i);
      ArrivesWhereItBelongs(streamId, sends, connectionId, last, buf);
      PieceOnGrid(sends[last.which].data, last.chunk, i);
      SlotAppend(buf, piece, i);
      hide Slot, Sendable, FitsGrid;
      assert Slot(buf, i) + [] == Slot(buf, i);
    }
  }

  ghost predicate SlotGives(slot: seq<Fragment>, landed: seq<nat>, sends: seq<Sending>, i: nat)
    requires forall k | 0 <= k < |landed| :: landed[k] < |sends|
  {
    |slot| == |landed| && (slot != [] ==> slot[0].data == Chunk(sends[landed[0]].data, i))
  }

  lemma {:induction false} LandedGive(streamId: u32, sends: seq<Sending>, connectionId: u32, arrivals: seq<Arrival>, i: nat)
    requires Sendable(sends) && AllSent(arrivals, sends)
    ensures SlotGives(Slot(Buffer(streamId, sends, connectionId, arrivals), i), Landed(streamId, sends, arrivals, i), sends, i)
  {
    var landed := Landed(streamId, sends, arrivals, i);
    SlotsAreLanded(streamId, sends, connectionId, arrivals, i);
    if landed != [] {
      PieceOnGrid(sends[landed[0]].data, i, i);
    }
  }

  lemma {:induction false} LandedFits(streamId: u32, sends: seq<Sending>, arrivals: seq<Arrival>, i: nat)
    requires Sendable(sends) && AllSent(arrivals, sends) && Landed(streamId, sends, arrivals, i) != []
    ensures i * SIZE < U32
  {
    PieceOnGrid(sends[Landed(streamId, sends, arrivals, i)[0]].data, i, i);
  }

  // The first arrivals along the grid, of whichever transfers, from position i on,
  // up to a gap, a repeat, a short chunk or the read's limit.
  ghost function Mixed(streamId: u32, sends: seq<Sending>, arrivals: seq<Arrival>, i: nat, maxLen: nat): bytes
    requires Sendable(sends) && AllSent(arrivals, sends)
    decreases U32 - i * SIZE
  {
    var here := Landed(streamId, sends, arrivals, i);
    if here == [] then []
    else
      LandedFits(streamId, sends, arrivals, i);
      var chunk := Chunk(sends[here[0]].data, i);
      if Stops(|here|, |chunk|, i, maxLen) then chunk
      else chunk + Mixed(streamId, sends, arrivals, i + 1, maxLen)
  }

  lemma {:induction false} MixedTurn(streamId: u32, sends: seq<Sending>, arrivals: seq<Arrival>, i: nat, maxLen: nat)
    requires Sendable(sends) && AllSent(arrivals, sends) && Landed(streamId, sends, arrivals, i) != []
    ensures var here := Landed(streamId, sends, arrivals, i);
            var chunk := Chunk(sends[here[0]].data, i);
            && i * SIZE < U32
            && Mixed(streamId, sends, arrivals, i, maxLen)
               == if Stops(|here|, |chunk|, i, maxLen) then chunk else chunk + Mixed(streamId, sends, arrivals, i + 1, maxLen)
  {
    LandedFits(streamId, sends, arrivals, i);
    hide Landed, Chunk, Stops;
  }

  // At one position, the mix and the splice go on in the same way.
  lemma {:induction false} SameTurn(streamId: u32, sends: seq<Sending>, arrivals: seq<Arrival>, buf: seq<Fragment>,
                                    i: nat, maxLen: nat)
    requires Sendable(sends) && AllSent(arrivals, sends)
    requires SlotGives(Slot(buf, i), Landed(streamId, sends, arrivals, i), sends, i)
    requires Landed(streamId, sends, arrivals, i) != [] ==>
               Splice(buf, i + 1, maxLen) == Mixed(streamId, sends, arrivals, i + 1, maxLen)
    ensures Splice(buf, i, maxLen) == Mixed(streamId, sends, arrivals, i, maxLen)
  {
    var here, slot := Landed(streamId, sends, arrivals, i), Slot(buf, i);
    if here == [] {
      SpliceNothing(buf, i, maxLen);
    } else {
      MixedTurn(streamId, sends, arrivals, i, maxLen);
      var chunk := Chunk(sends[here[0]].data, i);
      assert |slot| == |here| && slot[0].data == chunk;
      assert StopsAt(buf, i, maxLen) <==> Stops(|here|, |chunk|, i, maxLen);
      hide Slot, Landed, Chunk, Splice, Mixed, Stops, StopsAt;
      if StopsAt(buf, i, maxLen) {
        SpliceStops(buf, i, maxLen);
      } else {
        SpliceOn(buf, i, maxLen);
      }
    }
  }

  lemma {:induction false} MixedIsSplice(streamId: u32, sends: seq<Sending>, connectionId: u32, arrivals: seq<Arrival>,
                                         i: nat, maxLen: nat)
    requires Sendable(sends) && AllSent(arrivals, sends)
    ensures Splice(Buffer(streamId, sends, connectionId, arrivals), i, maxLen) == Mixed(streamId, sends, arrivals, i, maxLen)
    decreases U32 - i * SIZE
  {
    var buf, here := Buffer(streamId, sends, connectionId, arrivals), Landed(streamId, sends, arrivals, i);
    hide Buffer, Slot, Landed, Splice, Mixed, Sendable, AllSent, SlotGives;
    LandedGive(streamId, sends, connectionId, arrivals, i);
    if here != [] {
      LandedFits(streamId, sends, arrivals, i);
      MixedIsSplice(streamId, sends, connectionId, arrivals, i + 1, maxLen);
    }
    SameTurn(streamId, sends, arrivals, buf, i, maxLen);
  }

  // One read of any transfers on one stream, after any arrivals: it takes the
  // first arrivals along the grid, whosever they are.
  lemma {:induction false} ReadsMix(state: StreamState, streamId: u32, sends: seq<Sending>, connectionId: u32,
                                    arrivals: seq<Arrival>, maxLen: nat)
    requires Sendable(sends) && AllSent(arrivals, sends) && Buffer(streamId, sends, connectionId, arrivals) != []
    ensures ReadBuffer(state, Buffer(streamId, sends, connectionId, arrivals), maxLen).result
         == Ok(Mixed(streamId, sends, arrivals, 0, maxLen))
  {
    hide ReadBuffer, Buffer, Mixed, Splice;
    BufferOnGrid(streamId, sends, connectionId, arrivals);
    MixedIsSplice(streamId, sends, connectionId, arrivals, 0, maxLen);
    ReadSplices(state, Buffer(streamId, sends, connectionId, arrivals), maxLen);
  }

  // The conditions on one grid position, from either side.
  ghost predicate FirstHere(streamId: u32, sends: seq<Sending>, arrivals: seq<Arrival>, m: nat, data: bytes)
    requires AllSent(arrivals, sends)
  {
    var here := Landed(streamId, sends, arrivals, m);
    here != [] && Chunk(sends[here[0]].data, m) == Chunk(data, m)
  }

  lemma {:induction false} FirstHereIsSlot(streamId: u32, sends: seq<Sending>, connectionId: u32, arrivals: seq<Arrival>,
                                           m: nat, data: bytes)
    requires Sendable(sends) && AllSent(arrivals, sends)
    ensures var buf := Buffer(streamId, sends, connectionId, arrivals);
            && (FirstHere(streamId, sends, arrivals, m, data) <==> ChunkFirst(buf, data, m))
            && |Slot(buf, m)| == |Landed(streamId, sends, arrivals, m)|
  {
    LandedGive(streamId, sends, connectionId, arrivals, m);
    hide Buffer, Slot, Landed, Chunk;
  }

  // Nothing has landed beyond the end of the data that would be read on.
  ghost predicate NothingContinues(streamId: u32, sends: seq<Sending>, arrivals: seq<Arrival>, data: bytes, maxLen: nat)
    requires AllSent(arrivals, sends) && ChunkCount(data) > 0
  {
    var n := ChunkCount(data);
    || |Landed(streamId, sends, arrivals, n - 1)| > 1 || |data| >= maxLen || |data| % SIZE != 0
    || Landed(streamId, sends, arrivals, n) == []
  }

  // What the arrivals must be for a read to give some data: at each of its grid
  // positions its bytes came first, and alone but for the last; the read has
  // room for the last; and nothing continues it.
  ghost predicate ComesOut(streamId: u32, sends: seq<Sending>, arrivals: seq<Arrival>, data: bytes, maxLen: nat)
    requires AllSent(arrivals, sends) && ChunkCount(data) > 0
  {
    && (forall m: nat | m < ChunkCount(data) :: FirstHere(streamId, sends, arrivals, m, data))
    && (forall m: nat | m < ChunkCount(data) - 1 :: |Landed(streamId, sends, arrivals, m)| == 1)
    && HasRoom(data, maxLen, 0)
    && NothingContinues(streamId, sends, arrivals, data, maxLen)
  }

  lemma {:induction false} SlotSize(streamId: u32, sends: seq<Sending>, connectionId: u32, arrivals: seq<Arrival>, i: nat)
    requires Sendable(sends) && AllSent(arrivals, sends)
    ensures |Slot(Buffer(streamId, sends, connectionId, arrivals), i)| == |Landed(streamId, sends, arrivals, i)|
  {
    LandedGive(streamId, sends, connectionId, arrivals, i);
  }

  lemma {:induction false} EndIsSame(streamId: u32, sends: seq<Sending>, connectionId: u32, arrivals: seq<Arrival>,
                                     data: bytes, maxLen: nat)
    requires Sendable(sends) && AllSent(arrivals, sends) && ChunkCount(data) > 0
    ensures NothingContinues(streamId, sends, arrivals, data, maxLen)
       <==> EndsThere(Buffer(streamId, sends, connectionId, arrivals), data, maxLen)
  {
    hide Buffer, Slot, Landed, ChunkCount, Sendable, AllSent;
    SlotSize(streamId, sends, connectionId, arrivals, ChunkCount(data) - 1);
    SlotSize(streamId, sends, connectionId, arrivals, ChunkCount(data));
  }

  lemma {:induction false} ComesOutIsGives(streamId: u32, sends: seq<Sending>, connectionId: u32, arrivals: seq<Arrival>,
                                           data: bytes, maxLen: nat)
    requires Sendable(sends) && AllSent(arrivals, sends) && ChunkCount(data) > 0
    ensures ComesOut(streamId, sends, arrivals, data, maxLen)
       <==> GivesFrom(Buffer(streamId, sends, connectionId, arrivals), data, 0, maxLen)
  {
    var buf := Buffer(streamId, sends, connectionId, arrivals);
    EndIsSame(streamId, sends, connectionId, arrivals, data, maxLen);
    hide Buffer, Slot, Landed, ChunkCount, HasRoom, Sendable, FirstHere, ChunkFirst, AllSent, EndsThere, NothingContinues;
    forall m: nat
      ensures FirstHere(streamId, sends, arrivals, m, data) <==> ChunkFirst(buf, data, m)
      ensures |Slot(buf, m)| == |Landed(streamId, sends, arrivals, m)|
    {
      FirstHereIsSlot(streamId, sends, connectionId, arrivals, m, data);
    }
  }

  // One read gives some data, be it a transfer's or not, whatever was sent on the
  // stream, if and only if the arrivals let it come out.
  lemma {:induction false} TransferComesOutIff(state: StreamState, streamId: u32, sends: seq<Sending>, connectionId: u32,
                            arrivals: seq<Arrival>, data: bytes, maxLen: nat)
    requires Sendable(sends) && AllSent(arrivals, sends) && data != []
    ensures ChunkCount(data) > 0
    ensures ReadBuffer(state, Buffer(streamId, sends, connectionId, arrivals), maxLen).result == Ok(data)
       <==> ComesOut(streamId, sends, arrivals, data, maxLen)
  {
    SomeChunk(data);
    hide ReadBuffer, Buffer, ComesOut, GivesFrom, ChunkCount;
    BufferOnGrid(streamId, sends, connectionId, arrivals);
    ReadIsIff(state, Buffer(streamId, sends, connectionId, arrivals), data, maxLen);
    ComesOutIsGives(streamId, sends, connectionId, arrivals, data, maxLen);
  }

  // Every transfer starts at offset 0, so two of them on one stream collide: with
  // two first chunks there, a read returns the first of these to have arrived,
  // whatever else has arrived and however much room there is.
  lemma {:induction false} SecondTransferCollides(state: StreamState, streamId: u32, sends: seq<Sending>, connectionId: u32,
                               arrivals: seq<Arrival>, maxLen: nat)
    requires Sendable(sends) && AllSent(arrivals, sends) && |Landed(streamId, sends, arrivals, 0)| >= 2
    ensures ReadBuffer(state, Buffer(streamId, sends, connectionId, arrivals), maxLen).result
         == Ok(Chunk(sends[Landed(streamId, sends, arrivals, 0)[0]].data, 0))
  {
    SlotsAreLanded(streamId, sends, connectionId, arrivals, 0);
    assert Buffer(streamId, sends, connectionId, arrivals) != [];
    hide ReadBuffer, Buffer, Landed, ChunkCount, Chunk;
    ReadsMix(state, streamId, sends, connectionId, arrivals, maxLen);
  }

  // The first chunk of one transfer and the second of another are enough for a
  // read to put together what nobody sent.
  lemma {:induction false} TwoTransfersMix(state: StreamState, a: bytes, b: bytes, connectionId: u32, maxLen: nat)
    requires |a| == |b| == 2 * SIZE && maxLen > SIZE
    ensures var sends, arrivals := [Sending(2, a), Sending(2, b)], [Arrival(0, 0), Arrival(1, 1)];
            && AllSent(arrivals, sends)
            && ReadBuffer(state, Buffer(2, sends, connectionId, arrivals), maxLen).result == Ok(a[..SIZE] + b[SIZE..])
  {
    var sends, arrivals := [Sending(2, a), Sending(2, b)], [Arrival(0, 0), Arrival(1, 1)];
    TwoLanded(sends);
    SlotsAreLanded(2, sends, connectionId, arrivals, 0);
    assert Buffer(2, sends, connectionId, arrivals) != [];
    hide ReadBuffer, Buffer, Landed, ChunkCount, Slot;
    ReadsMix(state, 2, sends, connectionId, arrivals, maxLen);
    MixOfTwo(sends, arrivals, maxLen);
  }

  // The mix from one position on, when one chunk has landed there and none after it.
  lemma {:induction false} LastMixed(streamId: u32, sends: seq<Sending>, arrivals: seq<Arrival>, i: nat, w: nat, maxLen: nat)
    requires Sendable(sends) && AllSent(arrivals, sends)
    requires w < |sends| && Landed(streamId, sends, arrivals, i) == [w] && Landed(streamId, sends, arrivals, i + 1) == []
    ensures Mixed(streamId, sends, arrivals, i, maxLen) == Chunk(sends[w].data, i)
  {
    var chunk := Chunk(sends[w].data, i);
    assert Mixed(streamId, sends, arrivals, i + 1, maxLen) == [];
    hide Mixed, Landed, Chunk, ChunkCount, Sendable, AllSent, Stops;
    MixedTurn(streamId, sends, arrivals, i, maxLen);
    assert chunk + [] == chunk;
  }

  lemma {:induction false} MixOfTwo(sends: seq<Sending>, arrivals: seq<Arrival>, maxLen: nat)
    requires Sendable(sends) && AllSent(arrivals, sends) && |sends| == 2 && |sends[0].data| == |sends[1].data| == 2 * SIZE
    requires Landed(2, sends, arrivals, 0) == [0] && Landed(2, sends, arrivals, 1) == [1]
    requires Landed(2, sends, arrivals, 2) == [] && maxLen > SIZE
    ensures Mixed(2, sends, arrivals, 0, maxLen) == sends[0].data[..SIZE] + sends[1].data[SIZE..]
  {
    hide Mixed, Landed, Chunk, ChunkCount, Sendable, AllSent, Stops;
    TwoChunks(sends[0].data, maxLen);
    TwoChunks(sends[1].data, maxLen);
    LastMixed(2, sends, arrivals, 1, 1, maxLen);
    MixedTurn(2, sends, arrivals, 0, maxLen);
  }

  lemma TwoChunks(data: bytes, maxLen: nat)
    requires |data| == 2 * SIZE && maxLen > SIZE
    ensures Chunk(data, 0) == data[..SIZE] && Chunk(data, 1) == data[SIZE..]
    ensures !Stops(1, |Chunk(data, 0)|, 0, maxLen)
  {
  }

  lemma {:induction false} LandedAppend(streamId: u32, sends: seq<Sending>, init: seq<Arrival>, last: Arrival, i: nat)
    requires AllSent(init, sends) && Sent(last, sends)
    ensures AllSent(init + [last], sends)
    ensures Landed(streamId, sends, init + [last], i)
         == Landed(streamId, sends, init, i)
            + if last.chunk == i && sends[last.which].streamId == streamId then [last.which] else []
  {
    assert (init + [last])[..|init|] == init;
  }

  lemma {:induction false} LandedOfTwo(sends: seq<Sending>, first: Arrival, second: Arrival, i: nat)
    requires Sent(first, sends) && Sent(second, sends)
    requires sends[first.which].streamId == 2 && sends[second.which].streamId == 2
    ensures AllSent([first, second], sends)
    ensures Landed(2, sends, [first, second], i)
         == (if first.chunk == i then [first.which] else []) + if second.chunk == i then [second.which] else []
  {
    var none: seq<Arrival> := [];
    assert AllSent(none, sends) && Landed(2, sends, none, i) == [];
    assert none + [first] == [first] && [first] + [second] == [first, second];
    hide Landed, AllSent, Sent;
    LandedAppend(2, sends, none, first, i);
    LandedAppend(2, sends, [first], second, i);
    NothingBefore(if first.chunk == i then [first.which] else []);
  }

  lemma {:induction false} TwoLanded(sends: seq<Sending>)
    requires |sends| == 2 && sends[0].streamId == 2 && sends[1].streamId == 2
    requires ChunkCount(sends[0].data) == 2 && ChunkCount(sends[1].data) == 2
    ensures var arrivals := [Arrival(0, 0), Arrival(1, 1)];
            && AllSent(arrivals, sends) && Landed(2, sends, arrivals, 0) == [0]
            && Landed(2, sends, arrivals, 1) == [1] && Landed(2, sends, arrivals, 2) == []
  {
    var first, second := Arrival(0, 0), Arrival(1, 1);
    assert Sent(first, sends) && Sent(second, sends);
    hide Landed, AllSent, Sent, ChunkCount;
    LandedOfTwo(sends, first, second, 0);
    LandedOfTwo(sends, first, second, 1);
    LandedOfTwo(sends, first, second, 2);
  }

  // ---------- reads between the arrivals ----------

  datatype Turn = Comes(chunk: nat) | Reads(maxLen: nat) | ClosesWrite | ClosesRead

  predicate Possible(t: Turn, data: bytes) {
    t.Comes? ==> t.chunk < ChunkCount(data)
  }

  ghost predicate AllPossible(turns: seq<Turn>, data: bytes) {
    forall i | 0 <= i < |turns| :: Possible(turns[i], data)
  }

  function EventOf(data: bytes, t: Turn): R.Event
    requires |data| < U32 && Possible(t, data)
  {
    match t
    case Comes(i) => R.Arrive(Piece(data, i))
    case Reads(maxLen) => R.Read(maxLen)
    case ClosesWrite => R.CloseWrite
    case ClosesRead => R.CloseRead
  }

  function EventsOf(data: bytes, turns: seq<Turn>): seq<R.Event>
    requires |data| < U32 && AllPossible(turns, data)
  {
    if turns == [] then [] else [EventOf(data, turns[0])] + EventsOf(data, turns[1..])
  }

  function ComingIn(t: Turn): seq<nat> {
    if t.Comes? then [t.chunk] else []
  }

  // The chunks that arrive in a run.
  function Coming(turns: seq<Turn>): seq<nat> {
    if turns == [] then [] else ComingIn(turns[0]) + Coming(turns[1..])
  }

  // What has arrived at the first read that finds chunk 0, and that read's room.
  function FirstRead(turns: seq<Turn>, got: seq<nat>): Option<(seq<nat>, nat)> {
    if turns == [] then None
    else if turns[0].Reads? && 0 in got then Some((got, turns[0].maxLen))
    else FirstRead(turns[1..], got + ComingIn(turns[0]))
  }

  // What a single read makes of what has arrived.
  function Given(data: bytes, first: Option<(seq<nat>, nat)>): bytes {
    match first
    case None => []
    case Some((got, maxLen)) => data[..ChunkStart(data, Reach(got, data, maxLen, 0))]
  }

  lemma {:induction false} ComingIsPossible(turns: seq<Turn>, data: bytes)
    requires AllPossible(turns, data)
    ensures Delivery(Coming(turns), ChunkCount(data))
  {
    if turns != [] {
      assert Possible(turns[0], data) && forall i | 0 <= i < |turns[1..]| :: turns[1..][i] == turns[i + 1];
      ComingIsPossible(turns[1..], data);
    }
  }

  lemma PiecesConcat(data: bytes, a: seq<nat>, b: seq<nat>)
    requires |data| < U32 && Delivery(a, ChunkCount(data)) && Delivery(b, ChunkCount(data))
    ensures Delivery(a + b, ChunkCount(data)) && Pieces(data, a + b) == Pieces(data, a) + Pieces(data, b)
  {
    hide ChunkCount, Piece;
  }

  lemma {:induction false} ComingArrives(data: bytes, turns: seq<Turn>)
    requires |data| < U32 && AllPossible(turns, data)
    ensures Delivery(Coming(turns), ChunkCount(data))
    ensures R.Arrived(EventsOf(data, turns)) == Pieces(data, Coming(turns))
  {
    ComingIsPossible(turns, data);
    if turns != [] {
      var first, rest := ComingIn(turns[0]), turns[1..];
      var ev, evs := EventOf(data, turns[0]), EventsOf(data, rest);
      assert Possible(turns[0], data) && AllPossible(rest, data);
      ComingIsPossible(rest, data);
      assert Pieces(data, first) == R.Arriving(ev);
      hide ChunkCount, Piece, Pieces, EventOf, ComingIn, Delivery;
      ComingArrives(data, rest);
      PiecesConcat(data, first, Coming(rest));
      assert ([ev] + evs)[1..] == evs;
    }
  }

  lemma PieceZeroOnly(data: bytes, got: seq<nat>, buf: seq<Fragment>, f: Fragment)
    requires |data| < U32 && Delivery(got, ChunkCount(data)) && Holds(buf, data, got) && f in buf && f.offset == 0
    ensures 0 in got && f == Piece(data, 0)
  {
    hide ChunkCount, Piece;
    assert f in multiset(buf) && f in Pieces(data, got);
    var k :| 0 <= k < |got| && f == Pieces(data, got)[k];
    PieceOnGrid(data, got[k], 0);
  }

  lemma NothingAtZero(data: bytes, got: seq<nat>, buf: seq<Fragment>)
    requires |data| < U32 && Delivery(got, ChunkCount(data)) && Holds(buf, data, got) && 0 !in got
    ensures At(buf, 0) == []
  {
    hide ChunkCount, At, Holds;
    AtMember(buf, 0);
    forall i | 0 <= i < |buf| ensures buf[i].offset != 0 {
      if buf[i].offset == 0 {
        PieceZeroOnly(data, got, buf, buf[i]);
      }
    }
  }

  lemma ReadsNothing(state: StreamState, buf: seq<Fragment>, maxLen: nat)
    requires At(buf, 0) == []
    ensures var out := ReadBuffer(state, buf, maxLen);
            (out.result.Ok? ==> out.result.value == []) && multiset(out.kept) == multiset(buf)
  {
    if buf != [] {
      var s := StableSort(buf);
      StableSortSorts(buf);
      StableSortIsStable(buf, 0);
      AtMember(s, 0);
      assert s[0].offset != 0 && s[..0] == [] && s[0..] == s;
    }
  }

  // The first delivering read takes the only copy of chunk 0.
  lemma NoSecondStart(state: StreamState, data: bytes, got: seq<nat>, buf: seq<Fragment>, maxLen: nat)
    requires 0 < |data| < U32 && Delivery(got, ChunkCount(data)) && Holds(buf, data, got) && Copies(got, 0) == 1
    ensures var out := ReadBuffer(state, buf, maxLen);
            At(out.kept, 0) == [] && out.result == Ok(data[..ChunkStart(data, Reach(got, data, maxLen, 0))])
  {
    SomeChunk(data);
    assert 0 in got && Reach(got, data, maxLen, 0) >= 1;
    PieceCopies(data, got, 0);
    assert multiset(buf)[Piece(data, 0)] == 1 && buf != [];
    var out := ReadBuffer(state, buf, maxLen);
    hide ChunkCount, ChunkStart, Reach, ReadBuffer, Piece, Holds, Copies, At;
    ReadPieces(state, data, got, buf, maxLen);
    assert out.taken[0] == Piece(data, 0) && out.taken[0] in multiset(out.taken);
    assert multiset(buf)[Piece(data, 0)] == multiset(out.taken)[Piece(data, 0)] + multiset(out.kept)[Piece(data, 0)];
    AtMember(out.kept, 0);
    forall i | 0 <= i < |out.kept| ensures out.kept[i].offset != 0 {
      assert out.kept[i] in multiset(out.kept) && out.kept[i] in multiset(buf) && out.kept[i] in buf;
      if out.kept[i].offset == 0 {
        PieceZeroOnly(data, got, buf, out.kept[i]);
      }
    }
  }

  lemma {:induction false} AllSilent(outputs: seq<bytes>)
    requires R.NonEmpty(outputs) == 0
    ensures R.Flatten(outputs) == []
  {
    if outputs != [] {
      AllSilent(outputs[1..]);
    }
  }

  // Once chunk 0 is gone and comes no more, nothing else is read.
  lemma NothingMore(data: bytes, e: R.Endpoint, turns: seq<Turn>)
    requires |data| < U32 && AllPossible(turns, data) && At(e.buf, 0) == [] && 0 !in Coming(turns)
    ensures R.Flatten(R.Outputs(e, EventsOf(data, turns))) == []
  {
    hide ChunkCount, At;
    ComingArrives(data, turns);
    HoldsItself(data, Coming(turns));
    NothingAtZero(data, Coming(turns), Pieces(data, Coming(turns)));
    R.NothingAfterTheStart(e, EventsOf(data, turns));
    AllSilent(R.Outputs(e, EventsOf(data, turns)));
  }

  // A turn that delivers nothing: what is held is what was held and what came.
  lemma SilentTurn(data: bytes, e: R.Endpoint, t: Turn, got: seq<nat>)
    requires |data| < U32 && Possible(t, data) && Delivery(got, ChunkCount(data)) && Holds(e.buf, data, got)
    requires t.Reads? ==> 0 !in got
    ensures Delivery(got + ComingIn(t), ChunkCount(data))
    ensures Holds(R.Step(e, EventOf(data, t)).buf, data, got + ComingIn(t)) && R.Output(e, EventOf(data, t)) == []
  {
    hide ChunkCount, Piece, At, ReadBuffer;
    match t {
      case Comes(i) => PiecesAppend(data, got, i);
      case Reads(maxLen) =>
        NothingAtZero(data, got, e.buf);
        ReadsNothing(e.state, e.buf, maxLen);
        assert got + [] == got;
      case _ => assert got + [] == got;
    }
  }

  // All that the reads of a run return, put together, is what the first of them
  // that finds chunk 0 returns, if chunk 0 does not come twice.
  lemma {:induction false} ReadsGiveFirst(data: bytes, e: R.Endpoint, turns: seq<Turn>, got: seq<nat>)
    requires 0 < |data| < U32 && AllPossible(turns, data)
    requires Delivery(got, ChunkCount(data)) && Holds(e.buf, data, got)
    requires Copies(got, 0) + Copies(Coming(turns), 0) <= 1
    ensures R.Flatten(R.Outputs(e, EventsOf(data, turns))) == Given(data, FirstRead(turns, got))
    decreases |turns|
  {
    if turns == [] {
    } else {
      var t, rest := turns[0], turns[1..];
      var ev := EventOf(data, t);
      var next := R.Step(e, ev);
      assert Possible(t, data) && AllPossible(rest, data);
      assert EventsOf(data, turns)[0] == ev && EventsOf(data, turns)[1..] == EventsOf(data, rest);
      R.FlattenStep(e, EventsOf(data, turns));
      CopiesSplit(ComingIn(t), Coming(rest), 0);
      CopiesSplit(got, ComingIn(t), 0);
      if t.Reads? && 0 in got {
        assert Copies(got, 0) == 1 && Copies(Coming(rest), 0) == 0;
        NoSecondStart(e.state, data, got, e.buf, t.maxLen);
        assert R.Output(e, ev) == Given(data, FirstRead(turns, got)) && At(next.buf, 0) == [];
        hide R.Flatten, R.Outputs, R.Output, R.Step, Given, FirstRead, EventsOf, At;
        NothingMore(data, next, rest);
        assert R.Output(e, ev) + [] == R.Output(e, ev);
      } else {
        SilentTurn(data, e, t, got);
        assert FirstRead(turns, got) == FirstRead(rest, got + ComingIn(t));
        hide R.Flatten, R.Outputs, R.Output, R.Step, Given, FirstRead, EventsOf, Copies, ComingIn, Coming, Holds;
        ReadsGiveFirst(data, next, rest, got + ComingIn(t));
        NothingBefore(R.Flatten(R.Outputs(next, EventsOf(data, rest))));
      }
    }
  }

  lemma CopiesSplit(a: seq<nat>, b: seq<nat>, i: nat)
    ensures Copies(a + b, i) == Copies(a, i) + Copies(b, i)
  {
  }

  lemma {:induction false} FirstReadCopies(turns: seq<Turn>, got: seq<nat>, i: nat)
    ensures FirstRead(turns, got).Some? ==>
              Copies(FirstRead(turns, got).value.0, i) <= Copies(got, i) + Copies(Coming(turns), i)
    decreases |turns|
  {
    hide Copies, ComingIn;
    if turns != [] {
      FirstReadCopies(turns[1..], got + ComingIn(turns[0]), i);
      CopiesSplit(got, ComingIn(turns[0]), i);
      CopiesSplit(ComingIn(turns[0]), Coming(turns[1..]), i);
    }
  }

  ghost predicate AllArrived(got: seq<nat>, data: bytes) {
    forall i: nat | i < ChunkCount(data) :: i in got
  }

  lemma AllArrivedIff(got: seq<nat>, data: bytes)
    requires forall i: nat | i < ChunkCount(data) :: Copies(got, i) <= 1
    ensures AllArrived(got, data) <==> EnoughCopies(got, data, 0)
  {
    hide ChunkCount;
    if EnoughCopies(got, data, 0) {
      forall i: nat | i < ChunkCount(data) ensures i in got {
        assert Copies(got, i) >= 1;
      }
    }
    if AllArrived(got, data) {
      forall i: nat | i < ChunkCount(data) ensures Copies(got, i) == 1 {
        assert i in got;
        assert i in multiset(got);
      }
    }
  }

  lemma GivenAllIff(data: bytes, got: seq<nat>, maxLen: nat)
    requires data != [] && forall i: nat | i < ChunkCount(data) :: Copies(got, i) <= 1
    ensures Given(data, Some((got, maxLen))) == data <==> AllArrived(got, data) && HasRoom(data, maxLen, 0)
  {
    SomeChunk(data);
    AllArrivedIff(got, data);
    hide AllArrived, EnoughCopies, HasRoom, ChunkStart, ChunkCount, Reach, Copies;
    ReachIsWhole(got, data, maxLen, 0);
    ReadsAll(data, Reach(got, data, maxLen, 0));
  }

  // When every chunk arrives once, all reads of a run together give the data if
  // and only if the first of them to find chunk 0 comes after every chunk has
  // arrived, and has room for the last.
  lemma ReadsTogetherIff(state: StreamState, data: bytes, turns: seq<Turn>)
    requires 0 < |data| < U32 && AllPossible(turns, data) && EachOnce(Coming(turns), ChunkCount(data))
    ensures var first := FirstRead(turns, []);
            R.Flatten(R.Outputs(R.Endpoint(state, []), EventsOf(data, turns))) == data
            <==> first.Some? && AllArrived(first.value.0, data) && HasRoom(data, first.value.1, 0)
  {
    var first := FirstRead(turns, []);
    SomeChunk(data);
    assert Pieces(data, []) == [];
    assert Copies(Coming(turns), 0) == 1;
    hide R.Flatten, R.Outputs, EventsOf, FirstRead, HasRoom, ChunkCount, AllArrived;
    ReadsGiveFirst(data, R.Endpoint(state, []), turns, []);
    if first.Some? {
      var (got, maxLen) := first.value;
      forall i: nat | i < ChunkCount(data) ensures Copies(got, i) <= 1 {
        FirstReadCopies(turns, [], i);
        assert Copies(Coming(turns), i) == 1;
      }
      hide Copies, Given;
      GivenAllIff(data, got, maxLen);
    }
  }
}
