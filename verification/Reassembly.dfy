// End to end: data cut into frames by the sender, delivered in any order, with
// any losses and repetitions, decoded, handed to the receiving stream and read.
// That a received Data frame's offset and payload go to ReceiveData is an
// assumption: the library leaves that step to its user.
module Reassembly {
  import opened Bytes
  import opened Framing
  import opened Streams
  import opened Connections
  import ReadRuns

  // What a datagram adds to the receive buffer.
  function Arrive(buf: seq<Fragment>, wire: bytes): seq<Fragment> {
    match DecodeFrame(wire)
    case Ok(f) => buf + [Fragment(f.header.offset, f.payload)]
    case Err(_) => buf
  }

  function ArriveAll(wires: seq<bytes>): seq<Fragment> {
    if wires == [] then [] else Arrive(ArriveAll(wires[..|wires| - 1]), wires[|wires| - 1])
  }

  // A delivery: which of the sent frames arrive, in order of arrival.
  ghost predicate Delivery(order: seq<nat>, n: nat) {
    forall i | 0 <= i < |order| :: order[i] < n
  }

  function Delivered(sent: seq<bytes>, order: seq<nat>): seq<bytes>
    requires Delivery(order, |sent|)
  {
    seq(|order|, i requires 0 <= i < |order| => sent[order[i]])
  }

  // How many copies of chunk i arrive.
  function Copies(order: seq<nat>, i: nat): nat {
    multiset(order)[i]
  }

  // The chunk before which a read stops: the first one missing, or the one
  // after a chunk that arrived twice, or the one after the read has enough.
  function Reach(order: seq<nat>, data: bytes, maxLen: nat, i: nat): (r: nat)
    ensures i <= r && (i <= ChunkCount(data) ==> r <= ChunkCount(data))
    decreases ChunkCount(data) - i
  {
    if i >= ChunkCount(data) || Copies(order, i) == 0 then i
    else if Copies(order, i) > 1 || ChunkStart(data, i + 1) >= maxLen then i + 1
    else Reach(order, data, maxLen, i + 1)
  }

  // ---------- what arrives ----------

  function Piece(data: bytes, i: nat): Fragment
    requires |data| < U32 && i < ChunkCount(data)
  {
    Fragment(ChunkStart(data, i), Chunk(data, i))
  }

  lemma ChunkBounds(data: bytes, i: nat)
    ensures i < ChunkCount(data) ==> ChunkStart(data, i) == i * MAX_PAYLOAD_SIZE < ChunkStart(data, i + 1)
    ensures ChunkStart(data, ChunkCount(data)) == |data|
  {
  }

  lemma ChunkDecodes(streamId: u32, connectionId: u32, data: bytes, i: nat)
    requires streamId <= MAX_STREAM_ID && |data| < U32 && i < ChunkCount(data)
    ensures var f := ChunkFrame(streamId, connectionId, data, i);
            && DecodeFrame(EncodeFrame(f)) == Ok(f)
            && f.header.streamId == streamId && Fragment(f.header.offset, f.payload) == Piece(data, i)
  {
    var f := ChunkFrame(streamId, connectionId, data, i);
    ChunkBounds(data, i);
    assert f.header.offset == ChunkStart(data, i) && f.payload == Chunk(data, i);
    assert Coherent(f);
    hide EncodeFrame, DecodeFrame, Coherent, ChunkFrame, ChunkStart;
    FrameRoundTrip(f, []);
    assert EncodeFrame(f) + [] == EncodeFrame(f);
  }

  lemma PieceArrives(streamId: u32, connectionId: u32, data: bytes, i: nat, buf: seq<Fragment>)
    requires streamId <= MAX_STREAM_ID && |data| < U32 && i < ChunkCount(data)
    ensures Arrive(buf, EncodeFrame(ChunkFrame(streamId, connectionId, data, i))) == buf + [Piece(data, i)]
  {
    hide EncodeFrame, DecodeFrame, ChunkFrame, Piece;
    ChunkDecodes(streamId, connectionId, data, i);
  }

  function Pieces(data: bytes, order: seq<nat>): (s: seq<Fragment>)
    requires |data| < U32 && Delivery(order, ChunkCount(data))
    ensures |s| == |order|
  {
    seq(|order|, i requires 0 <= i < |order| => Piece(data, order[i]))
  }

  lemma {:induction false} PiecesArrive(streamId: u32, connectionId: u32, data: bytes, order: seq<nat>)
    requires streamId <= MAX_STREAM_ID && |data| < U32 && Delivery(order, ChunkCount(data))
    ensures ArriveAll(Delivered(ChunkWires(streamId, connectionId, data, ChunkCount(data)), order))
         == Pieces(data, order)
  {
    hide ChunkCount, ChunkFrame, EncodeFrame, Arrive, Piece;
    var sent := ChunkWires(streamId, connectionId, data, ChunkCount(data));
    if order != [] {
      var init, last := order[..|order| - 1], order[|order| - 1];
      PiecesArrive(streamId, connectionId, data, init);
      assert Delivered(sent, order)[..|order| - 1] == Delivered(sent, init);
      PieceArrives(streamId, connectionId, data, last, Pieces(data, init));
      PiecesAppend(data, init, last);
      assert order == init + [last];
    }
  }

  lemma {:induction false} PieceCopies(data: bytes, order: seq<nat>, i: nat)
    requires |data| < U32 && Delivery(order, ChunkCount(data)) && i < ChunkCount(data)
    ensures multiset(Pieces(data, order))[Piece(data, i)] == Copies(order, i)
  {
    hide ChunkCount, Piece, Pieces, IndexOf;
    if order == [] {
    } else {
      var init, last := order[..|order| - 1], order[|order| - 1];
      PieceCopies(data, init, i);
      PiecesAppend(data, init, last);
      assert order == init + [last];
      PieceIndex(data, i);
      PieceIndex(data, last);
    }
  }

  lemma PiecesAppend(data: bytes, init: seq<nat>, last: nat)
    requires |data| < U32 && Delivery(init, ChunkCount(data)) && last < ChunkCount(data)
    ensures Delivery(init + [last], ChunkCount(data))
    ensures Pieces(data, init + [last]) == Pieces(data, init) + [Piece(data, last)]
  {
    hide ChunkCount, Piece;
  }

  // ---------- reading what arrived ----------

  function IndexOf(f: Fragment): nat {
    f.offset / MAX_PAYLOAD_SIZE
  }

  lemma PieceIndex(data: bytes, i: nat)
    requires |data| < U32 && i < ChunkCount(data)
    ensures IndexOf(Piece(data, i)) == i
  {
    ChunkBounds(data, i);
  }

  lemma PiecesInOrder(data: bytes, i: nat, j: nat)
    requires |data| < U32 && i < j < ChunkCount(data)
    ensures Piece(data, i).offset < Piece(data, j).offset
  {
    ChunkBounds(data, i);
    ChunkBounds(data, j);
  }

  // f is a chunk from the i-th on.
  ghost predicate LaterPiece(f: Fragment, data: bytes, i: nat)
    requires |data| < U32
  {
    i <= IndexOf(f) < ChunkCount(data) && f == Piece(data, IndexOf(f))
  }

  // s holds, in order of offset, exactly the arrived copies of the chunks from i on.
  ghost predicate Remaining(s: seq<Fragment>, order: seq<nat>, data: bytes, i: nat)
    requires |data| < U32
  {
    && Sorted(s)
    && (forall j | 0 <= j < |s| :: LaterPiece(s[j], data, i))
    && (forall m: nat | i <= m < ChunkCount(data) :: multiset(s)[Piece(data, m)] == Copies(order, m))
  }

  lemma RemainingHead(s: seq<Fragment>, order: seq<nat>, data: bytes, i: nat)
    requires |data| < U32 && Remaining(s, order, data, i) && i < ChunkCount(data)
    ensures Copies(order, i) == 0 ==> s == [] || s[0].offset > ChunkStart(data, i)
    ensures Copies(order, i) > 0 ==> s != [] && s[0] == Piece(data, i)
  {
    hide ChunkCount, ChunkStart, Chunk, IndexOf;
    PieceIndex(data, i);
    assert multiset(s)[Piece(data, i)] == Copies(order, i);
    if s != [] {
      assert LaterPiece(s[0], data, i) && s[0] in multiset(s);
      if Copies(order, i) > 0 {
        assert Piece(data, i) in s;
        var j :| 0 <= j < |s| && s[j] == Piece(data, i);
        assert s[0].offset <= s[j].offset;
      }
      if IndexOf(s[0]) > i {
        PiecesInOrder(data, i, IndexOf(s[0]));
      }
    }
  }

  lemma HeadCount<T>(s: seq<T>, x: T)
    requires s != []
    ensures multiset(s)[x] == (if s[0] == x then 1 else 0) + multiset(s[1..])[x]
  {
    assert s == [s[0]] + s[1..];
  }

  lemma RemainingTail(s: seq<Fragment>, order: seq<nat>, data: bytes, i: nat)
    requires |data| < U32 && Remaining(s, order, data, i) && i < ChunkCount(data) && Copies(order, i) == 1
    requires s != [] && s[0] == Piece(data, i)
    ensures Remaining(s[1..], order, data, i + 1)
  {
    hide ChunkCount, ChunkStart, Chunk, IndexOf;
    var t := s[1..];
    PieceIndex(data, i);
    HeadCount(s, Piece(data, i));
    assert multiset(s)[Piece(data, i)] == 1;
    forall j | 0 <= j < |t| ensures LaterPiece(t[j], data, i + 1) {
      assert LaterPiece(s[j + 1], data, i) && t[j] in multiset(t);
    }
    forall m: nat | i + 1 <= m < ChunkCount(data) ensures multiset(t)[Piece(data, m)] == Copies(order, m) {
      PieceIndex(data, m);
      HeadCount(s, Piece(data, m));
      assert multiset(s)[Piece(data, m)] == Copies(order, m);
    }
    assert Sorted(t);
  }

  // A repeated chunk comes again right after its first copy.
  lemma RemainingRepeat(s: seq<Fragment>, order: seq<nat>, data: bytes, i: nat)
    requires |data| < U32 && Remaining(s, order, data, i) && i < ChunkCount(data) && Copies(order, i) > 1
    requires s != [] && s[0] == Piece(data, i)
    ensures |s| > 1 && s[1].offset == ChunkStart(data, i)
  {
    hide ChunkCount, ChunkStart, Chunk, IndexOf;
    var t := s[1..];
    HeadCount(s, Piece(data, i));
    assert multiset(s)[Piece(data, i)] == Copies(order, i);
    assert Piece(data, i) in t;
    var j :| 0 <= j < |t| && t[j] == Piece(data, i);
    assert s[0].offset <= s[1].offset <= s[j + 1].offset;
  }

  // A walk over s that expects chunk i takes the chunks up to Reach, and their bytes.
  ghost predicate WalksToReach(s: seq<Fragment>, order: seq<nat>, data: bytes, maxLen: nat, i: nat)
    requires |data| < U32 && i <= ChunkCount(data)
  {
    var at, reach := ChunkStart(data, i), Reach(order, data, maxLen, i);
    var k := Walk(s, at, at, maxLen);
    && i + k == reach
    && at <= ChunkStart(data, reach)
    && Concat(s[..k]) == data[at..ChunkStart(data, reach)]
    && forall j | 0 <= j < k :: s[j] == Piece(data, i + j)
  }

  lemma WalksNoFurther(s: seq<Fragment>, order: seq<nat>, data: bytes, maxLen: nat, i: nat)
    requires |data| < U32 && i <= ChunkCount(data) && Reach(order, data, maxLen, i) == i
    requires s == [] || s[0].offset != ChunkStart(data, i)
    ensures WalksToReach(s, order, data, maxLen, i)
  {
    WalkStops(s, ChunkStart(data, i), maxLen);
    assert s[..0] == [];
  }

  lemma WalksOneChunk(s: seq<Fragment>, order: seq<nat>, data: bytes, maxLen: nat, i: nat)
    requires |data| < U32 && i < ChunkCount(data) && Reach(order, data, maxLen, i) == i + 1
    requires s != [] && s[0] == Piece(data, i)
    requires ChunkStart(data, i + 1) >= maxLen || (|s| > 1 && s[1].offset == ChunkStart(data, i))
    ensures WalksToReach(s, order, data, maxLen, i)
  {
    ChunkBounds(data, i);
    hide ChunkCount, ChunkStart, Chunk, Reach, Concat, Walk;
    WalkChunk(s, order, data, maxLen, i);
    var end := ChunkStart(data, i + 1);
    if end < maxLen {
      WalkStops(s[1..], end, maxLen);
      assert s[1..][..0] == [] && Concat([]) == [] by { ReadRuns.NothingRead(); }
    }
  }

  lemma JoinSlices(data: bytes, a: nat, b: nat, c: nat)
    requires a <= b <= c <= |data|
    ensures data[a..b] + data[b..c] == data[a..c]
  {
  }

  lemma WalksOn(s: seq<Fragment>, order: seq<nat>, data: bytes, maxLen: nat, i: nat)
    requires |data| < U32 && i < ChunkCount(data) && Reach(order, data, maxLen, i) == Reach(order, data, maxLen, i + 1)
    requires s != [] && s[0] == Piece(data, i) && ChunkStart(data, i + 1) < maxLen
    requires WalksToReach(s[1..], order, data, maxLen, i + 1)
    ensures WalksToReach(s, order, data, maxLen, i)
  {
    ChunkStartMonotone(data, i, i + 1);
    hide ChunkCount, ChunkStart, Chunk, Reach, Concat, Walk, Piece;
    WalkChunk(s, order, data, maxLen, i);
    var at, end, stop := ChunkStart(data, i), ChunkStart(data, i + 1), ChunkStart(data, Reach(order, data, maxLen, i));
    JoinSlices(data, at, end, stop);
    forall j | 0 <= j < Walk(s, at, at, maxLen) ensures s[j] == Piece(data, i + j) {
      if j > 0 {
        assert s[1..][j - 1] == Piece(data, i + 1 + (j - 1));
      }
    }
  }

  lemma {:induction false} WalkChunks(s: seq<Fragment>, order: seq<nat>, data: bytes, maxLen: nat, i: nat)
    requires |data| < U32 && Remaining(s, order, data, i) && i <= ChunkCount(data)
    ensures WalksToReach(s, order, data, maxLen, i)
    decreases ChunkCount(data) - i
  {
    hide ChunkCount, ChunkStart, Remaining, WalksToReach, Piece;
    if i == ChunkCount(data) {
      NothingRemains(s, order, data);
      WalksNoFurther(s, order, data, maxLen, i);
    } else {
      RemainingHead(s, order, data, i);
      if Copies(order, i) == 0 {
        WalksNoFurther(s, order, data, maxLen, i);
      } else if Copies(order, i) > 1 {
        RemainingRepeat(s, order, data, i);
        WalksOneChunk(s, order, data, maxLen, i);
      } else if ChunkStart(data, i + 1) >= maxLen {
        WalksOneChunk(s, order, data, maxLen, i);
      } else {
        RemainingTail(s, order, data, i);
        WalkChunks(s[1..], order, data, maxLen, i + 1);
        WalksOn(s, order, data, maxLen, i);
      }
    }
  }

  lemma ChunkStartMonotone(data: bytes, i: nat, j: nat)
    requires i <= j
    ensures ChunkStart(data, i) <= ChunkStart(data, j)
  {
  }

  lemma NothingRemains(s: seq<Fragment>, order: seq<nat>, data: bytes)
    requires |data| < U32 && Remaining(s, order, data, ChunkCount(data))
    ensures s == []
  {
    assert s != [] ==> LaterPiece(s[0], data, ChunkCount(data));
  }

  lemma WalkStops(s: seq<Fragment>, expected: u32, maxLen: nat)
    requires s == [] || s[0].offset != expected
    ensures Walk(s, expected, expected, maxLen) == 0
  {
  }

  // One turn of the walk: the head is chunk i.
  lemma WalkChunk(s: seq<Fragment>, order: seq<nat>, data: bytes, maxLen: nat, i: nat)
    requires |data| < U32 && i < ChunkCount(data) && s != [] && s[0] == Piece(data, i)
    ensures var at, end := ChunkStart(data, i), ChunkStart(data, i + 1);
            var k := Walk(s, at, at, maxLen);
            if end >= maxLen then k == 1 && Concat(s[..1]) == data[at..end]
            else var rest := Walk(s[1..], end, end, maxLen);
                 k == 1 + rest && Concat(s[..k]) == data[at..end] + Concat(s[1..][..rest])
  {
    var at, end := ChunkStart(data, i), ChunkStart(data, i + 1);
    ChunkBounds(data, i);
    hide ChunkCount, ChunkStart;
    assert s[0].data == data[at..end] && Next(at, s[0].data) == end;
    if end >= maxLen {
      assert s[..1][1..] == [];
    } else {
      var rest := Walk(s[1..], end, end, maxLen);
      assert s[..1 + rest][1..] == s[1..][..rest];
    }
  }

  // A buffer that holds the arrived chunks, in whatever order.
  ghost predicate Holds(buf: seq<Fragment>, data: bytes, order: seq<nat>)
    requires |data| < U32 && Delivery(order, ChunkCount(data))
  {
    multiset(buf) == multiset(Pieces(data, order))
  }

  lemma ArrivedRemain(data: bytes, order: seq<nat>, buf: seq<Fragment>)
    requires |data| < U32 && Delivery(order, ChunkCount(data)) && Holds(buf, data, order)
    ensures Remaining(StableSort(buf), order, data, 0)
  {
    var s := StableSort(buf);
    var pieces := Pieces(data, order);
    hide ChunkCount, ChunkStart, Chunk, IndexOf, StableSort, Piece;
    StableSortSorts(buf);
    forall j | 0 <= j < |s| ensures LaterPiece(s[j], data, 0) {
      assert s[j] in multiset(s) && s[j] in multiset(pieces) && s[j] in pieces;
      var k :| 0 <= k < |pieces| && pieces[k] == s[j];
      PieceIndex(data, order[k]);
    }
    forall m: nat | m < ChunkCount(data) ensures multiset(s)[Piece(data, m)] == Copies(order, m) {
      PieceCopies(data, order, m);
    }
  }

  lemma ChunkZero(data: bytes)
    ensures ChunkStart(data, 0) == 0
  {
  }

  // What one read returns, takes and keeps of the arrived chunks.
  lemma ReadPieces(state: StreamState, data: bytes, order: seq<nat>, buf: seq<Fragment>, maxLen: nat)
    requires |data| < U32 && Delivery(order, ChunkCount(data)) && Holds(buf, data, order) && buf != []
    ensures var reach := Reach(order, data, maxLen, 0);
            var out := ReadBuffer(state, buf, maxLen);
            && out.result == Ok(data[..ChunkStart(data, reach)])
            && |out.taken| == reach && (forall j | 0 <= j < reach :: out.taken[j] == Piece(data, j))
            && multiset(out.taken) + multiset(out.kept) == multiset(buf)
  {
    ArrivedRemain(data, order, buf);
    ChunkZero(data);
    WalkChunks(StableSort(buf), order, data, maxLen, 0);
    ReadRuns.ReadConserves(state, buf, maxLen);
    hide Copies, ChunkCount, ChunkStart, StableSort, Walk, Concat, Reach, Remaining, Holds, Piece;
    var at := ChunkStart(data, Reach(order, data, maxLen, 0));
    assert data[0..at] == data[..at];
  }

  // After an arbitrary delivery, end to end.
  lemma ReadAfterDelivery(state: StreamState, streamId: u32, connectionId: u32, data: bytes, order: seq<nat>, maxLen: nat)
    requires streamId <= MAX_STREAM_ID && |data| < U32
    requires Delivery(order, ChunkCount(data)) && order != []
    ensures var sent := ChunkWires(streamId, connectionId, data, ChunkCount(data));
            var buf := ArriveAll(Delivered(sent, order));
            var reach := Reach(order, data, maxLen, 0);
            var out := ReadBuffer(state, buf, maxLen);
            && buf == Pieces(data, order)
            && out.result == Ok(data[..ChunkStart(data, reach)])
            && |out.taken| == reach && (forall j | 0 <= j < reach :: out.taken[j] == Piece(data, j))
            && multiset(out.taken) + multiset(out.kept) == multiset(buf)
  {
    assert Holds(Pieces(data, order), data, order);
    hide ChunkCount, ChunkStart, Reach, ArriveAll, ChunkWires, Delivered, Holds, ReadBuffer, Piece;
    PiecesArrive(streamId, connectionId, data, order);
    ReadPieces(state, data, order, Pieces(data, order), maxLen);
  }

  // ---------- when the whole of the data comes out ----------

  // From chunk i on, every chunk arrived, and none but the last repeatedly.
  ghost predicate EnoughCopies(order: seq<nat>, data: bytes, i: nat) {
    && (forall m: nat | i <= m < ChunkCount(data) :: Copies(order, m) >= 1)
    && (forall m: nat | i <= m < ChunkCount(data) - 1 :: Copies(order, m) == 1)
  }

  // A read reaches the last chunk: there is none before it from i on, or the
  // read has room beyond where it starts.
  predicate HasRoom(data: bytes, maxLen: nat, i: nat) {
    i + 1 >= ChunkCount(data) || maxLen > ChunkStart(data, ChunkCount(data) - 1)
  }

  lemma RoomForNext(data: bytes, maxLen: nat, i: nat)
    requires i + 1 < ChunkCount(data)
    ensures HasRoom(data, maxLen, i) <==> HasRoom(data, maxLen, i + 1) && maxLen > ChunkStart(data, i + 1)
  {
    ChunkStartMonotone(data, i + 1, ChunkCount(data) - 1);
    hide ChunkStart;
  }

  lemma {:induction false} ReachIsWhole(order: seq<nat>, data: bytes, maxLen: nat, i: nat)
    requires i < ChunkCount(data)
    ensures Reach(order, data, maxLen, i) == ChunkCount(data) <==> EnoughCopies(order, data, i) && HasRoom(data, maxLen, i)
    decreases ChunkCount(data) - i
  {
    hide ChunkCount, ChunkStart, Copies;
    if i + 1 < ChunkCount(data) {
      RoomForNext(data, maxLen, i);
      ReachIsWhole(order, data, maxLen, i + 1);
    }
  }

  lemma ReadsAll(data: bytes, reach: nat)
    requires data != [] && reach <= ChunkCount(data)
    ensures data[..ChunkStart(data, reach)] == data <==> reach == ChunkCount(data)
  {
    ChunkBounds(data, reach);
    assert |data[..ChunkStart(data, reach)]| == ChunkStart(data, reach);
  }

  lemma WholePiecesIff(state: StreamState, data: bytes, order: seq<nat>, buf: seq<Fragment>, maxLen: nat)
    requires 0 < |data| < U32 && Delivery(order, ChunkCount(data)) && Holds(buf, data, order)
    ensures ReadBuffer(state, buf, maxLen).result == Ok(data)
       <==> EnoughCopies(order, data, 0) && HasRoom(data, maxLen, 0)
  {
    SomeChunk(data);
    if buf == [] {
      EmptyHoldsNothing(data, order, buf);
      assert Copies(order, 0) == 0;
    } else {
      hide ChunkCount, ChunkStart, Copies, Reach, ReadBuffer, EnoughCopies, HasRoom, Holds;
      ReadPieces(state, data, order, buf, maxLen);
      ReachIsWhole(order, data, maxLen, 0);
      ReadsAll(data, Reach(order, data, maxLen, 0));
    }
  }

  lemma SomeChunk(data: bytes)
    requires data != []
    ensures ChunkCount(data) > 0
  {
  }

  lemma EmptyHoldsNothing(data: bytes, order: seq<nat>, buf: seq<Fragment>)
    requires |data| < U32 && Delivery(order, ChunkCount(data)) && Holds(buf, data, order) && buf == []
    ensures order == []
  {
    assert |multiset(Pieces(data, order))| == |order|;
  }

  // One read returns all of the data if and only if every chunk arrived, none
  // but the last more than once, and the read has room for the last.
  lemma WholeDataIff(state: StreamState, streamId: u32, connectionId: u32, data: bytes, order: seq<nat>, maxLen: nat)
    requires streamId <= MAX_STREAM_ID && 0 < |data| < U32
    requires Delivery(order, ChunkCount(data))
    ensures var buf := ArriveAll(Delivered(ChunkWires(streamId, connectionId, data, ChunkCount(data)), order));
            ReadBuffer(state, buf, maxLen).result == Ok(data)
            <==> EnoughCopies(order, data, 0) && HasRoom(data, maxLen, 0)
  {
    assert Holds(Pieces(data, order), data, order);
    hide ChunkCount, ReadBuffer, EnoughCopies, HasRoom, Holds, ArriveAll, Delivered, ChunkWires;
    PiecesArrive(streamId, connectionId, data, order);
    WholePiecesIff(state, data, order, Pieces(data, order), maxLen);
  }

  // Every chunk arrived once.
  ghost predicate EachOnce(order: seq<nat>, n: nat) {
    Delivery(order, n) && forall i: nat | i < n :: Copies(order, i) == 1
  }

  lemma NothingKept(data: bytes, order: seq<nat>, buf: seq<Fragment>, taken: seq<Fragment>, kept: seq<Fragment>)
    requires |data| < U32 && EachOnce(order, ChunkCount(data)) && Holds(buf, data, order)
    requires multiset(taken) + multiset(kept) == multiset(buf)
    requires |taken| == ChunkCount(data) && forall j | 0 <= j < |taken| :: taken[j] == Piece(data, j)
    ensures kept == []
  {
    hide ChunkCount, Piece, Copies;
    var pieces := Pieces(data, order);
    forall f ensures multiset(kept)[f] == 0 {
      assert multiset(pieces)[f] == multiset(taken)[f] + multiset(kept)[f];
      if f in pieces {
        var j :| 0 <= j < |order| && f == pieces[j];
        PieceCopies(data, order, order[j]);
        assert taken[order[j]] == f && f in multiset(taken);
      }
    }
    assert multiset(kept) == multiset{};
    assert |kept| == |multiset(kept)|;
  }

  lemma AllPiecesRead(state: StreamState, data: bytes, order: seq<nat>, buf: seq<Fragment>, maxLen: nat)
    requires 0 < |data| < U32 && HasRoom(data, maxLen, 0)
    requires EachOnce(order, ChunkCount(data)) && Holds(buf, data, order)
    ensures var out := ReadBuffer(state, buf, maxLen);
            out.result == Ok(data) && out.kept == []
  {
    SomeChunk(data);
    assert Copies(order, 0) == 1;
    assert EnoughCopies(order, data, 0);
    assert order != [];
    if buf == [] {
      EmptyHoldsNothing(data, order, buf);
    } else {
      hide ChunkCount, ChunkStart, Copies, Reach, ReadBuffer, EnoughCopies, HasRoom, Holds, EachOnce;
      ReadPieces(state, data, order, buf, maxLen);
      ReachIsWhole(order, data, maxLen, 0);
      ReadsAll(data, Reach(order, data, maxLen, 0));
      var out := ReadBuffer(state, buf, maxLen);
      NothingKept(data, order, buf, out.taken, out.kept);
    }
  }

  // In particular, any permutation of the frames gives back the data and
  // leaves the buffer empty.
  lemma AnyPermutationReassembles(state: StreamState, streamId: u32, connectionId: u32, data: bytes, order: seq<nat>,
                                  maxLen: nat)
    requires streamId <= MAX_STREAM_ID && 0 < |data| < U32 && HasRoom(data, maxLen, 0)
    requires EachOnce(order, ChunkCount(data))
    ensures var buf := ArriveAll(Delivered(ChunkWires(streamId, connectionId, data, ChunkCount(data)), order));
            var out := ReadBuffer(state, buf, maxLen);
            out.result == Ok(data) && out.kept == []
  {
    assert Holds(Pieces(data, order), data, order);
    hide ChunkCount, ReadBuffer, HasRoom, Holds, ArriveAll, Delivered, ChunkWires, Copies;
    PiecesArrive(streamId, connectionId, data, order);
    AllPiecesRead(state, data, order, Pieces(data, order), maxLen);
  }

  // ---------- the same with the objects themselves ----------

  lemma ArriveAppends(buf: seq<Fragment>, wire: bytes)
    ensures Arrive(buf, wire) == buf + Arrive([], wire)
  {
    hide DecodeFrame;
  }

  lemma ArriveAllStep(wires: seq<bytes>, i: nat)
    requires i < |wires|
    ensures ArriveAll(wires[..i + 1]) == ArriveAll(wires[..i]) + Arrive([], wires[i])
  {
    assert wires[..i + 1][..i] == wires[..i];
    hide Arrive;
    ArriveAppends(ArriveAll(wires[..i]), wires[i]);
  }

  // Decodes what arrives and hands the payloads to the stream.
  method ReceiveAll(stream: Stream, wires: seq<bytes>)
    modifies stream`receiveBuffer, stream.flow
    ensures stream.receiveBuffer == old(stream.receiveBuffer) + ArriveAll(wires)
  {
    hide DecodeFrame;
    var i := 0;
    while i < |wires|
      invariant i <= |wires| && stream.receiveBuffer == old(stream.receiveBuffer) + ArriveAll(wires[..i])
    {
      var f := ReadFrame(wires[i]);
      if f.Ok? {
        stream.ReceiveData(f.value.header.offset, f.value.payload);
      }
      ArriveAllStep(wires, i);
      i := i + 1;
    }
    assert wires[..|wires|] == wires;
  }

  // A connection sends, some selection of the frames arrives, the stream reads.
  // With nothing held from before, any permutation gives the data back and
  // leaves nothing behind; with a fragment at offset 0 held from before, that
  // fragment is all that comes out.
  method Transfer(sender: Connection, receiver: Stream, data: bytes, order: seq<nat>, maxLen: nat) returns (r: Result<bytes>)
    requires sender.state == Active
    requires receiver.id <= MAX_STREAM_ID && 0 < |data| < U32 && Delivery(order, ChunkCount(data))
    modifies sender`sent, receiver`receiveBuffer, receiver.flow
    ensures var out := ReadBuffer(receiver.state, old(receiver.receiveBuffer) + Pieces(data, order), maxLen);
            r == out.result && receiver.receiveBuffer == out.kept
    ensures old(receiver.receiveBuffer) == [] && EachOnce(order, ChunkCount(data)) && HasRoom(data, maxLen, 0) ==>
              r == Ok(data) && receiver.receiveBuffer == []
    ensures 0 in order && At(old(receiver.receiveBuffer), 0) != []
            && 0 < |At(old(receiver.receiveBuffer), 0)[0].data| < U32 ==>
              r == Ok(At(old(receiver.receiveBuffer), 0)[0].data)
  {
    hide ChunkCount, ReadBuffer, ArriveAll, ChunkWires, Copies, HasRoom, EachOnce, At, Pieces;
    ghost var before, held := sender.sent, receiver.receiveBuffer;
    var outcome := sender.SendStreamData(receiver.id, data);
    ghost var target := if sender.peerConnectionId.Some? then sender.peerConnectionId.value else sender.ourConnectionId;
    ghost var wires := ChunkWires(receiver.id, target, data, ChunkCount(data));
    var latest := sender.sent[|sender.sent| - ChunkCount(data)..];
    assert latest == wires;
    ReceiveAll(receiver, Delivered(latest, order));
    PiecesArrive(receiver.id, target, data, order);
    if held == [] && EachOnce(order, ChunkCount(data)) && HasRoom(data, maxLen, 0) {
      assert held + Pieces(data, order) == Pieces(data, order);
      HoldsItself(data, order);
      AllPiecesRead(receiver.state, data, order, Pieces(data, order), maxLen);
    }
    if 0 in order && At(held, 0) != [] && 0 < |At(held, 0)[0].data| < U32 {
      OneMoreStart(held, data, order);
      ReadRuns.SecondStartStops(receiver.state, held + Pieces(data, order), maxLen);
    }
    r := receiver.Read(maxLen);
  }

  lemma HoldsItself(data: bytes, order: seq<nat>)
    requires |data| < U32 && Delivery(order, ChunkCount(data))
    ensures Holds(Pieces(data, order), data, order)
  {
  }

  lemma OneMoreStart(held: seq<Fragment>, data: bytes, order: seq<nat>)
    requires |data| < U32 && Delivery(order, ChunkCount(data)) && 0 in order && At(held, 0) != []
    ensures |At(held + Pieces(data, order), 0)| >= 2 && At(held + Pieces(data, order), 0)[0] == At(held, 0)[0]
  {
    hide At, ChunkCount;
    ReadRuns.AtConcat(held, Pieces(data, order), 0);
    AtMember(Pieces(data, order), 0);
    var k :| 0 <= k < |order| && order[k] == 0;
    assert Pieces(data, order)[k].offset == 0;
  }
}
