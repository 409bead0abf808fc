// What one read returns of fragments on the grid that senders cut their data on:
// every offset a multiple of the chunk size, no fragment longer than a chunk.
module Splices {
  import opened Bytes
  import opened Streams
  import opened Connections
  import opened Reassembly
  import R = ReadRuns

  const SIZE := MAX_PAYLOAD_SIZE

  predicate FitsGrid(f: Fragment) {
    f.offset % SIZE == 0 && 0 < |f.data| <= SIZE && f.offset + |f.data| < U32
  }

  ghost predicate OnGrid(buf: seq<Fragment>) {
    forall i | 0 <= i < |buf| :: FitsGrid(buf[i])
  }

  // The fragments at grid position i, in order of arrival.
  ghost function Slot(buf: seq<Fragment>, i: nat): seq<Fragment> {
    if i * SIZE < U32 then At(buf, i * SIZE) else []
  }

  // A read that has taken `len` bytes at grid position i goes no further: there is
  // a second fragment there, or it has enough, or the fragment is short.
  predicate Stops(count: nat, len: nat, i: nat, maxLen: nat) {
    count > 1 || i * SIZE + len >= maxLen || len != SIZE
  }

  ghost predicate StopsAt(buf: seq<Fragment>, i: nat, maxLen: nat)
    requires Slot(buf, i) != []
  {
    Stops(|Slot(buf, i)|, |Slot(buf, i)[0].data|, i, maxLen)
  }

  // The first arrivals along the grid from position i, up to a gap, a repeat, a
  // short fragment or the read's limit.
  ghost function Splice(buf: seq<Fragment>, i: nat, maxLen: nat): bytes
    decreases U32 - i * SIZE
  {
    if Slot(buf, i) == [] then []
    else if StopsAt(buf, i, maxLen) then Slot(buf, i)[0].data
    else Slot(buf, i)[0].data + Splice(buf, i + 1, maxLen)
  }

  // ---------- a read returns the splice ----------

  // t is what remains of the sorted buffer from grid position i on.
  ghost predicate Rest(t: seq<Fragment>, buf: seq<Fragment>, i: nat) {
    && Sorted(t) && OnGrid(t)
    && (forall j | 0 <= j < |t| :: t[j].offset >= i * SIZE)
    && (forall m: nat | i <= m :: Slot(t, m) == Slot(buf, m))
  }

  lemma FirstAt(t: seq<Fragment>, o: u32)
    requires Sorted(t) && forall j | 0 <= j < |t| :: t[j].offset >= o
    ensures At(t, o) != [] <==> t != [] && t[0].offset == o
    ensures t != [] && t[0].offset == o ==> At(t, o) == [t[0]] + At(t[1..], o)
  {
    AtMember(t, o);
    if t != [] && t[0].offset == o {
      AtHead(t, o);
    }
  }

  lemma AtHead(t: seq<Fragment>, o: u32)
    requires t != []
    ensures At(t, o) == (if t[0].offset == o then [t[0]] else []) + At(t[1..], o)
  {
    hide At;
    R.NothingAt(o);
    AtAppend([], t[0], o);
    R.AtConcat([t[0]], t[1..], o);
    assert [] + [t[0]] == [t[0]] && t == [t[0]] + t[1..];
    NothingBefore(if t[0].offset == o then [t[0]] else []);
  }

  // What is known of the head of the rest.
  lemma HeadOfRest(t: seq<Fragment>, buf: seq<Fragment>, i: nat)
    requires i * SIZE < U32 && Rest(t, buf, i)
    ensures Slot(buf, i) != [] <==> t != [] && t[0].offset == i * SIZE
    ensures Slot(buf, i) != [] ==> Slot(buf, i)[0] == t[0] && FitsGrid(t[0])
    ensures Slot(buf, i) != [] ==> Slot(buf, i) == [t[0]] + At(t[1..], i * SIZE)
  {
    assert Slot(t, i) == Slot(buf, i);
    hide At;
    FirstAt(t, i * SIZE);
  }

  lemma SlotOfTail(t: seq<Fragment>, i: nat, m: nat)
    requires t != [] && t[0].offset == i * SIZE && m > i
    ensures Slot(t[1..], m) == Slot(t, m)
  {
    if m * SIZE < U32 {
      hide At;
      AtHead(t, m * SIZE);
      NothingBefore(At(t[1..], m * SIZE));
    }
  }

  lemma BeyondSlot(t: seq<Fragment>, buf: seq<Fragment>, i: nat, j: nat)
    requires Rest(t, buf, i) && i * SIZE < U32 && 0 < j < |t| && t[0].offset == i * SIZE && |Slot(buf, i)| == 1
    ensures t[j].offset >= (i + 1) * SIZE
  {
    HeadOfRest(t, buf, i);
    assert FitsGrid(t[j]) && t[j].offset >= i * SIZE && t[1..][j - 1] == t[j];
    hide At, Slot, Rest;
    AtMember(t[1..], i * SIZE);
    GridStep(t[j].offset, i);
  }

  lemma NextSlot(t: seq<Fragment>, buf: seq<Fragment>, i: nat)
    requires Rest(t, buf, i) && i * SIZE < U32 && t != [] && t[0].offset == i * SIZE && |Slot(buf, i)| == 1
    ensures Rest(t[1..], buf, i + 1)
  {
    var rest := t[1..];
    forall j | 0 <= j < |rest| ensures rest[j].offset >= (i + 1) * SIZE && FitsGrid(rest[j]) {
      assert rest[j] == t[j + 1] && FitsGrid(t[j + 1]);
      BeyondSlot(t, buf, i, j + 1);
    }
    hide At, FitsGrid, Slot;
    forall m: nat | i + 1 <= m ensures Slot(rest, m) == Slot(buf, m) {
      assert Slot(t, m) == Slot(buf, m);
      SlotOfTail(t, i, m);
    }
    assert OnGrid(rest) && Sorted(rest);
  }

  lemma GridStep(offset: nat, i: nat)
    requires offset % SIZE == 0 && offset >= i * SIZE && offset != i * SIZE
    ensures offset >= (i + 1) * SIZE
  {
  }

  lemma OffGrid(offset: nat, at: nat, len: nat)
    requires at % SIZE == 0 && 0 < len < SIZE && offset == at + len
    ensures offset % SIZE != 0
  {
  }

  // A walk that stops after the fragment at hand.
  lemma WalkStopsHere(t: seq<Fragment>, at: u32, maxLen: nat)
    requires t != [] && t[0].offset == at && FitsGrid(t[0])
    requires at + |t[0].data| >= maxLen || |t| == 1 || t[1].offset != at + |t[0].data|
    ensures Concat(t[..Walk(t, at, at, maxLen)]) == t[0].data
  {
    assert Next(at, t[0].data) == at + |t[0].data|;
    var rest := t[1..];
    assert rest != [] ==> rest[0] == t[1];
    assert Walk(t, at, at, maxLen) == 1;
    assert t[..1] == [t[0]] && [t[0]][1..] == [];
    assert t[0].data + [] == t[0].data;
    R.NothingRead();
  }

  lemma WalkGoesOn(t: seq<Fragment>, at: u32, maxLen: nat)
    requires t != [] && t[0].offset == at && FitsGrid(t[0]) && |t[0].data| == SIZE && at + SIZE < maxLen
    ensures at + SIZE < U32
    ensures Concat(t[..Walk(t, at, at, maxLen)])
         == t[0].data + Concat(t[1..][..Walk(t[1..], at + SIZE, at + SIZE, maxLen)])
  {
    assert Next(at, t[0].data) == at + SIZE;
    R.WalkTurn(t, at, at, maxLen);
  }

  lemma {:induction false} WalkSplices(t: seq<Fragment>, buf: seq<Fragment>, i: nat, maxLen: nat)
    requires i * SIZE < U32 && Rest(t, buf, i)
    ensures Concat(t[..Walk(t, i * SIZE, i * SIZE, maxLen)]) == Splice(buf, i, maxLen)
    decreases |t|
  {
    hide Rest, Slot, StopsAt, Walk, Concat, FitsGrid;
    HeadOfRest(t, buf, i);
    if Slot(buf, i) == [] {
      WalkStops(t, i * SIZE, i * SIZE, maxLen);
    } else if StopsAt(buf, i, maxLen) {
      StoppedWalk(t, buf, i, maxLen);
      WalkStopsHere(t, i * SIZE, maxLen);
    } else {
      GoingOn(t, buf, i, maxLen);
      NextSlot(t, buf, i);
      WalkGoesOn(t, i * SIZE, maxLen);
      Times(i);
      WalkSplices(t[1..], buf, i + 1, maxLen);
    }
  }

  lemma Times(i: nat)
    ensures (i + 1) * SIZE == i * SIZE + SIZE
  {
  }

  lemma GoingOn(t: seq<Fragment>, buf: seq<Fragment>, i: nat, maxLen: nat)
    requires Slot(buf, i) != [] && t != [] && Slot(buf, i)[0] == t[0] && !StopsAt(buf, i, maxLen)
    ensures |Slot(buf, i)| == 1 && |t[0].data| == SIZE && i * SIZE + SIZE < maxLen
  {
    hide Slot;
  }

  lemma WalkStops(t: seq<Fragment>, at: u32, got: nat, maxLen: nat)
    requires t == [] || t[0].offset != at
    ensures Concat(t[..Walk(t, at, got, maxLen)]) == []
  {
    assert t[..0] == [];
    R.NothingRead();
  }

  lemma StoppedWalk(t: seq<Fragment>, buf: seq<Fragment>, i: nat, maxLen: nat)
    requires i * SIZE < U32 && Rest(t, buf, i) && t != [] && t[0].offset == i * SIZE
    requires Slot(buf, i) != [] && Slot(buf, i)[0] == t[0] && StopsAt(buf, i, maxLen)
    ensures i * SIZE + |t[0].data| >= maxLen || |t| == 1 || t[1].offset != i * SIZE + |t[0].data|
  {
    var at := i * SIZE;
    HeadOfRest(t, buf, i);
    if |t| > 1 {
      var next := t[1..];
      assert FitsGrid(t[1]) && next[0] == t[1];
      assert forall j | 0 <= j < |next| :: next[j] == t[j + 1];
      hide At, Slot, OnGrid;
      if |Slot(buf, i)| > 1 {
        FirstAt(next, at);
      } else if |t[0].data| < SIZE && t[1].offset == at + |t[0].data| {
        OffGrid(t[1].offset, at, |t[0].data|);
      }
    }
  }

  // One read of any buffer on the grid.
  lemma ReadSplices(state: StreamState, buf: seq<Fragment>, maxLen: nat)
    requires OnGrid(buf) && buf != []
    ensures ReadBuffer(state, buf, maxLen).result == Ok(Splice(buf, 0, maxLen))
  {
    var s := StableSort(buf);
    StableSortSorts(buf);
    forall j | 0 <= j < |s| ensures FitsGrid(s[j]) {
      assert s[j] in multiset(s) && s[j] in buf;
    }
    forall m: nat ensures Slot(s, m) == Slot(buf, m) {
      if m * SIZE < U32 {
        StableSortIsStable(buf, m * SIZE);
      }
    }
    hide Splice, StableSort, At, Walk, Concat;
    WalkSplices(s, buf, 0, maxLen);
  }

  // ---------- when the splice is some data ----------

  // Nothing is read beyond the last chunk: it came twice, or the read has enough,
  // or it is short, or nothing is held where it ends.
  ghost predicate EndsThere(buf: seq<Fragment>, data: bytes, maxLen: nat)
    requires ChunkCount(data) > 0
  {
    var n := ChunkCount(data);
    |Slot(buf, n - 1)| > 1 || |data| >= maxLen || |data| % SIZE != 0 || Slot(buf, n) == []
  }

  // The chunk of the data is the first to have arrived where it belongs.
  ghost predicate ChunkFirst(buf: seq<Fragment>, data: bytes, m: nat) {
    Slot(buf, m) != [] && Slot(buf, m)[0].data == Chunk(data, m)
  }

  // What must hold from grid position i on for a read to return exactly the rest
  // of the data: its chunks are the first there, and alone but for the last; the
  // read has room for the last; and nothing continues it.
  ghost predicate GivesFrom(buf: seq<Fragment>, data: bytes, i: nat, maxLen: nat)
    requires ChunkCount(data) > 0
  {
    && (forall m: nat | i <= m < ChunkCount(data) :: ChunkFirst(buf, data, m))
    && (forall m: nat | i <= m < ChunkCount(data) - 1 :: |Slot(buf, m)| == 1)
    && HasRoom(data, maxLen, i)
    && EndsThere(buf, data, maxLen)
  }

  lemma GivesStep(buf: seq<Fragment>, data: bytes, i: nat, maxLen: nat)
    requires i + 1 < ChunkCount(data)
    ensures GivesFrom(buf, data, i, maxLen)
       <==> && ChunkFirst(buf, data, i) && |Slot(buf, i)| == 1
            && maxLen > ChunkStart(data, i + 1) && GivesFrom(buf, data, i + 1, maxLen)
  {
    RoomForNext(data, maxLen, i);
    hide ChunkCount, ChunkStart, ChunkFirst, Slot, HasRoom, EndsThere;
  }

  lemma GivesLast(buf: seq<Fragment>, data: bytes, maxLen: nat)
    requires ChunkCount(data) > 0
    ensures var i := ChunkCount(data) - 1;
            GivesFrom(buf, data, i, maxLen)
            <==> ChunkFirst(buf, data, i) && EndsThere(buf, data, maxLen)
  {
    hide ChunkCount, ChunkStart, ChunkFirst, Slot, EndsThere;
  }

  lemma SlotFits(buf: seq<Fragment>, i: nat)
    requires OnGrid(buf) && Slot(buf, i) != []
    ensures FitsGrid(Slot(buf, i)[0])
  {
    hide FitsGrid;
    AtFits(buf, i * SIZE);
  }

  lemma {:induction false} AtFits(buf: seq<Fragment>, o: u32)
    requires OnGrid(buf)
    ensures OnGrid(At(buf, o))
  {
    hide FitsGrid;
    if buf != [] {
      AtFits(buf[..|buf| - 1], o);
    }
  }

  lemma SpliceEmpty(buf: seq<Fragment>, i: nat, maxLen: nat)
    requires OnGrid(buf)
    ensures Splice(buf, i, maxLen) == [] <==> Slot(buf, i) == []
  {
    if Slot(buf, i) != [] {
      SlotFits(buf, i);
      hide Slot, StopsAt, OnGrid;
      assert |Splice(buf, i, maxLen)| > 0;
    }
  }

  // How the data goes on from chunk i.
  lemma ChunkAndRest(data: bytes, i: nat)
    requires i < ChunkCount(data)
    ensures i * SIZE <= |data| && data[i * SIZE..] != []
    ensures i + 1 == ChunkCount(data) ==> data[i * SIZE..] == Chunk(data, i) && i * SIZE + |Chunk(data, i)| == |data|
    ensures i + 1 == ChunkCount(data) ==> 0 < |Chunk(data, i)| <= SIZE && (|Chunk(data, i)| == SIZE <==> |data| % SIZE == 0)
    ensures i + 1 < ChunkCount(data) ==>
              && |Chunk(data, i)| == SIZE && ChunkStart(data, i + 1) == (i + 1) * SIZE == i * SIZE + SIZE <= |data|
              && data[i * SIZE..] == Chunk(data, i) + data[(i + 1) * SIZE..]
  {
    ChunkBounds(data, i);
    if i + 1 < ChunkCount(data) {
      ChunkBounds(data, i + 1);
      assert data[i * SIZE..] == data[i * SIZE..(i + 1) * SIZE] + data[(i + 1) * SIZE..];
    }
  }

  lemma SameFront(a: bytes, x: bytes, b: bytes, y: bytes)
    requires |a| == |b|
    ensures a + x == b + y <==> a == b && x == y
  {
    if a + x == b + y {
      assert (a + x)[..|a|] == a && (b + y)[..|b|] == b;
      assert (a + x)[|a|..] == x && (b + y)[|b|..] == y;
    }
  }

  lemma LastIff(buf: seq<Fragment>, data: bytes, maxLen: nat)
    requires OnGrid(buf) && ChunkCount(data) > 0
    ensures var i := ChunkCount(data) - 1;
            i * SIZE <= |data| && (Splice(buf, i, maxLen) == data[i * SIZE..] <==> GivesFrom(buf, data, i, maxLen))
  {
    var i := ChunkCount(data) - 1;
    ChunkAndRest(data, i);
    GivesLast(buf, data, maxLen);
    SpliceEmpty(buf, i + 1, maxLen);
    if Slot(buf, i) != [] {
      SlotFits(buf, i);
      var d, more := Slot(buf, i)[0].data, Splice(buf, i + 1, maxLen);
      hide Slot, Splice, Chunk, ChunkCount, GivesFrom, OnGrid;
      if !StopsAt(buf, i, maxLen) {
        SpliceOn(buf, i, maxLen);
        if d == Chunk(data, i) {
          SameFront(d, more, d, []);
          assert d + [] == d;
        } else if |d + more| == |Chunk(data, i)| {
          assert |more| == 0 && d + more == d;
        }
      } else {
        SpliceStops(buf, i, maxLen);
      }
    }
  }

  lemma SpliceNothing(buf: seq<Fragment>, i: nat, maxLen: nat)
    requires Slot(buf, i) == []
    ensures Splice(buf, i, maxLen) == []
  {
  }

  lemma SpliceOn(buf: seq<Fragment>, i: nat, maxLen: nat)
    requires Slot(buf, i) != [] && !StopsAt(buf, i, maxLen)
    ensures Splice(buf, i, maxLen) == Slot(buf, i)[0].data + Splice(buf, i + 1, maxLen)
  {
  }

  lemma SpliceStops(buf: seq<Fragment>, i: nat, maxLen: nat)
    requires Slot(buf, i) != [] && StopsAt(buf, i, maxLen)
    ensures Splice(buf, i, maxLen) == Slot(buf, i)[0].data
  {
  }

  lemma {:induction false} SpliceIsIff(buf: seq<Fragment>, data: bytes, i: nat, maxLen: nat)
    requires OnGrid(buf) && i < ChunkCount(data)
    ensures i * SIZE <= |data| && (Splice(buf, i, maxLen) == data[i * SIZE..] <==> GivesFrom(buf, data, i, maxLen))
    decreases ChunkCount(data) - i
  {
    if i + 1 == ChunkCount(data) {
      LastIff(buf, data, maxLen);
    } else {
      SpliceIsIff(buf, data, i + 1, maxLen);
      ChunkAndRest(data, i);
      GivesStep(buf, data, i, maxLen);
      if Slot(buf, i) != [] {
        SlotFits(buf, i);
        var d, more, rest := Slot(buf, i)[0].data, Splice(buf, i + 1, maxLen), data[(i + 1) * SIZE..];
        hide Slot, Splice, Chunk, ChunkCount, ChunkStart, GivesFrom, OnGrid;
        if StopsAt(buf, i, maxLen) {
          SpliceStops(buf, i, maxLen);
          assert |data[i * SIZE..]| == SIZE + |rest|;
          SomeRest(data, i);
        } else {
          SpliceOn(buf, i, maxLen);
          SameFront(d, more, Chunk(data, i), rest);
        }
      }
    }
  }

  lemma SomeRest(data: bytes, i: nat)
    requires i + 1 < ChunkCount(data)
    ensures (i + 1) * SIZE < |data|
  {
  }

  // One read returns exactly the given data if and only if, along the grid, its
  // chunks are the first arrivals, none but the last has a second, the read has
  // room for the last, and nothing continues it.
  lemma ReadIsIff(state: StreamState, buf: seq<Fragment>, data: bytes, maxLen: nat)
    requires OnGrid(buf) && data != []
    ensures ChunkCount(data) > 0
    ensures ReadBuffer(state, buf, maxLen).result == Ok(data) <==> GivesFrom(buf, data, 0, maxLen)
  {
    SomeChunk(data);
    assert data[0 * SIZE..] == data;
    SpliceIsIff(buf, data, 0, maxLen);
    if buf == [] {
      assert Slot(buf, 0) == [];
    } else {
      hide Splice, GivesFrom, ReadBuffer;
      ReadSplices(state, buf, maxLen);
    }
  }
}
