// What a receiver is ever given, over whole runs of arrivals, reads and closes.
module ReadRuns {
  import opened Bytes
  import opened Streams

  datatype Event = Arrive(fragment: Fragment) | Read(maxLen: nat) | CloseWrite | CloseRead

  datatype Endpoint = Endpoint(state: StreamState, buf: seq<Fragment>)

  function Step(e: Endpoint, ev: Event): Endpoint {
    match ev
    case Arrive(f) => e.(buf := e.buf + [f])
    case Read(maxLen) => e.(buf := ReadBuffer(e.state, e.buf, maxLen).kept)
    case CloseWrite => e.(state := e.state.CloseWrite())
    case CloseRead => e.(state := e.state.CloseRead())
  }

  function Run(e: Endpoint, evs: seq<Event>): Endpoint
    decreases |evs|
  {
    if evs == [] then e else Run(Step(e, evs[0]), evs[1..])
  }

  // The bytes a step hands to the application; a failed read hands over none.
  function Output(e: Endpoint, ev: Event): bytes {
    if ev.Read? then
      match ReadBuffer(e.state, e.buf, ev.maxLen).result
      case Ok(data) => data
      case Err(_) => []
    else []
  }

  function Outputs(e: Endpoint, evs: seq<Event>): seq<bytes>
    decreases |evs|
  {
    if evs == [] then [] else [Output(e, evs[0])] + Outputs(Step(e, evs[0]), evs[1..])
  }

  // The fragments that arrive in a step and in a run, and those that reads take.
  function Arriving(ev: Event): seq<Fragment> {
    if ev.Arrive? then [ev.fragment] else []
  }

  function Arrived(evs: seq<Event>): seq<Fragment> {
    if evs == [] then [] else Arriving(evs[0]) + Arrived(evs[1..])
  }

  function Taking(e: Endpoint, ev: Event): seq<Fragment> {
    if ev.Read? then ReadBuffer(e.state, e.buf, ev.maxLen).taken else []
  }

  function Taken(e: Endpoint, evs: seq<Event>): seq<Fragment>
    decreases |evs|
  {
    if evs == [] then [] else Taking(e, evs[0]) + Taken(Step(e, evs[0]), evs[1..])
  }

  // ---------- conservation ----------

  lemma ReadConserves(state: StreamState, buf: seq<Fragment>, maxLen: nat)
    ensures var r := ReadBuffer(state, buf, maxLen);
            && multiset(r.taken) + multiset(r.kept) == multiset(buf)
            && (r.result.Ok? ==> r.result.value == Concat(r.taken))
  {
    if buf != [] {
      StableSortSorts(buf);
      var s, k := StableSort(buf), Walk(StableSort(buf), 0, 0, maxLen);
      assert s == s[..k] + s[k..];
    }
  }

  lemma StepConserves(e: Endpoint, ev: Event)
    ensures multiset(Taking(e, ev)) + multiset(Step(e, ev).buf) == multiset(e.buf) + multiset(Arriving(ev))
  {
    if ev.Read? {
      ReadConserves(e.state, e.buf, ev.maxLen);
    }
  }

  // Composing two balances: what goes out and stays is what was there and came in.
  lemma Balance<T>(out1: multiset<T>, out2: multiset<T>, middle: multiset<T>, end: multiset<T>,
                   start: multiset<T>, in1: multiset<T>, in2: multiset<T>)
    requires out1 + middle == start + in1 && out2 + end == middle + in2
    ensures out1 + out2 + end == start + (in1 + in2)
  {
    forall x: T ensures (out1 + out2 + end)[x] == (start + (in1 + in2))[x] {
      assert (out1 + middle)[x] == (start + in1)[x] && (out2 + end)[x] == (middle + in2)[x];
    }
  }

  // No run loses or invents a fragment.
  lemma {:induction false} RunsConserve(e: Endpoint, evs: seq<Event>)
    ensures multiset(Taken(e, evs)) + multiset(Run(e, evs).buf) == multiset(e.buf) + multiset(Arrived(evs))
    decreases |evs|
  {
    if evs != [] {
      var ev, rest, next := evs[0], evs[1..], Step(e, evs[0]);
      var t, a := Taken(next, rest), Arrived(rest);
      assert Taken(e, evs) == Taking(e, ev) + t && Arrived(evs) == Arriving(ev) + a;
      assert Run(e, evs) == Run(next, rest);
      hide *;
      StepConserves(e, ev);
      RunsConserve(next, rest);
      Balance(multiset(Taking(e, ev)), multiset(t), multiset(next.buf), multiset(Run(next, rest).buf),
              multiset(e.buf), multiset(Arriving(ev)), multiset(a));
      assert multiset(Taken(e, evs)) == multiset(Taking(e, ev)) + multiset(t);
      assert multiset(Arrived(evs)) == multiset(Arriving(ev)) + multiset(a);
    }
  }

  // ---------- every read returns a prefix of what was sent ----------

  // data is what was sent from some offset on.
  predicate IsAt(data: bytes, sent: bytes, offset: nat) {
    offset + |data| <= |sent| && sent[offset..offset + |data|] == data
  }

  predicate SliceOf(f: Fragment, sent: bytes) {
    IsAt(f.data, sent, f.offset)
  }

  ghost predicate AllSlices(s: seq<Fragment>, sent: bytes) {
    forall f | f in s :: SliceOf(f, sent)
  }

  lemma NothingIsAt(sent: bytes, offset: nat)
    requires offset <= |sent|
    ensures IsAt([], sent, offset)
  {
  }

  lemma JoinSlices(a: bytes, b: bytes, sent: bytes, offset: nat)
    requires IsAt(a, sent, offset) && IsAt(b, sent, offset + |a|)
    ensures IsAt(a + b, sent, offset)
  {
  }

  // The first fragment of a walk, and what it then reads.
  lemma WalkTurn(s: seq<Fragment>, expected: u32, got: nat, maxLen: nat)
    requires Walk(s, expected, got, maxLen) > 0
    ensures s[0].offset == expected
    ensures var k, more := Walk(s, expected, got, maxLen), Next(expected, s[0].data);
            k == (if got + |s[0].data| >= maxLen then 1 else 1 + Walk(s[1..], more, got + |s[0].data|, maxLen))
            && Concat(s[..k]) == s[0].data + Concat(s[1..][..k - 1])
  {
    var k := Walk(s, expected, got, maxLen);
    assert s[..k][1..] == s[1..][..k - 1];
  }

  lemma SlicesOf(s: seq<Fragment>, sent: bytes)
    requires s != [] && AllSlices(s, sent)
    ensures IsAt(s[0].data, sent, s[0].offset) && s[0].offset + |s[0].data| <= |sent| && AllSlices(s[1..], sent)
  {
    assert s[0] in s && SliceOf(s[0], sent);
  }

  lemma {:induction false} WalkReadsSlices(s: seq<Fragment>, expected: u32, got: nat, maxLen: nat, sent: bytes)
    requires AllSlices(s, sent) && expected <= |sent| < U32
    ensures IsAt(Concat(s[..Walk(s, expected, got, maxLen)]), sent, expected)
  {
    var k := Walk(s, expected, got, maxLen);
    NothingRead();
    if k == 0 {
      assert s[..0] == [];
    } else {
      var f, rest := s[0], s[1..];
      SlicesOf(s, sent);
      assert s[0].offset == expected;
      assert Next(expected, f.data) == expected + |f.data|;
      hide Walk, Concat, Next, IsAt, AllSlices;
      WalkTurn(s, expected, got, maxLen);
      if got + |f.data| >= maxLen {
        assert rest[..k - 1] == [];
        NothingIsAt(sent, expected + |f.data|);
      } else {
        WalkReadsSlices(rest, expected + |f.data|, got + |f.data|, maxLen, sent);
      }
      JoinSlices(f.data, Concat(rest[..k - 1]), sent, expected);
    }
  }

  lemma NothingRead()
    ensures Concat([]) == []
  {
  }

  lemma ReadReturnsPrefix(state: StreamState, buf: seq<Fragment>, maxLen: nat, sent: bytes)
    requires AllSlices(buf, sent) && |sent| < U32
    ensures var r := ReadBuffer(state, buf, maxLen);
            AllSlices(r.kept, sent) && (r.result.Ok? ==> r.result.value <= sent)
  {
    if buf != [] {
      var s := StableSort(buf);
      StableSortSorts(buf);
      forall f | f in s ensures SliceOf(f, sent) {
        assert f in multiset(buf);
      }
      WalkReadsSlices(s, 0, 0, maxLen, sent);
    }
  }

  lemma {:induction false} ReadsArePrefixes(e: Endpoint, evs: seq<Event>, sent: bytes)
    requires AllSlices(e.buf, sent) && AllSlices(Arrived(evs), sent) && |sent| < U32
    ensures forall d | d in Outputs(e, evs) :: d <= sent
    decreases |evs|
  {
    if evs != [] {
      var ev, rest, next := evs[0], evs[1..], Step(e, evs[0]);
      assert Arrived(evs) == Arriving(ev) + Arrived(rest);
      assert Outputs(e, evs) == [Output(e, ev)] + Outputs(next, rest);
      if ev.Read? {
        ReadReturnsPrefix(e.state, e.buf, ev.maxLen, sent);
      }
      assert AllSlices(next.buf, sent) && Output(e, ev) <= sent;
      hide Outputs, Output, Step, Arrived;
      ReadsArePrefixes(next, rest, sent);
    }
  }

  // ---------- how often a read can deliver anything ----------

  lemma NothingAt(o: u32)
    ensures At([], o) == []
  {
  }

  lemma {:induction false} AtConcat(a: seq<Fragment>, b: seq<Fragment>, o: u32)
    ensures At(a + b, o) == At(a, o) + At(b, o)
  {
    hide At;
    if b == [] {
      NothingAt(o);
      assert a + b == a && At(a, o) + [] == At(a, o);
    } else {
      var init, last := b[..|b| - 1], b[|b| - 1];
      var tail := if last.offset == o then [last] else [];
      assert b == init + [last];
      AtConcat(a, init, o);
      AtAppend(a + init, last, o);
      AtAppend(init, last, o);
      Regroup(a, init, [last]);
      Regroup(At(a, o), At(init, o), tail);
    }
  }

  function NonEmpty(outputs: seq<bytes>): nat {
    if outputs == [] then 0 else (if outputs[0] == [] then 0 else 1) + NonEmpty(outputs[1..])
  }

  lemma WalkStarts(s: seq<Fragment>, maxLen: nat)
    ensures Walk(s, 0, 0, maxLen) == 0 ==> Concat(s[..0]) == []
    ensures Walk(s, 0, 0, maxLen) > 0 ==> s[0].offset == 0
  {
  }

  // A read that returns data uses up a fragment at offset 0.
  lemma ReadUsesAStart(state: StreamState, buf: seq<Fragment>, maxLen: nat)
    ensures var r := ReadBuffer(state, buf, maxLen);
            |At(r.kept, 0)| + (if r.result.Ok? && r.result.value != [] then 1 else 0) <= |At(buf, 0)|
  {
    if buf != [] {
      var s := StableSort(buf);
      var k := Walk(s, 0, 0, maxLen);
      WalkStarts(s, maxLen);
      StableSortIsStable(buf, 0);
      SplitStarts(s, k);
    }
  }

  lemma SplitStarts(s: seq<Fragment>, k: nat)
    requires k <= |s|
    ensures |At(s, 0)| == |At(s[..k], 0)| + |At(s[k..], 0)|
    ensures k > 0 && s[0].offset == 0 ==> |At(s[..k], 0)| > 0
  {
    hide At;
    AtConcat(s[..k], s[k..], 0);
    assert s == s[..k] + s[k..];
    if k > 0 {
      AtConcat([s[0]], s[1..k], 0);
      assert s[..k] == [s[0]] + s[1..k];
      AtAppend([], s[0], 0);
      assert [] + [s[0]] == [s[0]];
    }
  }

  lemma StepNeedsStart(e: Endpoint, ev: Event)
    ensures (if Output(e, ev) == [] then 0 else 1) + |At(Step(e, ev).buf, 0)|
         <= |At(e.buf, 0)| + |At(Arriving(ev), 0)|
  {
    match ev
    case Arrive(f) => AtConcat(e.buf, [f], 0);
    case Read(maxLen) => ReadUsesAStart(e.state, e.buf, maxLen);
    case _ =>
  }

  lemma {:induction false} DeliveriesNeedStarts(e: Endpoint, evs: seq<Event>)
    ensures NonEmpty(Outputs(e, evs)) + |At(Run(e, evs).buf, 0)| <= |At(e.buf, 0)| + |At(Arrived(evs), 0)|
    decreases |evs|
  {
    if evs != [] {
      var ev, rest, next := evs[0], evs[1..], Step(e, evs[0]);
      assert Arrived(evs) == Arriving(ev) + Arrived(rest);
      assert Outputs(e, evs)[0] == Output(e, ev) && Outputs(e, evs)[1..] == Outputs(next, rest);
      assert NonEmpty(Outputs(e, evs)) == (if Output(e, ev) == [] then 0 else 1) + NonEmpty(Outputs(next, rest));
      assert Run(e, evs) == Run(next, rest);
      hide *;
      AtConcat(Arriving(ev), Arrived(rest), 0);
      StepNeedsStart(e, ev);
      DeliveriesNeedStarts(next, rest);
    }
  }

  function Flatten(outputs: seq<bytes>): bytes {
    if outputs == [] then [] else outputs[0] + Flatten(outputs[1..])
  }

  lemma {:induction false} FewDeliveries(outputs: seq<bytes>, sent: bytes)
    requires NonEmpty(outputs) <= 1
    requires forall d | d in outputs :: d <= sent
    ensures Flatten(outputs) <= sent
    ensures NonEmpty(outputs) == 0 ==> Flatten(outputs) == []
  {
    if outputs != [] {
      assert outputs[0] in outputs && forall d | d in outputs[1..] :: d in outputs;
      FewDeliveries(outputs[1..], sent);
      assert outputs[0] + [] == outputs[0];
    }
  }

  // When the stream's first byte arrives once (in particular, when the
  // fragments are disjoint and not empty), at most one read of the whole run
  // returns data, and everything read, put together, is a prefix of what was sent.
  lemma ReadsTogetherArePrefix(e: Endpoint, evs: seq<Event>, sent: bytes)
    requires AllSlices(e.buf, sent) && AllSlices(Arrived(evs), sent) && |sent| < U32
    requires |At(e.buf, 0)| + |At(Arrived(evs), 0)| <= 1
    ensures NonEmpty(Outputs(e, evs)) <= 1
    ensures Flatten(Outputs(e, evs)) <= sent
  {
    ReadsArePrefixes(e, evs, sent);
    DeliveriesNeedStarts(e, evs);
    FewDeliveries(Outputs(e, evs), sent);
  }

  ghost predicate DisjointNonEmpty(s: seq<Fragment>) {
    && (forall i | 0 <= i < |s| :: s[i].data != [])
    && (forall i, j | 0 <= i < j < |s| ::
          s[i].offset + |s[i].data| <= s[j].offset || s[j].offset + |s[j].data| <= s[i].offset)
  }

  lemma {:induction false} DisjointHaveOneStart(s: seq<Fragment>)
    requires DisjointNonEmpty(s)
    ensures |At(s, 0)| <= 1
  {
    if s != [] {
      var init, last := s[..|s| - 1], s[|s| - 1];
      DisjointHaveOneStart(init);
      AtMember(init, 0);
      if i :| 0 <= i < |init| && init[i].offset == 0 {
        assert s[i].offset == 0 && s[i].data != [] && s[|s| - 1].data != [];
        assert last.offset != 0;
      }
    }
  }

  lemma DisjointReadsArePrefix(state: StreamState, evs: seq<Event>, sent: bytes)
    requires AllSlices(Arrived(evs), sent) && DisjointNonEmpty(Arrived(evs)) && |sent| < U32
    ensures Flatten(Outputs(Endpoint(state, []), evs)) <= sent
  {
    DisjointHaveOneStart(Arrived(evs));
    ReadsTogetherArePrefix(Endpoint(state, []), evs, sent);
  }

  // Reading does not go on from where the last read stopped: whatever arrives
  // later, no read returns another byte unless offset 0 arrives again.
  lemma NothingAfterTheStart(e: Endpoint, evs: seq<Event>)
    requires At(e.buf, 0) == [] && At(Arrived(evs), 0) == []
    ensures NonEmpty(Outputs(e, evs)) == 0
  {
    DeliveriesNeedStarts(e, evs);
  }

  lemma FirstAtZero(s: seq<Fragment>)
    requires Sorted(s)
    ensures At(s, 0) != [] ==> s[0].offset == 0
    ensures s != [] && s[0].offset == 0 ==> At(s, 0) == [s[0]] + At(s[1..], 0)
  {
    AtMember(s, 0);
    hide At;
    if s != [] {
      AtConcat([s[0]], s[1..], 0);
      assert s == [s[0]] + s[1..];
      AtAppend([], s[0], 0);
      assert [] + [s[0]] == [s[0]];
      if s[0].offset == 0 {
        NothingAt(0);
        assert [] + [s[0]] + At(s[1..], 0) == [s[0]] + At(s[1..], 0);
      }
    }
  }

  ghost predicate HoldsStart(s: seq<Fragment>) {
    exists f | f in s :: f.offset == 0 && f.data != []
  }

  lemma {:induction false} WalkDelivers(s: seq<Fragment>, maxLen: nat)
    requires Sorted(s) && maxLen > 0
    ensures Concat(s[..Walk(s, 0, 0, maxLen)]) != [] <==> HoldsStart(s)
  {
    var k := Walk(s, 0, 0, maxLen);
    if s != [] && s[0].offset == 0 {
      assert s[..k][0] == s[0] && s[..k][1..] == s[1..k];
      if s[0].data == [] {
        WalkDelivers(s[1..], maxLen);
        assert k == 1 + Walk(s[1..], 0, 0, maxLen) && s[1..][..k - 1] == s[1..k];
        assert forall f :: f in s <==> f == s[0] || f in s[1..];
      } else {
        assert s[0] in s;
      }
    }
  }

  // When a read returns data: if it has any room, exactly when a fragment at
  // offset 0 that is not empty is held; without room it takes a single fragment,
  // and it depends on the first to have arrived at offset 0.
  lemma ReadDeliversIff(state: StreamState, buf: seq<Fragment>, maxLen: nat)
    ensures var r := ReadBuffer(state, buf, maxLen).result;
            r.Ok? && r.value != []
            <==> if maxLen > 0 then HoldsStart(buf) else At(buf, 0) != [] && At(buf, 0)[0].data != []
  {
    if buf == [] {
    } else {
      var s := StableSort(buf);
      StableSortSorts(buf);
      if maxLen > 0 {
        WalkDelivers(s, maxLen);
        SameMembers(s, buf);
      } else {
        StableSortIsStable(buf, 0);
        FirstAtZero(s);
        TakesOne(s);
      }
    }
  }

  lemma SameMembers(a: seq<Fragment>, b: seq<Fragment>)
    requires multiset(a) == multiset(b)
    ensures HoldsStart(a) <==> HoldsStart(b)
  {
    assert forall f :: f in a <==> f in multiset(a);
    assert forall f :: f in b <==> f in multiset(b);
  }

  lemma TakesOne(s: seq<Fragment>)
    requires s != []
    ensures s[0].offset == 0 ==> Walk(s, 0, 0, 0) == 1 && Concat(s[..1]) == s[0].data
    ensures s[0].offset != 0 ==> Walk(s, 0, 0, 0) == 0 && Concat(s[..0]) == []
  {
    assert s[..1][1..] == [];
    assert s[0].data + [] == s[0].data;
  }

  lemma TwoAtZero(s: seq<Fragment>)
    requires Sorted(s) && |At(s, 0)| >= 2
    ensures |s| >= 2 && s[0].offset == 0 && s[1].offset == 0 && At(s, 0)[0] == s[0]
  {
    NothingAt(0);
    hide At;
    var rest := s[1..];
    FirstAtZero(s);
    FirstAtZero(rest);
    assert rest != [];
    assert rest[0] == s[1];
  }

  lemma WalkStopsAtSecond(s: seq<Fragment>, maxLen: nat)
    requires |s| >= 2 && s[0].offset == 0 && s[1].offset == 0 && 0 < |s[0].data| < U32
    ensures Walk(s, 0, 0, maxLen) == 1 && s[..1] == [s[0]] && Concat([s[0]]) == s[0].data
  {
    assert s[1..][0] == s[1] && Next(0, s[0].data) == |s[0].data|;
    assert [s[0]][1..] == [] && Concat([]) == [];
  }

  // Two fragments at offset 0 stop a read after the first to have arrived.
  lemma SecondStartStops(state: StreamState, buf: seq<Fragment>, maxLen: nat)
    requires |At(buf, 0)| >= 2 && 0 < |At(buf, 0)[0].data| < U32
    ensures ReadBuffer(state, buf, maxLen).result == Ok(At(buf, 0)[0].data)
    ensures ReadBuffer(state, buf, maxLen).taken == [At(buf, 0)[0]]
  {
    assert buf != [];
    hide At, StableSort, Walk, Concat;
    StableSortSorts(buf);
    StableSortIsStable(buf, 0);
    TwoAtZero(StableSort(buf));
    WalkStopsAtSecond(StableSort(buf), maxLen);
  }

  lemma FlattenStep(e: Endpoint, evs: seq<Event>)
    requires evs != []
    ensures Flatten(Outputs(e, evs)) == Output(e, evs[0]) + Flatten(Outputs(Step(e, evs[0]), evs[1..]))
    ensures Arrived(evs) == Arriving(evs[0]) + Arrived(evs[1..])
  {
    hide Output, Step;
    assert Outputs(e, evs)[1..] == Outputs(Step(e, evs[0]), evs[1..]);
  }

  lemma ArrivalIsSilent(e: Endpoint, evs: seq<Event>)
    requires evs != [] && evs[0].Arrive?
    ensures Flatten(Outputs(e, evs)) == Flatten(Outputs(e.(buf := e.buf + [evs[0].fragment]), evs[1..]))
    ensures Arrived(evs) == [evs[0].fragment] + Arrived(evs[1..])
  {
    FlattenStep(e, evs);
    hide Flatten, Outputs, Arrived;
    NothingBefore(Flatten(Outputs(Step(e, evs[0]), evs[1..])));
  }

  lemma LoneRead(f: Fragment, evs: seq<Event>)
    requires f.data != [] && evs != [] && evs[0].Read?
    ensures Flatten(Outputs(Endpoint(Open, [f]), evs))
         == if f.offset == 0 then f.data + Flatten(Outputs(Endpoint(Open, []), evs[1..]))
            else Flatten(Outputs(Endpoint(Open, [f]), evs[1..]))
    ensures Arrived(evs) == Arrived(evs[1..])
  {
    FlattenStep(Endpoint(Open, [f]), evs);
    ReadsAlone(Open, f, evs[0].maxLen);
    hide Flatten, Outputs, Arrived, ReadBuffer;
    NothingBefore(Flatten(Outputs(Endpoint(Open, [f]), evs[1..])));
    NothingBefore(Arrived(evs[1..]));
  }

  // All of the data arrives, in order, and is read after each arrival: what was
  // read with the first part is all that comes out.
  lemma EarlyReadLosesTheRest(a: bytes, b: bytes, room: nat)
    requires a != [] && b != [] && |a| + |b| < U32
    ensures var evs := [Arrive(Fragment(0, a)), Read(room), Arrive(Fragment(|a|, b)), Read(room)];
            && Arrived(evs) == [Fragment(0, a), Fragment(|a|, b)]
            && Flatten(Outputs(Endpoint(Open, []), evs)) == a < a + b
  {
    var f, g := Fragment(0, a), Fragment(|a|, b);
    var evs := [Arrive(f), Read(room), Arrive(g), Read(room)];
    NothingLeft(Endpoint(Open, [g]));
    hide *;
    var after1, after2, after3 := evs[1..], evs[2..], evs[3..];
    assert after1[1..] == after2 && after2[1..] == after3 && after3[1..] == [];
    NothingBefore([f]);
    NothingBefore([g]);
    ArrivalIsSilent(Endpoint(Open, []), evs);
    LoneRead(f, after1);
    ArrivalIsSilent(Endpoint(Open, []), after2);
    LoneRead(g, after3);
    assert a + [] == a && [f] + [g] == [f, g] && [g] + [] == [g];
  }

  lemma NothingLeft(e: Endpoint)
    ensures Flatten(Outputs(e, [])) == [] && Arrived([]) == []
  {
  }

  lemma ReadsAlone(state: StreamState, f: Fragment, room: nat)
    requires f.data != []
    ensures f.offset == 0 ==> ReadBuffer(state, [f], room) == ReadOutcome(Ok(f.data), [f], [])
    ensures f.offset != 0 ==> ReadBuffer(state, [f], room) == ReadOutcome(Ok([]), [], [f])
  {
    assert [f][..0] == [] && StableSort([f]) == [f];
    assert [f][1..] == [] && [f][..1] == [f] && [f][0..] == [f];
    assert Concat([f]) == f.data + [] == f.data;
  }
}
