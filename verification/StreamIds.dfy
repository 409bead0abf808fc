// The stream ids that a client and a server hand out over whole runs of opens,
// announcements and closes on both sides.
module StreamIds {
  import opened Bytes
  import opened Framing
  import opened Streams
  import opened StreamManagers

  // ---------- two endpoints ----------

  // One endpoint of a connection: its table, the ids it has issued, in order,
  // and which of the peer's ids (by number) it has been told of.
  datatype Endpoint = Endpoint(table: Table, issued: seq<u32>, heard: set<nat>)

  datatype System = System(client: Endpoint, server: Endpoint)

  // Hear(k): the announcement of the peer's k-th id arrives; each arrives once.
  datatype Action = OpenOne | Hear(k: nat) | CloseWrite(id: u32) | Close(id: u32) | Shutdown(id: u32)

  datatype Event = Event(atClient: bool, action: Action)

  function Start(maxClient: u32, maxServer: u32): System {
    System(Endpoint(NewTable(true, maxClient), [], {}), Endpoint(NewTable(false, maxServer), [], {}))
  }

  predicate CanHear(e: Endpoint, peer: Endpoint, k: nat) {
    k < |peer.issued| && k !in e.heard
  }

  function Act(e: Endpoint, peer: Endpoint, a: Action): Endpoint {
    match a
    case OpenOne =>
      var (t, r) := e.table.OpenNext();
      e.(table := t, issued := e.issued + if r.Ok? then [r.value] else [])
    case Hear(k) =>
      if CanHear(e, peer, k) then e.(table := e.table.Accept(peer.issued[k]).0, heard := e.heard + {k})
      else e
    case CloseWrite(id) =>
      if id in e.table.streams then
        e.(table := e.table.(streams := e.table.streams[id := e.table.streams[id].CloseWrite()]))
      else e
    case Close(id) => e.(table := e.table.CloseOne(id).0)
    case Shutdown(id) => e.(table := e.table.ShutdownOne(id).0)
  }

  function Step(s: System, ev: Event): System {
    if ev.atClient then s.(client := Act(s.client, s.server, ev.action))
    else s.(server := Act(s.server, s.client, ev.action))
  }

  function Run(s: System, evs: seq<Event>): System
    decreases |evs|
  {
    if evs == [] then s else Run(Step(s, evs[0]), evs[1..])
  }

  // The k-th id, counted from 0, of a client or a server.
  function NthId(client: bool, k: nat): nat {
    if client then 2 * k + 2 else 2 * k + 1
  }

  // The number of an id among those of the side that issues it.
  function NumberOf(id: u32): int {
    if id % 2 == 0 then id / 2 - 1 else id / 2
  }

  lemma NthIds(client: bool, k: nat)
    requires NthId(client, k) < U32
    ensures NumberOf(NthId(client, k)) == k
    ensures (NthId(client, k) % 2 == 0) == client
  {
  }

  // The counter of a side that has issued n ids after at most `opens` attempts.
  predicate CounterOk(t: Table, client: bool, n: nat, opens: nat) {
    && t.isClient == client
    && (t.NextId() == NthId(client, n) || (NthId(client, n) > MAX_STREAM_ID && t.NextId() > MAX_STREAM_ID))
    && t.NextId() <= 2 + 2 * opens
  }

  ghost predicate IssuedOk(issued: seq<u32>, client: bool) {
    forall k | 0 <= k < |issued| :: issued[k] == NthId(client, k) <= MAX_STREAM_ID
  }

  // Every live stream was issued here or heard of from the peer.
  ghost predicate LiveOk(streams: map<u32, StreamState>, client: bool, n: nat, heard: set<nat>) {
    forall id | id in streams ::
      if (id % 2 == 0) == client then NumberOf(id) < n else NumberOf(id) in heard
  }

  // What is known of an endpoint after at most `opens` attempts to open.
  ghost predicate Orderly(e: Endpoint, client: bool, opens: nat) {
    && CounterOk(e.table, client, |e.issued|, opens)
    && IssuedOk(e.issued, client)
    && LiveOk(e.table.streams, client, |e.issued|, e.heard)
  }

  lemma IssueNext(issued: seq<u32>, streams: map<u32, StreamState>, client: bool, heard: set<nat>)
    requires IssuedOk(issued, client) && LiveOk(streams, client, |issued|, heard)
    requires NthId(client, |issued|) <= MAX_STREAM_ID
    ensures var id := NthId(client, |issued|);
            IssuedOk(issued + [id], client) && LiveOk(streams[id := Open], client, |issued| + 1, heard)
  {
    NthIds(client, |issued|);
  }

  lemma OpenKeepsOrder(e: Endpoint, peer: Endpoint, client: bool, opens: nat)
    requires Orderly(e, client, opens) && 4 + 2 * opens < U32
    ensures Orderly(Act(e, peer, OpenOne), client, opens + 1)
  {
    hide IssuedOk, LiveOk;
    var (t, r) := e.table.OpenNext();
    if r.Ok? {
      IssueNext(e.issued, e.table.streams, client, e.heard);
    } else {
      assert e.issued + [] == e.issued;
    }
  }

  // Only attempts to open move the counter.
  lemma ActKeepsOrder(e: Endpoint, peer: Endpoint, client: bool, opens: nat, peerOpens: nat, a: Action)
    requires Orderly(e, client, opens) && Orderly(peer, !client, peerOpens)
    requires a.OpenOne? ==> 4 + 2 * opens < U32
    ensures Orderly(Act(e, peer, a), client, opens + if a.OpenOne? then 1 else 0)
  {
    match a
    case OpenOne => OpenKeepsOrder(e, peer, client, opens);
    case Hear(k) =>
      if CanHear(e, peer, k) {
        assert peer.issued[k] == NthId(!client, k);
        NthIds(!client, k);
      }
    case _ =>
  }

  // ---------- the limit on streams ----------

  // The live streams that a side opened itself.
  ghost function Own(streams: map<u32, StreamState>, client: bool): set<u32> {
    set id | id in streams && (id % 2 == 0) == client
  }

  ghost predicate Limited(e: Endpoint, client: bool, limit: u32) {
    && e.table.maxStreams == limit
    && |Own(e.table.streams, client)| <= limit
    && Live(e.table.streams)
  }

  // No stream in a table is idle.
  ghost predicate Live(streams: map<u32, StreamState>) {
    forall id | id in streams :: !streams[id].Idle?
  }

  lemma Subset(a: set<u32>, b: set<u32>)
    requires a <= b
    ensures |a| <= |b|
  {
    assert |b| == |a| + |b - a| by {
      assert b == a + (b - a);
    }
  }

  lemma FewerOwn(before: map<u32, StreamState>, after: map<u32, StreamState>, client: bool)
    requires forall id | id in after && (id % 2 == 0) == client :: id in before
    ensures |Own(after, client)| <= |Own(before, client)|
  {
    assert Own(after, client) <= Own(before, client);
    Subset(Own(after, client), Own(before, client));
  }

  lemma OpenKeepsLimit(e: Endpoint, peer: Endpoint, client: bool, limit: u32)
    requires Limited(e, client, limit)
    ensures Limited(Act(e, peer, OpenOne), client, limit)
  {
    var (t, r) := e.table.OpenNext();
    if r.Ok? {
      var before, after := e.table.streams, t.streams;
      Subset(Own(before, client), before.Keys);
      assert |before.Keys| == |before|;
      assert Own(after, client) <= Own(before, client) + {r.value};
      Subset(Own(after, client), Own(before, client) + {r.value});
    }
  }

  lemma ActKeepsLimit(e: Endpoint, peer: Endpoint, client: bool, peerOpens: nat, limit: u32, a: Action)
    requires Limited(e, client, limit) && Orderly(peer, !client, peerOpens)
    ensures Limited(Act(e, peer, a), client, limit)
  {
    var before, after := e.table.streams, Act(e, peer, a).table.streams;
    match a
    case OpenOne => OpenKeepsLimit(e, peer, client, limit);
    case Hear(k) =>
      if CanHear(e, peer, k) {
        assert peer.issued[k] == NthId(!client, k);
        NthIds(!client, k);
      }
      FewerOwn(before, after, client);
    case _ => FewerOwn(before, after, client);
  }

  ghost predicate SystemOk(s: System, clientOpens: nat, serverOpens: nat, maxClient: u32, maxServer: u32) {
    && Orderly(s.client, true, clientOpens) && Orderly(s.server, false, serverOpens)
    && Limited(s.client, true, maxClient) && Limited(s.server, false, maxServer)
  }

  // ---------- runs ----------

  // How often a side tries to open a stream.
  function Opens(evs: seq<Event>, client: bool): nat {
    if evs == [] then 0
    else (if evs[0].atClient == client && evs[0].action.OpenOne? then 1 else 0) + Opens(evs[1..], client)
  }

  lemma FirstOpens(evs: seq<Event>, client: bool)
    requires evs != []
    ensures Opens(evs, client) == Opens([evs[0]], client) + Opens(evs[1..], client)
  {
    assert [evs[0]][1..] == [] && Opens([], client) == 0;
  }

  lemma StepKeepsOrder(s: System, ev: Event, clientOpens: nat, serverOpens: nat, maxClient: u32, maxServer: u32)
    requires SystemOk(s, clientOpens, serverOpens, maxClient, maxServer)
    requires 2 + 2 * (clientOpens + Opens([ev], true)) < U32 && 2 + 2 * (serverOpens + Opens([ev], false)) < U32
    ensures SystemOk(Step(s, ev), clientOpens + Opens([ev], true), serverOpens + Opens([ev], false), maxClient, maxServer)
  {
    hide Orderly, Act, Limited;
    assert [ev][1..] == [] && Opens([], true) == 0 && Opens([], false) == 0;
    if ev.atClient {
      ActKeepsOrder(s.client, s.server, true, clientOpens, serverOpens, ev.action);
      ActKeepsLimit(s.client, s.server, true, serverOpens, maxClient, ev.action);
    } else {
      ActKeepsOrder(s.server, s.client, false, serverOpens, clientOpens, ev.action);
      ActKeepsLimit(s.server, s.client, false, clientOpens, maxServer, ev.action);
    }
  }

  lemma {:induction false} RunsAreOrderly(
    s: System, evs: seq<Event>, clientOpens: nat, serverOpens: nat, maxClient: u32, maxServer: u32)
    requires SystemOk(s, clientOpens, serverOpens, maxClient, maxServer)
    requires 2 + 2 * (clientOpens + Opens(evs, true)) < U32 && 2 + 2 * (serverOpens + Opens(evs, false)) < U32
    ensures SystemOk(Run(s, evs), clientOpens + Opens(evs, true), serverOpens + Opens(evs, false), maxClient, maxServer)
    decreases |evs|
  {
    hide SystemOk, Step;
    if evs == [] {
      assert Run(s, evs) == s && Opens(evs, true) == 0 && Opens(evs, false) == 0;
    } else {
      assert Run(s, evs) == Run(Step(s, evs[0]), evs[1..]);
      FirstOpens(evs, true);
      FirstOpens(evs, false);
      hide Run, Opens;
      StepKeepsOrder(s, evs[0], clientOpens, serverOpens, maxClient, maxServer);
      RunsAreOrderly(Step(s, evs[0]), evs[1..],
                     clientOpens + Opens([evs[0]], true), serverOpens + Opens([evs[0]], false), maxClient, maxServer);
    }
  }

  // The runs the theorems are about: no 32-bit counter wraps in them.
  predicate CountersHold(evs: seq<Event>) {
    2 + 2 * Opens(evs, true) < U32 && 2 + 2 * Opens(evs, false) < U32
  }

  lemma Reached(maxClient: u32, maxServer: u32, evs: seq<Event>)
    requires CountersHold(evs)
    ensures SystemOk(Run(Start(maxClient, maxServer), evs), Opens(evs, true), Opens(evs, false), maxClient, maxServer)
  {
    hide SystemOk, Run, Start, Opens;
    StartsInOrder(maxClient, maxServer);
    RunsAreOrderly(Start(maxClient, maxServer), evs, 0, 0, maxClient, maxServer);
  }

  lemma StartsInOrder(maxClient: u32, maxServer: u32)
    ensures SystemOk(Start(maxClient, maxServer), 0, 0, maxClient, maxServer)
  {
    assert Own(map[], true) == {} && Own(map[], false) == {};
  }

  function Side(s: System, client: bool): Endpoint {
    if client then s.client else s.server
  }

  // What is known of either side after a run.
  lemma SideReached(maxClient: u32, maxServer: u32, evs: seq<Event>, client: bool)
    requires CountersHold(evs)
    ensures var s := Run(Start(maxClient, maxServer), evs);
            && Orderly(Side(s, client), client, Opens(evs, client))
            && Orderly(Side(s, !client), !client, Opens(evs, !client))
            && Limited(Side(s, client), client, if client then maxClient else maxServer)
  {
    hide Run, Start, Opens, Orderly, Limited;
    Reached(maxClient, maxServer, evs);
  }

  // After any run: the ids each side has issued are 2, 4, 6, ... at the client
  // and 1, 3, 5, ... at the server, so none is issued twice or by both; a successful open hands out the next one, which no
  // live stream has; and every announcement that arrives is accepted, under an
  // id no live stream has, as an open stream.
  lemma IdsNeverCollide(maxClient: u32, maxServer: u32, evs: seq<Event>)
    requires CountersHold(evs)
    ensures var s := Run(Start(maxClient, maxServer), evs);
            && (forall k | 0 <= k < |s.client.issued| :: s.client.issued[k] == 2 * (k + 1))
            && (forall k | 0 <= k < |s.server.issued| :: s.server.issued[k] == 2 * (k + 1) - 1)
            && SafeEndpoint(s.client, s.server) && SafeEndpoint(s.server, s.client)
  {
    var s := Run(Start(maxClient, maxServer), evs);
    hide Run, Start, Opens, SafeEndpoint, Orderly, Limited;
    SideReached(maxClient, maxServer, evs, true);
    SideReached(maxClient, maxServer, evs, false);
    OrderlyIsSafe(s.client, s.server, true, Opens(evs, true), Opens(evs, false));
    OrderlyIsSafe(s.server, s.client, false, Opens(evs, false), Opens(evs, true));
  }

  ghost predicate SafeEndpoint(e: Endpoint, peer: Endpoint) {
    && (e.table.OpenNext().1.Ok? ==> FreshId(e.table.OpenNext().1.value, e, peer))
    && (forall k: nat | CanHear(e, peer, k) :: Accepted(peer.issued[k], e.table))
  }

  predicate Accepted(id: u32, table: Table) {
    var (t, r) := table.Accept(id);
    r.Ok? && id !in table.streams && t == table.(streams := table.streams[id := Open])
  }

  ghost predicate FreshId(id: u32, e: Endpoint, peer: Endpoint) {
    && id == NthId(e.table.isClient, |e.issued|)
    && id !in e.table.streams && id !in e.issued && id !in peer.issued
  }

  lemma OrderlyIsSafe(e: Endpoint, peer: Endpoint, client: bool, opens: nat, peerOpens: nat)
    requires Orderly(e, client, opens) && Orderly(peer, !client, peerOpens)
    ensures SafeEndpoint(e, peer) && IssuedOk(e.issued, client)
  {
    forall k: nat | CanHear(e, peer, k) ensures Accepted(peer.issued[k], e.table) {
      assert peer.issued[k] == NthId(!client, k);
      NthIds(!client, k);
    }
    if e.table.OpenNext().1.Ok? {
      var id := e.table.NextId();
      NthIds(client, |e.issued|);
      forall k | 0 <= k < |e.issued| ensures e.issued[k] != id {
        assert e.issued[k] == NthId(client, k);
      }
      forall k | 0 <= k < |peer.issued| ensures peer.issued[k] != id {
        assert peer.issued[k] == NthId(!client, k);
        NthIds(!client, k);
      }
    }
  }

  // Whether a side with these ids issued and these streams live may open another.
  predicate MayOpen(e: Endpoint, client: bool, limit: u32) {
    |e.table.streams| < limit && (if client then 2 * (|e.issued| + 1) else 2 * |e.issued| + 1) <= 0x3FFFF
  }

  // The 32-bit counter moves on unless the table is full.
  function Counted(e: Endpoint, limit: u32): u32 {
    if |e.table.streams| < limit then (e.table.NextId() + 2) % 0x1_0000_0000 else e.table.NextId()
  }

  // After any run, an attempt to open hands out the next id of its side, as an
  // open stream, if and only if fewer streams than the limit are in the table and
  // that id fits in 18 bits; otherwise no stream and no issued id changes. The
  // other side never does. An attempt beyond the ids still counts.
  lemma OpensIff(maxClient: u32, maxServer: u32, evs: seq<Event>, client: bool)
    requires CountersHold(evs)
    ensures var s := Run(Start(maxClient, maxServer), evs);
            var t := Step(s, Event(client, OpenOne));
            var before, after := Side(s, client), Side(t, client);
            var id := if client then 2 * (|before.issued| + 1) else 2 * |before.issued| + 1;
            && Side(t, !client) == Side(s, !client) && after.heard == before.heard
            && after.table.NextId() == Counted(before, if client then maxClient else maxServer)
            && if MayOpen(before, client, if client then maxClient else maxServer) then
                 after.issued == before.issued + [id]
                 && after.table.streams == before.table.streams[id := Open]
               else
                 after.issued == before.issued && after.table.streams == before.table.streams
  {
    var s := Run(Start(maxClient, maxServer), evs);
    hide Run, Start, Opens, Orderly, Limited, Act, MayOpen;
    SideReached(maxClient, maxServer, evs, client);
    OpenNextIff(Side(s, client), Side(s, !client), client, Opens(evs, client), if client then maxClient else maxServer);
  }

  lemma OpenNextIff(e: Endpoint, peer: Endpoint, client: bool, opens: nat, limit: u32)
    requires Orderly(e, client, opens) && Limited(e, client, limit)
    ensures var after := Act(e, peer, OpenOne);
            && after.heard == e.heard && after.table.NextId() == Counted(e, limit)
            && if MayOpen(e, client, limit) then
                 after.issued == e.issued + [NthId(client, |e.issued|)]
                 && after.table.streams == e.table.streams[NthId(client, |e.issued|) := Open]
               else after.issued == e.issued && after.table.streams == e.table.streams
  {
    hide Own, Live, LiveOk, IssuedOk;
    var (t, r) := e.table.OpenNext();
    assert r.Ok? <==> MayOpen(e, client, limit);
    if !r.Ok? {
      assert e.issued + [] == e.issued;
    }
  }

  // Whether an announcement reaches this side.
  predicate Hears(evs: seq<Event>, client: bool) {
    exists i | 0 <= i < |evs| :: evs[i].atClient == client && evs[i].action.Hear?
  }

  lemma {:induction false} UnheardStaysUnheard(s: System, evs: seq<Event>, client: bool)
    requires !Hears(evs, client)
    ensures Side(Run(s, evs), client).heard == Side(s, client).heard
    decreases |evs|
  {
    if evs != [] {
      assert !(evs[0].atClient == client && evs[0].action.Hear?);
      forall i | 0 <= i < |evs[1..]| ensures !(evs[1..][i].atClient == client && evs[1..][i].action.Hear?) {
        assert evs[1..][i] == evs[i + 1];
      }
      UnheardStaysUnheard(Step(s, evs[0]), evs[1..], client);
    }
  }

  // After any run, a table holds at most as many streams that its own side opened
  // as the limit says; so one that has accepted nothing holds no more than that.
  lemma StreamsAreLimited(maxClient: u32, maxServer: u32, evs: seq<Event>, client: bool)
    requires CountersHold(evs)
    ensures var e := Side(Run(Start(maxClient, maxServer), evs), client);
            var limit := if client then maxClient else maxServer;
            && |set id | id in e.table.streams && (id % 2 == 0) == client| <= limit
            && (!Hears(evs, client) ==> |e.table.streams| <= limit)
  {
    var start := Start(maxClient, maxServer);
    assert Side(start, client).heard == {};
    var e := Side(Run(start, evs), client);
    hide Run, Opens, Start, Hears, CounterOk, IssuedOk, Live;
    SideReached(maxClient, maxServer, evs, client);
    assert Own(e.table.streams, client) == set id | id in e.table.streams && (id % 2 == 0) == client;
    if !Hears(evs, client) {
      UnheardStaysUnheard(start, evs, client);
      assert Own(e.table.streams, client) == e.table.streams.Keys;
      assert |e.table.streams.Keys| == |e.table.streams|;
    }
  }

  // After any run, in a table: a shutdown takes the stream out; a close takes it
  // out if its writing half was closed before, and closes its reading half
  // otherwise; both refuse an id that is not there; no other stream is touched; and
  // a stream that is there is not accepted again.
  lemma ClosesSay(maxClient: u32, maxServer: u32, evs: seq<Event>, client: bool, id: u32)
    requires CountersHold(evs)
    ensures var e := Side(Run(Start(maxClient, maxServer), evs), client);
            var (closed, r) := e.table.CloseOne(id);
            var (down, r') := e.table.ShutdownOne(id);
            if id in e.table.streams then
              && r.Ok? && r'.Ok? && e.table.Accept(id) == (e.table, Err(ProtocolViolation))
              && down.streams == e.table.streams - {id}
              && closed.streams == (if e.table.streams[id] in {HalfClosedLocal, Closed} then e.table.streams - {id}
                                    else e.table.streams[id := HalfClosedRemote])
            else
              r == r' == Err(Error.StreamClosed) && closed.streams == down.streams == e.table.streams
  {
    SideReached(maxClient, maxServer, evs, client);
    hide Run, Opens, Start, Orderly;
  }
}
