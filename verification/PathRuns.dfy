// Path validation over whole runs: one endpoint challenges new paths, the other
// responds, and their encoded frames go through a network that may lose,
// repeat and reorder them.
module PathRuns {
  import opened Bytes
  import opened Framing
  import opened Multipath

  // ---------- the wire ----------

  lemma PathFrameRoundTrip(t: FrameType, connectionId: u32, id: byte, nonce: u64)
    ensures var f := PathFrame(t, connectionId, id, nonce);
            DecodeFrame(EncodeFrame(f)) == Ok(f) && ReadPathMessage(f) == Ok((id, nonce))
    ensures var h := PathFrame(t, connectionId, id, nonce).header;
            && h.frameType == t && h.connectionId == connectionId
            && h.version == 0 && h.streamId == 0 && h.offset == 0 && h.length == 8
  {
    var f := PathFrame(t, connectionId, id, nonce);
    assert f.extensions == [Extension(PathId, [id])];
    assert Coherent(f);
    assert f.payload[..8] == Be(nonce, 8);
    FieldU64(nonce);
    hide EncodeFrame, DecodeFrame;
    FrameRoundTrip(f, []);
    assert EncodeFrame(f) + [] == EncodeFrame(f);
  }

  lemma {:induction false} FirstPathIdDecides(es: seq<Extension>, i: nat)
    requires i <= |es|
    requires forall j | 0 <= j < i :: es[j].extType != PathId
    requires i < |es| ==> es[i].extType == PathId
    ensures ExtractPathId(es)
            == if i < |es| && es[i].value != [] then Ok(es[i].value[0]) else Err(ProtocolViolation)
  {
    if i > 0 {
      FirstPathIdDecides(es[1..], i - 1);
    }
  }

  // The first PathId extension names the path, whatever comes before or after it,
  // and the nonce is the first eight bytes of the payload.
  lemma PathMessageSays(frame: Frame, i: nat)
    requires i <= |frame.extensions|
    requires forall j | 0 <= j < i :: frame.extensions[j].extType != PathId
    requires i < |frame.extensions| ==> frame.extensions[i].extType == PathId
    ensures ReadPathMessage(frame)
            == if i < |frame.extensions| && frame.extensions[i].value != [] && |frame.payload| >= 8 then
                 Ok((frame.extensions[i].value[0], ReadU64(frame.payload[..8])))
               else Err(ProtocolViolation)
  {
    FirstPathIdDecides(frame.extensions, i);
    hide ExtractPathId;
  }

  lemma ChallengeArrives(b: Table, connectionId: u32, id: byte, nonce: u64, remoteAddr: Address, localAddr: Address, at: nat)
    ensures var heard := DecodeFrame(EncodeFrame(PathFrame(PathChallenge, connectionId, id, nonce)));
            && heard.Ok?
            && var (b', response) := b.HandleChallenge(heard.value, remoteAddr, localAddr, at);
            && response == Ok((PathFrame(PathResponse, b.WireId(), id, nonce), id))
            && id in b'.paths && b'.paths - {id} == b.paths - {id}
            && b'.paths[id] == (if id in b.paths then b.paths[id].(remoteAddr := remoteAddr, active := true, lastActive := at)
                                else PathState(id, localAddr, remoteAddr, true, 0, 0, 0, at, None))
  {
    PathFrameRoundTrip(PathChallenge, connectionId, id, nonce);
    hide EncodeFrame, DecodeFrame, ReadPathMessage, PathFrame, Table.WireId;
  }

  lemma ResponseArrives(a: Table, connectionId: u32, id: byte, nonce: u64, at: nat)
    requires id in a.paths && a.paths[id].challengeNonce == Some(nonce)
    ensures var answer := DecodeFrame(EncodeFrame(PathFrame(PathResponse, connectionId, id, nonce)));
            && answer.Ok?
            && var (a', outcome) := a.HandleResponse(answer.value, at);
            && outcome == Ok(id) && id in a'.paths && a'.paths - {id} == a.paths - {id}
            && a'.paths[id] == a.paths[id].(active := true, challengeNonce := None, lastActive := at)
  {
    PathFrameRoundTrip(PathResponse, connectionId, id, nonce);
    hide EncodeFrame, DecodeFrame, ReadPathMessage, PathFrame;
  }

  // Any other response is refused, and changes nothing: as malformed when it names
  // no path or carries no nonce or its path is unknown, and as a failed proof when
  // its nonce is not the pending one of its path.
  lemma ResponseRefusedIff(t: Table, frame: Frame, now: nat)
    ensures var (after, r) := t.HandleResponse(frame, now);
            var message := ReadPathMessage(frame);
            && (r.Err? ==> after == t)
            && (r == Err(ProtocolViolation) <==> message.Err? || message.value.0 !in t.paths)
            && (r == Err(Error.Crypto) <==>
                  && message.Ok? && message.value.0 in t.paths
                  && t.paths[message.value.0].challengeNonce != Some(message.value.1))
            && (r.Err? ==> r.error in {ProtocolViolation, Error.Crypto})
  {
    hide ExtractPathId;
    assert ReadPathMessage(frame).Err? ==> ReadPathMessage(frame) == Err(ProtocolViolation) by {
      NoOtherPathError(frame.extensions);
    }
  }

  lemma NoOtherPathError(es: seq<Extension>)
    ensures ExtractPathId(es).Err? ==> ExtractPathId(es) == Err(ProtocolViolation)
  {
  }

  // A challenge created here, carried to the peer, answered there and carried
  // back activates exactly its path, between the addresses given on either side,
  // and changes no other path. Both frames name their sender's connection by the
  // high half of its id.
  lemma WireRoundTripActivates(a: Table, b: Table, localA: Address, remoteA: Address, localB: Address, remoteB: Address,
                               nonce: u64, t0: nat, t1: nat, t2: nat)
    requires |a.paths| < a.maxPaths
    ensures var id := a.nextPathId;
            var (a1, challenge) := a.CreateChallenge(localA, remoteA, nonce, t0);
            && challenge.Ok?
            && var heard := DecodeFrame(EncodeFrame(challenge.value.0));
            && heard.Ok?
            && var (b1, response) := b.HandleChallenge(heard.value, remoteB, localB, t1);
            && heard.value.header.connectionId == a.connectionId / 0x1_0000_0000
            && response.Ok? && id in b1.paths && b1.paths[id].active
            && b1.paths[id].remoteAddr == remoteB && (id !in b.paths ==> b1.paths[id].localAddr == localB)
            && b1.paths[id].lastActive == t1
            && b1.paths - {id} == b.paths - {id}
            && var answer := DecodeFrame(EncodeFrame(response.value.0));
            && answer.Ok?
            && var (a2, outcome) := a1.HandleResponse(answer.value, t2);
            && answer.value.header.connectionId == b.connectionId / 0x1_0000_0000
            && outcome == Ok(id) && id in a2.paths && a2.paths[id].active && a2.paths[id].challengeNonce == None
            && a2.paths[id].localAddr == localA && a2.paths[id].remoteAddr == remoteA
            && a2.paths[id].lastActive == t2
            && a2.paths - {id} == a.paths - {id}
  {
    CreateShape(a, localA, remoteA, nonce, t0);
    var a1 := a.CreateChallenge(localA, remoteA, nonce, t0).0;
    assert a1.paths - {a.nextPathId} == a.paths - {a.nextPathId};
    assert a.WireId() == a.connectionId / 0x1_0000_0000 && b.WireId() == b.connectionId / 0x1_0000_0000;
    PathFrameRoundTrip(PathChallenge, a.WireId(), a.nextPathId, nonce);
    PathFrameRoundTrip(PathResponse, b.WireId(), a.nextPathId, nonce);
    hide EncodeFrame, DecodeFrame, PathFrame, Table.WireId, Table.CreateChallenge, Table.HandleChallenge, Table.HandleResponse;
    ChallengeArrives(b, a.WireId(), a.nextPathId, nonce, remoteB, localB, t1);
    ResponseArrives(a1, b.WireId(), a.nextPathId, nonce, t2);
  }

  // ---------- one endpoint ----------

  // What can happen at an endpoint that receives no challenges.
  datatype Action =
    | Create(localAddr: Address, remoteAddr: Address, nonce: u64, at: nat)
    | Respond(frame: Frame, at: nat)
    | Deactivate(id: byte)
    | Sent(id: byte, at: nat)
    | Lost(id: byte)
    | Rtt(id: byte, rttUs: u64)
    | Timeouts(timeoutMs: u64, at: nat)

  function Act(t: Table, a: Action): Table {
    match a
    case Create(localAddr, remoteAddr, nonce, at) => t.CreateChallenge(localAddr, remoteAddr, nonce, at).0
    case Respond(frame, at) => t.HandleResponse(frame, at).0
    case Deactivate(id) => t.Deactivate(id)
    case Sent(id, at) => t.RecordSend(id, at)
    case Lost(id) => t.RecordLoss(id)
    case Rtt(id, rttUs) => t.RecordRtt(id, rttUs)
    case Timeouts(timeoutMs, at) => t.CheckTimeouts(timeoutMs, at)
  }

  function Begin(connectionId: u64, maxPaths: nat, localAddr: Address, remoteAddr: Address, at: nat): Table {
    NewTable(connectionId, maxPaths).RegisterPrimary(localAddr, remoteAddr, at)
  }

  function Play(t: Table, actions: seq<Action>): Table {
    if actions == [] then t else Act(Play(t, actions[..|actions| - 1]), actions[|actions| - 1])
  }

  // ---------- fresh ids ----------

  function Ids(n: nat): (s: set<byte>)
    requires n <= 0x100
    ensures forall id: byte :: id in s <==> id < n
    ensures |s| == n
  {
    if n == 0 then {} else Ids(n - 1) + {n - 1}
  }

  // The ids in use are 0 to n - 1, the next one is n, cut to 8 bits, and every
  // path is filed under its own id.
  ghost predicate Dense(t: Table, n: nat) {
    && 1 <= n <= 0x100 && t.paths.Keys == Ids(n) && t.nextPathId == n % 0x100
    && forall id | id in t.paths :: t.paths[id].id == id
  }

  lemma BeginsDense(connectionId: u64, maxPaths: nat, l: Address, r: Address, at: nat)
    ensures Dense(Begin(connectionId, maxPaths, l, r, at), 1)
    ensures Begin(connectionId, maxPaths, l, r, at).maxPaths == maxPaths
    ensures Begin(connectionId, maxPaths, l, r, at).paths == map[0 := PathState(0, l, r, true, 0, 0, 0, at, None)]
  {
    assert Begin(connectionId, maxPaths, l, r, at).paths.Keys == {0} == Ids(1);
  }

  lemma OthersKeepIds(t: Table, a: Action)
    requires !a.Create?
    ensures var t' := Act(t, a);
            && t'.paths.Keys == t.paths.Keys && t'.nextPathId == t.nextPathId && t'.maxPaths == t.maxPaths
            && forall id | id in t.paths :: t'.paths[id].id == t.paths[id].id
  {
    hide Smooth, ReadPathMessage;
  }

  // What a successful challenge does to the table.
  lemma CreateShape(t: Table, l: Address, r: Address, nonce: u64, at: nat)
    ensures var (t', outcome) := t.CreateChallenge(l, r, nonce, at);
            if |t.paths| >= t.maxPaths then t' == t && outcome.Err?
            else
              var path := NewPath(t.nextPathId, l, r, at).(challengeNonce := Some(nonce));
              && t' == t.(paths := t.paths[t.nextPathId := path], nextPathId := (t.nextPathId + 1) % 0x100)
              && outcome == Ok((PathFrame(PathChallenge, t.WireId(), t.nextPathId, nonce), t.nextPathId))
  {
    hide PathFrame;
  }

  lemma CreateKeepsDense(t: Table, n: nat, l: Address, r: Address, nonce: u64, at: nat)
    requires Dense(t, n) && (n < 0x100 || t.maxPaths <= 0x100)
    ensures var t' := t.CreateChallenge(l, r, nonce, at).0;
            t'.maxPaths == t.maxPaths && Dense(t', if n < t.maxPaths then n + 1 else n)
  {
    hide *;
    DenseSize(t, n);
    CreateShape(t, l, r, nonce, at);
    if n < t.maxPaths {
      var path := NewPath(n, l, r, at).(challengeNonce := Some(nonce));
      NewPathId(n, l, r, at);
      DenseInsert(t, n, path);
    }
  }

  lemma NewPathId(id: byte, l: Address, r: Address, at: nat)
    ensures NewPath(id, l, r, at).id == id
  {
  }

  lemma DenseSize(t: Table, n: nat)
    requires Dense(t, n)
    ensures |t.paths| == n && t.nextPathId == n % 0x100
  {
    assert |t.paths| == |t.paths.Keys|;
  }

  lemma DenseInsert(t: Table, n: nat, path: PathState)
    requires Dense(t, n) && n < 0x100 && path.id == n
    ensures Dense(t.(paths := t.paths[n := path], nextPathId := (n + 1) % 0x100), n + 1)
  {
    assert Ids(n + 1) == Ids(n) + {n};
    hide Ids;
    assert t.paths[n := path].Keys == t.paths.Keys + {n};
  }

  lemma ActKeepsDense(t: Table, n: nat, a: Action)
    requires Dense(t, n) && (a.Create? ==> n < 0x100 || t.maxPaths <= 0x100)
    ensures Act(t, a).maxPaths == t.maxPaths
    ensures Dense(Act(t, a), if a.Create? && n < t.maxPaths then n + 1 else n)
  {
    if a.Create? {
      CreateKeepsDense(t, n, a.localAddr, a.remoteAddr, a.nonce, a.at);
    } else {
      hide Act;
      OthersKeepIds(t, a);
    }
  }

  function Creates(actions: seq<Action>): nat {
    if actions == [] then 0 else Creates(actions[..|actions| - 1]) + if actions[|actions| - 1].Create? then 1 else 0
  }

  // Over every run: with at most 256 paths allowed, the ids in use are always
  // 0, 1, 2, ... without a gap: the primary and one for each challenge created,
  // up to as many as are allowed.
  lemma {:induction false} IdsStayDense(connectionId: u64, maxPaths: nat, l: Address, r: Address, at: nat, actions: seq<Action>)
    returns (n: nat)
    requires maxPaths <= 0x100
    ensures Dense(Play(Begin(connectionId, maxPaths, l, r, at), actions), n)
    ensures Play(Begin(connectionId, maxPaths, l, r, at), actions).maxPaths == maxPaths
    ensures n == if 1 + Creates(actions) < maxPaths then 1 + Creates(actions) else if maxPaths < 1 then 1 else maxPaths
    decreases |actions|
  {
    var t := Begin(connectionId, maxPaths, l, r, at);
    BeginsDense(connectionId, maxPaths, l, r, at);
    hide Begin, Dense, Act;
    if actions == [] {
      n := 1;
    } else {
      var init, last := actions[..|actions| - 1], actions[|actions| - 1];
      n := IdsStayDense(connectionId, maxPaths, l, r, at, init);
      ActKeepsDense(Play(t, init), n, last);
      if last.Create? && n < maxPaths {
        n := n + 1;
      }
    }
  }

  // So a challenge is refused if and only if the primary and the challenges
  // created before are as many as are allowed.
  lemma RefusedIffFull(connectionId: u64, maxPaths: nat, l: Address, r: Address, at: nat, actions: seq<Action>,
                       nonce: u64, now: nat)
    requires maxPaths <= 0x100
    ensures var refusal := Play(Begin(connectionId, maxPaths, l, r, at), actions).CreateChallenge(l, r, nonce, now).1;
            && (refusal.Err? <==> 1 + Creates(actions) >= maxPaths)
            && (refusal.Err? ==> refusal == Err(Error.FlowControl))
  {
    var t := Play(Begin(connectionId, maxPaths, l, r, at), actions);
    var n := IdsStayDense(connectionId, maxPaths, l, r, at, actions);
    DenseSize(t, n);
    hide Begin, Dense, Play, Creates, PathFrame;
    CreateShape(t, l, r, nonce, now);
  }

  // No run leads to a challenge whose id is already taken.
  ghost predicate AlwaysFresh(maxPaths: nat) {
    forall connectionId: u64, l: Address, r: Address, at: nat, actions: seq<Action>, nonce: u64 ::
      FreshAfter(Play(Begin(connectionId, maxPaths, l, r, at), actions), l, r, nonce, at)
  }

  predicate FreshAfter(t: Table, l: Address, r: Address, nonce: u64, at: nat) {
    var outcome := t.CreateChallenge(l, r, nonce, at).1;
    outcome.Ok? ==> outcome.value.1 !in t.paths
  }

  lemma DenseIsFresh(t: Table, n: nat, l: Address, r: Address, nonce: u64, at: nat)
    requires Dense(t, n) && t.maxPaths <= 0x100
    ensures FreshAfter(t, l, r, nonce, at)
  {
    assert |t.paths| == |t.paths.Keys| == n;
    CreateShape(t, l, r, nonce, at);
    hide PathFrame;
  }

  function Creations(n: nat): (s: seq<Action>)
    ensures |s| == n
  {
    if n == 0 then [] else Creations(n - 1) + [Create(0, 0, 0, 0)]
  }

  lemma {:induction false} FillUp(maxPaths: nat, n: nat)
    requires n <= 0xFF && n < maxPaths
    ensures Dense(Play(Begin(0, maxPaths, 0, 0, 0), Creations(n)), n + 1)
    ensures Play(Begin(0, maxPaths, 0, 0, 0), Creations(n)).maxPaths == maxPaths
  {
    var t := Begin(0, maxPaths, 0, 0, 0);
    BeginsDense(0, maxPaths, 0, 0, 0);
    hide Begin, Dense, Act;
    if n > 0 {
      FillUp(maxPaths, n - 1);
      assert Creations(n)[..n - 1] == Creations(n - 1);
      ActKeepsDense(Play(t, Creations(n - 1)), n, Create(0, 0, 0, 0));
    }
  }

  // The counter has 8 bits: ids are fresh in every run exactly when at most 256
  // paths are allowed.
  lemma FreshIffAtMost256(maxPaths: nat)
    ensures AlwaysFresh(maxPaths) <==> maxPaths <= 0x100
  {
    if maxPaths <= 0x100 {
      forall connectionId: u64, l: Address, r: Address, at: nat, actions: seq<Action>, nonce: u64
        ensures FreshAfter(Play(Begin(connectionId, maxPaths, l, r, at), actions), l, r, nonce, at)
      {
        var n := IdsStayDense(connectionId, maxPaths, l, r, at, actions);
        DenseIsFresh(Play(Begin(connectionId, maxPaths, l, r, at), actions), n, l, r, nonce, at);
      }
    } else {
      var t := Play(Begin(0, maxPaths, 0, 0, 0), Creations(0xFF));
      FillUp(maxPaths, 0xFF);
      assert |t.paths| == |t.paths.Keys| == 0x100 && 0 in t.paths;
      CreateShape(t, 0, 0, 0, 0);
      assert !FreshAfter(t, 0, 0, 0, 0);
    }
  }

  // ---------- what is recorded of a path ----------

  function Sends(actions: seq<Action>, id: byte): nat {
    if actions == [] then 0
    else Sends(actions[..|actions| - 1], id) + if Last(actions).Sent? && Last(actions).id == id then 1 else 0
  }

  function Losses(actions: seq<Action>, id: byte): nat {
    if actions == [] then 0
    else Losses(actions[..|actions| - 1], id) + if Last(actions).Lost? && Last(actions).id == id then 1 else 0
  }

  function RoundTrips(actions: seq<Action>, id: byte): seq<u64> {
    if actions == [] then []
    else RoundTrips(actions[..|actions| - 1], id)
         + if Last(actions).Rtt? && Last(actions).id == id then [Last(actions).rttUs] else []
  }

  function Last(actions: seq<Action>): Action
    requires actions != []
  {
    actions[|actions| - 1]
  }

  lemma {:induction false} EstimateAppend(estimate: u64, samples: seq<u64>, x: u64)
    ensures Estimate(estimate, samples + [x]) == Smooth(Estimate(estimate, samples), x)
    decreases |samples|
  {
    hide Smooth;
    if samples == [] {
      assert [x][1..] == [] && samples + [x] == [x];
      assert Estimate(Smooth(estimate, x), []) == Smooth(estimate, x);
    } else {
      assert (samples + [x])[0] == samples[0] && (samples + [x])[1..] == samples[1..] + [x];
      EstimateAppend(Smooth(estimate, samples[0]), samples[1..], x);
    }
  }

  // A path's record after some actions, from what it was before.
  ghost predicate Recorded(before: PathState, after: PathState, actions: seq<Action>, id: byte) {
    && after.packetsSent == (before.packetsSent + Sends(actions, id)) % U64
    && after.packetsLost == (before.packetsLost + Losses(actions, id)) % U64
    && after.rttUs == Estimate(before.rttUs, RoundTrips(actions, id))
    && after.id == before.id && after.localAddr == before.localAddr && after.remoteAddr == before.remoteAddr
  }

  lemma ActRecords(t: Table, a: Action, id: byte)
    requires !a.Create? && id in t.paths
    ensures id in Act(t, a).paths
    ensures var p, q := t.paths[id], Act(t, a).paths[id];
            && q.packetsSent == (if a.Sent? && a.id == id then (p.packetsSent + 1) % U64 else p.packetsSent)
            && q.packetsLost == (if a.Lost? && a.id == id then (p.packetsLost + 1) % U64 else p.packetsLost)
            && q.rttUs == (if a.Rtt? && a.id == id then Smooth(p.rttUs, a.rttUs) else p.rttUs)
            && q.id == p.id && q.localAddr == p.localAddr && q.remoteAddr == p.remoteAddr
  {
    hide Smooth, ReadPathMessage;
  }

  lemma CountOn(before: nat, n: nat, m: nat)
    ensures ((before + n) % U64 + m) % U64 == (before + (n + m)) % U64
  {
  }

  // Over every run without new challenges: each path counts exactly the packets
  // sent and lost on it, and estimates its round trip from exactly its samples,
  // in their order.
  lemma {:induction false} RunsRecord(t: Table, actions: seq<Action>, id: byte)
    requires id in t.paths && Creates(actions) == 0
    ensures id in Play(t, actions).paths && Recorded(t.paths[id], Play(t, actions).paths[id], actions, id)
  {
    if actions != [] {
      var init, a := actions[..|actions| - 1], Last(actions);
      RunsRecord(t, init, id);
      var p, q := t.paths[id], Play(t, init).paths[id];
      ActRecords(Play(t, init), a, id);
      CountOn(p.packetsSent, Sends(init, id), 1);
      CountOn(p.packetsLost, Losses(init, id), 1);
      if a.Rtt? && a.id == id {
        EstimateAppend(p.rttUs, RoundTrips(init, id), a.rttUs);
      } else {
        assert RoundTrips(init, id) + [] == RoundTrips(init, id);
      }
      hide Act, Smooth, Estimate;
    }
  }

  // A timeout ends exactly the active paths that have been idle for at least a
  // millisecond more than it allows.
  lemma TimeoutEndsIff(t: Table, timeoutMs: u64, now: nat, id: byte)
    requires id in t.paths && now - t.paths[id].lastActive < U64 * 1_000_000
    ensures var p := t.paths[id];
            id in t.CheckTimeouts(timeoutMs, now).paths
            && t.CheckTimeouts(timeoutMs, now).paths[id]
               == p.(active := p.active && now - p.lastActive < (timeoutMs + 1) * 1_000_000)
  {
    var p := t.paths[id];
    if p.lastActive <= now {
      WholeMillis(now - p.lastActive, timeoutMs);
    }
  }

  lemma WholeMillis(nanos: nat, timeoutMs: u64)
    requires nanos < U64 * 1_000_000
    ensures nanos / 1_000_000 % U64 > timeoutMs <==> nanos >= (timeoutMs + 1) * 1_000_000
  {
    assert nanos / 1_000_000 < U64;
  }

  // A send counts as activity from when it is made.
  lemma SendKeepsAlive(t: Table, id: byte, at: nat, timeoutMs: u64, now: nat)
    requires id in t.paths && at <= now < at + U64 * 1_000_000
    ensures var after := t.RecordSend(id, at).CheckTimeouts(timeoutMs, now);
            id in after.paths && (after.paths[id].active <==> t.paths[id].active && now - at < (timeoutMs + 1) * 1_000_000)
  {
    TimeoutEndsIff(t.RecordSend(id, at), timeoutMs, now, id);
  }

  // ---------- challenger and responder ----------

  // Everything ever sent stays in one network. `created` lists the challenges
  // made, `answered` those that the responder has processed, `confirmed` those
  // that activated their path, each as path and nonce.
  datatype System = System(
    challenger: Table, responder: Table, network: seq<bytes>,
    created: seq<(byte, u64)>, answered: seq<(byte, u64)>, confirmed: seq<(byte, u64)>)

  datatype Event =
    | Challenge(localAddr: Address, remoteAddr: Address, nonce: u64, at: nat)
    | ToResponder(which: nat, remoteAddr: Address, localAddr: Address, at: nat)
    | ToChallenger(which: nat, at: nat)
    | AtChallenger(action: Action)
    | AtResponder(action: Action)

  // Creating challenges and receiving responses at the challenger go through
  // the network; the responder creates no challenges of its own.
  predicate Local(a: Action) {
    !a.Create? && !a.Respond?
  }

  // The type, path and nonce of a datagram.
  function Heard(wire: bytes): Option<(FrameType, (byte, u64))> {
    match DecodeFrame(wire)
    case Err(_) => None
    case Ok(frame) =>
      match ReadPathMessage(frame)
      case Err(_) => None
      case Ok(message) => Some((frame.header.frameType, message))
  }

  // The responder answers whatever frame it is handed, of any type; only
  // challenges are counted as answered.
  function Answer(s: System, frame: Frame, remoteAddr: Address, localAddr: Address, at: nat): System {
    match ReadPathMessage(frame)
    case Err(_) => s
    case Ok(message) =>
      var (t, outcome) := s.responder.HandleChallenge(frame, remoteAddr, localAddr, at);
      s.(responder := t, network := s.network + [EncodeFrame(outcome.value.0)],
         answered := s.answered + if frame.header.frameType.PathChallenge? then [message] else [])
  }

  function Confirm(s: System, frame: Frame, at: nat): System {
    var (t, outcome) := s.challenger.HandleResponse(frame, at);
    s.(challenger := t,
       confirmed := s.confirmed + if outcome.Ok? then [ReadPathMessage(frame).value] else [])
  }

  // `handed` are the types of frames that are handed to the handler of
  // responses, which does not look at the type itself.
  function Step(s: System, ev: Event, handed: set<FrameType>): System {
    match ev
    case Challenge(l, r, nonce, at) =>
      var (t, outcome) := s.challenger.CreateChallenge(l, r, nonce, at);
      if outcome.Err? then s
      else s.(challenger := t, network := s.network + [EncodeFrame(outcome.value.0)],
              created := s.created + [(outcome.value.1, nonce)])
    case ToResponder(which, r, l, at) =>
      if which >= |s.network| || DecodeFrame(s.network[which]).Err? then s
      else Answer(s, DecodeFrame(s.network[which]).value, r, l, at)
    case ToChallenger(which, at) =>
      if which >= |s.network| || DecodeFrame(s.network[which]).Err? then s
      else
        var frame := DecodeFrame(s.network[which]).value;
        if frame.header.frameType !in handed then s else Confirm(s, frame, at)
    case AtChallenger(a) => if Local(a) then s.(challenger := Act(s.challenger, a)) else s
    case AtResponder(a) => if Local(a) then s.(responder := Act(s.responder, a)) else s
  }

  function Start(challenger: Table, responder: Table): System {
    System(challenger, responder, [], [], [], [])
  }

  function Run(s: System, evs: seq<Event>, handed: set<FrameType>): System
    decreases |evs|
  {
    if evs == [] then s else Run(Step(s, evs[0], handed), evs[1..], handed)
  }

  // The nonce of the latest challenge made for a path.
  function NonceOf(created: seq<(byte, u64)>, id: byte): Option<u64> {
    if created == [] then None
    else if created[|created| - 1].0 == id then Some(created[|created| - 1].1)
    else NonceOf(created[..|created| - 1], id)
  }

  // A datagram is a challenge that was made or a response to one that was answered.
  ghost predicate WireOk(wire: bytes, created: seq<(byte, u64)>, answered: seq<(byte, u64)>) {
    match Heard(wire)
    case None => false
    case Some((t, message)) =>
      (t == PathChallenge && message in created) || (t == PathResponse && message in answered)
  }

  ghost predicate NetworkOk(s: System) {
    forall i | 0 <= i < |s.network| :: WireOk(s.network[i], s.created, s.answered)
  }

  // A pending path awaits its latest nonce; an active one was answered under it.
  ghost predicate PathOk(paths: map<byte, PathState>, created: seq<(byte, u64)>, answered: seq<(byte, u64)>, id: byte,
                         handed: set<FrameType>) {
    id in paths ==>
      && (paths[id].challengeNonce.Some? ==> paths[id].challengeNonce == NonceOf(created, id))
      && (PathChallenge !in handed && paths[id].active && id != 0 ==>
            NonceOf(created, id).Some? && (id, NonceOf(created, id).value) in answered)
  }

  function Pending(paths: map<byte, PathState>, m: (byte, u64)): nat {
    if m.0 in paths && paths[m.0].challengeNonce == Some(m.1) then 1 else 0
  }

  // Each challenge made is confirmed, pending or superseded.
  ghost predicate CountOk(paths: map<byte, PathState>, created: seq<(byte, u64)>, confirmed: seq<(byte, u64)>, m: (byte, u64)) {
    multiset(confirmed)[m] + Pending(paths, m) <= multiset(created)[m]
  }

  ghost predicate Sound(s: System, handed: set<FrameType>) {
    && NetworkOk(s)
    && (forall id: byte :: PathOk(s.challenger.paths, s.created, s.answered, id, handed))
    && (forall m: (byte, u64) :: CountOk(s.challenger.paths, s.created, s.confirmed, m))
  }

  lemma PathFrameIsHeard(t: FrameType, c: u32, id: byte, nonce: u64)
    ensures Heard(EncodeFrame(PathFrame(t, c, id, nonce))) == Some((t, (id, nonce)))
  {
    PathFrameRoundTrip(t, c, id, nonce);
    assert PathFrame(t, c, id, nonce).header.frameType == t;
    hide EncodeFrame, DecodeFrame, PathFrame, ReadPathMessage;
  }

  lemma CreatedAppend(created: seq<(byte, u64)>, x: (byte, u64), id: byte)
    ensures NonceOf(created + [x], id) == if x.0 == id then Some(x.1) else NonceOf(created, id)
  {
    assert (created + [x])[..|created|] == created;
  }

  // One more datagram, under logs that have only grown.
  lemma NetworkGrows(s: System, next: System, wire: bytes)
    requires NetworkOk(s) && next.network == s.network + [wire]
    requires s.created <= next.created && s.answered <= next.answered
    requires WireOk(wire, next.created, next.answered)
    ensures NetworkOk(next)
  {
    hide Heard;
    forall i | 0 <= i < |next.network| ensures WireOk(next.network[i], next.created, next.answered) {
      if i < |s.network| {
        assert WireOk(s.network[i], s.created, s.answered);
      }
    }
  }

  // One path, and one message, across the making of a challenge, possibly for that path.
  lemma ChallengePath(paths: map<byte, PathState>, path: PathState, x: (byte, u64), id: byte,
                      created: seq<(byte, u64)>, answered: seq<(byte, u64)>, handed: set<FrameType>)
    requires PathOk(paths, created, answered, id, handed)
    requires path.challengeNonce == Some(x.1) && !path.active
    ensures PathOk(paths[x.0 := path], created + [x], answered, id, handed)
  {
    hide NonceOf;
    CreatedAppend(created, x, id);
  }

  lemma ChallengeCount(paths: map<byte, PathState>, path: PathState, x: (byte, u64), m: (byte, u64),
                       created: seq<(byte, u64)>, confirmed: seq<(byte, u64)>)
    requires CountOk(paths, created, confirmed, m)
    requires path.challengeNonce == Some(x.1)
    ensures CountOk(paths[x.0 := path], created + [x], confirmed, m)
  {
    assert multiset(created + [x])[m] == multiset(created)[m] + if m == x then 1 else 0;
  }

  lemma ChallengeIsSound(s: System, ev: Event, handed: set<FrameType>)
    requires Sound(s, handed) && ev.Challenge?
    ensures Sound(Step(s, ev, handed), handed)
  {
    var t, next := s.challenger, Step(s, ev, handed);
    CreateShape(t, ev.localAddr, ev.remoteAddr, ev.nonce, ev.at);
    if |t.paths| < t.maxPaths {
      var x := (t.nextPathId, ev.nonce);
      var path := NewPath(t.nextPathId, ev.localAddr, ev.remoteAddr, ev.at).(challengeNonce := Some(ev.nonce));
      var wire := EncodeFrame(PathFrame(PathChallenge, t.WireId(), x.0, x.1));
      assert next.challenger.paths == t.paths[x.0 := path] && next.created == s.created + [x];
      assert next.network == s.network + [wire];
      assert next.confirmed == s.confirmed && next.answered == s.answered;
      hide Step, EncodeFrame, PathFrame, Heard, PathOk, CountOk, NetworkOk;
      PathFrameIsHeard(PathChallenge, t.WireId(), x.0, x.1);
      NetworkGrows(s, next, wire);
      forall id: byte ensures PathOk(next.challenger.paths, next.created, s.answered, id, handed) {
        ChallengePath(t.paths, path, x, id, s.created, s.answered, handed);
      }
      forall m: (byte, u64) ensures CountOk(next.challenger.paths, next.created, s.confirmed, m) {
        ChallengeCount(t.paths, path, x, m, s.created, s.confirmed);
      }
    }
  }

  lemma AnswerShape(s: System, frame: Frame, message: (byte, u64), r: Address, l: Address, at: nat)
    requires ReadPathMessage(frame) == Ok(message)
    ensures var t := Answer(s, frame, r, l, at).responder;
            var response := EncodeFrame(PathFrame(PathResponse, s.responder.WireId(), message.0, message.1));
            Answer(s, frame, r, l, at)
            == s.(responder := t, network := s.network + [response],
                  answered := s.answered + if frame.header.frameType.PathChallenge? then [message] else [])
  {
    hide EncodeFrame, PathFrame, ReadPathMessage;
  }

  lemma MoreAnswers(s: System, t: Table, response: bytes, answered: seq<(byte, u64)>, handed: set<FrameType>)
    requires Sound(s, handed) && s.answered <= answered && WireOk(response, s.created, answered)
    ensures Sound(s.(responder := t, network := s.network + [response], answered := answered), handed)
  {
    hide Heard, NonceOf, NetworkOk, CountOk;
    var next := s.(responder := t, network := s.network + [response], answered := answered);
    NetworkGrows(s, next, response);
    forall id: byte ensures PathOk(s.challenger.paths, s.created, answered, id, handed) {
      assert PathOk(s.challenger.paths, s.created, s.answered, id, handed);
    }
  }

  lemma ToResponderIsSound(s: System, ev: Event, handed: set<FrameType>)
    requires Sound(s, handed) && ev.ToResponder?
    ensures Sound(Step(s, ev, handed), handed)
  {
    if ev.which < |s.network| {
      assert WireOk(s.network[ev.which], s.created, s.answered);
      var frame, message := DecodeFrame(s.network[ev.which]).value, Heard(s.network[ev.which]).value.1;
      var t := Answer(s, frame, ev.remoteAddr, ev.localAddr, ev.at).responder;
      var response := EncodeFrame(PathFrame(PathResponse, s.responder.WireId(), message.0, message.1));
      var answered := s.answered + if frame.header.frameType.PathChallenge? then [message] else [];
      assert message in answered;
      assert ReadPathMessage(frame) == Ok(message);
      assert Step(s, ev, handed) == Answer(s, frame, ev.remoteAddr, ev.localAddr, ev.at);
      hide Sound, Step, Answer, EncodeFrame, DecodeFrame, PathFrame, Heard, ReadPathMessage;
      AnswerShape(s, frame, message, ev.remoteAddr, ev.localAddr, ev.at);
      PathFrameIsHeard(PathResponse, s.responder.WireId(), message.0, message.1);
      MoreAnswers(s, t, response, answered, handed);
    }
  }

  // One path, and one message, across the confirmation of a path, possibly itself.
  lemma ConfirmPath(paths: map<byte, PathState>, message: (byte, u64), at: nat, id: byte,
                    created: seq<(byte, u64)>, answered: seq<(byte, u64)>, handed: set<FrameType>)
    requires PathOk(paths, created, answered, id, handed)
    requires message.0 in paths && paths[message.0].challengeNonce == Some(message.1)
    requires PathChallenge !in handed ==> message in answered
    ensures var paths' := paths[message.0 := paths[message.0].(active := true, challengeNonce := None, lastActive := at)];
            PathOk(paths', created, answered, id, handed)
  {
    hide NonceOf;
  }

  lemma ConfirmCount(paths: map<byte, PathState>, message: (byte, u64), at: nat, m: (byte, u64),
                     created: seq<(byte, u64)>, confirmed: seq<(byte, u64)>)
    requires CountOk(paths, created, confirmed, m)
    requires message.0 in paths && paths[message.0].challengeNonce == Some(message.1)
    ensures var paths' := paths[message.0 := paths[message.0].(active := true, challengeNonce := None, lastActive := at)];
            CountOk(paths', created, confirmed + [message], m)
  {
    assert multiset(confirmed + [message])[m] == multiset(confirmed)[m] + if m == message then 1 else 0;
  }

  lemma ConfirmShape(s: System, frame: Frame, message: (byte, u64), at: nat)
    requires ReadPathMessage(frame) == Ok(message)
    ensures var paths := s.challenger.paths;
            Confirm(s, frame, at)
            == if message.0 in paths && paths[message.0].challengeNonce == Some(message.1) then
                 var after := paths[message.0].(active := true, challengeNonce := None, lastActive := at);
                 s.(challenger := s.challenger.(paths := paths[message.0 := after]), confirmed := s.confirmed + [message])
               else s
  {
    hide ReadPathMessage;
    assert s.confirmed + [] == s.confirmed;
  }

  lemma ConfirmIsSound(s: System, frame: Frame, message: (byte, u64), at: nat, handed: set<FrameType>)
    requires Sound(s, handed) && ReadPathMessage(frame) == Ok(message) && (PathChallenge !in handed ==> message in s.answered)
    ensures Sound(Confirm(s, frame, at), handed)
  {
    var t, next := s.challenger, Confirm(s, frame, at);
    ConfirmShape(s, frame, message, at);
    hide Confirm, ReadPathMessage, WireOk, PathOk, CountOk;
    if message.0 in t.paths && t.paths[message.0].challengeNonce == Some(message.1) {
      forall id: byte ensures PathOk(next.challenger.paths, s.created, s.answered, id, handed) {
        ConfirmPath(t.paths, message, at, id, s.created, s.answered, handed);
      }
      forall m: (byte, u64) ensures CountOk(next.challenger.paths, s.created, next.confirmed, m) {
        ConfirmCount(t.paths, message, at, m, s.created, s.confirmed);
      }
    }
  }

  lemma ToChallengerIsSound(s: System, ev: Event, handed: set<FrameType>)
    requires Sound(s, handed) && ev.ToChallenger?
    ensures Sound(Step(s, ev, handed), handed)
  {
    if ev.which < |s.network| {
      assert WireOk(s.network[ev.which], s.created, s.answered);
      var frame, message := DecodeFrame(s.network[ev.which]).value, Heard(s.network[ev.which]).value.1;
      assert ReadPathMessage(frame) == Ok(message);
      if frame.header.frameType in handed {
        assert PathChallenge !in handed ==> message in s.answered;
        assert Step(s, ev, handed) == Confirm(s, frame, ev.at);
        hide Sound, Step, Confirm, DecodeFrame, Heard, ReadPathMessage;
        ConfirmIsSound(s, frame, message, ev.at, handed);
      }
    }
  }

  lemma LocalActions(t: Table, a: Action, id: byte)
    requires Local(a)
    ensures Act(t, a).paths.Keys == t.paths.Keys
    ensures id in t.paths ==> Act(t, a).paths[id].challengeNonce == t.paths[id].challengeNonce
    ensures id in t.paths && Act(t, a).paths[id].active ==> t.paths[id].active
  {
    hide Smooth;
  }

  lemma LocalIsSound(s: System, a: Action, handed: set<FrameType>)
    requires Sound(s, handed) && Local(a)
    ensures Sound(Step(s, AtChallenger(a), handed), handed) && Sound(Step(s, AtResponder(a), handed), handed)
  {
    hide Act, NonceOf, WireOk;
    var t := Act(s.challenger, a);
    forall id: byte ensures PathOk(t.paths, s.created, s.answered, id, handed) {
      LocalActions(s.challenger, a, id);
      assert PathOk(s.challenger.paths, s.created, s.answered, id, handed);
    }
    forall m: (byte, u64) ensures CountOk(t.paths, s.created, s.confirmed, m) {
      LocalActions(s.challenger, a, m.0);
      assert CountOk(s.challenger.paths, s.created, s.confirmed, m);
    }
  }

  lemma {:induction false} RunsAreSound(s: System, evs: seq<Event>, handed: set<FrameType>)
    requires Sound(s, handed)
    ensures Sound(Run(s, evs, handed), handed)
    decreases |evs|
  {
    hide Sound, Step;
    if evs != [] {
      match evs[0] {
        case Challenge(_, _, _, _) => ChallengeIsSound(s, evs[0], handed);
        case ToResponder(_, _, _, _) => ToResponderIsSound(s, evs[0], handed);
        case ToChallenger(_, _) => ToChallengerIsSound(s, evs[0], handed);
        case AtChallenger(a) => LocalEvents(s, a, handed);
        case AtResponder(a) => LocalEvents(s, a, handed);
      }
      RunsAreSound(Step(s, evs[0], handed), evs[1..], handed);
    }
  }

  lemma LocalEvents(s: System, a: Action, handed: set<FrameType>)
    requires Sound(s, handed)
    ensures Sound(Step(s, AtChallenger(a), handed), handed) && Sound(Step(s, AtResponder(a), handed), handed)
  {
    hide Sound, Act;
    if Local(a) {
      LocalIsSound(s, a, handed);
    }
  }

  // Tables as they are before the first challenge.
  ghost predicate Unchallenged(t: Table) {
    forall i | i in t.paths :: i == 0 && t.paths[i].challengeNonce == None
  }

  lemma StartIsSound(challenger: Table, responder: Table, handed: set<FrameType>)
    requires Unchallenged(challenger)
    ensures Sound(Start(challenger, responder), handed)
  {
  }

  // Over every run: a challenge is confirmed at most as often as it was made,
  // however often its response is replayed, whatever frames are delivered where.
  lemma ConfirmedAtMostOnce(challenger: Table, responder: Table, evs: seq<Event>, handed: set<FrameType>, m: (byte, u64))
    requires Unchallenged(challenger)
    ensures var s := Run(Start(challenger, responder), evs, handed);
            multiset(s.confirmed)[m] + Pending(s.challenger.paths, m) <= multiset(s.created)[m]
  {
    StartIsSound(challenger, responder, handed);
    RunsAreSound(Start(challenger, responder), evs, handed);
    hide Run, Start, NetworkOk, PathOk;
    var s := Run(Start(challenger, responder), evs, handed);
    assert CountOk(s.challenger.paths, s.created, s.confirmed, m);
  }

  // A path other than the primary is active only if the responder has processed
  // a challenge that carried that path and the path's latest nonce.
  ghost predicate Answered(s: System, id: byte) {
    id != 0 && id in s.challenger.paths && s.challenger.paths[id].active ==>
      NonceOf(s.created, id).Some? && (id, NonceOf(s.created, id).value) in s.answered
  }

  lemma ActivePathsWereAnswered(challenger: Table, responder: Table, evs: seq<Event>, handed: set<FrameType>, id: byte)
    requires Unchallenged(challenger) && PathChallenge !in handed
    ensures Answered(Run(Start(challenger, responder), evs, handed), id)
  {
    StartIsSound(challenger, responder, handed);
    RunsAreSound(Start(challenger, responder), evs, handed);
    hide Run, Start, NonceOf, NetworkOk, CountOk;
    var s := Run(Start(challenger, responder), evs, handed);
    assert PathOk(s.challenger.paths, s.created, s.answered, id, handed);
  }

  ghost predicate AlwaysAnswered(handed: set<FrameType>) {
    forall challenger: Table, responder: Table, evs: seq<Event>, id: byte | Unchallenged(challenger) ::
      Answered(Run(Start(challenger, responder), evs, handed), id)
  }

  // A challenge made at a fresh challenger with room for one path.
  lemma FirstChallenge(responder: Table, nonce: u64, handed: set<FrameType>)
    ensures var one := Step(Start(NewTable(0, 1), responder), Challenge(0, 0, nonce, 0), handed);
            && one.network == [EncodeFrame(PathFrame(PathChallenge, 0, 1, nonce))]
            && one.created == [(1, nonce)] && one.answered == []
            && 1 in one.challenger.paths && one.challenger.paths[1].challengeNonce == Some(nonce)
  {
    CreateShape(NewTable(0, 1), 0, 0, nonce, 0);
    var wire := EncodeFrame(PathFrame(PathChallenge, 0, 1, nonce));
    assert [] + [wire] == [wire];
    hide EncodeFrame, PathFrame, Table.CreateChallenge;
  }

  // A challenge that comes back to its own sender activates the path unanswered.
  lemma OwnChallengeActivates(responder: Table, nonce: u64, handed: set<FrameType>)
    requires PathChallenge in handed
    ensures var start := Start(NewTable(0, 1), responder);
            !Answered(Run(start, [Challenge(0, 0, nonce, 0), ToChallenger(0, 0)], handed), 1)
  {
    var start := Start(NewTable(0, 1), responder);
    var first, second := Challenge(0, 0, nonce, 0), ToChallenger(0, 0);
    var one, frame := Step(start, first, handed), PathFrame(PathChallenge, 0, 1, nonce);
    FirstChallenge(responder, nonce, handed);
    TwoSteps(start, first, second, handed);
    PathFrameRoundTrip(PathChallenge, 0, 1, nonce);
    assert frame.header.frameType == PathChallenge;
    hide Run, Start, Confirm, EncodeFrame, DecodeFrame, PathFrame, ReadPathMessage, Table.CreateChallenge;
    assert Step(one, second, handed) == Confirm(one, frame, 0);
    hide Step;
    ConfirmShape(one, frame, (1, nonce), 0);
    assert NonceOf([(1, nonce)], 1) == Some(nonce);
  }

  lemma TwoSteps(s: System, first: Event, second: Event, handed: set<FrameType>)
    ensures Run(s, [first, second], handed) == Step(Step(s, first, handed), second, handed)
  {
    hide Step;
    var one := Step(s, first, handed);
    assert [first, second][1..] == [second] && [second][1..] == [];
    assert Run(one, [second], handed) == Run(Step(one, second, handed), [], handed);
  }

  // The handler of responses does not check the type of the frame: paths are
  // active only when answered, over every run, if and only if no PathChallenge
  // frame is handed to it.
  lemma SafeIffNoChallenges(handed: set<FrameType>)
    ensures AlwaysAnswered(handed) <==> PathChallenge !in handed
  {
    hide Run, Answered;
    if PathChallenge !in handed {
      forall challenger: Table, responder: Table, evs: seq<Event>, id: byte | Unchallenged(challenger)
        ensures Answered(Run(Start(challenger, responder), evs, handed), id)
      {
        ActivePathsWereAnswered(challenger, responder, evs, handed, id);
      }
    } else {
      var challenger, responder := NewTable(0, 1), NewTable(0, 0);
      var evs := [Challenge(0, 0, 0, 0), ToChallenger(0, 0)];
      OwnChallengeActivates(responder, 0, handed);
      assert Unchallenged(challenger) && !Answered(Run(Start(challenger, responder), evs, handed), 1);
    }
  }
}
