// The path table of one endpoint: PathManager in aether-core/src/multipath.rs.
// Nonces and clock readings are arguments; addresses are numbers. Scores and
// smoothing are floating point in the library and exact here.
module Multipath {
  import opened Bytes
  import opened Framing

  type Address = nat

  datatype PathState = PathState(
    id: byte, localAddr: Address, remoteAddr: Address, active: bool, rttUs: u64,
    packetsLost: u64, packetsSent: u64, lastActive: nat, challengeNonce: Option<u64>)
  {
    // Smaller is better; only active paths are ever compared.
    function Score(): real {
      var loss := if packetsSent > 0 then packetsLost as real / packetsSent as real else 0.0;
      rttUs as real / 1000.0 * (1.0 + loss * 10.0)
    }
  }

  function NewPath(id: byte, localAddr: Address, remoteAddr: Address, now: nat): PathState {
    PathState(id, localAddr, remoteAddr, false, 0, 0, 0, now, None)
  }

  // An exponentially weighted average with weight 1/8, rounded down; the first
  // sample, and any sample after an estimate of zero, is taken as it is.
  function Smooth(estimate: u64, sample: u64): (e: u64) {
    if estimate == 0 then sample
    else
      SmoothIsEighths(estimate, sample);
      (estimate as real * 0.875 + sample as real * 0.125).Floor
  }

  lemma SmoothIsEighths(estimate: u64, sample: u64)
    ensures (estimate as real * 0.875 + sample as real * 0.125).Floor == (7 * estimate + sample) / 8
  {
    var q, r := (7 * estimate + sample) / 8, (7 * estimate + sample) % 8;
    assert estimate as real * 0.875 + sample as real * 0.125 == q as real + r as real / 8.0;
  }

  datatype Table = Table(paths: map<byte, PathState>, nextPathId: byte, maxPaths: nat, connectionId: u64) {
    // The 32 high bits, which short headers carry.
    function WireId(): u32 {
      connectionId / U32
    }

    function RegisterPrimary(localAddr: Address, remoteAddr: Address, now: nat): Table {
      this.(paths := paths[0 := NewPath(0, localAddr, remoteAddr, now).(active := true)])
    }

    function CreateChallenge(localAddr: Address, remoteAddr: Address, nonce: u64, now: nat): (Table, Result<(Frame, byte)>) {
      if |paths| >= maxPaths then (this, Err(Error.FlowControl))
      else
        var path := NewPath(nextPathId, localAddr, remoteAddr, now).(challengeNonce := Some(nonce));
        (this.(paths := paths[nextPathId := path], nextPathId := (nextPathId + 1) % 0x100),
         Ok((PathFrame(PathChallenge, WireId(), nextPathId, nonce), nextPathId)))
    }

    function HandleResponse(frame: Frame, now: nat): (Table, Result<byte>) {
      match ReadPathMessage(frame)
      case Err(e) => (this, Err(e))
      case Ok((id, nonce)) =>
        if id !in paths then (this, Err(ProtocolViolation))
        else if paths[id].challengeNonce != Some(nonce) then (this, Err(Error.Crypto))
        else
          (this.(paths := paths[id := paths[id].(active := true, challengeNonce := None, lastActive := now)]), Ok(id))
    }

    function HandleChallenge(frame: Frame, remoteAddr: Address, localAddr: Address, now: nat): (Table, Result<(Frame, byte)>) {
      match ReadPathMessage(frame)
      case Err(e) => (this, Err(e))
      case Ok((id, nonce)) =>
        var path := if id in paths then paths[id] else NewPath(id, localAddr, remoteAddr, now);
        (this.(paths := paths[id := path.(remoteAddr := remoteAddr, lastActive := now, active := true)]),
         Ok((PathFrame(PathResponse, WireId(), id, nonce), id)))
    }

    function Deactivate(id: byte): Table {
      if id in paths then this.(paths := paths[id := paths[id].(active := false)]) else this
    }

    function RecordSend(id: byte, now: nat): Table {
      if id in paths then
        this.(paths := paths[id := paths[id].(packetsSent := (paths[id].packetsSent + 1) % U64, lastActive := now)])
      else this
    }

    function RecordLoss(id: byte): Table {
      if id in paths then this.(paths := paths[id := paths[id].(packetsLost := (paths[id].packetsLost + 1) % U64)])
      else this
    }

    function RecordRtt(id: byte, rttUs: u64): Table {
      if id in paths then this.(paths := paths[id := paths[id].(rttUs := Smooth(paths[id].rttUs, rttUs))]) else this
    }

    function CheckTimeouts(timeoutMs: u64, now: nat): Table {
      this.(paths := map id | id in paths :: TimeOut(paths[id], timeoutMs, now))
    }
  }

  function TimeOut(path: PathState, timeoutMs: u64, now: nat): PathState {
    var idle := if path.lastActive <= now then (now - path.lastActive) / 1_000_000 % U64 else 0;
    if path.active && idle > timeoutMs then path.(active := false) else path
  }

  function NewTable(connectionId: u64, maxPaths: nat): Table {
    Table(map[], 1, maxPaths, connectionId)
  }

  // The first PathId extension of a frame names the path.
  function ExtractPathId(es: seq<Extension>): Result<byte> {
    if es == [] then Err(ProtocolViolation)
    else if es[0].extType == PathId then
      if es[0].value == [] then Err(ProtocolViolation) else Ok(es[0].value[0])
    else ExtractPathId(es[1..])
  }

  // The path and the nonce that a challenge or a response carries.
  function ReadPathMessage(frame: Frame): Result<(byte, u64)> {
    match ExtractPathId(frame.extensions)
    case Err(e) => Err(e)
    case Ok(id) =>
      if |frame.payload| >= 8 then Ok((id, ReadU64(frame.payload[..8]))) else Err(ProtocolViolation)
  }

  // `r` is a best path of the table: none when none is active, and otherwise an
  // active path that no active path beats.
  ghost predicate IsBest(paths: map<byte, PathState>, r: Option<byte>) {
    match r
    case None => forall id | id in paths :: !paths[id].active
    case Some(best) =>
      && best in paths && paths[best].active
      && forall id | id in paths && paths[id].active :: paths[best].Score() <= paths[id].Score()
  }

  // ---------- what being best means ----------

  // The part of a path's packets that were lost, as weights over whole numbers:
  // one and ten times the loss, times what was sent.
  function Sent(p: PathState): (n: nat)
    ensures n > 0
  {
    if p.packetsSent > 0 then p.packetsSent else 1
  }

  function Penalty(p: PathState): nat {
    if p.packetsSent > 0 then p.packetsSent + 10 * p.packetsLost else 1
  }

  // a is no worse than b: its round trip, lengthened tenfold by the part of its
  // packets that were lost, is no longer.
  predicate NoWorse(a: PathState, b: PathState) {
    a.rttUs * Penalty(a) * Sent(b) <= b.rttUs * Penalty(b) * Sent(a)
  }

  lemma ScoreIsFraction(p: PathState)
    ensures p.Score() * (1000 * Sent(p)) as real == (p.rttUs * Penalty(p)) as real
  {
    var rtt, sent, lost := p.rttUs as real, p.packetsSent as real, p.packetsLost as real;
    if p.packetsSent > 0 {
      var loss := lost / sent;
      assert loss * sent == lost;
      TimesSent(rtt / 1000.0, loss, sent, lost);
      assert p.Score() == rtt / 1000.0 * (1.0 + loss * 10.0);
      assert rtt / 1000.0 * 1000.0 == rtt;
      Rearrange(p.Score(), sent, rtt, rtt / 1000.0, lost);
      assert (p.rttUs * Penalty(p)) as real == rtt * (sent + 10.0 * lost);
    } else {
      assert p.Score() == rtt / 1000.0;
    }
  }

  lemma TimesSent(r: real, loss: real, sent: real, lost: real)
    requires loss * sent == lost
    ensures r * (1.0 + loss * 10.0) * sent == r * (sent + 10.0 * lost)
  {
    assert (1.0 + loss * 10.0) * sent == sent + 10.0 * (loss * sent);
  }

  lemma Rearrange(score: real, sent: real, rtt: real, r: real, lost: real)
    requires r * 1000.0 == rtt && score * sent == r * (sent + 10.0 * lost)
    ensures score * (1000.0 * sent) == rtt * (sent + 10.0 * lost)
  {
  }

  lemma CrossMultiply(a: real, b: real, da: real, db: real, na: real, nb: real)
    requires da > 0.0 && db > 0.0 && a * da == na && b * db == nb
    ensures a <= b <==> na * db <= nb * da
  {
    assert na * db == a * (da * db);
    assert nb * da == b * (da * db);
    assert da * db > 0.0;
    SameOrder(a, b, da * db);
  }

  lemma SameOrder(a: real, b: real, d: real)
    requires d > 0.0
    ensures a <= b <==> a * d <= b * d
  {
    if a <= b {
      assert (b - a) * d >= 0.0;
    } else {
      assert (a - b) * d > 0.0;
    }
  }

  // Comparing scores is comparing whole numbers.
  lemma ScoreOrder(a: PathState, b: PathState)
    ensures a.Score() <= b.Score() <==> NoWorse(a, b)
  {
    var na, nb := a.rttUs * Penalty(a), b.rttUs * Penalty(b);
    var sa, sb := Sent(a), Sent(b);
    ScoreIsFraction(a);
    ScoreIsFraction(b);
    hide PathState.Score, Penalty, Sent;
    CrossMultiply(a.Score(), b.Score(), (1000 * sa) as real, (1000 * sb) as real, na as real, nb as real);
    assert na as real * (1000 * sb) as real == (na * (1000 * sb)) as real;
    assert nb as real * (1000 * sa) as real == (nb * (1000 * sa)) as real;
    Thousandfold(na, sb);
    Thousandfold(nb, sa);
  }

  lemma Thousandfold(n: nat, s: nat)
    ensures n * (1000 * s) == 1000 * (n * s)
  {
  }

  // Among paths that lost the same part of what was sent, the better is the one
  // with the shorter round trip; among paths with the same round trip, the one
  // that lost less.
  lemma NoWorseMeans(a: PathState, b: PathState)
    requires NoWorse(a, b)
    ensures a.packetsSent == b.packetsSent == 0 ==> a.rttUs <= b.rttUs
    ensures a.packetsSent > 0 && b.packetsSent > 0 && a.packetsLost * b.packetsSent == b.packetsLost * a.packetsSent ==>
              a.rttUs <= b.rttUs
    ensures a.packetsSent > 0 && b.packetsSent > 0 && a.rttUs == b.rttUs > 0 ==>
              a.packetsLost * b.packetsSent <= b.packetsLost * a.packetsSent
  {
    if a.packetsSent > 0 && b.packetsSent > 0 {
      CommonWeight(a.rttUs, a.packetsSent, a.packetsLost, b.rttUs, b.packetsSent, b.packetsLost);
    }
  }

  lemma CommonWeight(ra: nat, sa: nat, la: nat, rb: nat, sb: nat, lb: nat)
    requires sa > 0 && sb > 0 && ra * (sa + 10 * la) * sb <= rb * (sb + 10 * lb) * sa
    ensures la * sb == lb * sa ==> ra <= rb
    ensures ra == rb > 0 ==> la * sb <= lb * sa
  {
    Expand(ra, sa, la, sb);
    Expand(rb, sb, lb, sa);
    assert sb * sa == sa * sb;
    assert sa * sb > 0;
    CommonPart(ra, rb, sa * sb, la * sb, lb * sa);
  }

  lemma Expand(r: nat, s: nat, l: nat, other: nat)
    ensures r * (s + 10 * l) * other == r * (s * other + 10 * (l * other))
  {
    assert (s + 10 * l) * other == s * other + 10 * (l * other);
  }

  lemma CommonPart(ra: nat, rb: nat, p: nat, u: nat, v: nat)
    requires ra * (p + 10 * u) <= rb * (p + 10 * v)
    ensures u == v && p > 0 ==> ra <= rb
    ensures ra == rb > 0 ==> u <= v
  {
    if u == v && p > 0 {
      Cancel(p + 10 * u, ra, rb);
    }
    if ra == rb && rb > 0 {
      Cancel(ra, p + 10 * u, p + 10 * v);
    }
  }

  lemma Cancel(k: nat, a: nat, b: nat)
    requires k > 0 && (k * a <= k * b || a * k <= b * k)
    ensures a <= b
  {
    assert k * a - k * b == k * (a - b);
  }

  // The same of a whole table, in whole numbers.
  ghost predicate IsLeast(paths: map<byte, PathState>, r: Option<byte>) {
    match r
    case None => forall id | id in paths :: !paths[id].active
    case Some(best) =>
      && best in paths && paths[best].active
      && forall id | id in paths && paths[id].active :: NoWorse(paths[best], paths[id])
  }

  lemma BestIsLeast(paths: map<byte, PathState>, r: Option<byte>)
    ensures IsBest(paths, r) <==> IsLeast(paths, r)
  {
    hide PathState.Score, NoWorse;
    if r.Some? && r.value in paths {
      forall id | id in paths ensures paths[r.value].Score() <= paths[id].Score() <==> NoWorse(paths[r.value], paths[id]) {
        ScoreOrder(paths[r.value], paths[id]);
      }
    }
  }

  class PathManager {
    var paths: map<byte, PathState>
    var nextPathId: byte
    var primaryPathId: byte
    const maxPaths: nat
    const connectionId: u64

    ghost function View(): Table
      reads this
    {
      Table(paths, nextPathId, maxPaths, connectionId)
    }

    constructor (connectionId: u64, maxPaths: nat)
      ensures View() == NewTable(connectionId, maxPaths) && primaryPathId == 0
    {
      paths, nextPathId, primaryPathId := map[], 1, 0;
      this.maxPaths, this.connectionId := maxPaths, connectionId;
    }

    method RegisterPrimary(localAddr: Address, remoteAddr: Address, now: nat) returns (id: byte)
      modifies this
      ensures View() == old(View()).RegisterPrimary(localAddr, remoteAddr, now)
      ensures id == primaryPathId == 0
    {
      var path := NewPath(0, localAddr, remoteAddr, now);
      path := path.(active := true);
      paths := paths[0 := path];
      primaryPathId := 0;
      id := 0;
    }

    method CreatePathChallenge(localAddr: Address, remoteAddr: Address, nonce: u64, now: nat)
      returns (r: Result<(Frame, byte)>)
      modifies this
      ensures (View(), r) == old(View()).CreateChallenge(localAddr, remoteAddr, nonce, now)
      ensures primaryPathId == old(primaryPathId)
    {
      if |paths| >= maxPaths {
        return Err(Error.FlowControl);
      }
      var pathId := nextPathId;
      nextPathId := (nextPathId + 1) % 0x100;
      var path := NewPath(pathId, localAddr, remoteAddr, now);
      path := path.(challengeNonce := Some(nonce));
      path := path.(lastActive := now);
      paths := paths[pathId := path];
      r := Ok((PathFrame(PathChallenge, connectionId / U32, pathId, nonce), pathId));
    }

    method FindPathId(frame: Frame) returns (r: Result<byte>)
      ensures r == ExtractPathId(frame.extensions)
    {
      var i := 0;
      while i < |frame.extensions|
        invariant i <= |frame.extensions|
        invariant ExtractPathId(frame.extensions) == ExtractPathId(frame.extensions[i..])
      {
        var ext := frame.extensions[i];
        assert frame.extensions[i..][0] == ext && frame.extensions[i..][1..] == frame.extensions[i + 1..];
        if ext.extType == PathId {
          if ext.value == [] {
            return Err(ProtocolViolation);
          }
          return Ok(ext.value[0]);
        }
        i := i + 1;
      }
      r := Err(ProtocolViolation);
    }

    method HandlePathResponse(frame: Frame, now: nat) returns (r: Result<byte>)
      modifies this
      ensures (View(), r) == old(View()).HandleResponse(frame, now)
      ensures primaryPathId == old(primaryPathId)
    {
      var pathId := FindPathId(frame);
      if pathId.Err? {
        return pathId;
      }
      if |frame.payload| < 8 {
        return Err(ProtocolViolation);
      }
      var id, nonce := pathId.value, ReadU64(frame.payload[..8]);
      if id !in paths {
        return Err(ProtocolViolation);
      }
      var path := paths[id];
      if path.challengeNonce != Some(nonce) {
        return Err(Error.Crypto);
      }
      path := path.(active := true);
      path := path.(challengeNonce := None);
      path := path.(lastActive := now);
      paths := paths[id := path];
      r := Ok(id);
    }

    method HandlePathChallenge(frame: Frame, remoteAddr: Address, localAddr: Address, now: nat)
      returns (r: Result<(Frame, byte)>)
      modifies this
      ensures (View(), r) == old(View()).HandleChallenge(frame, remoteAddr, localAddr, now)
      ensures primaryPathId == old(primaryPathId)
    {
      var pathId := FindPathId(frame);
      if pathId.Err? {
        return Err(pathId.error);
      }
      if |frame.payload| < 8 {
        return Err(ProtocolViolation);
      }
      var id, nonce := pathId.value, ReadU64(frame.payload[..8]);
      var path := if id in paths then paths[id] else NewPath(id, localAddr, remoteAddr, now);
      path := path.(remoteAddr := remoteAddr);
      path := path.(lastActive := now);
      path := path.(active := true);
      paths := paths[id := path];
      r := Ok((PathFrame(PathResponse, connectionId / U32, id, nonce), id));
    }

    method DeactivatePath(id: byte)
      modifies this
      ensures View() == old(View()).Deactivate(id) && primaryPathId == old(primaryPathId)
    {
      if id in paths {
        paths := paths[id := paths[id].(active := false)];
      }
    }

    method RecordSend(id: byte, now: nat)
      modifies this
      ensures View() == old(View()).RecordSend(id, now) && primaryPathId == old(primaryPathId)
    {
      if id in paths {
        var path := paths[id];
        path := path.(packetsSent := (path.packetsSent + 1) % U64);
        path := path.(lastActive := now);
        paths := paths[id := path];
      }
    }

    method RecordLoss(id: byte)
      modifies this
      ensures View() == old(View()).RecordLoss(id) && primaryPathId == old(primaryPathId)
    {
      if id in paths {
        paths := paths[id := paths[id].(packetsLost := (paths[id].packetsLost + 1) % U64)];
      }
    }

    method RecordRtt(id: byte, rttUs: u64)
      modifies this
      ensures View() == old(View()).RecordRtt(id, rttUs) && primaryPathId == old(primaryPathId)
    {
      if id in paths {
        paths := paths[id := paths[id].(rttUs := Smooth(paths[id].rttUs, rttUs))];
      }
    }

    method CheckTimeouts(timeoutMs: u64, now: nat)
      modifies this
      ensures View() == old(View()).CheckTimeouts(timeoutMs, now) && primaryPathId == old(primaryPathId)
    {
      ghost var before := paths;
      var todo := paths.Keys;
      while todo != {}
        invariant paths.Keys == before.Keys && todo <= before.Keys
        invariant forall id | id in todo :: paths[id] == before[id]
        invariant forall id | id in before && id !in todo :: paths[id] == TimeOut(before[id], timeoutMs, now)
        invariant nextPathId == old(nextPathId) && primaryPathId == old(primaryPathId)
        decreases todo
      {
        var id :| id in todo;
        paths := paths[id := TimeOut(paths[id], timeoutMs, now)];
        todo := todo - {id};
      }
    }

    // Visits the paths in whatever order the table yields them.
    method BestPath() returns (best: Option<byte>)
      ensures IsBest(paths, best) && IsLeast(paths, best)
    {
      hide NoWorse;
      best := None;
      var todo := paths.Keys;
      while todo != {}
        invariant todo <= paths.Keys
        invariant best.None? ==> forall id | id in paths && id !in todo :: !paths[id].active
        invariant best.Some? ==> best.value in paths && paths[best.value].active
        invariant best.Some? ==> forall id | id in paths && id !in todo && paths[id].active ::
                                   paths[best.value].Score() <= paths[id].Score()
        decreases todo
      {
        var id :| id in todo;
        if paths[id].active && (best.None? || paths[id].Score() < paths[best.value].Score()) {
          best := Some(id);
        }
        todo := todo - {id};
      }
      BestIsLeast(paths, best);
    }
  }

  // ---------- smoothing ----------

  function Estimate(estimate: u64, samples: seq<u64>): u64
    decreases |samples|
  {
    if samples == [] then estimate else Estimate(Smooth(estimate, samples[0]), samples[1..])
  }

  // Once an estimate is within the range of the samples it stays there.
  lemma {:induction false} EstimateStaysInRange(estimate: u64, samples: seq<u64>, lo: u64, hi: u64)
    requires 0 < lo <= hi && (estimate == 0 || lo <= estimate <= hi)
    requires forall i | 0 <= i < |samples| :: lo <= samples[i] <= hi
    ensures samples != [] ==> lo <= Estimate(estimate, samples) <= hi
    decreases |samples|
  {
    if samples != [] {
      var next := Smooth(estimate, samples[0]);
      SmoothIsEighths(estimate, samples[0]);
      assert lo <= samples[0] <= hi;
      assert lo <= next <= hi;
      EstimateStaysInRange(next, samples[1..], lo, hi);
    }
  }

  // Where the estimate settles under a constant sample: from above on the
  // sample itself, from far below seven short of it, and otherwise where it is.
  function Limit(estimate: u64, sample: u64): u64 {
    if estimate == 0 || estimate >= sample then sample
    else if estimate + 7 <= sample then sample - 7
    else estimate
  }

  lemma SmoothTowardsLimit(estimate: u64, sample: u64)
    requires sample > 0
    ensures Limit(Smooth(estimate, sample), sample) == Limit(estimate, sample)
    ensures estimate == Limit(estimate, sample) ==> Smooth(estimate, sample) == estimate
    ensures estimate != Limit(estimate, sample) ==> Distance(Smooth(estimate, sample), sample) < Distance(estimate, sample)
  {
    SmoothIsEighths(estimate, sample);
  }

  // How far the estimate is from its limit.
  function Distance(estimate: u64, sample: u64): nat {
    var limit := Limit(estimate, sample);
    if estimate == 0 then sample + 1
    else if estimate >= limit then estimate - limit else limit - estimate
  }

  // Under a constant sample the estimate reaches its limit in finitely many
  // steps, and stays there.
  lemma {:induction false} EstimateConverges(estimate: u64, samples: seq<u64>, sample: u64)
    requires sample > 0 && forall i | 0 <= i < |samples| :: samples[i] == sample
    requires |samples| >= Distance(estimate, sample)
    ensures Estimate(estimate, samples) == Limit(estimate, sample)
    ensures sample <= Limit(estimate, sample) + 7 && Limit(estimate, sample) <= sample
    decreases |samples|
  {
    if samples != [] {
      SmoothTowardsLimit(estimate, sample);
      assert samples[0] == sample;
      EstimateConverges(Smooth(estimate, sample), samples[1..], sample);
    }
  }

  // ---------- failing over ----------

  // Deactivating the best path leaves as best a different path that was active
  // all along and is at most as good, or none if there was no other.
  lemma FailOver(t: Table, best: byte, next: Option<byte>)
    requires IsBest(t.paths, Some(best)) && IsBest(t.Deactivate(best).paths, next)
    ensures match next
            case None => forall id | id in t.paths && id != best :: !t.paths[id].active
            case Some(other) =>
              other != best && other in t.paths && t.paths[other].active
              && NoWorse(t.paths[best], t.paths[other])
              && forall id | id in t.paths && id != best && t.paths[id].active :: NoWorse(t.paths[other], t.paths[id])
  {
    BestIsLeast(t.paths, Some(best));
    BestIsLeast(t.Deactivate(best).paths, next);
    hide NoWorse, PathState.Score;
    var after := t.Deactivate(best).paths;
    assert forall id | id in t.paths && id != best :: id in after && after[id] == t.paths[id];
  }
}
