// Aether-CC: the congestion controller of aether-core/src/congestion.rs.
//
// Integers are 64-bit and wrap. The gains are floating-point factors in the
// library; here they are exact decimals and the product is rounded down, which
// agrees for windows below 2^48.
module Congestion {
  import opened Bytes

  datatype Phase = Startup | Probe | Drain | Steady

  // A round-trip sample: the measured time in microseconds, and when, in nanoseconds.
  datatype Sample = Sample(rtt: u64, at: nat)

  const WINDOW_SECONDS := 10
  const MICROS := 1_000_000
  const NANOS := 1_000_000_000
  const U64_MAX: u64 := 0xFFFF_FFFF_FFFF_FFFF

  datatype Controller = Controller(
    cwnd: u64, minRtt: u64, maxBw: u64, gain: real, state: Phase, lastUpdate: nat, rttWindow: seq<Sample>)

  function NewController(initialCwnd: u64, now: nat): Controller {
    Controller(initialCwnd, U64_MAX, 0, 2.89, Startup, now, [])
  }

  // Whole seconds from t to now; none if t is later.
  function AgeSeconds(t: nat, now: nat): nat {
    if t <= now then (now - t) / NANOS else 0
  }

  // The samples that are less than ten seconds old.
  function Recent(s: seq<Sample>, now: nat): seq<Sample> {
    if s == [] then []
    else Recent(s[..|s| - 1], now)
         + if AgeSeconds(s[|s| - 1].at, now) < WINDOW_SECONDS then [s[|s| - 1]] else []
  }

  function Least(s: seq<Sample>): u64
    requires s != []
  {
    var last := s[|s| - 1].rtt;
    if |s| == 1 then last
    else
      var before := Least(s[..|s| - 1]);
      if last < before then last else before
  }

  function Scale(x: u64, gain: real): u64
    requires gain >= 0.0
  {
    var y := (x as real * gain).Floor;
    if y < U64 then y else U64_MAX
  }

  // Bandwidth times delay, in bytes.
  function Bdp(c: Controller): u64 {
    c.maxBw * c.minRtt % U64 / MICROS
  }

  // The bytes per second an acknowledgement shows; a zero round trip shows nothing.
  function Rate(bytesAcked: u64, rtt: u64): u64 {
    if rtt > 0 then bytesAcked * MICROS % U64 / rtt else 0
  }

  // The estimates after an acknowledgement, before the window is set.
  function Measured(c: Controller, bytesAcked: u64, rtt: u64, now: nat): Controller {
    var window := Recent(c.rttWindow, now) + [Sample(rtt, now)];
    var rate := Rate(bytesAcked, rtt);
    c.(rttWindow := window, minRtt := Least(window), maxBw := if rate > c.maxBw then rate else c.maxBw)
  }

  function AfterAck(c: Controller, bytesAcked: u64, rtt: u64, now: nat): Controller {
    var m := Measured(c, bytesAcked, rtt, now).(lastUpdate := now);
    match c.state
    case Startup =>
      var grown := m.(cwnd := Scale(c.cwnd, 1.1));
      if m.maxBw > 0 && grown.cwnd >= Bdp(m) then grown.(state := Drain, gain := 0.75) else grown
    case Probe => m.(gain := 1.25, cwnd := Scale(Bdp(m), 1.25))
    case Drain => m.(gain := 0.75, cwnd := Scale(Bdp(m), 0.75), state := Probe)
    case Steady => m.(cwnd := Bdp(m))
  }

  // A loss at more than three times the least round trip is taken for noise.
  function AfterLoss(c: Controller, rtt: u64): Controller {
    if rtt > c.minRtt * 3 % U64 then c else c.(cwnd := c.cwnd / 2, state := Steady, gain := 1.0)
  }

  class CongestionController {
    var cwnd: u64
    var minRtt: u64
    var maxBw: u64
    var gain: real
    var state: Phase
    var lastUpdate: nat
    var rttWindow: seq<Sample>

    ghost function View(): Controller
      reads this
    {
      Controller(cwnd, minRtt, maxBw, gain, state, lastUpdate, rttWindow)
    }

    constructor (initialCwnd: u64, now: nat)
      ensures View() == NewController(initialCwnd, now)
    {
      cwnd, minRtt, maxBw, gain := initialCwnd, U64_MAX, 0, 2.89;
      state, lastUpdate, rttWindow := Startup, now, [];
    }

    method OnAck(bytesAcked: u64, rtt: u64, now: nat)
      modifies this
      ensures View() == AfterAck(old(View()), bytesAcked, rtt, now)
    {
      if rtt < minRtt {
        minRtt := rtt;
      }
      rttWindow := Recent(rttWindow, now);
      rttWindow := rttWindow + [Sample(rtt, now)];
      minRtt := Least(rttWindow);
      var deliveryRate := if rtt > 0 then bytesAcked * MICROS % U64 / rtt else maxBw;
      if deliveryRate > maxBw {
        maxBw := deliveryRate;
      }
      match state {
        case Startup =>
          cwnd := Scale(cwnd, 1.1);
          if maxBw > 0 && cwnd >= maxBw * minRtt % U64 / MICROS {
            state, gain := Drain, 0.75;
          }
        case Probe =>
          gain := 1.25;
          cwnd := maxBw * minRtt % U64 / MICROS;
          cwnd := Scale(cwnd, gain);
        case Drain =>
          gain := 0.75;
          cwnd := maxBw * minRtt % U64 / MICROS;
          cwnd := Scale(cwnd, gain);
          state := Probe;
        case Steady =>
          cwnd := maxBw * minRtt % U64 / MICROS;
      }
      lastUpdate := now;
    }

    method OnLoss(currentRtt: u64)
      modifies this
      ensures View() == AfterLoss(old(View()), currentRtt)
    {
      var isNoise := currentRtt > minRtt * 3 % U64;
      if !isNoise {
        cwnd := cwnd / 2;
        state := Steady;
        gain := 1.0;
      }
    }
  }
}
