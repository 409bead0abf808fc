// Aether-CC over whole runs of acknowledgements and losses.
module CongestionRuns {
  import opened Bytes
  import opened Congestion

  datatype Event = Ack(bytesAcked: u64, rtt: u64, now: nat) | Loss(rtt: u64)

  function Step(c: Controller, ev: Event): Controller {
    match ev
    case Ack(bytesAcked, rtt, now) => AfterAck(c, bytesAcked, rtt, now)
    case Loss(rtt) => AfterLoss(c, rtt)
  }

  function Run(c: Controller, evs: seq<Event>): Controller {
    if evs == [] then c else Step(Run(c, evs[..|evs| - 1]), evs[|evs| - 1])
  }

  // The acknowledgements of a run, oldest first.
  function Acks(evs: seq<Event>): (s: seq<Event>)
    ensures forall i | 0 <= i < |s| :: s[i].Ack?
  {
    if evs == [] then []
    else Acks(evs[..|evs| - 1]) + if evs[|evs| - 1].Ack? then [evs[|evs| - 1]] else []
  }

  function Samples(acks: seq<Event>): (s: seq<Sample>)
    requires forall i | 0 <= i < |acks| :: acks[i].Ack?
    ensures |s| == |acks|
  {
    seq(|acks|, i requires 0 <= i < |acks| => Sample(acks[i].rtt, acks[i].now))
  }

  function MaxRate(acks: seq<Event>): u64
    requires forall i | 0 <= i < |acks| :: acks[i].Ack?
  {
    if acks == [] then 0
    else
      var before, last := MaxRate(acks[..|acks| - 1]), acks[|acks| - 1];
      if Rate(last.bytesAcked, last.rtt) > before then Rate(last.bytesAcked, last.rtt) else before
  }

  // The clock never runs backwards.
  ghost predicate Monotone(acks: seq<Event>)
    requires forall i | 0 <= i < |acks| :: acks[i].Ack?
  {
    forall i, j | 0 <= i < j < |acks| :: acks[i].now <= acks[j].now
  }

  // ---------- the sliding window agrees with the whole history ----------

  lemma RecentAppend(s: seq<Sample>, x: Sample, now: nat)
    ensures Recent(s + [x], now)
         == Recent(s, now) + if AgeSeconds(x.at, now) < WINDOW_SECONDS then [x] else []
  {
    assert (s + [x])[..|s|] == s;
  }

  lemma OldStaysOld(t: nat, early: nat, late: nat)
    requires t <= early <= late && AgeSeconds(t, early) >= WINDOW_SECONDS
    ensures AgeSeconds(t, late) >= WINDOW_SECONDS
  {
  }

  // Filtering early loses nothing that a later filter would keep.
  lemma {:induction false} RecentTwice(s: seq<Sample>, early: nat, late: nat)
    requires early <= late && forall i | 0 <= i < |s| :: s[i].at <= early
    ensures Recent(Recent(s, early), late) == Recent(s, late)
  {
    if s != [] {
      var init, last := s[..|s| - 1], s[|s| - 1];
      RecentTwice(init, early, late);
      assert s == init + [last];
      hide Recent, AgeSeconds;
      RecentAppend(init, last, early);
      RecentAppend(init, last, late);
      if AgeSeconds(last.at, early) < WINDOW_SECONDS {
        RecentAppend(Recent(init, early), last, late);
      } else {
        OldStaysOld(last.at, early, late);
        assert Recent(s, early) == Recent(init, early) + [] == Recent(init, early);
        assert Recent(s, late) == Recent(init, late) + [] == Recent(init, late);
      }
    }
  }

  lemma AcksAppend(evs: seq<Event>, ev: Event)
    ensures Acks(evs + [ev]) == Acks(evs) + if ev.Ack? then [ev] else []
  {
    assert (evs + [ev])[..|evs|] == evs;
  }

  // The controller's cache against a history of acknowledgements: the window
  // holds exactly the samples under ten seconds old at the last of them, min_rtt
  // is the least of those, and max_bw is the greatest rate of the whole history.
  ghost predicate Agrees(c: Controller, acks: seq<Event>)
    requires forall i | 0 <= i < |acks| :: acks[i].Ack?
  {
    if acks == [] then c.rttWindow == [] && c.minRtt == U64_MAX && c.maxBw == 0
    else
      && c.rttWindow == Recent(Samples(acks), acks[|acks| - 1].now) && c.rttWindow != []
      && c.minRtt == Least(c.rttWindow)
      && c.maxBw == MaxRate(acks)
  }

  // The window as it was, filtered again and extended, is the new history filtered.
  lemma WindowAgrees(acks: seq<Event>, ev: Event, window: seq<Sample>)
    requires forall i | 0 <= i < |acks| :: acks[i].Ack?
    requires ev.Ack? && Monotone(acks + [ev])
    requires window == if acks == [] then [] else Recent(Samples(acks), acks[|acks| - 1].now)
    ensures Recent(window, ev.now) + [Sample(ev.rtt, ev.now)] == Recent(Samples(acks + [ev]), ev.now)
  {
    var s, x, all := Samples(acks), Sample(ev.rtt, ev.now), acks + [ev];
    assert Samples(all) == s + [x];
    hide Recent, Samples, AgeSeconds;
    RecentAppend(s, x, ev.now);
    FreshAge(ev.now);
    if acks == [] {
      NoSamples(ev.now);
      assert acks == [];
    } else {
      var last := acks[|acks| - 1];
      assert all[|acks| - 1] == last && all[|acks|] == ev;
      forall i | 0 <= i < |s| ensures s[i].at <= last.now {
        assert all[i] == acks[i];
        SampleAt(acks, i);
      }
      RecentTwice(s, last.now, ev.now);
    }
  }

  lemma AckAgrees(c: Controller, acks: seq<Event>, ev: Event)
    requires forall i | 0 <= i < |acks| :: acks[i].Ack?
    requires ev.Ack? && Monotone(acks + [ev]) && Agrees(c, acks)
    ensures Agrees(Step(c, ev), acks + [ev])
  {
    WindowAgrees(acks, ev, c.rttWindow);
    StepMeasures(c, ev);
    hide Step, Recent, Least, Rate, Samples, AgeSeconds, Monotone;
    RateAppend(acks, ev);
    assert (acks + [ev])[|acks|] == ev;
  }

  lemma StepMeasures(c: Controller, ev: Event)
    requires ev.Ack?
    ensures var window, rate := Recent(c.rttWindow, ev.now) + [Sample(ev.rtt, ev.now)], Rate(ev.bytesAcked, ev.rtt);
            && Step(c, ev).rttWindow == window && Step(c, ev).minRtt == Least(window)
            && Step(c, ev).maxBw == if rate > c.maxBw then rate else c.maxBw
  {
    hide Recent, Least, Rate, Scale, Bdp;
  }

  lemma RateAppend(acks: seq<Event>, ev: Event)
    requires ev.Ack? && forall i | 0 <= i < |acks| :: acks[i].Ack?
    ensures var before, rate := MaxRate(acks), Rate(ev.bytesAcked, ev.rtt);
            MaxRate(acks + [ev]) == if rate > before then rate else before
  {
    hide Rate;
    assert (acks + [ev])[..|acks|] == acks;
  }

  lemma SampleAt(acks: seq<Event>, i: nat)
    requires i < |acks| && forall i | 0 <= i < |acks| :: acks[i].Ack?
    ensures Samples(acks)[i] == Sample(acks[i].rtt, acks[i].now)
  {
  }

  lemma NoSamples(now: nat)
    ensures Samples([]) == [] && Recent([], now) == []
  {
  }

  lemma FreshAge(now: nat)
    ensures AgeSeconds(now, now) == 0
  {
  }

  // After every run the cache agrees with the history of all its acknowledgements.
  lemma {:induction false} CacheAgreesWithHistory(cwnd: u64, begin: nat, evs: seq<Event>)
    requires Monotone(Acks(evs))
    ensures Agrees(Run(NewController(cwnd, begin), evs), Acks(evs))
  {
    if evs != [] {
      var init, ev := evs[..|evs| - 1], evs[|evs| - 1];
      var before, c := Acks(init), Run(NewController(cwnd, begin), init);
      assert evs == init + [ev];
      AcksAppend(init, ev);
      assert forall i | 0 <= i < |before| :: before[i] == Acks(evs)[i];
      CacheAgreesWithHistory(cwnd, begin, init);
      if ev.Ack? {
        hide Agrees, Monotone, Step;
        AckAgrees(c, before, ev);
      } else {
        hide Recent, Least, MaxRate, Samples, Acks;
        assert Acks(evs) == before + [] == before;
      }
    }
  }

  // ---------- the bandwidth-delay product ----------

  function MaxBytes(acks: seq<Event>): u64
    requires forall i | 0 <= i < |acks| :: acks[i].Ack?
  {
    if acks == [] then 0
    else
      var before, last := MaxBytes(acks[..|acks| - 1]), acks[|acks| - 1];
      if last.bytesAcked > before then last.bytesAcked else before
  }

  lemma {:induction false} LeastIsLeast(s: seq<Sample>, x: Sample)
    requires x in s
    ensures Least(s) <= x.rtt
  {
    if x in s[..|s| - 1] {
      LeastIsLeast(s[..|s| - 1], x);
    }
  }

  lemma RateBound(bytesAcked: u64, sampleRtt: u64, rtt: nat)
    requires rtt <= sampleRtt && bytesAcked * MICROS < U64
    ensures Rate(bytesAcked, sampleRtt) * rtt <= bytesAcked * MICROS
  {
    if sampleRtt > 0 {
      var rate := Rate(bytesAcked, sampleRtt);
      assert rate * sampleRtt <= bytesAcked * MICROS;
      hide Rate;
      assert rate * rtt <= rate * sampleRtt;
    }
  }

  lemma {:induction false} RecentMember(s: seq<Sample>, i: nat, now: nat)
    requires i < |s| && AgeSeconds(s[i].at, now) < WINDOW_SECONDS
    ensures s[i] in Recent(s, now)
  {
    hide AgeSeconds;
    if i < |s| - 1 {
      RecentMember(s[..|s| - 1], i, now);
    }
  }

  lemma Quotient(product: nat, most: nat)
    requires product <= most * MICROS < U64
    ensures product % U64 / MICROS == product / MICROS <= most
  {
  }

  // Acknowledgement i set the bandwidth and is still in the window.
  ghost predicate RateSetterIsRecent(acks: seq<Event>, i: nat, now: nat)
    requires forall i | 0 <= i < |acks| :: acks[i].Ack?
  {
    i < |acks| && Rate(acks[i].bytesAcked, acks[i].rtt) == MaxRate(acks) && AgeSeconds(acks[i].now, now) < WINDOW_SECONDS
  }

  lemma SmallProduct(c: Controller, bytesAcked: u64, rtt: u64)
    requires c.maxBw == Rate(bytesAcked, rtt) && c.minRtt <= rtt && bytesAcked * MICROS < U64
    ensures c.maxBw * c.minRtt <= bytesAcked * MICROS
    ensures Bdp(c) == c.maxBw * c.minRtt / MICROS <= bytesAcked
  {
    hide Rate;
    RateBound(bytesAcked, rtt, c.minRtt);
    Quotient(c.maxBw * c.minRtt, bytesAcked);
  }

  // As long as the acknowledgement that set the bandwidth has not aged out,
  // whatever else has, the product is at most its bytes, and its 64-bit
  // computation does not wrap.
  lemma BdpBound(cwnd: u64, begin: nat, evs: seq<Event>, i: nat)
    requires Acks(evs) != [] && Monotone(Acks(evs))
    requires var acks := Acks(evs); RateSetterIsRecent(acks, i, acks[|acks| - 1].now) && acks[i].bytesAcked * MICROS < U64
    ensures var c, most := Run(NewController(cwnd, begin), evs), Acks(evs)[i].bytesAcked;
            && c.maxBw * c.minRtt <= most * MICROS
            && Bdp(c) == c.maxBw * c.minRtt / MICROS <= most
  {
    var c, acks := Run(NewController(cwnd, begin), evs), Acks(evs);
    CacheAgreesWithHistory(cwnd, begin, evs);
    hide Run, Acks, MaxRate, Rate, Least, Recent, Samples, AgeSeconds, Monotone, Bdp;
    SampleAt(acks, i);
    RecentMember(Samples(acks), i, acks[|acks| - 1].now);
    LeastIsLeast(c.rttWindow, Samples(acks)[i]);
    SmallProduct(c, acks[i].bytesAcked, acks[i].rtt);
  }

  lemma {:induction false} MaxRateIsAttained(acks: seq<Event>) returns (i: nat)
    requires acks != [] && forall i | 0 <= i < |acks| :: acks[i].Ack?
    ensures i < |acks| && Rate(acks[i].bytesAcked, acks[i].rtt) == MaxRate(acks)
  {
    hide Rate;
    var init, last := acks[..|acks| - 1], acks[|acks| - 1];
    i := |acks| - 1;
    if Rate(last.bytesAcked, last.rtt) <= MaxRate(init) && init != [] {
      i := MaxRateIsAttained(init);
    }
  }

  lemma {:induction false} MaxBytesIsMost(acks: seq<Event>, i: nat)
    requires i < |acks| && forall i | 0 <= i < |acks| :: acks[i].Ack?
    ensures acks[i].bytesAcked <= MaxBytes(acks)
  {
    if i < |acks| - 1 {
      MaxBytesIsMost(acks[..|acks| - 1], i);
    }
  }

  lemma YoungerThan(acks: seq<Event>, i: nat, now: nat)
    requires i < |acks| && forall i | 0 <= i < |acks| :: acks[i].Ack?
    requires Monotone(acks) && AgeSeconds(acks[0].now, now) < WINDOW_SECONDS
    ensures AgeSeconds(acks[i].now, now) < WINDOW_SECONDS
  {
    assert i > 0 ==> acks[0].now <= acks[i].now;
  }

  // In particular, while nothing at all has aged out, the product is at most
  // the largest acknowledgement seen.
  lemma BdpBoundWhileFresh(cwnd: u64, begin: nat, evs: seq<Event>)
    requires Acks(evs) != [] && Monotone(Acks(evs)) && MaxBytes(Acks(evs)) * MICROS < U64
    requires var acks := Acks(evs); AgeSeconds(acks[0].now, acks[|acks| - 1].now) < WINDOW_SECONDS
    ensures var c := Run(NewController(cwnd, begin), evs);
            && c.maxBw * c.minRtt < U64
            && Bdp(c) == c.maxBw * c.minRtt / MICROS <= MaxBytes(Acks(evs))
  {
    var acks := Acks(evs);
    hide Acks, Run, Rate, MaxRate, MaxBytes, AgeSeconds, Monotone, Bdp;
    var i := MaxRateIsAttained(acks);
    MaxBytesIsMost(acks, i);
    YoungerThan(acks, i, acks[|acks| - 1].now);
    BdpBound(cwnd, begin, evs, i);
  }

  // ---------- when the bound outlives the next acknowledgement ----------

  // The least round trip of a window; none is as good as the greatest there is.
  function LeastOr(s: seq<Sample>): u64 {
    if s == [] then U64_MAX else Least(s)
  }

  lemma LeastAppend(s: seq<Sample>, x: Sample)
    ensures Least(s + [x]) == if x.rtt < LeastOr(s) then x.rtt else LeastOr(s)
  {
    assert (s + [x])[..|s|] == s;
  }

  function Lower(a: u64, b: u64): u64 {
    if a < b then a else b
  }

  function Higher(a: u64, b: u64): u64 {
    if a > b then a else b
  }

  // Whatever is acknowledged next leaves the unwrapped product within `most`, or
  // within what is acknowledged if that is more (and its rate does not wrap).
  ghost predicate NextAcksStay(c: Controller, most: u64, now: nat) {
    forall bytesAcked: u64, rtt: u64 | bytesAcked * MICROS < U64 ::
      StaysWithin(Step(c, Ack(bytesAcked, rtt, now)), Higher(most, bytesAcked))
  }

  predicate StaysWithin(c: Controller, most: u64) {
    c.maxBw * c.minRtt / MICROS <= most
  }

  lemma QuotientIff(product: nat, most: nat)
    ensures product / MICROS <= most <==> product < (most + 1) * MICROS
  {
  }

  lemma Monotonic(a: nat, b: nat, c: nat)
    requires b <= c
    ensures a * b <= a * c
  {
  }

  lemma NextMeasures(c: Controller, ack: Event)
    requires ack.Ack?
    ensures Step(c, ack).maxBw == Higher(Rate(ack.bytesAcked, ack.rtt), c.maxBw)
    ensures Step(c, ack).minRtt == Lower(ack.rtt, LeastOr(Recent(c.rttWindow, ack.now)))
  {
    StepMeasures(c, ack);
    hide Step, Recent, Least, Rate;
    LeastAppend(Recent(c.rttWindow, ack.now), Sample(ack.rtt, ack.now));
  }

  // Either bandwidth, at the lower round trip, makes no more than `most` or than
  // was acknowledged.
  lemma EitherStays(bw: u64, rate: u64, least: u64, low: u64, bytesAcked: u64, most: u64)
    requires low <= least && bw * least < (most + 1) * MICROS && rate * low <= bytesAcked * MICROS
    ensures Higher(rate, bw) * low / MICROS <= Higher(most, bytesAcked)
  {
    var limit: nat, few: nat := Higher(most, bytesAcked), most;
    Monotonic(MICROS, bytesAcked, limit);
    Monotonic(MICROS, few + 1, limit + 1);
    if rate > bw {
      QuotientIff(rate * low, limit);
    } else {
      Monotonic(bw, low, least);
      QuotientIff(bw * low, limit);
    }
  }

  lemma NextAckStays(c: Controller, most: u64, ack: Event)
    requires ack.Ack? && ack.bytesAcked * MICROS < U64
    requires c.maxBw * LeastOr(Recent(c.rttWindow, ack.now)) < (most + 1) * MICROS
    ensures StaysWithin(Step(c, ack), Higher(most, ack.bytesAcked))
  {
    var least, rate := LeastOr(Recent(c.rttWindow, ack.now)), Rate(ack.bytesAcked, ack.rtt);
    var low := Lower(ack.rtt, least);
    assert low <= ack.rtt && low <= least;
    hide Step, Recent, LeastOr, Rate, Lower, Higher;
    NextMeasures(c, ack);
    RateBound(ack.bytesAcked, ack.rtt, low);
    EitherStays(c.maxBw, rate, least, low, ack.bytesAcked, most);
  }

  lemma SlowAckMeasures(c: Controller, now: nat)
    ensures var next := Step(c, Ack(0, U64_MAX, now));
            next.maxBw == c.maxBw && next.minRtt == LeastOr(Recent(c.rttWindow, now))
  {
    assert Rate(0, U64_MAX) == 0;
    StepMeasures(c, Ack(0, U64_MAX, now));
    hide Step, Recent, Least, Rate;
    LeastAppend(Recent(c.rttWindow, now), Sample(U64_MAX, now));
  }

  // The bound outlives every next acknowledgement exactly when the bandwidth
  // known, at the least round trip still recent then, makes no more.
  lemma NextAcksStayIff(c: Controller, most: u64, now: nat)
    ensures NextAcksStay(c, most, now) <==> c.maxBw * LeastOr(Recent(c.rttWindow, now)) < (most + 1) * MICROS
  {
    hide Step, Recent, LeastOr;
    if c.maxBw * LeastOr(Recent(c.rttWindow, now)) < (most + 1) * MICROS {
      forall bytesAcked: u64, rtt: u64 | bytesAcked * MICROS < U64
        ensures StaysWithin(Step(c, Ack(bytesAcked, rtt, now)), Higher(most, bytesAcked))
      {
        NextAckStays(c, most, Ack(bytesAcked, rtt, now));
      }
    } else {
      SlowAckMeasures(c, now);
      QuotientIff(c.maxBw * LeastOr(Recent(c.rttWindow, now)), most);
      assert !StaysWithin(Step(c, Ack(0, U64_MAX, now)), Higher(most, 0));
    }
  }

  // Some acknowledgement still recent at `now` was fast enough for the best rate.
  ghost predicate FastEnough(acks: seq<Event>, most: nat, now: nat)
    requires forall i | 0 <= i < |acks| :: acks[i].Ack?
  {
    exists i :: 0 <= i < |acks| && AgeSeconds(acks[i].now, now) < WINDOW_SECONDS
                && MaxRate(acks) * acks[i].rtt < (most + 1) * MICROS
  }

  lemma {:induction false} LeastIsAttained(s: seq<Sample>)
    requires s != []
    ensures exists x :: x in s && x.rtt == Least(s)
  {
    var last := s[|s| - 1];
    assert last in s;
    if |s| > 1 {
      LeastIsAttained(s[..|s| - 1]);
      var x :| x in s[..|s| - 1] && x.rtt == Least(s[..|s| - 1]);
      assert x in s;
    }
  }

  lemma {:induction false} RecentIsOld(s: seq<Sample>, x: Sample, now: nat) returns (i: nat)
    requires x in Recent(s, now)
    ensures i < |s| && s[i] == x && AgeSeconds(x.at, now) < WINDOW_SECONDS
  {
    hide AgeSeconds;
    if x in Recent(s[..|s| - 1], now) {
      i := RecentIsOld(s[..|s| - 1], x, now);
    } else {
      i := |s| - 1;
    }
  }

  lemma FastEnoughIff(acks: seq<Event>, most: nat, now: nat)
    requires forall i | 0 <= i < |acks| :: acks[i].Ack?
    requires (most + 1) * MICROS < U64
    ensures MaxRate(acks) * LeastOr(Recent(Samples(acks), now)) < (most + 1) * MICROS
       <==> MaxRate(acks) == 0 || FastEnough(acks, most, now)
  {
    var recent, rate, limit := Recent(Samples(acks), now), MaxRate(acks), (most + 1) * MICROS;
    hide Recent, MaxRate, AgeSeconds, Samples, Least;
    if rate * LeastOr(recent) < limit {
      if recent == [] {
        Monotonic(U64_MAX, 1, if rate == 0 then 1 else rate);
      } else {
        LeastIsAttained(recent);
        var x :| x in recent && x.rtt == Least(recent);
        var i := RecentIsOld(Samples(acks), x, now);
        SampleAt(acks, i);
      }
    }
    if i :| 0 <= i < |acks| && AgeSeconds(acks[i].now, now) < WINDOW_SECONDS && rate * acks[i].rtt < limit {
      SampleAt(acks, i);
      RecentMember(Samples(acks), i, now);
      LeastIsLeast(recent, Samples(acks)[i]);
      Monotonic(rate, LeastOr(recent), acks[i].rtt);
    }
  }

  // Over every run: each acknowledgement that may come at `now` keeps the product
  // within the largest of all, its own included, if and only if no bandwidth is
  // known, or some acknowledgement still recent then had a round trip that, at
  // the best rate so far, makes no more than the largest so far.
  lemma BdpStaysIff(cwnd: u64, begin: nat, evs: seq<Event>, now: nat)
    requires Monotone(Acks(evs)) && (MaxBytes(Acks(evs)) + 1) * MICROS < U64
    requires Acks(evs) != [] ==> Acks(evs)[|Acks(evs)| - 1].now <= now
    ensures NextAcksStay(Run(NewController(cwnd, begin), evs), MaxBytes(Acks(evs)), now)
       <==> MaxRate(Acks(evs)) == 0 || FastEnough(Acks(evs), MaxBytes(Acks(evs)), now)
  {
    var c, acks := Run(NewController(cwnd, begin), evs), Acks(evs);
    CacheAgreesWithHistory(cwnd, begin, evs);
    NoSamples(now);
    hide Run, Acks, MaxRate, MaxBytes, Recent, Least, LeastOr, Samples, AgeSeconds, FastEnough, NextAcksStay;
    if acks != [] {
      WindowIsHistory(acks, now);
    }
    assert acks == [] ==> MaxRate(acks) == 0 by { NoRate(acks); }
    NextAcksStayIff(c, MaxBytes(acks), now);
    FastEnoughIff(acks, MaxBytes(acks), now);
  }

  lemma NoRate(acks: seq<Event>)
    requires forall i | 0 <= i < |acks| :: acks[i].Ack?
    ensures acks == [] ==> MaxRate(acks) == 0
  {
  }

  // The window of the last acknowledgement, cut again later, is the history cut then.
  lemma WindowIsHistory(acks: seq<Event>, now: nat)
    requires acks != [] && forall i | 0 <= i < |acks| :: acks[i].Ack?
    requires Monotone(acks) && acks[|acks| - 1].now <= now
    ensures Recent(Recent(Samples(acks), acks[|acks| - 1].now), now) == Recent(Samples(acks), now)
  {
    hide Recent, AgeSeconds;
    forall i | 0 <= i < |acks| ensures Samples(acks)[i].at <= acks[|acks| - 1].now {
      SampleAt(acks, i);
      assert i < |acks| - 1 ==> acks[i].now <= acks[|acks| - 1].now;
    }
    RecentTwice(Samples(acks), acks[|acks| - 1].now, now);
  }

  // The bound can be lost: once the fast sample has aged out, the bandwidth it
  // showed meets a slow round trip, and 1001 bytes acknowledged make a product
  // of a million.
  lemma BdpOutgrowsAgedSamples(cwnd: u64, evs: seq<Event>)
    requires evs == [Ack(1000, 1000, 0), Ack(1, MICROS, 10 * NANOS)]
    ensures Acks(evs) == evs && Monotone(evs) && MaxBytes(evs) == 1000
    ensures Bdp(Run(NewController(cwnd, 0), evs)) == MICROS
  {
    AgedHistory();
    hide Run, Acks, Recent, Least, MaxRate, MaxBytes, Samples, Bdp;
    CacheAgreesWithHistory(cwnd, 0, evs);
    Million(Run(NewController(cwnd, 0), evs));
  }

  lemma Million(c: Controller)
    requires c.maxBw == MICROS && c.minRtt == MICROS
    ensures Bdp(c) == MICROS
  {
    assert c.maxBw * c.minRtt == 1_000_000_000_000;
  }

  lemma AgedHistory()
    ensures var evs := [Ack(1000, 1000, 0), Ack(1, MICROS, 10 * NANOS)];
            && Acks(evs) == evs && Monotone(evs) && MaxBytes(evs) == 1000 && MaxRate(evs) == MICROS
            && Least(Recent(Samples(evs), 10 * NANOS)) == MICROS
  {
    var fast, slow := Ack(1000, 1000, 0), Ack(1, MICROS, 10 * NANOS);
    var first, second := Sample(1000, 0), Sample(MICROS, 10 * NANOS);
    AcksAppend([], fast);
    AcksAppend([fast], slow);
    assert [] + [fast] == [fast] && [fast] + [slow] == [fast, slow];
    assert Rate(1000, 1000) == MICROS && Rate(1, MICROS) == 1;
    hide Rate;
    RateAppend([], fast);
    RateAppend([fast], slow);
    assert [fast, slow][..1] == [fast] && [fast][..0] == [];
    assert MaxBytes([fast]) == 1000;
    assert Samples([fast, slow]) == [first, second];
    assert [] + [first] == [first] && [first] + [second] == [first, second];
    RecentAppend([], first, 10 * NANOS);
    RecentAppend([first], second, 10 * NANOS);
  }

  // The window set by an acknowledgement, out of startup: exactly three
  // quarters, five quarters or all of the product, so never more than five
  // quarters of what the acknowledgement brought that set the bandwidth, as long
  // as that one is recent.
  lemma AckSetsWindow(cwnd: u64, begin: nat, evs: seq<Event>, ack: Event, i: nat)
    requires ack.Ack? && Monotone(Acks(evs + [ack]))
    requires RateSetterIsRecent(Acks(evs + [ack]), i, ack.now) && Acks(evs + [ack])[i].bytesAcked * MICROS < U64
    ensures var c, after := Run(NewController(cwnd, begin), evs), Run(NewController(cwnd, begin), evs + [ack]);
            var bdp := after.maxBw * after.minRtt / MICROS;
            && (c.state.Drain? ==> after.cwnd == bdp * 3 / 4 && after.state == Probe)
            && (c.state.Probe? ==> after.cwnd == bdp * 5 / 4 && after.state == Probe)
            && (c.state.Steady? ==> after.cwnd == bdp && after.state == Steady)
            && (!c.state.Startup? ==> after.cwnd <= Acks(evs + [ack])[i].bytesAcked * 5 / 4)
  {
    AcksAppend(evs, ack);
    assert (evs + [ack])[..|evs|] == evs;
    var c := Run(NewController(cwnd, begin), evs);
    assert Run(NewController(cwnd, begin), evs + [ack]) == Step(c, ack);
    hide Run, Acks, MaxRate, Rate, AgeSeconds, Step, Bdp, RateSetterIsRecent;
    BdpBound(cwnd, begin, evs + [ack], i);
    WindowSet(c, ack);
  }

  lemma ScaleQuarters(x: u64)
    requires 5 * x < U64
    ensures Scale(x, 0.75) == x * 3 / 4 && Scale(x, 1.25) == x * 5 / 4
  {
    var q, r := x * 3 / 4, x * 3 % 4;
    assert x as real * 0.75 == q as real + r as real / 4.0;
    var p, t := x * 5 / 4, x * 5 % 4;
    assert x as real * 1.25 == p as real + t as real / 4.0;
  }

  lemma WindowSet(c: Controller, ack: Event)
    requires ack.Ack? && 5 * Bdp(Step(c, ack)) < U64
    ensures var after := Step(c, ack);
            && (c.state.Drain? ==> after.cwnd == Bdp(after) * 3 / 4 && after.state == Probe)
            && (c.state.Probe? ==> after.cwnd == Bdp(after) * 5 / 4 && after.state == Probe)
            && (c.state.Steady? ==> after.cwnd == Bdp(after) && after.state == Steady)
  {
    var after := Step(c, ack);
    var m := Measured(c, ack.bytesAcked, ack.rtt, ack.now);
    assert Bdp(after) == Bdp(m) == Bdp(m.(lastUpdate := ack.now));
    hide Measured, Bdp, Scale;
    ScaleQuarters(Bdp(after));
  }

  // ---------- phases ----------

  ghost predicate Follows(before: Phase, after: Phase) {
    after == before || after == Steady || (before == Startup && after == Drain) || (before == Drain && after == Probe)
  }

  lemma PhaseMoves(c: Controller, ev: Event)
    ensures Follows(c.state, Step(c, ev).state)
    ensures c.state == Steady ==> Step(c, ev).state == Steady
  {
  }

  // A run that gets from startup to probing has drained in between, and steady
  // is for good.
  lemma {:induction false} PhasesInOrder(c: Controller, evs: seq<Event>)
    ensures c.state == Steady ==> Run(c, evs).state == Steady
    ensures c.state == Startup && Run(c, evs).state == Probe ==>
              exists k :: 0 <= k < |evs| && Run(c, evs[..k]).state == Drain
  {
    if evs != [] {
      var init, ev := evs[..|evs| - 1], evs[|evs| - 1];
      PhasesInOrder(c, init);
      PhaseMoves(Run(c, init), ev);
      if c.state == Startup && Run(c, evs).state == Probe {
        if Run(c, init).state == Drain {
          assert Run(c, evs[..|init|]).state == Drain;
        } else {
          var k :| 0 <= k < |init| && Run(c, init[..k]).state == Drain;
          assert init[..k] == evs[..k];
        }
      }
    }
  }

  // ---------- startup ends ----------

  lemma ScaleGrows(x: u64)
    ensures Scale(x, 1.1) == if x + x / 10 < U64 then x + x / 10 else U64_MAX
  {
    var q, r := x / 10, x % 10;
    assert x as real * 1.1 == (x + q) as real + r as real / 10.0;
  }

  lemma ATenthMore(x: u64, first: u64, n: nat)
    requires x >= first + n * (first / 10) || x == U64_MAX
    ensures Scale(x, 1.1) >= first + (n + 1) * (first / 10) || Scale(x, 1.1) == U64_MAX
  {
    ScaleGrows(x);
    hide Scale;
    var tenth := first / 10;
    assert (n + 1) * tenth == n * tenth + tenth && n * tenth >= 0;
    assert x >= first ==> x / 10 >= tenth;
  }

  lemma StartupWidens(c: Controller, ack: Event)
    requires ack.Ack? && c.state == Startup
    ensures Step(c, ack).cwnd == Scale(c.cwnd, 1.1)
  {
    hide Recent, Least, Rate, Scale, Bdp;
  }

  lemma LossKeepsStartup(c: Controller, ev: Event)
    requires ev.Loss? && Step(c, ev).state == Startup
    ensures Step(c, ev) == c
  {
  }

  // After n acknowledgements still in startup, the window has grown by at least
  // a tenth of its first size n times over.
  lemma {:induction false} StartupGrows(c: Controller, evs: seq<Event>)
    requires c.state == Startup && Run(c, evs).state == Startup
    requires c.cwnd < U64_MAX
    ensures Run(c, evs).cwnd >= c.cwnd + |Acks(evs)| * (c.cwnd / 10) || Run(c, evs).cwnd == U64_MAX
  {
    if evs != [] {
      var init, ev := evs[..|evs| - 1], evs[|evs| - 1];
      var before := Run(c, init);
      assert evs == init + [ev] && Run(c, evs) == Step(before, ev);
      AcksAppend(init, ev);
      hide Run, Step, Acks, Scale;
      PhaseMoves(before, ev);
      StartupGrows(c, init);
      if ev.Ack? {
        StartupWidens(before, ev);
        ATenthMore(before.cwnd, c.cwnd, |Acks(init)|);
      } else {
        LossKeepsStartup(before, ev);
        assert Acks(init) + [] == Acks(init);
      }
    }
  }

  // An acknowledgement in startup widens the window if and only if it is at least
  // ten bytes wide and not as wide as can be.
  lemma StartupGrowsIff(c: Controller, ack: Event)
    requires ack.Ack? && c.state == Startup
    ensures Step(c, ack).cwnd > c.cwnd <==> 10 <= c.cwnd < U64_MAX
  {
    assert Step(c, ack).cwnd == Scale(c.cwnd, 1.1);
    hide Step, Scale;
    ScaleGrows(c.cwnd);
  }

  // Below ten bytes a tenth is nothing: the window stays as it is.
  lemma {:induction false} TinyWindowNeverGrows(c: Controller, evs: seq<Event>)
    requires c.state == Startup && c.cwnd < 10 && Run(c, evs).state == Startup
    ensures Run(c, evs).cwnd == c.cwnd
  {
    if evs != [] {
      PhaseMoves(Run(c, evs[..|evs| - 1]), evs[|evs| - 1]);
      TinyWindowNeverGrows(c, evs[..|evs| - 1]);
      ScaleGrows(c.cwnd);
    }
  }

  lemma StaysInStartup(c: Controller, ack: Event)
    requires ack.Ack? && c.state == Startup && Step(c, ack).state == Startup
    ensures Step(c, ack).maxBw == 0 || Step(c, ack).cwnd < Bdp(Step(c, ack))
  {
    hide Recent, Least, Rate, Scale;
  }

  // In startup after an acknowledgement, the window is still below the product.
  lemma {:induction false} StartupIsBelow(c: Controller, evs: seq<Event>)
    requires c.state == Startup && Run(c, evs).state == Startup && Acks(evs) != []
    ensures Run(c, evs).maxBw == 0 || Run(c, evs).cwnd < Bdp(Run(c, evs))
  {
    var init, ev := evs[..|evs| - 1], evs[|evs| - 1];
    assert evs == init + [ev];
    AcksAppend(init, ev);
    PhaseMoves(Run(c, init), ev);
    hide Step, Bdp;
    if ev.Ack? {
      StaysInStartup(Run(c, init), ev);
    } else {
      LossKeepsStartup(Run(c, init), ev);
      assert Acks(init) + [] == Acks(init);
      StartupIsBelow(c, init);
    }
  }

  // With a known bandwidth, a product that is at most `bound` after the n-th
  // acknowledgement means that startup is over, once n tenths of the first window
  // make up the distance.
  lemma StartupEnds(c: Controller, evs: seq<Event>, bound: u64)
    requires c.cwnd < U64_MAX && Acks(evs) != []
    requires Run(c, evs).maxBw > 0 && Bdp(Run(c, evs)) <= bound
    requires c.cwnd + |Acks(evs)| * (c.cwnd / 10) >= bound
    ensures Run(c, evs).state != Startup
  {
    hide Run, Bdp, Acks;
    if c.state != Startup {
      NoWayBack(c, evs);
    } else if Run(c, evs).state == Startup {
      StartupGrows(c, evs);
      StartupIsBelow(c, evs);
    }
  }

  lemma {:induction false} NoWayBack(c: Controller, evs: seq<Event>)
    requires c.state != Startup
    ensures Run(c, evs).state != Startup
  {
    if evs != [] {
      NoWayBack(c, evs[..|evs| - 1]);
      PhaseMoves(Run(c, evs[..|evs| - 1]), evs[|evs| - 1]);
    }
  }

  // In terms of what is acknowledged: while the acknowledgement that set the
  // bandwidth is recent, startup is over once n tenths of the initial window
  // make up its bytes.
  lemma StartupEndsForBoundedAcks(cwnd: u64, begin: nat, evs: seq<Event>, i: nat)
    requires cwnd < U64_MAX && Acks(evs) != [] && Monotone(Acks(evs))
    requires var acks := Acks(evs); RateSetterIsRecent(acks, i, acks[|acks| - 1].now) && acks[i].bytesAcked * MICROS < U64
    requires MaxRate(Acks(evs)) > 0
    requires cwnd + |Acks(evs)| * (cwnd / 10) >= Acks(evs)[i].bytesAcked
    ensures Run(NewController(cwnd, begin), evs).state != Startup
  {
    CacheAgreesWithHistory(cwnd, begin, evs);
    hide Run, Acks, Bdp, MaxRate, Rate, AgeSeconds, RateSetterIsRecent, Recent, Least, Samples;
    BdpBound(cwnd, begin, evs, i);
    StartupEnds(NewController(cwnd, begin), evs, Acks(evs)[i].bytesAcked);
  }

  // ---------- when startup must end ----------

  ghost predicate StillInStartup(cwnd: u64, begin: nat, evs: seq<Event>, bound: u64) {
    var c := Run(NewController(cwnd, begin), evs);
    c.maxBw > 0 && Bdp(c) <= bound && c.state == Startup
  }

  // Every run of at least n acknowledgements, with a known bandwidth and a
  // product of at most `bound`, has left startup.
  ghost predicate EndsBy(cwnd: u64, bound: u64, n: nat) {
    forall begin: nat, evs: seq<Event> | |Acks(evs)| >= n :: !StillInStartup(cwnd, begin, evs, bound)
  }

  // n acknowledgements of one byte more than the window, a second each way.
  function SlowAcks(cwnd: u64, n: nat): (evs: seq<Event>)
    requires cwnd < 10
    ensures |evs| == n
  {
    if n == 0 then [] else SlowAcks(cwnd, n - 1) + [Ack(cwnd + 1, MICROS, 0)]
  }

  ghost predicate AllAre(s: seq<Sample>, x: Sample) {
    forall i | 0 <= i < |s| :: s[i] == x
  }

  // A tiny controller in startup whose product is one more than its window.
  ghost predicate Stuck(c: Controller, cwnd: u64) {
    && c.state == Startup && c.cwnd == cwnd && c.maxBw == cwnd + 1 && c.minRtt == MICROS
    && c.rttWindow != [] && AllAre(c.rttWindow, Sample(MICROS, 0))
  }

  lemma LastIsSame(s: seq<Sample>, x: Sample)
    requires s != [] && AllAre(s, x)
    ensures s == s[..|s| - 1] + [x] && AllAre(s[..|s| - 1], x)
  {
    assert s[|s| - 1] == x;
  }

  lemma {:induction false} AllTheSame(s: seq<Sample>, x: Sample)
    requires s != [] && x.at == 0 && AllAre(s, x)
    ensures Least(s) == x.rtt && Recent(s, 0) == s
  {
    var init := s[..|s| - 1];
    LastIsSame(s, x);
    FreshAge(0);
    assert Least(s) == if init == [] || x.rtt < Least(init) then x.rtt else Least(init);
    assert Recent([], 0) == [];
    hide Least, Recent, AgeSeconds, AllAre;
    RecentAppend(init, x, 0);
    if init != [] {
      AllTheSame(init, x);
    }
  }

  lemma SameWindow(s: seq<Sample>, x: Sample)
    requires x.at == 0 && AllAre(s, x)
    ensures Least(Recent(s, 0) + [x]) == x.rtt && AllAre(Recent(s, 0) + [x], x)
  {
    AllAppend(s, x);
    if s == [] {
      NoSamples(0);
    }
    hide Recent, Least, AllAre;
    if s != [] {
      AllTheSame(s, x);
    }
    AllTheSame(s + [x], x);
  }

  lemma AllAppend(s: seq<Sample>, x: Sample)
    requires AllAre(s, x)
    ensures AllAre(s + [x], x)
  {
  }

  lemma SlowAckSticks(c: Controller, cwnd: u64)
    requires cwnd < 10 && (c == NewController(cwnd, 0) || Stuck(c, cwnd))
    ensures Stuck(Step(c, Ack(cwnd + 1, MICROS, 0)), cwnd)
  {
    hide Step, Recent, Least, Scale, Rate, AgeSeconds;
    SameWindow(c.rttWindow, Sample(MICROS, 0));
    StepMeasures(c, Ack(cwnd + 1, MICROS, 0));
    RateOfASecond(cwnd + 1);
    ScaleGrows(cwnd);
    StartupStep(c, cwnd);
  }

  lemma RateOfASecond(x: nat)
    requires x <= 10
    ensures Rate(x, MICROS) == x && x * MICROS % U64 / MICROS == x
  {
  }

  lemma StartupStep(c: Controller, cwnd: u64)
    requires c.state == Startup && c.cwnd == cwnd < 10
    ensures var next := Step(c, Ack(cwnd + 1, MICROS, 0));
            next.cwnd == Scale(cwnd, 1.1)
            && next.state == if next.maxBw > 0 && next.cwnd >= Bdp(next) then Drain else Startup
  {
    hide Recent, Least, Rate, Scale;
  }

  lemma {:induction false} SlowRunSticks(cwnd: u64, n: nat)
    requires cwnd < 10
    ensures Acks(SlowAcks(cwnd, n)) == SlowAcks(cwnd, n)
    ensures n > 0 ==> Stuck(Run(NewController(cwnd, 0), SlowAcks(cwnd, n)), cwnd)
  {
    if n > 0 {
      var start, before, ack := NewController(cwnd, 0), SlowAcks(cwnd, n - 1), Ack(cwnd + 1, MICROS, 0);
      var evs := before + [ack];
      assert SlowAcks(cwnd, n) == evs && evs[..|before|] == before;
      SlowRunSticks(cwnd, n - 1);
      AcksAppend(before, ack);
      assert Run(start, evs) == Step(Run(start, before), ack);
      assert n == 1 ==> before == [] && Run(start, before) == start;
      hide Step, Stuck, Run, Acks, SlowAcks;
      SlowAckSticks(Run(start, before), cwnd);
    }
  }

  lemma StuckIsStill(cwnd: u64, bound: u64, n: nat)
    requires cwnd < 10 && cwnd < bound && n > 0
    ensures StillInStartup(cwnd, 0, SlowAcks(cwnd, n), bound)
  {
    SlowRunSticks(cwnd, n);
    RateOfASecond(cwnd + 1);
    hide Run, SlowAcks;
  }

  lemma AtLeastOneEach(n: nat, tenth: nat, bound: nat)
    requires n >= bound + 1 && tenth >= 1
    ensures n * tenth >= bound
  {
    Monotonic(n, 1, tenth);
  }

  lemma EnoughAcksEnd(cwnd: u64, begin: nat, evs: seq<Event>, bound: u64)
    requires cwnd < U64_MAX && (cwnd >= 10 || bound <= cwnd) && |Acks(evs)| >= bound + 1
    ensures !StillInStartup(cwnd, begin, evs, bound)
  {
    hide Run, Acks, Bdp;
    var c := Run(NewController(cwnd, begin), evs);
    if cwnd >= 10 {
      AtLeastOneEach(|Acks(evs)|, cwnd / 10, bound);
    } else {
      Monotonic(|Acks(evs)|, 0, cwnd / 10);
    }
    if c.maxBw > 0 && Bdp(c) <= bound {
      StartupEnds(NewController(cwnd, begin), evs, bound);
    }
  }

  // Startup must end: some number of acknowledgements takes every run out of it,
  // with a known bandwidth and a product of at most `bound`, if and only if the
  // window starts at ten bytes or more, or as wide as the bound.
  lemma StartupEndsIff(cwnd: u64, bound: u64)
    requires cwnd < U64_MAX
    ensures (exists n: nat :: EndsBy(cwnd, bound, n)) <==> cwnd >= 10 || bound <= cwnd
  {
    hide Acks, StillInStartup, SlowAcks;
    if cwnd >= 10 || bound <= cwnd {
      forall begin: nat, evs: seq<Event> | |Acks(evs)| >= bound + 1 ensures !StillInStartup(cwnd, begin, evs, bound) {
        EnoughAcksEnd(cwnd, begin, evs, bound);
      }
      assert EndsBy(cwnd, bound, bound + 1);
    } else {
      forall n: nat ensures !EndsBy(cwnd, bound, n) {
        SlowRunSticks(cwnd, n + 1);
        StuckIsStill(cwnd, bound, n + 1);
      }
    }
  }

  // ---------- losses ----------

  function Pow2(n: nat): (p: nat)
    ensures p > 0
  {
    if n == 0 then 1 else 2 * Pow2(n - 1)
  }

  // A loss that counts as congestion: at no more than three times the least round
  // trip, as a 64-bit product.
  predicate Congested(minRtt: u64, ev: Event) {
    ev.Loss? && ev.rtt <= 3 * minRtt % 0x1_0000_0000_0000_0000
  }

  // A loss changes the controller if and only if it counts as congestion and the
  // controller is not yet as small and steady as can be; it then halves the window.
  lemma LossChangesIff(c: Controller, rtt: u64)
    ensures var congested := Congested(c.minRtt, Loss(rtt));
            && (Step(c, Loss(rtt)) != c <==> congested && !(c.cwnd == 0 && c.state == Steady && c.gain == 1.0))
            && (congested ==> Step(c, Loss(rtt)) == c.(cwnd := c.cwnd / 2, state := Steady, gain := 1.0))
  {
  }

  // Before any acknowledgement the least round trip is as great as can be, and
  // three times that wraps: all but the two greatest round trips count as
  // congestion.
  lemma FirstLossCongests(cwnd: u64, begin: nat, rtt: u64)
    ensures Step(NewController(cwnd, begin), Loss(rtt)).state == Steady <==> rtt <= U64_MAX - 2
  {
  }

  function Congestions(minRtt: u64, evs: seq<Event>): nat {
    if evs == [] then 0
    else Congestions(minRtt, evs[..|evs| - 1]) + if Congested(minRtt, evs[|evs| - 1]) then 1 else 0
  }

  // x halved n times, rounded down each time: x divided by two to the n.
  function Halved(x: u64, n: nat): u64 {
    if n == 0 then x else Halved(x, n - 1) / 2
  }

  lemma Doubling(p: nat, h: nat, x: nat)
    requires p * h <= x < p * (h + 1)
    ensures 2 * p * (h / 2) <= x < 2 * p * (h / 2 + 1)
  {
    var k, odd := h / 2, h % 2;
    assert h == 2 * k + odd && h + 1 <= 2 * (k + 1);
    Monotonic(p, 2 * k, h);
    Monotonic(p, h + 1, 2 * (k + 1));
    assert p * (2 * k) == 2 * p * k && p * (2 * (k + 1)) == 2 * p * (k + 1);
  }

  lemma {:induction false} HalvedIsQuotient(x: u64, n: nat)
    ensures Pow2(n) * Halved(x, n) <= x < Pow2(n) * (Halved(x, n) + 1)
  {
    if n > 0 {
      HalvedIsQuotient(x, n - 1);
      Doubling(Pow2(n - 1), Halved(x, n - 1), x);
      assert Pow2(n) == 2 * Pow2(n - 1) && Halved(x, n) == Halved(x, n - 1) / 2;
    }
  }

  // Over every run of losses: noisy ones leave the controller untouched, and n
  // that count as congestion, among any number of noisy ones, divide the window
  // by two to the n and leave it steady.
  lemma {:induction false} LossesHalve(c: Controller, evs: seq<Event>)
    requires forall i | 0 <= i < |evs| :: evs[i].Loss?
    ensures var n := Congestions(c.minRtt, evs);
            Run(c, evs) == if n == 0 then c else c.(cwnd := Halved(c.cwnd, n), state := Steady, gain := 1.0)
    ensures var n, after := Congestions(c.minRtt, evs), Run(c, evs).cwnd;
            Pow2(n) * after <= c.cwnd < Pow2(n) * (after + 1)
  {
    HalvedIsQuotient(c.cwnd, Congestions(c.minRtt, evs));
    assert Halved(c.cwnd, 0) == c.cwnd;
    if evs != [] {
      var init, ev := evs[..|evs| - 1], evs[|evs| - 1];
      var n := Congestions(c.minRtt, init);
      LossesHalve(c, init);
      LossChangesIff(Run(c, init), ev.rtt);
      assert Halved(c.cwnd, n + 1) == Halved(c.cwnd, n) / 2;
      assert Run(c, evs) == Step(Run(c, init), ev);
      hide Step, Pow2, Halved, Run, Congested;
    }
  }

  // ---------- what the estimates and the phases go by ----------

  // A rate is what was acknowledged, in millionths of a second and 64 bits, over
  // the round trip, rounded down; a zero round trip shows none.
  lemma RateIsQuotient(bytesAcked: u64, rtt: u64)
    ensures rtt == 0 ==> Rate(bytesAcked, rtt) == 0
    ensures rtt > 0 ==>
              var x := bytesAcked * 1_000_000 % 0x1_0000_0000_0000_0000;
              Rate(bytesAcked, rtt) * rtt <= x < (Rate(bytesAcked, rtt) + 1) * rtt
  {
    if rtt > 0 {
      var x := bytesAcked * 1_000_000 % 0x1_0000_0000_0000_0000;
      assert Rate(bytesAcked, rtt) == x / rtt;
      assert x == x / rtt * rtt + x % rtt;
    }
  }

  // The product is bandwidth times delay, in 64 bits, in millionths, rounded down.
  lemma BdpIsQuotient(c: Controller)
    ensures var x := c.maxBw * c.minRtt % 0x1_0000_0000_0000_0000;
            Bdp(c) * 1_000_000 <= x < (Bdp(c) + 1) * 1_000_000
  {
  }

  // A sample is recent for exactly ten seconds.
  lemma {:induction false} RecentIff(s: seq<Sample>, x: Sample, now: nat)
    ensures x in Recent(s, now) <==> x in s && now < x.at + 10_000_000_000
  {
    if s != [] {
      var init, last := s[..|s| - 1], s[|s| - 1];
      RecentIff(init, x, now);
      assert s == init + [last];
      assert AgeSeconds(last.at, now) < WINDOW_SECONDS <==> now < last.at + 10_000_000_000;
      hide AgeSeconds;
      RecentAppend(init, last, now);
    }
  }

  // An acknowledgement ends startup exactly when a bandwidth is known and the
  // window, widened by a tenth, has caught up with the product.
  lemma AckEndsStartupIff(c: Controller, ack: Event)
    requires ack.Ack? && c.state == Startup
    ensures var next := Step(c, ack);
            && (next.state == Drain <==> next.maxBw > 0 && next.cwnd >= Bdp(next))
            && (next.state == Startup || next.state == Drain)
            && next.cwnd == if c.cwnd + c.cwnd / 10 < U64 then c.cwnd + c.cwnd / 10 else U64_MAX
  {
    StartupWidens(c, ack);
    hide Recent, Least, Rate, Scale;
    ScaleGrows(c.cwnd);
  }

  // The gain shows the phase, and the last update is the last acknowledgement.
  ghost predicate GainFits(c: Controller) {
    match c.state
    case Startup => c.gain == 2.89
    case Drain => c.gain == 0.75
    case Probe => c.gain == 0.75 || c.gain == 1.25
    case Steady => c.gain == 1.0
  }

  lemma StepFits(c: Controller, ev: Event)
    requires GainFits(c)
    ensures GainFits(Step(c, ev))
    ensures ev.Ack? && c.state == Probe ==> Step(c, ev).gain == 1.25
    ensures ev.Ack? && c.state == Drain ==> Step(c, ev).gain == 0.75
    ensures Step(c, ev).lastUpdate == if ev.Ack? then ev.now else c.lastUpdate
  {
    hide Recent, Least, Rate, Scale, Bdp;
  }

  lemma {:induction false} GainFollowsPhase(cwnd: u64, begin: nat, evs: seq<Event>)
    ensures var c := Run(NewController(cwnd, begin), evs);
            && GainFits(c)
            && c.lastUpdate == if Acks(evs) == [] then begin else Acks(evs)[|Acks(evs)| - 1].now
  {
    if evs != [] {
      var init, ev := evs[..|evs| - 1], evs[|evs| - 1];
      var before := Run(NewController(cwnd, begin), init);
      GainFollowsPhase(cwnd, begin, init);
      assert evs == init + [ev];
      AcksAppend(init, ev);
      assert Acks(init) + [] == Acks(init);
      hide Step, GainFits;
      StepFits(before, ev);
    }
  }
}
