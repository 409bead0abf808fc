// Flow-control accounting between a sender and a receiver, over whole runs of
// writes, window grants and deliveries that may be lost, repeated or reordered.
module FlowRuns {
  import opened Bytes
  import opened Streams

  datatype Write = Write(offset: u32, len: nat)

  datatype Channel = Channel(state: StreamState, sender: Flow, log: seq<Write>, receiver: Flow)

  // Deliver(k) brings the k-th write to the receiver, any number of times.
  datatype Event = Send(len: nat) | CloseWrite | Grant(newMax: u64) | Deliver(which: nat)

  function Opened(window: u64): Channel {
    Channel(Open, NewFlow(window), [], NewFlow(window))
  }

  function Step(c: Channel, ev: Event): Channel {
    match ev
    case Send(len) =>
      var (r, sender) := WriteStep(c.state, c.sender, len);
      c.(sender := sender, log := c.log + if r.Ok? then [Write(r.value, len)] else [])
    case CloseWrite => c.(state := c.state.CloseWrite())
    case Grant(newMax) => c.(sender := c.sender.UpdateWindow(newMax))
    case Deliver(which) =>
      if which < |c.log| then c.(receiver := c.receiver.Received(c.log[which].offset, c.log[which].len % U32))
      else c
  }

  // Runs are built from the front, so that Last is the state they end in.
  function Run(window: u64, evs: seq<Event>): Channel {
    if evs == [] then Opened(window) else Step(Run(window, evs[..|evs| - 1]), evs[|evs| - 1])
  }

  // The writes delivered in a run, in order of delivery.
  function Deliveries(window: u64, evs: seq<Event>): seq<Write> {
    if evs == [] then []
    else
      var c, ev := Run(window, evs[..|evs| - 1]), evs[|evs| - 1];
      Deliveries(window, evs[..|evs| - 1])
      + if ev.Deliver? && ev.which < |c.log| then [c.log[ev.which]] else []
  }

  // No window ever granted exceeds `window`, and no single write is longer
  // than the largest vector there can be.
  predicate Within(evs: seq<Event>, window: u64) {
    forall i | 0 <= i < |evs| ::
      (evs[i].Grant? ==> evs[i].newMax <= window) && (evs[i].Send? ==> evs[i].len < 0x8000_0000_0000_0000)
  }

  function Total(log: seq<Write>): nat {
    if log == [] then 0 else Total(log[..|log| - 1]) + log[|log| - 1].len
  }

  // Every write starts where the ones before it end.
  ghost predicate Tiles(log: seq<Write>) {
    forall i | 0 <= i < |log| :: log[i].offset == Total(log[..i])
  }

  function MaxEnd(ws: seq<Write>): nat {
    if ws == [] then 0
    else
      var before, last := MaxEnd(ws[..|ws| - 1]), ws[|ws| - 1];
      if last.offset + last.len > before then last.offset + last.len else before
  }

  lemma {:induction false} EndsWithinTotal(log: seq<Write>, i: nat)
    requires i < |log|
    ensures Total(log[..i]) + log[i].len <= Total(log)
    decreases |log| - i
  {
    if i == |log| - 1 {
    } else {
      EndsWithinTotal(log, i + 1);
      assert log[..i + 1][..i] == log[..i];
    }
  }

  lemma TotalAppend(log: seq<Write>, w: Write)
    ensures Total(log + [w]) == Total(log) + w.len
  {
    assert (log + [w])[..|log|] == log;
  }

  lemma TilesAppend(log: seq<Write>, w: Write)
    ensures Tiles(log + [w]) <==> Tiles(log) && w.offset == Total(log)
  {
    var more := log + [w];
    assert more[..|log|] == log && more[|log|] == w;
    assert forall i | 0 <= i < |log| :: more[..i] == log[..i] && more[i] == log[i];
  }

  lemma MaxEndAppend(ws: seq<Write>, w: Write)
    ensures MaxEnd(ws + [w]) == if w.offset + w.len > MaxEnd(ws) then w.offset + w.len else MaxEnd(ws)
  {
    assert (ws + [w])[..|ws|] == ws;
  }

  ghost predicate Accounted(c: Channel) {
    && Tiles(c.log) && Total(c.log) == c.sender.sentOffset <= c.sender.maxOffset < U32
    && c.receiver.receivedOffset <= c.sender.sentOffset
  }

  lemma SendAccounts(c: Channel, len: nat)
    requires Accounted(c) && len < 0x8000_0000_0000_0000
    ensures Accounted(Step(c, Send(len)))
  {
    var sent := c.sender.sentOffset;
    assert (sent + len) % U64 == sent + len && sent % U32 == sent;
    var next := Step(c, Send(len));
    if c.state.CanWrite() && c.sender.CanSend(len) {
      assert next.log == c.log + [Write(sent, len)] && next.sender.sentOffset == sent + len;
      hide Tiles, Total, Step;
      TilesAppend(c.log, Write(sent, len));
      TotalAppend(c.log, Write(sent, len));
    } else {
      assert next.log == c.log + [] == c.log;
    }
  }

  lemma StepAccounts(c: Channel, ev: Event)
    requires Accounted(c)
    requires ev.Grant? ==> ev.newMax < U32
    requires ev.Send? ==> ev.len < 0x8000_0000_0000_0000
    ensures Accounted(Step(c, ev))
  {
    match ev
    case Send(len) => SendAccounts(c, len);
    case Deliver(which) =>
      if which < |c.log| {
        EndsWithinTotal(c.log, which);
      }
    case _ =>
  }

  // In every reachable state the successful writes tile [0, sentOffset), the
  // sender has kept within its window, and the receiver's offset is exactly the
  // furthest end delivered to it, so never beyond what was sent or granted.
  lemma {:induction false} RunsAccount(window: u64, evs: seq<Event>)
    requires window < U32 && Within(evs, U32 - 1)
    ensures var c := Run(window, evs);
            && Accounted(c)
            && c.receiver.receivedOffset == MaxEnd(Deliveries(window, evs))
  {
    if evs == [] {
    } else {
      var init, ev := evs[..|evs| - 1], evs[|evs| - 1];
      RunsAccount(window, init);
      var c, ds := Run(window, init), Deliveries(window, init);
      StepAccounts(c, ev);
      if ev.Deliver? && ev.which < |c.log| {
        assert Deliveries(window, evs) == ds + [c.log[ev.which]];
        DeliverIsMax(c, ev.which, ds);
      } else {
        assert Deliveries(window, evs) == ds + [] == ds;
      }
    }
  }

  lemma DeliverIsMax(c: Channel, which: nat, ds: seq<Write>)
    requires Accounted(c) && which < |c.log| && c.receiver.receivedOffset == MaxEnd(ds)
    ensures Step(c, Deliver(which)).receiver.receivedOffset == MaxEnd(ds + [c.log[which]])
  {
    EndsWithinTotal(c.log, which);
    MaxEndAppend(ds, c.log[which]);
  }

  ghost predicate AlwaysTiles(window: u64) {
    forall evs: seq<Event> | Within(evs, window) :: Tiles(Run(window, evs).log)
  }

  lemma WriteAfterFullWindow(window: u64)
    requires window >= U32
    ensures Run(window, [Send(U32), Send(0)]).log == [Write(0, U32), Write(0, 0)]
  {
    var first, second := Send(U32), Send(0);
    RunStep(window, [], first);
    RunStep(window, [first], second);
    assert [] + [first] == [first] && [first] + [second] == [first, second];
    assert Run(window, [first]).log == [] + [Write(0, U32)] == [Write(0, U32)];
    hide Run;
    assert [Write(0, U32)] + [Write(0, 0)] == [Write(0, U32), Write(0, 0)];
  }

  lemma DoesNotTile()
    ensures !Tiles([Write(0, U32), Write(0, 0)])
  {
    var w1, w2 := Write(0, U32), Write(0, 0);
    assert [] + [w1] == [w1] && [w1] + [w2] == [w1, w2];
    TotalAppend([], w1);
    hide Total, Tiles;
    TilesAppend([w1], w2);
    assert Total([]) == 0 by { NoWrites(); }
  }

  lemma NoWrites()
    ensures Total([]) == 0
  {
  }

  // The offsets handed out are 32-bit, the window 64-bit: the writes of every
  // run tile exactly when the window fits in 32 bits.
  lemma TilesIffWindowFits(window: u64)
    ensures AlwaysTiles(window) <==> window < U32
  {
    hide Run, Tiles, Step;
    if window < U32 {
      forall evs: seq<Event> | Within(evs, window) ensures Tiles(Run(window, evs).log) {
        RunsAccount(window, evs);
      }
    } else {
      // A full window and then an empty write: its offset comes out as 0.
      var evs := [Send(U32), Send(0)];
      WriteAfterFullWindow(window);
      DoesNotTile();
      assert Within(evs, window) && !Tiles(Run(window, evs).log);
    }
  }

  lemma RunStep(window: u64, evs: seq<Event>, ev: Event)
    ensures Run(window, evs + [ev]) == Step(Run(window, evs), ev)
  {
    assert (evs + [ev])[..|evs|] == evs;
  }

  // ---------- which writes succeed ----------

  // The greatest of the first window and all the grants.
  function Greatest(window: u64, evs: seq<Event>): u64 {
    if evs == [] then window
    else
      var before, last := Greatest(window, evs[..|evs| - 1]), evs[|evs| - 1];
      if last.Grant? && last.newMax > before then last.newMax else before
  }

  lemma {:induction false} GreatestWithin(window: u64, evs: seq<Event>, bound: u64)
    requires window <= bound && Within(evs, bound)
    ensures Greatest(window, evs) <= bound
  {
    if evs != [] {
      GreatestWithin(window, evs[..|evs| - 1], bound);
    }
  }

  const HALF: u64 := 0x8000_0000_0000_0000

  // What the sender's side is after a run.
  ghost predicate SenderAfter(window: u64, evs: seq<Event>, c: Channel) {
    && c.state == (if CloseWrite in evs then HalfClosedLocal else Open)
    && c.sender.maxOffset == Greatest(window, evs)
    && Total(c.log) == c.sender.sentOffset <= c.sender.maxOffset < HALF
    && c.sender.maxWindow == c.receiver.maxWindow == window
  }

  lemma SendKeepsSender(c: Channel, len: nat)
    requires Total(c.log) == c.sender.sentOffset <= c.sender.maxOffset < HALF && len < HALF
    ensures var sent, next := c.sender.sentOffset, Step(c, Send(len));
            if c.state.CanWrite() && sent + len <= c.sender.maxOffset then
              next == c.(sender := c.sender.(sentOffset := sent + len), log := c.log + [Write(sent % U32, len)])
              && Total(next.log) == sent + len
            else next == c
  {
    var sent := c.sender.sentOffset;
    assert (sent + len) % U64 == sent + len;
    assert c.log + [] == c.log;
    hide Total;
    TotalAppend(c.log, Write(sent % U32, len));
  }

  lemma {:induction false} SenderReached(window: u64, evs: seq<Event>)
    requires window < HALF && Within(evs, HALF - 1)
    ensures SenderAfter(window, evs, Run(window, evs))
  {
    if evs == [] {
      NoWrites();
    } else {
      var init, ev := evs[..|evs| - 1], evs[|evs| - 1];
      assert evs == init + [ev];
      SenderReached(window, init);
      GreatestWithin(window, evs, HALF - 1);
      var c := Run(window, init);
      hide Total, Within, Run;
      if ev.Send? {
        SendKeepsSender(c, ev.len);
      }
    }
  }

  // After any run, a write succeeds if and only if writing has not been closed and
  // the bytes written before, with its own, do not exceed the greatest window
  // granted. It is then logged where those before it end; otherwise nothing changes.
  // The first window stays on record.
  lemma SendsIff(window: u64, evs: seq<Event>, len: nat)
    requires window < 0x8000_0000_0000_0000 && Within(evs, 0x7FFF_FFFF_FFFF_FFFF) && len < 0x8000_0000_0000_0000
    ensures var c, next := Run(window, evs), Run(window, evs + [Send(len)]);
            if CloseWrite !in evs && Total(c.log) + len <= Greatest(window, evs) then
              next.log == c.log + [Write(Total(c.log) % U32, len)] && next == c.(sender := next.sender, log := next.log)
            else next == c
    ensures Run(window, evs).sender.maxWindow == Run(window, evs).receiver.maxWindow == window
  {
    SenderReached(window, evs);
    RunStep(window, evs, Send(len));
    hide Run, Total, Within, Greatest;
    SendKeepsSender(Run(window, evs), len);
  }
}
