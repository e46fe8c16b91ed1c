/**
 From the sensor's timer to the gateway's watchdog, across a network that delays and loses
 heartbeats: when a live sensor can never be shown as offline.

 Time is counted in ticks, `resolution` of them to the millisecond. The node compares clock
 readings in ticks; the gateway stamps in whole milliseconds, rounding down. The node's clock
 and the gateway's are taken to run at the same rate.
 */
module HeartbeatSafety {
  import opened Protocol
  import opened BigEndian
  import opened GatewayModel
  import opened GatewayHistory
  import opened SensorNode
  import opened SlowestNode

  type positive = n: int | 1 <= n witness 1

  /**
   `interval` is in milliseconds. `gap` bounds the time between two passes of the node's loop
   and `delay` that of a packet on the network, both in ticks; at most `losses` heartbeats in a
   row are lost.
   */
  datatype Setting = Setting(resolution: positive, interval: nat, gap: nat, delay: nat, losses: nat)

  function IntervalTicks(c: Setting): nat {
    c.interval * c.resolution
  }

  function StrideTicks(c: Setting): nat {
    Stride(IntervalTicks(c), c.gap)
  }

  function TimeoutTicks(c: Setting): nat {
    HEARTBEAT_TIMEOUT * c.resolution
  }

  /**
   A node's passes, the fate of each of its heartbeats (None is lost, otherwise the arrival),
   the run of the gateway and the tick at which each of its steps reads the clock.
   */
  datatype Scenario = Scenario(
    start: nat, passes: seq<nat>, arrivals: seq<Option<nat>>, run: Run, ticks: seq<nat>)

  function Sends(c: Setting, x: Scenario): seq<nat> {
    Fires(x.start, IntervalTicks(c), x.passes)
  }

  /** The network keeps its promises. */
  ghost predicate NetworkWithin(c: Setting, x: Scenario) {
    var sends := Sends(c, x);
    && |x.arrivals| == |sends|
    && (forall j :: 0 <= j < |sends| && x.arrivals[j].Some? ==>
          sends[j] <= x.arrivals[j].value <= sends[j] + c.delay)
    && (forall i :: 0 <= i < |sends| - c.losses ==> DeliveredIn(x.arrivals, i, c.losses))
  }

  /** Of the `losses + 1` heartbeats from number `i` on, at least one arrives. */
  ghost predicate DeliveredIn(arrivals: seq<Option<nat>>, i: int, losses: nat) {
    exists j :: 0 <= i <= j <= i + losses && j < |arrivals| && arrivals[j].Some?
  }

  /** Steps happen in the order of their ticks, and their stamps are the ticks in whole milliseconds. */
  ghost predicate Stamped(c: Setting, x: Scenario) {
    && |x.ticks| == |x.run|
    && (forall i, j :: 0 <= i <= j < |x.ticks| ==> x.ticks[i] <= x.ticks[j])
    && (forall i :: 0 <= i < |x.run| ==> 0 < x.run[i].Time() == x.ticks[i] / c.resolution)
  }

  /** Before step `n`, the gateway has handled a heartbeat of the sensor at this tick. */
  ghost predicate HandledBefore(x: Scenario, id: uint32, n: int, tick: nat) {
    exists p :: 0 <= p < n <= |x.run| && p < |x.ticks| && x.run[p].IsHeartbeatOf(id) && x.ticks[p] == tick
  }

  /** The gateway handles the sensor's heartbeats when they arrive, and no others. */
  ghost predicate GatewayHears(x: Scenario, id: uint32) {
    && |x.ticks| == |x.run|
    && (forall p :: 0 <= p < |x.run| && x.run[p].IsHeartbeatOf(id) ==>
          exists j :: 0 <= j < |x.arrivals| && x.arrivals[j] == Some(x.ticks[p]))
    && (forall j, q ::
          0 <= j < |x.arrivals| && x.arrivals[j].Some? && 0 <= q < |x.run| &&
          x.arrivals[j].value < x.ticks[q] ==>
            HandledBefore(x, id, q, x.arrivals[j].value))
  }

  /** All hypotheses; the last says that the node is alive for the whole run. */
  ghost predicate Fits(c: Setting, x: Scenario, id: uint32) {
    && Paced(x.start, x.passes, c.gap)
    && NetworkWithin(c, x)
    && Stamped(c, x)
    && GatewayHears(x, id)
    && (forall q :: 0 <= q < |x.ticks| ==> x.ticks[q] <= LastPass(x.start, x.passes))
  }

  ghost predicate NeverOffline(run: Run, id: uint32) {
    forall i :: 0 <= i <= |run| ==> Entry(Exec(run[..i]).sensors, id).health != Offline
  }

  /** The settings for which a live sensor can never be shown as offline. */
  ghost predicate Safe(c: Setting) {
    forall x: Scenario, id: uint32 :: Fits(c, x, id) ==> NeverOffline(x.run, id)
  }

  predicate WithinTimeout(c: Setting) {
    (c.losses + 1) * StrideTicks(c) + c.delay <= TimeoutTicks(c)
  }

  // ---- ticks and stamps ----

  lemma DivMonotone(a: nat, b: nat, r: positive)
    requires a <= b
    ensures a / r <= b / r
  {
    var k := a / r - b / r;
    assert r * (a / r) == r * (b / r) + r * k;
    if k > 0 {
      MulAtLeast(r, k);
    }
  }

  lemma DivPlusMultiple(a: nat, n: nat, r: positive)
    ensures (a + n * r) / r == a / r + n
  {
    assert a + n * r == r * (a / r + n) + a % r;
    DivUnique(a + n * r, r, a / r + n, a % r);
  }

  /** Readings at most `n` milliseconds apart have stamps at most `n` apart. */
  lemma StampGap(a: nat, b: nat, n: nat, r: positive)
    requires a <= b <= a + n * r
    ensures a / r <= b / r <= a / r + n
  {
    DivMonotone(a, b, r);
    DivMonotone(b, a + n * r, r);
    DivPlusMultiple(a, n, r);
  }

  // ---- the bound is sufficient ----

  lemma {:induction false} SendsSpread(c: Setting, x: Scenario, i: nat, j: nat)
    requires Paced(x.start, x.passes, c.gap) && i <= j < |Sends(c, x)|
    ensures Sends(c, x)[j] <= Sends(c, x)[i] + Span(j - i, StrideTicks(c))
  {
    if i < j {
      SendsSpread(c, x, i, j - 1);
      FireSpacing(x.start, IntervalTicks(c), x.passes, c.gap);
      assert SpacedAt(x.start, IntervalTicks(c), c.gap, Sends(c, x), j);
    }
  }

  /** After a heartbeat, the next one to arrive does so within the longest silence. */
  lemma NextArrival(c: Setting, x: Scenario, i: nat) returns (j: nat)
    requires Paced(x.start, x.passes, c.gap) && NetworkWithin(c, x)
    requires i + 1 + c.losses < |x.arrivals|
    ensures i < j < |x.arrivals| && x.arrivals[j].Some?
    ensures x.arrivals[j].value <= Sends(c, x)[i] + Span(c.losses + 1, StrideTicks(c)) + c.delay
  {
    assert DeliveredIn(x.arrivals, i + 1, c.losses);
    j :| i + 1 <= j <= i + 1 + c.losses && j < |x.arrivals| && x.arrivals[j].Some?;
    SendsSpread(c, x, i, j);
    SpanMonotone(j - i, c.losses + 1, StrideTicks(c));
  }

  /** If too few heartbeats follow for one to be sure to arrive, the passes end soon after. */
  lemma FewSendsLeft(c: Setting, x: Scenario, i: nat)
    requires Paced(x.start, x.passes, c.gap)
    requires i < |Sends(c, x)| <= i + 1 + c.losses
    ensures LastPass(x.start, x.passes) <= Sends(c, x)[i] + Span(c.losses + 1, StrideTicks(c))
  {
    var last := |Sends(c, x)| - 1;
    SendsSpread(c, x, i, last);
    SpanMonotone(last - i, c.losses, StrideTicks(c));
    FireSpacing(x.start, IntervalTicks(c), x.passes, c.gap);
  }

  /** The tick of the sensor's last heartbeat before step `q`, 0 if there is none. */
  function LastHeardTick(x: Scenario, id: uint32, q: nat): nat
    requires q <= |x.run| == |x.ticks|
  {
    var p := LastHeartbeat(x.run[..q], id);
    if p < 0 then 0 else x.ticks[p]
  }

  lemma LastHeardIsLatest(c: Setting, x: Scenario, id: uint32, q: nat, tick: nat)
    requires Stamped(c, x) && q <= |x.run| && HandledBefore(x, id, q, tick)
    ensures tick <= LastHeardTick(x, id, q)
  {
    var p :| 0 <= p < q && x.run[p].IsHeartbeatOf(id) && x.ticks[p] == tick;
    assert x.run[..q][p].IsHeartbeatOf(id);
    assert p <= LastHeartbeat(x.run[..q], id);
  }

  /**
   If heartbeat `i` was handled before the scan, then either the scan comes in time, or a
   later heartbeat was handled before the scan as well; so the scan comes in time.
   */
  lemma {:induction false} ScanInTime(c: Setting, x: Scenario, id: uint32, q: nat, i: nat)
    requires Fits(c, x, id) && WithinTimeout(c)
    requires q < |x.run| && i < |x.arrivals| && x.arrivals[i].Some?
    requires HandledBefore(x, id, q, x.arrivals[i].value)
    ensures x.ticks[q] <= LastHeardTick(x, id, q) + TimeoutTicks(c)
    decreases |x.arrivals| - i
  {
    LastHeardIsLatest(c, x, id, q, x.arrivals[i].value);
    assert Sends(c, x)[i] <= x.arrivals[i].value <= LastHeardTick(x, id, q);
    SpanIsProduct(c.losses + 1, StrideTicks(c));
    if i + 1 + c.losses < |x.arrivals| {
      var j := NextArrival(c, x, i);
      if x.arrivals[j].value < x.ticks[q] {
        assert HandledBefore(x, id, q, x.arrivals[j].value);
        ScanInTime(c, x, id, q, j);
      }
    } else {
      FewSendsLeft(c, x, i);
      assert x.ticks[q] <= LastPass(x.start, x.passes);
    }
  }

  /** The stamps a scan compares are at most the timeout apart. */
  lemma ScanIsQuiet(c: Setting, x: Scenario, id: uint32, q: nat)
    requires Fits(c, x, id) && WithinTimeout(c)
    requires q < |x.run| && LastHeartbeat(x.run[..q], id) >= 0
    ensures HeartbeatStamp(x.run[..q], id) <= x.run[q].Time() <= HeartbeatStamp(x.run[..q], id) + HEARTBEAT_TIMEOUT
  {
    var p := LastHeartbeat(x.run[..q], id);
    assert x.run[p].IsHeartbeatOf(id);
    var j :| 0 <= j < |x.arrivals| && x.arrivals[j] == Some(x.ticks[p]);
    assert HandledBefore(x, id, q, x.ticks[p]);
    ScanInTime(c, x, id, q, j);
    assert x.ticks[p] <= x.ticks[q];
    StampGap(x.ticks[p], x.ticks[q], HEARTBEAT_TIMEOUT, c.resolution);
  }

  /** No false alarm: within the bound, a live sensor is never offline at any point of any run. */
  lemma LiveSensorNeverOffline(c: Setting, x: Scenario, id: uint32)
    requires Fits(c, x, id) && WithinTimeout(c)
    ensures NeverOffline(x.run, id)
  {
    forall i | 0 <= i <= |x.run|
      ensures Entry(Exec(x.run[..i]).sensors, id).health != Offline
    {
      NotOfflineAt(c, x, id, i);
    }
  }

  /** A scan that finds the stamp within the timeout, and every other step, leaves a sensor not offline. */
  lemma QuietStep(s: State, step: Step, id: uint32)
    requires Entry(s.sensors, id).health != Offline
    requires step.Scan? && Entry(s.sensors, id).health == Online ==>
               Elapsed(step.sample, Entry(s.sensors, id).heartbeatStamp) <= HEARTBEAT_TIMEOUT
    ensures Entry(Apply(s, step).sensors, id).health != Offline
  {
  }

  lemma {:induction false} NotOfflineAt(c: Setting, x: Scenario, id: uint32, i: nat)
    requires Fits(c, x, id) && WithinTimeout(c) && i <= |x.run|
    ensures Entry(Exec(x.run[..i]).sensors, id).health != Offline
  {
    if i > 0 {
      var q := i - 1;
      NotOfflineAt(c, x, id, q);
      ExecStep(x.run, q);
      HeartbeatIsHistory(x.run[..q], id);
      if LastHeartbeat(x.run[..q], id) >= 0 {
        ScanIsQuiet(c, x, id, q);
      }
      QuietStep(Exec(x.run[..q]), x.run[q], id);
    }
  }

  // ---- the bound is necessary ----

  /** Stamps of the worst case stay below 2^64. */
  predicate Room(c: Setting) {
    StrideTicks(c) / c.resolution + HEARTBEAT_TIMEOUT + 2 < TWO_TO_THE_64
  }

  /** A tick that is the last of its millisecond, and at least a stride from 0. */
  function FirstBeat(c: Setting): nat {
    c.resolution * (StrideTicks(c) / c.resolution + 1) + c.resolution - 1
  }

  /** The next tick would be one too many: one tick later the stamps are the timeout plus one apart. */
  lemma WorstStamps(c: Setting)
    ensures FirstBeat(c) >= StrideTicks(c)
    ensures FirstBeat(c) / c.resolution == StrideTicks(c) / c.resolution + 1
    ensures (FirstBeat(c) + TimeoutTicks(c) + 1) / c.resolution == StrideTicks(c) / c.resolution + HEARTBEAT_TIMEOUT + 2
  {
    var r, k := c.resolution, StrideTicks(c) / c.resolution;
    assert StrideTicks(c) == r * k + StrideTicks(c) % r;
    assert r * (k + 1) == r * k + r;
    DivUnique(FirstBeat(c), r, k + 1, r - 1);
    assert FirstBeat(c) + TimeoutTicks(c) + 1 == r * (k + HEARTBEAT_TIMEOUT + 2) by {
      assert r * (k + HEARTBEAT_TIMEOUT + 2) == r * (k + 1) + r * HEARTBEAT_TIMEOUT + r;
    }
    DivUnique(FirstBeat(c) + TimeoutTicks(c) + 1, r, k + HEARTBEAT_TIMEOUT + 2, 0);
  }

  /** Enough heartbeats for the node to be alive at the scan. */
  function WorstCaseSends(c: Setting): nat {
    c.losses + 2 + TimeoutTicks(c) + 1
  }

  function WorstStart(c: Setting): nat {
    WorstStamps(c);
    FirstBeat(c) - StrideTicks(c)
  }

  /** First heartbeat on time, the next `losses` lost, all later ones as late as allowed. */
  function WorstArrivals(start: nat, stride: nat, delay: nat, losses: nat, n: nat): seq<Option<nat>> {
    seq(n, i requires 0 <= i < n =>
      if i == 0 then Some(start + stride)
      else if i <= losses then None
      else Some(start + Span(i + 1, stride) + delay))
  }

  /** One heartbeat, and a scan that finds it one millisecond too old. */
  function WorstRun(id: uint32, stamp: nat): Run
    requires stamp + HEARTBEAT_TIMEOUT + 1 < TWO_TO_THE_64
  {
    [Heartbeat(HeartbeatMessage(PacketHeader(HEARTBEAT, id, 0)), stamp), Scan(stamp + HEARTBEAT_TIMEOUT + 1)]
  }

  function WorstCase(c: Setting, id: uint32, passes: seq<nat>): Scenario
    requires Room(c)
  {
    Scenario(WorstStart(c), passes,
             WorstArrivals(WorstStart(c), StrideTicks(c), c.delay, c.losses, WorstCaseSends(c)),
             WorstRun(id, StrideTicks(c) / c.resolution + 1),
             [FirstBeat(c), FirstBeat(c) + TimeoutTicks(c) + 1])
  }

  lemma WorstCaseGoesOffline(c: Setting, id: uint32, passes: seq<nat>)
    requires Room(c)
    ensures Stamped(c, WorstCase(c, id, passes))
    ensures Entry(Exec(WorstCase(c, id, passes).run).sensors, id).health == Offline
  {
    WorstStamps(c);
    var run := WorstCase(c, id, passes).run;
    assert run[..2] == run;
    assert run[..0] == [];
    ExecStep(run, 0);
    ExecStep(run, 1);
  }

  lemma WorstCaseNetwork(c: Setting, id: uint32, passes: seq<nat>)
    requires Fires(WorstStart(c), IntervalTicks(c), passes) == Steps(WorstStart(c), StrideTicks(c), WorstCaseSends(c))
    requires Room(c)
    ensures NetworkWithin(c, WorstCase(c, id, passes))
  {
    var x := WorstCase(c, id, passes);
    var n := |x.arrivals|;
    forall i | 0 <= i < n - c.losses
      ensures DeliveredIn(x.arrivals, i, c.losses)
    {
      assert x.arrivals[if i == 0 then 0 else i + c.losses].Some?;
    }
    forall j | 0 <= j < n && x.arrivals[j].Some?
      ensures Sends(c, x)[j] <= x.arrivals[j].value <= Sends(c, x)[j] + c.delay
    {
      StepAt(WorstStart(c), StrideTicks(c), n, j);
    }
  }

  lemma WorstCaseGateway(c: Setting, id: uint32, passes: seq<nat>)
    requires !WithinTimeout(c) && Room(c)
    ensures GatewayHears(WorstCase(c, id, passes), id)
  {
    var x, stride := WorstCase(c, id, passes), StrideTicks(c);
    assert x.arrivals[0] == Some(x.ticks[0]);
    assert HandledBefore(x, id, 1, x.ticks[0]) by {
      assert x.run[0].IsHeartbeatOf(id);
    }
    SpanIsProduct(c.losses + 1, stride);
    forall j | 0 < j < |x.arrivals| && x.arrivals[j].Some?
      ensures x.arrivals[j].value >= x.ticks[1]
    {
      SpanMonotone(c.losses + 1, j, stride);
      assert x.arrivals[j].value == WorstStart(c) + Span(j + 1, stride) + c.delay;
      assert Span(j + 1, stride) == Span(j, stride) + stride;
    }
  }

  lemma WorstCaseFits(c: Setting, id: uint32) returns (x: Scenario)
    requires 1 <= c.gap && !WithinTimeout(c) && Room(c)
    ensures Fits(c, x, id) && x == WorstCase(c, id, x.passes)
    ensures Entry(Exec(x.run).sensors, id).health == Offline && !NeverOffline(x.run, id)
  {
    var start, n := WorstStart(c), WorstCaseSends(c);
    var passes := SlowestPasses(start, IntervalTicks(c), c.gap, n);
    x := WorstCase(c, id, passes);
    WorstCaseNetwork(c, id, passes);
    WorstCaseGateway(c, id, passes);
    WorstCaseGoesOffline(c, id, passes);
    assert x.run[..|x.run|] == x.run;
    assert x.ticks[1] <= LastPass(start, passes) by {
      SpanAtLeast(n - 1, StrideTicks(c));
    }
  }

  /**
   The exact condition, at every resolution: a setting is safe in every scenario if and only if
   the longest silence it allows, `losses + 1` strides and one delay, fits the timeout.
   */
  lemma SafeIffWithinTimeout(c: Setting)
    requires 1 <= c.gap && Room(c)
    ensures Safe(c) <==> WithinTimeout(c)
  {
    if WithinTimeout(c) {
      forall x: Scenario, id: uint32 | Fits(c, x, id)
        ensures NeverOffline(x.run, id)
      {
        LiveSensorNeverOffline(c, x, id);
      }
    } else {
      var x := WorstCaseFits(c, 1);
    }
  }

  // ---- whatever the resolution ----

  /** Interval, poll gap and delay in whole milliseconds, seen at a given resolution. */
  function AtResolution(r: positive, interval: nat, gap: nat, delay: nat, losses: nat): Setting {
    Setting(r, interval, gap * r, delay * r, losses)
  }

  ghost predicate SafeAt(r: positive, interval: nat, gap: nat, delay: nat, losses: nat) {
    Safe(AtResolution(r, interval, gap, delay, losses))
  }

  lemma StrideAt(r: positive, interval: nat, gap: nat, delay: nat, losses: nat)
    requires 1 <= gap
    ensures var c := AtResolution(r, interval, gap, delay, losses);
            && 1 <= c.gap
            && StrideTicks(c) == (interval + gap) * r - (if interval == 0 then 0 else 1)
            && StrideTicks(c) / r <= interval + gap
  {
    var c := AtResolution(r, interval, gap, delay, losses);
    MulAtLeast(r, gap);
    if interval > 0 {
      MulAtLeast(r, interval);
    }
    assert (interval + gap) * r == interval * r + gap * r;
    DivMonotone(StrideTicks(c), (interval + gap) * r, r);
    DivPlusMultiple(0, interval + gap, r);
  }

  /** The longest silence at a resolution, over the timeout at that resolution. */
  lemma Excess(r: positive, interval: nat, gap: nat, delay: nat, losses: nat)
    requires 1 <= gap
    ensures var c := AtResolution(r, interval, gap, delay, losses);
            var over := (losses + 1) * (interval + gap) + delay - HEARTBEAT_TIMEOUT;
            WithinTimeout(c) <==> r * over <= if interval == 0 then 0 else losses + 1
  {
    var c := AtResolution(r, interval, gap, delay, losses);
    StrideAt(r, interval, gap, delay, losses);
    var n, s, lag := losses + 1, interval + gap, if interval == 0 then 0 else 1;
    assert n * (s * r - lag) == n * s * r - n * lag;
    assert r * (n * s + delay - HEARTBEAT_TIMEOUT) == n * s * r + delay * r - HEARTBEAT_TIMEOUT * r;
  }

  /**
   For clocks of every resolution, a setting in whole milliseconds is safe if and only if
   (losses + 1) intervals and poll gaps and one delay fit the timeout.
   */
  lemma SafeAtEveryResolution(interval: nat, gap: nat, delay: nat, losses: nat)
    requires 1 <= gap && interval + gap + HEARTBEAT_TIMEOUT + 2 < TWO_TO_THE_64
    ensures (forall r: positive :: SafeAt(r, interval, gap, delay, losses)) <==>
            (losses + 1) * (interval + gap) + delay <= HEARTBEAT_TIMEOUT
  {
    var over := (losses + 1) * (interval + gap) + delay - HEARTBEAT_TIMEOUT;
    forall r: positive
      ensures SafeAt(r, interval, gap, delay, losses) <==> r * over <= if interval == 0 then 0 else losses + 1
    {
      StrideAt(r, interval, gap, delay, losses);
      SafeIffWithinTimeout(AtResolution(r, interval, gap, delay, losses));
      Excess(r, interval, gap, delay, losses);
    }
    if over <= 0 {
      forall r: positive ensures r * over <= 0 {
      }
    } else {
      MulAtLeast(losses + 2, over);
      assert !SafeAt(losses + 2, interval, gap, delay, losses);
    }
  }

  /** With the default interval, not even one heartbeat may be lost. */
  lemma DefaultsTolerateNoLoss(gap: nat, delay: nat, losses: nat)
    requires 1 <= gap && 5000 + gap + HEARTBEAT_TIMEOUT + 2 < TWO_TO_THE_64
    ensures (forall r: positive :: SafeAt(r, 5000, gap, delay, losses)) <==> losses == 0 && gap + delay <= 5000
  {
    SafeAtEveryResolution(5000, gap, delay, losses);
    if losses >= 1 {
      SpanIsProduct(2, 5000 + gap);
      SpanIsProduct(losses + 1, 5000 + gap);
      SpanMonotone(2, losses + 1, 5000 + gap);
    }
  }
}
