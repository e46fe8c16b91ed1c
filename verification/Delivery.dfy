/**
 From the bytes a node emits, over a network that delays and loses them, to the health the
 gateway shows: the hypotheses of `HeartbeatSafety` follow from what happens to each emission.
 */
module Delivery {
  import opened Protocol
  import opened PacketSerializer
  import opened GatewayModel
  import opened GatewayRuntime
  import opened WireRefinement
  import opened SensorNode
  import opened HeartbeatSafety

  /** The gateway takes the emission as telemetry with this pass's measurement. */
  ghost predicate TellsTelemetry(e: Emission, id: uint32, p: Pass) {
    && e.time == p.time && |e.bytes| > 0 && e.bytes[0] == 1
    && forall at: uint64 :: StepOf(e.bytes, at) ==
         Some(Telemetry(TelemetryMessage(PacketHeader(1, id, p.telemetryWall), p.sensorType, p.sensorState, p.value), at))
  }

  ghost predicate TellsHeartbeat(e: Emission, id: uint32, p: Pass) {
    && e.time == p.time && |e.bytes| > 0 && e.bytes[0] == 2
    && forall at: uint64 :: StepOf(e.bytes, at) == Some(Heartbeat(HeartbeatMessage(PacketHeader(2, id, p.heartbeatWall)), at))
  }

  lemma TelemetryTells(id: uint32, p: Pass)
    ensures TellsTelemetry(Emission(p.time, TelemetryBytes(TelemetryOf(id, p))), id, p)
  {
    var t := TelemetryOf(id, p);
    TypeByte(t.header);
    forall at: uint64
      ensures StepOf(TelemetryBytes(t), at) == Some(Telemetry(t, at))
    {
      DispatchIsExact(Datagram(TelemetryBytes(t), at), Telemetry(t, at));
    }
  }

  lemma HeartbeatTells(id: uint32, p: Pass)
    ensures TellsHeartbeat(Emission(p.time, HeartbeatBytes(HeartbeatOf(id, p))), id, p)
  {
    var h := HeartbeatOf(id, p);
    TypeByte(h.header);
    forall at: uint64
      ensures StepOf(HeartbeatBytes(h), at) == Some(Heartbeat(h, at))
    {
      DispatchIsExact(Datagram(HeartbeatBytes(h), at), Heartbeat(h, at));
    }
  }

  /** Each emission tells of the pass it was made in, in the order of the passes, telemetry before heartbeat. */
  ghost predicate TellOf(id: uint32, es: seq<Emission>, passes: seq<Pass>, owners: seq<nat>) {
    && |owners| == |es|
    && (forall i :: 0 <= i < |es| ==> owners[i] < |passes|)
    && (forall i :: 0 <= i < |es| ==>
          TellsTelemetry(es[i], id, passes[owners[i]]) || TellsHeartbeat(es[i], id, passes[owners[i]]))
    && (forall i, j :: 0 <= i < j < |es| ==>
          owners[i] < owners[j] || (owners[i] == owners[j] && es[i].bytes[0] == 1 && es[j].bytes[0] == 2))
  }

  lemma TellOfPass(
      id: uint32, es: seq<Emission>, passes: seq<Pass>, owners: seq<nat>, p: Pass, telemetryDue: bool, heartbeatDue: bool)
    returns (more: seq<nat>)
    requires TellOf(id, es, passes, owners)
    ensures TellOf(id, es + SentBy(id, p, telemetryDue, heartbeatDue), passes + [p], more)
  {
    var sent, n := SentBy(id, p, telemetryDue, heartbeatDue), |passes|;
    more := owners + seq(|sent|, _ => n);
    TelemetryTells(id, p);
    HeartbeatTells(id, p);
    assert forall i :: 0 <= i < n ==> (passes + [p])[i] == passes[i];
    assert forall i :: 0 <= i < |sent| ==> TellsTelemetry(sent[i], id, p) || TellsHeartbeat(sent[i], id, p);
  }

  /**
   What the loop puts on the wire, as the gateway reads it: each emission carries exactly the
   measurement and the clock reading of the pass that made it, in order.
   */
  lemma {:induction false} EmissionsTellPasses(node: Node, startTelemetry: nat, startHeartbeat: nat, passes: seq<Pass>)
    returns (owners: seq<nat>)
    ensures TellOf(node.id, node.Emissions(startTelemetry, startHeartbeat, passes), passes, owners)
  {
    if |passes| == 0 {
      owners := [];
    } else {
      var n := |passes| - 1;
      var front, p := passes[..n], passes[n];
      var before := EmissionsTellPasses(node, startTelemetry, startHeartbeat, front);
      assert passes == front + [p];
      owners := TellOfPass(
        node.id, node.Emissions(startTelemetry, startHeartbeat, front), front, before, p,
        p.time - LastFire(startTelemetry, node.telemetryInterval, Times(front)) >= node.telemetryInterval,
        p.time - LastFire(startHeartbeat, node.heartbeatInterval, Times(front)) >= node.heartbeatInterval);
    }
  }

  /** In particular every emission is taken as a packet of that node's sensor, of the kind its timer meant. */
  lemma EmissionsAreOwnPackets(
      node: Node, startTelemetry: nat, startHeartbeat: nat, passes: seq<Pass>, e: Emission, at: uint64)
    requires e in node.Emissions(startTelemetry, startHeartbeat, passes)
    ensures var step := StepOf(e.bytes, at);
            && step.Some? && step.value.IsPacketOf(node.id) && step.value.at == at
            && (step.value.Heartbeat? <==> e.bytes[0] == HEARTBEAT)
    ensures exists k :: 0 <= k < |passes| &&
              if e.bytes[0] == 1 then TellsTelemetry(e, node.id, passes[k]) else TellsHeartbeat(e, node.id, passes[k])
  {
    var es := node.Emissions(startTelemetry, startHeartbeat, passes);
    var owners := EmissionsTellPasses(node, startTelemetry, startHeartbeat, passes);
    var i :| 0 <= i < |es| && es[i] == e;
    assert TellsTelemetry(e, node.id, passes[owners[i]]) || TellsHeartbeat(e, node.id, passes[owners[i]]);
  }

  // ---- what the gateway is given ----

  /** A datagram or a turn of the watchdog, at the tick at which its handler reads the clock. */
  datatype Input =
    | Net(bytes: seq<byte>, tick: nat)
    | Watch(tick: nat)

  /** The clock reading in whole milliseconds, kept in 64 bits. */
  function StampAt(tick: nat, r: positive): uint64 {
    (tick / r) % TWO_TO_THE_64
  }

  function StepIn(i: Input, r: positive): Option<Step> {
    match i
    case Net(bytes, tick) => StepOf(bytes, StampAt(tick, r))
    case Watch(tick) => Some(Scan(StampAt(tick, r)))
  }

  /** The gateway's state after all inputs; datagrams that carry nothing are dropped. */
  function Feed(inputs: seq<Input>, r: positive): State {
    if |inputs| == 0 then INITIAL
    else
      var before, step := Feed(inputs[..|inputs| - 1], r), StepIn(inputs[|inputs| - 1], r);
      if step.Some? then Apply(before, step.value) else before
  }

  function RunOf(inputs: seq<Input>, r: positive): Run {
    if |inputs| == 0 then []
    else
      var step := StepIn(inputs[|inputs| - 1], r);
      RunOf(inputs[..|inputs| - 1], r) + if step.Some? then [step.value] else []
  }

  function TicksOf(inputs: seq<Input>, r: positive): seq<nat> {
    if |inputs| == 0 then []
    else
      var last := inputs[|inputs| - 1];
      TicksOf(inputs[..|inputs| - 1], r) + if StepIn(last, r).Some? then [last.tick] else []
  }

  lemma {:induction false} FeedIsRun(inputs: seq<Input>, r: positive)
    ensures Feed(inputs, r) == Exec(RunOf(inputs, r)) && |RunOf(inputs, r)| == |TicksOf(inputs, r)|
  {
    if |inputs| > 0 {
      var front := inputs[..|inputs| - 1];
      FeedIsRun(front, r);
      var run, step := RunOf(front, r), StepIn(inputs[|inputs| - 1], r);
      if step.Some? {
        assert (run + [step.value])[..|run|] == run;
      } else {
        assert run + [] == run;
      }
    }
  }

  lemma {:induction false} RunOfPrefix(inputs: seq<Input>, n: nat, r: positive)
    requires n <= |inputs|
    ensures RunOf(inputs[..n], r) <= RunOf(inputs, r) && TicksOf(inputs[..n], r) <= TicksOf(inputs, r)
    decreases |inputs|
  {
    if n == |inputs| {
      assert inputs[..n] == inputs;
    } else {
      RunOfPrefix(inputs[..|inputs| - 1], n, r);
      assert inputs[..|inputs| - 1][..n] == inputs[..n];
    }
  }

  /** Step `p` of the run is what input `i` amounts to. */
  ghost predicate ComesFrom(inputs: seq<Input>, r: positive, p: nat, i: nat) {
    && i < |inputs| && p == |RunOf(inputs[..i], r)|
    && p < |RunOf(inputs, r)| == |TicksOf(inputs, r)|
    && StepIn(inputs[i], r) == Some(RunOf(inputs, r)[p]) && TicksOf(inputs, r)[p] == inputs[i].tick
  }

  lemma InputBecomesStep(inputs: seq<Input>, r: positive, i: nat) returns (p: nat)
    requires i < |inputs| && StepIn(inputs[i], r).Some?
    ensures ComesFrom(inputs, r, p, i)
  {
    p := |RunOf(inputs[..i], r)|;
    FeedIsRun(inputs, r);
    FeedIsRun(inputs[..i], r);
    RunOfPrefix(inputs, i + 1, r);
    assert inputs[..i + 1][..i] == inputs[..i];
    assert RunOf(inputs[..i + 1], r)[p] == StepIn(inputs[i], r).value;
    assert TicksOf(inputs[..i + 1], r)[p] == inputs[i].tick;
  }

  lemma {:induction false} StepHasInput(inputs: seq<Input>, r: positive, p: nat) returns (i: nat)
    requires p < |RunOf(inputs, r)|
    ensures ComesFrom(inputs, r, p, i)
  {
    var n := |inputs| - 1;
    var front := inputs[..n];
    if p < |RunOf(front, r)| {
      i := StepHasInput(front, r, p);
      assert front[..i] == inputs[..i];
    } else {
      i := n;
    }
    var q := InputBecomesStep(inputs, r, i);
  }

  lemma CountGrows(inputs: seq<Input>, r: positive, i: nat, k: nat)
    requires i < k <= |inputs| && StepIn(inputs[i], r).Some?
    ensures |RunOf(inputs[..i], r)| < |RunOf(inputs[..k], r)|
  {
    var part, upto := inputs[..k], inputs[..i + 1];
    assert part[..i + 1] == upto && upto[..i] == inputs[..i];
    RunOfPrefix(part, i + 1, r);
  }

  /** Later steps come from later inputs. */
  lemma SameOrder(inputs: seq<Input>, r: positive, p: nat, i: nat, q: nat, k: nat)
    requires ComesFrom(inputs, r, p, i) && ComesFrom(inputs, r, q, k)
    ensures i < k ==> p < q
    ensures p <= q ==> i <= k
  {
    if i < k {
      CountGrows(inputs, r, i, k);
    } else if k < i {
      CountGrows(inputs, r, k, i);
    }
  }

  // ---- what happens to the emissions ----

  predicate IsHeartbeat(e: Emission) {
    |e.bytes| > 0 && e.bytes[0] == HEARTBEAT
  }

  /** The fates of the heartbeats among the emissions: None is lost, otherwise the arrival. */
  function HeartbeatFates(es: seq<Emission>, fates: seq<Option<nat>>): seq<Option<nat>>
    requires |es| == |fates|
  {
    if |es| == 0 then []
    else
      var n := |es| - 1;
      HeartbeatFates(es[..n], fates[..n]) + if IsHeartbeat(es[n]) then [fates[n]] else []
  }

  /** Heartbeat number `j` is emission number `i`. */
  ghost predicate Names(es: seq<Emission>, fates: seq<Option<nat>>, j: nat, i: nat)
    requires |es| == |fates|
  {
    && i < |es| && IsHeartbeat(es[i])
    && j < |HeartbeatFates(es, fates)| == |TimesOf(HEARTBEAT, es)|
    && HeartbeatFates(es, fates)[j] == fates[i] && TimesOf(HEARTBEAT, es)[j] == es[i].time
  }

  lemma {:induction false} FateCount(es: seq<Emission>, fates: seq<Option<nat>>)
    requires |es| == |fates|
    ensures |HeartbeatFates(es, fates)| == |TimesOf(HEARTBEAT, es)|
  {
    if |es| > 0 {
      FateCount(es[..|es| - 1], fates[..|es| - 1]);
    }
  }

  lemma {:induction false} HeartbeatIsEmission(es: seq<Emission>, fates: seq<Option<nat>>, j: nat) returns (i: nat)
    requires |es| == |fates| && j < |HeartbeatFates(es, fates)|
    ensures Names(es, fates, j, i)
  {
    var n := |es| - 1;
    FateCount(es, fates);
    FateCount(es[..n], fates[..n]);
    if j < |HeartbeatFates(es[..n], fates[..n])| {
      i := HeartbeatIsEmission(es[..n], fates[..n], j);
    } else {
      i := n;
    }
  }

  lemma {:induction false} EmissionIsHeartbeat(es: seq<Emission>, fates: seq<Option<nat>>, i: nat) returns (j: nat)
    requires |es| == |fates| && i < |es| && IsHeartbeat(es[i])
    ensures Names(es, fates, j, i)
  {
    var n := |es| - 1;
    FateCount(es, fates);
    FateCount(es[..n], fates[..n]);
    if i < n {
      j := EmissionIsHeartbeat(es[..n], fates[..n], i);
    } else {
      j := |HeartbeatFates(es[..n], fates[..n])|;
    }
  }

  /** Nothing is delivered early or later than the delay, and losses of heartbeats in a row are bounded. */
  ghost predicate NetworkKeeps(c: Setting, es: seq<Emission>, fates: seq<Option<nat>>) {
    && |fates| == |es|
    && (forall i :: 0 <= i < |es| && fates[i].Some? ==> es[i].time <= fates[i].value <= es[i].time + c.delay)
    && var arrivals := HeartbeatFates(es, fates);
       forall i :: 0 <= i < |arrivals| - c.losses ==> DeliveredIn(arrivals, i, c.losses)
  }

  /** The gateway is given the datagram before input `q`. */
  ghost predicate GivenBefore(inputs: seq<Input>, q: int, bytes: seq<byte>, tick: nat) {
    exists k :: 0 <= k < q && k < |inputs| && inputs[k] == Net(bytes, tick)
  }

  ghost predicate IsDelivery(es: seq<Emission>, fates: seq<Option<nat>>, bytes: seq<byte>, tick: nat) {
    exists i :: 0 <= i < |es| && i < |fates| && es[i].bytes == bytes && fates[i] == Some(tick)
  }

  /** Inputs come in the order of time, within the range of the stamps. */
  ghost predicate InOrder(c: Setting, inputs: seq<Input>) {
    && (forall i, j :: 0 <= i <= j < |inputs| ==> inputs[i].tick <= inputs[j].tick)
    && (forall k :: 0 <= k < |inputs| ==> 0 < inputs[k].tick / c.resolution < TWO_TO_THE_64)
  }

  /** Every delivered emission is given to the gateway at its arrival; nobody else speaks for the sensor. */
  ghost predicate Delivered(
      c: Setting, es: seq<Emission>, fates: seq<Option<nat>>, inputs: seq<Input>, id: uint32)
  {
    && InOrder(c, inputs)
    && (forall k :: 0 <= k < |inputs| && inputs[k].Net? && CarriesPacketOf(inputs[k], c.resolution, id) ==>
          IsDelivery(es, fates, inputs[k].bytes, inputs[k].tick))
    && (forall i, q ::
          0 <= i < |es| && i < |fates| && fates[i].Some? && 0 <= q < |inputs| && fates[i].value < inputs[q].tick ==>
            GivenBefore(inputs, q, es[i].bytes, fates[i].value))
  }

  predicate CarriesPacketOf(i: Input, r: positive, id: uint32) {
    var step := StepIn(i, r);
    step.Some? && step.value.IsPacketOf(id)
  }

  // ---- the hypotheses of HeartbeatSafety ----

  lemma StepTime(i: Input, r: positive)
    requires StepIn(i, r).Some?
    ensures StepIn(i, r).value.Time() == StampAt(i.tick, r)
  {
  }

  lemma StepIsStamped(inputs: seq<Input>, r: positive, p: nat)
    requires forall k :: 0 <= k < |inputs| ==> 0 < inputs[k].tick / r < TWO_TO_THE_64
    requires p < |RunOf(inputs, r)| == |TicksOf(inputs, r)|
    ensures 0 < RunOf(inputs, r)[p].Time() == TicksOf(inputs, r)[p] / r
  {
    var i := StepHasInput(inputs, r, p);
    StepTime(inputs[i], r);
  }

  lemma StepsAreInOrder(inputs: seq<Input>, r: positive, p: nat, q: nat)
    requires forall i, j :: 0 <= i <= j < |inputs| ==> inputs[i].tick <= inputs[j].tick
    requires p <= q < |RunOf(inputs, r)| == |TicksOf(inputs, r)|
    ensures TicksOf(inputs, r)[p] <= TicksOf(inputs, r)[q]
  {
    var i := StepHasInput(inputs, r, p);
    var k := StepHasInput(inputs, r, q);
    SameOrder(inputs, r, p, i, q, k);
  }

  lemma StepsAreStamped(c: Setting, x: Scenario, inputs: seq<Input>)
    requires InOrder(c, inputs)
    requires x.run == RunOf(inputs, c.resolution) && x.ticks == TicksOf(inputs, c.resolution)
    ensures Stamped(c, x)
  {
    FeedIsRun(inputs, c.resolution);
    forall p | 0 <= p < |x.run|
      ensures 0 < x.run[p].Time() == x.ticks[p] / c.resolution
    {
      StepIsStamped(inputs, c.resolution, p);
    }
    forall p, q | 0 <= p <= q < |x.ticks|
      ensures x.ticks[p] <= x.ticks[q]
    {
      StepsAreInOrder(inputs, c.resolution, p, q);
    }
  }

  /** What one node emits, what becomes of it, and what the gateway is given. */
  datatype Link = Link(
    startTelemetry: nat, startHeartbeat: nat, passes: seq<Pass>,
    fates: seq<Option<nat>>, inputs: seq<Input>)
  {
    ghost function Emitted(node: Node): seq<Emission> {
      node.Emissions(startTelemetry, startHeartbeat, passes)
    }

    ghost function AsScenario(node: Node, r: positive): Scenario
      requires |Emitted(node)| == |fates|
    {
      Scenario(startHeartbeat, Times(passes), HeartbeatFates(Emitted(node), fates), RunOf(inputs, r), TicksOf(inputs, r))
    }
  }

  /** The node's intervals are the setting's, it is alive throughout, and the network keeps its promises. */
  ghost predicate LinkWithin(c: Setting, node: Node, l: Link) {
    && node.heartbeatInterval == IntervalTicks(c)
    && Paced(l.startHeartbeat, Times(l.passes), c.gap)
    && NetworkKeeps(c, l.Emitted(node), l.fates)
    && Delivered(c, l.Emitted(node), l.fates, l.inputs, node.id)
    && (forall k :: 0 <= k < |l.inputs| ==> l.inputs[k].tick <= LastPass(l.startHeartbeat, Times(l.passes)))
  }

  lemma OwnEmission(node: Node, l: Link, i: nat, at: uint64)
    requires i < |l.Emitted(node)|
    ensures var step := StepOf(l.Emitted(node)[i].bytes, at);
            && step.Some? && step.value.IsPacketOf(node.id)
            && (step.value.Heartbeat? <==> IsHeartbeat(l.Emitted(node)[i]))
  {
    EmissionsAreOwnPackets(node, l.startTelemetry, l.startHeartbeat, l.passes, l.Emitted(node)[i], at);
  }

  lemma HeardIsArrival(c: Setting, node: Node, l: Link, p: nat) returns (j: nat)
    requires LinkWithin(c, node, l) && p < |RunOf(l.inputs, c.resolution)| == |TicksOf(l.inputs, c.resolution)|
    requires RunOf(l.inputs, c.resolution)[p].IsHeartbeatOf(node.id)
    ensures var arrivals := HeartbeatFates(l.Emitted(node), l.fates);
            j < |arrivals| && arrivals[j] == Some(TicksOf(l.inputs, c.resolution)[p])
  {
    var k := StepHasInput(l.inputs, c.resolution, p);
    var es, input := l.Emitted(node), l.inputs[k];
    assert CarriesPacketOf(input, c.resolution, node.id);
    assert IsDelivery(es, l.fates, input.bytes, input.tick);
    var i :| 0 <= i < |es| && es[i].bytes == input.bytes && l.fates[i] == Some(input.tick);
    OwnEmission(node, l, i, StampAt(input.tick, c.resolution));
    j := EmissionIsHeartbeat(es, l.fates, i);
  }

  lemma ArrivalIsHeard(c: Setting, node: Node, l: Link, j: nat, q: nat)
    requires LinkWithin(c, node, l)
    requires var x := l.AsScenario(node, c.resolution);
             j < |x.arrivals| && x.arrivals[j].Some? && q < |x.run| == |x.ticks| && x.arrivals[j].value < x.ticks[q]
    ensures var x := l.AsScenario(node, c.resolution);
            HandledBefore(x, node.id, q, x.arrivals[j].value)
  {
    var r, es := c.resolution, l.Emitted(node);
    var i := HeartbeatIsEmission(es, l.fates, j);
    var tick := l.fates[i].value;
    var later := StepHasInput(l.inputs, r, q);
    assert GivenBefore(l.inputs, later, es[i].bytes, tick);
    var k :| 0 <= k < later && l.inputs[k] == Net(es[i].bytes, tick);
    OwnEmission(node, l, i, StampAt(tick, r));
    var p := InputBecomesStep(l.inputs, r, k);
    SameOrder(l.inputs, r, p, k, q, later);
    assert l.AsScenario(node, r).run[p].IsHeartbeatOf(node.id);
  }

  /** What the network does to the emissions is all that the no-false-alarm theorem asks for. */
  lemma DeliveryFits(c: Setting, node: Node, l: Link)
    requires LinkWithin(c, node, l)
    ensures Fits(c, l.AsScenario(node, c.resolution), node.id)
  {
    var r, es, x := c.resolution, l.Emitted(node), l.AsScenario(node, c.resolution);
    FeedIsRun(l.inputs, r);
    StepsAreStamped(c, x, l.inputs);
    node.EmissionTimes(l.startTelemetry, l.startHeartbeat, l.passes);
    FateCount(es, l.fates);
    forall j | 0 <= j < |x.arrivals| && x.arrivals[j].Some?
      ensures Sends(c, x)[j] <= x.arrivals[j].value <= Sends(c, x)[j] + c.delay
    {
      var i := HeartbeatIsEmission(es, l.fates, j);
    }
    forall p | 0 <= p < |x.run| && x.run[p].IsHeartbeatOf(node.id)
      ensures exists j :: 0 <= j < |x.arrivals| && x.arrivals[j] == Some(x.ticks[p])
    {
      var j := HeardIsArrival(c, node, l, p);
    }
    forall j, q | 0 <= j < |x.arrivals| && x.arrivals[j].Some? && 0 <= q < |x.run| && x.arrivals[j].value < x.ticks[q]
      ensures HandledBefore(x, node.id, q, x.arrivals[j].value)
    {
      ArrivalIsHeard(c, node, l, j, q);
    }
    forall q | 0 <= q < |x.ticks|
      ensures x.ticks[q] <= LastPass(x.start, x.passes)
    {
      var k := StepHasInput(l.inputs, r, q);
    }
  }

  /** From emitted bytes to shown health: within the bound, no input ever leaves the sensor offline. */
  lemma DeliveredSensorNeverOffline(c: Setting, node: Node, l: Link, n: nat)
    requires LinkWithin(c, node, l) && WithinTimeout(c) && n <= |l.inputs|
    ensures Entry(Feed(l.inputs[..n], c.resolution).sensors, node.id).health != Offline
  {
    DeliveryFits(c, node, l);
    LiveSensorNeverOffline(c, l.AsScenario(node, c.resolution), node.id);
    FeedIsRun(l.inputs[..n], c.resolution);
    RunOfPrefix(l.inputs, n, c.resolution);
    var part, run := RunOf(l.inputs[..n], c.resolution), RunOf(l.inputs, c.resolution);
    assert run[..|part|] == part;
  }

  // ---- the bound is necessary for real bytes too ----

  /** Passes at the given times, every wall clock reading and measurement being 0. */
  function PlainPasses(times: seq<nat>): (passes: seq<Pass>)
    ensures Times(passes) == times
  {
    seq(|times|, i requires 0 <= i < |times| => Pass(true, times[i], 0, 0, 0, 0, 0))
  }

  function PlainHeartbeat(id: uint32): HeartbeatMessage {
    HeartbeatMessage(PacketHeader(HEARTBEAT, id, 0))
  }

  lemma {:induction false} PlainHeartbeats(node: Node, start: nat, passes: seq<Pass>, e: Emission)
    requires forall i :: 0 <= i < |passes| ==> passes[i].heartbeatWall == 0
    requires e in node.Emissions(start, start, passes) && IsHeartbeat(e)
    ensures e.bytes == HeartbeatBytes(PlainHeartbeat(node.id))
  {
    var n := |passes| - 1;
    if e in node.Emissions(start, start, passes[..n]) {
      PlainHeartbeats(node, start, passes[..n], e);
    } else {
      TypeByte(TelemetryOf(node.id, passes[n]).header);
    }
  }

  ghost predicate OnlyHeartbeatsArrive(es: seq<Emission>, fates: seq<Option<nat>>) {
    && |es| == |fates|
    && forall i :: 0 <= i < |es| && fates[i].Some? ==> IsHeartbeat(es[i])
  }

  lemma LastFate(es: seq<Emission>, fates: seq<Option<nat>>, fate: Option<nat>)
    requires |es| == |fates| + 1
    ensures HeartbeatFates(es, fates + [fate]) ==
            HeartbeatFates(es[..|fates|], fates) + if IsHeartbeat(es[|fates|]) then [fate] else []
  {
    assert (fates + [fate])[..|fates|] == fates;
  }

  /** Fates under which all telemetry is lost and the heartbeats arrive as given. */
  lemma {:induction false} AssignFates(es: seq<Emission>, arrivals: seq<Option<nat>>) returns (fates: seq<Option<nat>>)
    requires |arrivals| == |TimesOf(HEARTBEAT, es)|
    ensures OnlyHeartbeatsArrive(es, fates) && HeartbeatFates(es, fates) == arrivals
  {
    if |es| == 0 {
      fates := [];
    } else {
      var n, m := |es| - 1, |arrivals| - 1;
      var due := IsHeartbeat(es[n]);
      var before, fate := if due then arrivals[..m] else arrivals, if due then arrivals[m] else None;
      fates := AssignFates(es[..n], before);
      LastFate(es, fates, fate);
      fates := fates + [fate];
      assert before + (if due then [fate] else []) == arrivals;
    }
  }

  lemma NetworkLifts(c: Setting, x: Scenario, es: seq<Emission>, fates: seq<Option<nat>>)
    requires NetworkWithin(c, x) && Sends(c, x) == TimesOf(HEARTBEAT, es)
    requires OnlyHeartbeatsArrive(es, fates) && HeartbeatFates(es, fates) == x.arrivals
    ensures NetworkKeeps(c, es, fates)
  {
    forall i | 0 <= i < |es| && fates[i].Some?
      ensures es[i].time <= fates[i].value <= es[i].time + c.delay
    {
      var j := EmissionIsHeartbeat(es, fates, i);
    }
  }

  /** One heartbeat and one turn of the watchdog. */
  function OneBeat(id: uint32, ticks: seq<nat>): seq<Input>
    requires |ticks| == 2
  {
    [Net(HeartbeatBytes(PlainHeartbeat(id)), ticks[0]), Watch(ticks[1])]
  }

  lemma OneBeatRun(id: uint32, ticks: seq<nat>, r: positive)
    requires |ticks| == 2
    ensures RunOf(OneBeat(id, ticks), r) ==
            [Heartbeat(PlainHeartbeat(id), StampAt(ticks[0], r)), Scan(StampAt(ticks[1], r))]
  {
    var inputs := OneBeat(id, ticks);
    var step := Heartbeat(PlainHeartbeat(id), StampAt(ticks[0], r));
    EncodingIsAccepted(step, []);
    assert inputs[0].bytes + [] == inputs[0].bytes;
    assert inputs[..1] == [inputs[0]] && inputs[..1][..0] == [];
    assert RunOf(inputs[..1], r) == [step];
  }

  lemma StampIsTime(tick: nat, r: positive, time: uint64)
    requires 0 < time == tick / r
    ensures 0 < tick / r < TWO_TO_THE_64 && StampAt(tick, r) == time
  {
  }

  lemma OneBeatIsInOrder(c: Setting, id: uint32, x: Scenario)
    requires Stamped(c, x) && |x.run| == 2
    ensures InOrder(c, OneBeat(id, x.ticks))
    ensures forall k :: 0 <= k < 2 ==> StampAt(x.ticks[k], c.resolution) == x.run[k].Time()
  {
    StampIsTime(x.ticks[0], c.resolution, x.run[0].Time());
    StampIsTime(x.ticks[1], c.resolution, x.run[1].Time());
    assert x.ticks[0] <= x.ticks[1];
  }

  /** In the worst case the gateway is given just what arrives before the scan. */
  lemma WorstInputsAreDelivered(
      c: Setting, node: Node, x: Scenario, es: seq<Emission>, fates: seq<Option<nat>>, inputs: seq<Input>)
    requires OnlyHeartbeatsArrive(es, fates) && HeartbeatFates(es, fates) == x.arrivals
    requires GatewayHears(x, node.id) && |x.ticks| == 2 && x.run[1].Scan?
    requires |x.arrivals| > 0 && x.arrivals[0] == Some(x.ticks[0])
    requires forall i :: 0 <= i < |es| && IsHeartbeat(es[i]) ==> es[i].bytes == HeartbeatBytes(PlainHeartbeat(node.id))
    requires inputs == OneBeat(node.id, x.ticks) && InOrder(c, inputs)
    ensures Delivered(c, es, fates, inputs, node.id)
  {
    var first := HeartbeatIsEmission(es, fates, 0);
    assert IsDelivery(es, fates, inputs[0].bytes, inputs[0].tick);
    forall i, q | 0 <= i < |es| && fates[i].Some? && 0 <= q < |inputs| && fates[i].value < inputs[q].tick
      ensures GivenBefore(inputs, q, es[i].bytes, fates[i].value)
    {
      var j := EmissionIsHeartbeat(es, fates, i);
      assert HandledBefore(x, node.id, q, x.arrivals[j].value);
      assert inputs[0] == Net(es[i].bytes, fates[i].value);
    }
  }

  /** Beyond the bound, there is a delivery of a live node's own bytes that ends with the node offline. */
  lemma WorstDelivery(c: Setting, node: Node) returns (l: Link)
    requires node.heartbeatInterval == IntervalTicks(c)
    requires 1 <= c.gap && !WithinTimeout(c) && Room(c)
    ensures LinkWithin(c, node, l)
    ensures Entry(Feed(l.inputs, c.resolution).sensors, node.id).health == Offline
  {
    var x := WorstCaseFits(c, node.id);
    var passes := PlainPasses(x.passes);
    var es := node.Emissions(x.start, x.start, passes);
    node.EmissionTimes(x.start, x.start, passes);
    var fates := AssignFates(es, x.arrivals);
    var inputs := OneBeat(node.id, x.ticks);
    l := Link(x.start, x.start, passes, fates, inputs);
    NetworkLifts(c, x, es, fates);
    OneBeatIsInOrder(c, node.id, x);
    OneBeatRun(node.id, x.ticks, c.resolution);
    assert RunOf(inputs, c.resolution) == x.run;
    FeedIsRun(inputs, c.resolution);
    forall i | 0 <= i < |es| && IsHeartbeat(es[i])
      ensures es[i].bytes == HeartbeatBytes(PlainHeartbeat(node.id))
    {
      PlainHeartbeats(node, x.start, passes, es[i]);
    }
    WorstInputsAreDelivered(c, node, x, es, fates, inputs);
  }

  /** No delivery of the node's own bytes within the setting ever leaves it shown as offline. */
  ghost predicate DeliverySafe(c: Setting, node: Node) {
    forall l: Link, n: nat | LinkWithin(c, node, l) && n <= |l.inputs| ::
      Entry(Feed(l.inputs[..n], c.resolution).sensors, node.id).health != Offline
  }

  /** The exact condition, from the bytes the loop emits to the health the gateway shows. */
  lemma DeliverySafeIffWithinTimeout(c: Setting, node: Node)
    requires node.heartbeatInterval == IntervalTicks(c)
    requires 1 <= c.gap && Room(c)
    ensures DeliverySafe(c, node) <==> WithinTimeout(c)
  {
    if WithinTimeout(c) {
      forall l: Link, n: nat | LinkWithin(c, node, l) && n <= |l.inputs|
        ensures Entry(Feed(l.inputs[..n], c.resolution).sensors, node.id).health != Offline
      {
        DeliveredSensorNeverOffline(c, node, l, n);
      }
    } else {
      var l := WorstDelivery(c, node);
      assert l.inputs[..|l.inputs|] == l.inputs;
    }
  }
}
