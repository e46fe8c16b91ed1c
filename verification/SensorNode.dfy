/**
 The sensor node's polling loop: two independent timers driven by one clock reading per pass.

 The pass times, the wall clock and what the sensor measures are inputs; the loop is proved to
 send exactly when the timers' specification says, and the spacing of the sends follows.
 */
module SensorNode {
  import opened Protocol
  import opened BigEndian
  import opened PacketSerializer

  // ---- one timer ----

  /** The timer's `last` variable after the given passes. */
  function LastFire(start: nat, interval: nat, passes: seq<nat>): nat {
    if |passes| == 0 then start
    else
      var last, t := LastFire(start, interval, passes[..|passes| - 1]), passes[|passes| - 1];
      if t - last >= interval then t else last
  }

  /** The times at which the timer fires. */
  function Fires(start: nat, interval: nat, passes: seq<nat>): seq<nat> {
    if |passes| == 0 then []
    else
      var front, t := passes[..|passes| - 1], passes[|passes| - 1];
      Fires(start, interval, front) +
      if t - LastFire(start, interval, front) >= interval then [t] else []
  }

  function LastPass(start: nat, passes: seq<nat>): nat {
    if |passes| == 0 then start else passes[|passes| - 1]
  }

  /** Time does not go back, and no pass starts more than `gap` after the one before. */
  predicate Paced(start: nat, passes: seq<nat>, gap: nat) {
    |passes| == 0 ||
    var front, t := passes[..|passes| - 1], passes[|passes| - 1];
    Paced(start, front, gap) && LastPass(start, front) <= t <= LastPass(start, front) + gap
  }

  /** The longest time between two fires of a timer polled at gaps of at most `gap`. */
  function Stride(interval: nat, gap: nat): nat {
    if interval == 0 then gap else interval - 1 + gap
  }

  /** Time of the fire before number `i`, or the timer's start. */
  function Before(start: nat, fires: seq<nat>, i: nat): nat
    requires i <= |fires|
  {
    if i == 0 then start else fires[i - 1]
  }

  /** Fire number `i` comes at least an interval and at most a stride after the one before. */
  predicate SpacedAt(start: nat, interval: nat, gap: nat, fires: seq<nat>, i: int) {
    0 <= i < |fires| && interval <= fires[i] - Before(start, fires, i) <= Stride(interval, gap)
  }

  /** All fires are spaced, and none is overdue at the last pass. */
  lemma {:induction false} FireSpacing(start: nat, interval: nat, passes: seq<nat>, gap: nat)
    requires Paced(start, passes, gap)
    ensures var fires := Fires(start, interval, passes);
            && (forall i :: 0 <= i < |fires| ==> SpacedAt(start, interval, gap, fires, i))
            && LastFire(start, interval, passes) == Before(start, fires, |fires|)
            && 0 <= LastPass(start, passes) - LastFire(start, interval, passes) <= (if interval == 0 then 0 else interval - 1)
  {
    if |passes| > 0 {
      var front := passes[..|passes| - 1];
      FireSpacing(start, interval, front, gap);
      var f, fires := Fires(start, interval, front), Fires(start, interval, passes);
      forall i | 0 <= i < |fires|
        ensures SpacedAt(start, interval, gap, fires, i)
      {
        if i < |f| {
          assert SpacedAt(start, interval, gap, f, i);
        }
      }
    }
  }

  lemma OneMore(n: nat, x: nat)
    ensures n * x == (n - 1) * x + x
  {
  }

  /** How many fires a timer makes in a given time, from both sides. */
  lemma {:induction false} FireCount(start: nat, interval: nat, passes: seq<nat>, gap: nat, n: nat)
    requires Paced(start, passes, gap) && n <= |Fires(start, interval, passes)|
    ensures n * interval <= Before(start, Fires(start, interval, passes), n) - start <= n * Stride(interval, gap)
  {
    if n > 0 {
      FireCount(start, interval, passes, gap, n - 1);
      FireSpacing(start, interval, passes, gap);
      assert SpacedAt(start, interval, gap, Fires(start, interval, passes), n - 1);
      OneMore(n, interval);
      OneMore(n, Stride(interval, gap));
    }
  }

  // ---- the loop ----

  /**
   One turn of the loop: what the test of the running flag finds, the pass's clock reading, the
   wall clock as the telemetry and the heartbeat would each read it, and the sensor's next
   measurement.
   */
  datatype Pass = Pass(
    running: bool, time: nat, telemetryWall: uint64, heartbeatWall: uint64,
    sensorType: byte, sensorState: byte, value: uint64)

  datatype Emission = Emission(time: nat, bytes: seq<byte>)

  function Times(passes: seq<Pass>): (ts: seq<nat>)
    ensures |ts| == |passes|
  {
    seq(|passes|, i requires 0 <= i < |passes| => passes[i].time)
  }

  lemma FiresStep(start: nat, interval: nat, passes: seq<Pass>)
    requires |passes| > 0
    ensures var front, t := Times(passes[..|passes| - 1]), passes[|passes| - 1].time;
            Fires(start, interval, Times(passes)) ==
            Fires(start, interval, front) + if t - LastFire(start, interval, front) >= interval then [t] else []
  {
    assert Times(passes)[..|passes| - 1] == Times(passes[..|passes| - 1]);
  }

  function TelemetryOf(id: uint32, p: Pass): TelemetryMessage {
    TelemetryMessage(PacketHeader(TELEMETRY, id, p.telemetryWall), p.sensorType, p.sensorState, p.value)
  }

  function HeartbeatOf(id: uint32, p: Pass): HeartbeatMessage {
    HeartbeatMessage(PacketHeader(HEARTBEAT, id, p.heartbeatWall))
  }

  /** What one pass sends: telemetry if due, then a heartbeat if due. */
  function SentBy(id: uint32, p: Pass, telemetryDue: bool, heartbeatDue: bool): seq<Emission> {
    (if telemetryDue then [Emission(p.time, TelemetryBytes(TelemetryOf(id, p)))] else [])
    + (if heartbeatDue then [Emission(p.time, HeartbeatBytes(HeartbeatOf(id, p)))] else [])
  }

  class Node {
    const id: uint32
    const telemetryInterval: nat
    const heartbeatInterval: nat
    var sent: seq<Emission>

    constructor (id: uint32, telemetryInterval: nat := 500, heartbeatInterval: nat := 5000)
      ensures this.id == id && sent == []
      ensures this.telemetryInterval == telemetryInterval && this.heartbeatInterval == heartbeatInterval
    {
      this.id, this.telemetryInterval, this.heartbeatInterval := id, telemetryInterval, heartbeatInterval;
      sent := [];
    }

    method Tick(p: Pass) returns (reading: TelemetryMessage)
      modifies this
      ensures reading == TelemetryOf(id, p)
      ensures reading.header.sensorId == id && reading.header.timestamp == p.telemetryWall
      ensures reading.sensorType == p.sensorType && reading.sensorState == p.sensorState && reading.value == p.value
      ensures sent == old(sent) + [Emission(p.time, TelemetryBytes(reading))]
    {
      reading := TelemetryMessage(PacketHeader(TELEMETRY, id, p.telemetryWall), p.sensorType, p.sensorState, p.value);
      var data := SerializeTelemetry(reading);
      sent := sent + [Emission(p.time, data)];
    }

    method SendHeartbeat(p: Pass)
      modifies this
      ensures sent == old(sent) + [Emission(p.time, HeartbeatBytes(HeartbeatOf(id, p)))]
    {
      var heartbeat := HeartbeatMessage(PacketHeader(HEARTBEAT, id, p.heartbeatWall));
      var data := SerializeHeartbeat(heartbeat);
      sent := sent + [Emission(p.time, data)];
    }

    /** The emissions of the given passes, each timer counting from its own start. */
    ghost function Emissions(startTelemetry: nat, startHeartbeat: nat, passes: seq<Pass>): seq<Emission> {
      if |passes| == 0 then []
      else
        var front, p := passes[..|passes| - 1], passes[|passes| - 1];
        Emissions(startTelemetry, startHeartbeat, front) +
        SentBy(id, p,
               p.time - LastFire(startTelemetry, telemetryInterval, Times(front)) >= telemetryInterval,
               p.time - LastFire(startHeartbeat, heartbeatInterval, Times(front)) >= heartbeatInterval)
    }

    /** The loop's variables and what it has sent, after the given passes. */
    ghost predicate Reached(
        startTelemetry: nat, startHeartbeat: nat, passes: seq<Pass>, lastTelemetry: nat, lastHeartbeat: nat, es: seq<Emission>)
    {
      && lastTelemetry == LastFire(startTelemetry, telemetryInterval, Times(passes))
      && lastHeartbeat == LastFire(startHeartbeat, heartbeatInterval, Times(passes))
      && es == Emissions(startTelemetry, startHeartbeat, passes)
    }

    lemma ReachedStep(
        startTelemetry: nat, startHeartbeat: nat, passes: seq<Pass>, lastTelemetry: nat, lastHeartbeat: nat, es: seq<Emission>, p: Pass)
      requires Reached(startTelemetry, startHeartbeat, passes, lastTelemetry, lastHeartbeat, es)
      ensures var telemetryDue := p.time - lastTelemetry >= telemetryInterval;
              var heartbeatDue := p.time - lastHeartbeat >= heartbeatInterval;
              Reached(startTelemetry, startHeartbeat, passes + [p],
                      if telemetryDue then p.time else lastTelemetry,
                      if heartbeatDue then p.time else lastHeartbeat,
                      es + SentBy(id, p, telemetryDue, heartbeatDue))
    {
      var longer := passes + [p];
      assert longer[..|passes|] == passes;
      assert Times(longer)[..|passes|] == Times(passes);
    }

    /** The body of the loop: each timer is tested against its own last fire. */
    method Turn(p: Pass, lastTelemetry: nat, lastHeartbeat: nat) returns (nextTelemetry: nat, nextHeartbeat: nat)
      modifies this
      ensures var telemetryDue := p.time - lastTelemetry >= telemetryInterval;
              var heartbeatDue := p.time - lastHeartbeat >= heartbeatInterval;
              && sent == old(sent) + SentBy(id, p, telemetryDue, heartbeatDue)
              && nextTelemetry == (if telemetryDue then p.time else lastTelemetry)
              && nextHeartbeat == (if heartbeatDue then p.time else lastHeartbeat)
    {
      nextTelemetry, nextHeartbeat := lastTelemetry, lastHeartbeat;
      if p.time - lastTelemetry >= telemetryInterval {
        var _ := Tick(p);
        nextTelemetry := p.time;
      }
      if p.time - lastHeartbeat >= heartbeatInterval {
        SendHeartbeat(p);
        nextHeartbeat := p.time;
      }
    }

    /** `run`: passes until the flag is found cleared. */
    method Run(startTelemetry: nat, startHeartbeat: nat, passes: seq<Pass>) returns (i: nat)
      modifies this
      ensures i <= |passes|
      ensures forall k :: 0 <= k < i ==> passes[k].running
      ensures i < |passes| ==> !passes[i].running
      ensures sent == old(sent) + Emissions(startTelemetry, startHeartbeat, passes[..i])
    {
      var lastTelemetry, lastHeartbeat := startTelemetry, startHeartbeat;
      ghost var es: seq<Emission> := [];
      i := 0;
      while i < |passes| && passes[i].running
        invariant 0 <= i <= |passes|
        invariant forall k :: 0 <= k < i ==> passes[k].running
        invariant sent == old(sent) + es
        invariant Reached(startTelemetry, startHeartbeat, passes[..i], lastTelemetry, lastHeartbeat, es)
      {
        ReachedStep(startTelemetry, startHeartbeat, passes[..i], lastTelemetry, lastHeartbeat, es, passes[i]);
        assert passes[..i + 1] == passes[..i] + [passes[i]];
        es := es + SentBy(id, passes[i], passes[i].time - lastTelemetry >= telemetryInterval,
                          passes[i].time - lastHeartbeat >= heartbeatInterval);
        lastTelemetry, lastHeartbeat := Turn(passes[i], lastTelemetry, lastHeartbeat);
        i := i + 1;
      }
    }

    /** The timers do not disturb each other: the sends of each kind are that timer's fires. */
    lemma {:induction false} EmissionTimes(startTelemetry: nat, startHeartbeat: nat, passes: seq<Pass>)
      ensures var es := Emissions(startTelemetry, startHeartbeat, passes);
              && TimesOf(TELEMETRY, es) == Fires(startTelemetry, telemetryInterval, Times(passes))
              && TimesOf(HEARTBEAT, es) == Fires(startHeartbeat, heartbeatInterval, Times(passes))
    {
      if |passes| > 0 {
        var n := |passes| - 1;
        var front, p := passes[..n], passes[n];
        EmissionTimes(startTelemetry, startHeartbeat, front);
        FiresStep(startTelemetry, telemetryInterval, passes);
        FiresStep(startHeartbeat, heartbeatInterval, passes);
        OnePass(id, p, Emissions(startTelemetry, startHeartbeat, front),
                p.time - LastFire(startTelemetry, telemetryInterval, Times(front)) >= telemetryInterval,
                p.time - LastFire(startHeartbeat, heartbeatInterval, Times(front)) >= heartbeatInterval);
      }
    }
  }

  lemma TypeByte(h: PacketHeader)
    ensures HeaderBytes(h)[0] == h.msgType
  {
    assert Digits(h.msgType, 1) == [h.msgType % 0x100];
  }

  /** The times of the emissions of one message type. */
  function TimesOf(msgType: byte, es: seq<Emission>): seq<nat> {
    if |es| == 0 then []
    else
      var e := es[|es| - 1];
      TimesOf(msgType, es[..|es| - 1]) + if |e.bytes| > 0 && e.bytes[0] == msgType then [e.time] else []
  }

  lemma TimesOfAppend(msgType: byte, es: seq<Emission>, e: Emission)
    ensures TimesOf(msgType, es + [e]) ==
            TimesOf(msgType, es) + if |e.bytes| > 0 && e.bytes[0] == msgType then [e.time] else []
  {
    assert (es + [e])[..|es|] == es;
  }

  lemma OnePass(id: uint32, p: Pass, es: seq<Emission>, telemetryDue: bool, heartbeatDue: bool)
    ensures var longer := es + SentBy(id, p, telemetryDue, heartbeatDue);
            && TimesOf(TELEMETRY, longer) == TimesOf(TELEMETRY, es) + (if telemetryDue then [p.time] else [])
            && TimesOf(HEARTBEAT, longer) == TimesOf(HEARTBEAT, es) + (if heartbeatDue then [p.time] else [])
  {
    var telemetry := Emission(p.time, TelemetryBytes(TelemetryOf(id, p)));
    var heartbeat := Emission(p.time, HeartbeatBytes(HeartbeatOf(id, p)));
    TypeByte(TelemetryOf(id, p).header);
    TypeByte(HeartbeatOf(id, p).header);
    var es' := es;
    if telemetryDue {
      TimesOfAppend(TELEMETRY, es, telemetry);
      TimesOfAppend(HEARTBEAT, es, telemetry);
      es' := es + [telemetry];
    }
    if heartbeatDue {
      TimesOfAppend(TELEMETRY, es', heartbeat);
      TimesOfAppend(HEARTBEAT, es', heartbeat);
      es' := es' + [heartbeat];
    }
    assert es' == es + SentBy(id, p, telemetryDue, heartbeatDue);
  }
}
