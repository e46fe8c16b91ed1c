/**
 The gateway's state and its three kinds of step, as values.

 Every handler runs under one mutex, so a run of the gateway is a sequence of steps; each
 step carries the clock reading its handler took. The clock is an input: `Clocked` is the
 hypothesis that it is positive and never goes back.
 */
module GatewayModel {
  import opened Protocol

  type Registry = map<uint32, SensorInfo>

  datatype State = State(sensors: Registry, telemetryPackets: uint64, heartbeatPackets: uint64)

  const INITIAL := State(map[], 0, 0)

  datatype Step =
    | Telemetry(telemetry: TelemetryMessage, at: uint64)
    | Heartbeat(heartbeat: HeartbeatMessage, at: uint64)
    | Scan(sample: uint64)
  {
    function Time(): uint64 {
      if Scan? then sample else at
    }

    predicate IsTelemetryOf(id: uint32) {
      Telemetry? && telemetry.header.sensorId == id
    }

    predicate IsHeartbeatOf(id: uint32) {
      Heartbeat? && heartbeat.header.sensorId == id
    }

    predicate IsPacketOf(id: uint32) {
      IsTelemetryOf(id) || IsHeartbeatOf(id)
    }
  }

  type Run = seq<Step>

  // ---- one step ----

  function Entry(m: Registry, id: uint32): SensorInfo {
    if id in m then m[id] else NEW_SENSOR
  }

  /** Unsigned 64-bit increment. */
  function Increment(counter: uint64): uint64 {
    (counter + 1) % TWO_TO_THE_64
  }

  /** The watchdog's test: an online sensor whose stamp looks too old from `sample`. */
  predicate Announces(info: SensorInfo, sample: uint64) {
    info.health == Online && info.heartbeatStamp != 0 && Elapsed(sample, info.heartbeatStamp) > HEARTBEAT_TIMEOUT
  }

  function ScanEntry(info: SensorInfo, sample: uint64): SensorInfo {
    if Announces(info, sample) then info.(health := Offline) else info
  }

  function ScanRegistry(m: Registry, sample: uint64): Registry {
    map id | id in m :: ScanEntry(m[id], sample)
  }

  /** The sensors for which a scan logs that they went offline. */
  function Announced(m: Registry, sample: uint64): set<uint32> {
    set id | id in m && Announces(m[id], sample)
  }

  function Apply(s: State, step: Step): State {
    match step
    case Telemetry(msg, at) =>
      var id := msg.header.sensorId;
      s.(sensors := s.sensors[id := Entry(s.sensors, id).(lastTelemetry := msg, telemetryStamp := at)],
         telemetryPackets := Increment(s.telemetryPackets))
    case Heartbeat(msg, at) =>
      var id := msg.header.sensorId;
      s.(sensors := s.sensors[id := Entry(s.sensors, id).(heartbeatStamp := at, health := Online)],
         heartbeatPackets := Increment(s.heartbeatPackets))
    case Scan(sample) =>
      s.(sensors := ScanRegistry(s.sensors, sample))
  }

  /** The reply to a heartbeat-age query made at time `now`. */
  function AgeSeconds(m: Registry, id: uint32, now: uint64): nat {
    if id !in m || m[id].heartbeatStamp == 0 then 0 else Elapsed(now, m[id].heartbeatStamp) / 1000
  }

  // ---- runs ----

  function ExecFrom(s: State, run: Run): State {
    if |run| == 0 then s else Apply(ExecFrom(s, run[..|run| - 1]), run[|run| - 1])
  }

  function Exec(run: Run): State {
    ExecFrom(INITIAL, run)
  }

  predicate Clocked(run: Run) {
    && (forall i :: 0 <= i < |run| ==> 0 < run[i].Time())
    && (forall i, j :: 0 <= i <= j < |run| ==> run[i].Time() <= run[j].Time())
  }

  lemma ExecStep(run: Run, i: nat)
    requires i < |run|
    ensures Exec(run[..i + 1]) == Apply(Exec(run[..i]), run[i])
  {
    assert run[..i + 1][..i] == run[..i];
  }

  lemma {:induction false} ExecConcat(s: State, a: Run, b: Run)
    ensures ExecFrom(s, a + b) == ExecFrom(ExecFrom(s, a), b)
  {
    if |b| == 0 {
      assert a + b == a;
    } else {
      ExecConcat(s, a, b[..|b| - 1]);
      assert (a + b)[..|a + b| - 1] == a + b[..|b| - 1];
    }
  }
}
