/**
 Laws that relate different runs: independence of sensors, commuting packets, how scans
 compose, and how often a sensor can be announced.
 */
module GatewayAlgebra {
  import opened Protocol
  import opened GatewayModel

  // ---- independence of sensors ----

  /** The part of a run that concerns one sensor: its packets and every scan. */
  function Project(run: Run, id: uint32): Run {
    if |run| == 0 then []
    else
      var front, last := Project(run[..|run| - 1], id), run[|run| - 1];
      if last.Scan? || last.IsPacketOf(id) then front + [last] else front
  }

  function Lookup(m: Registry, id: uint32): Option<SensorInfo> {
    if id in m then Some(m[id]) else None
  }

  /** How often the log says that the sensor went offline. */
  function Announcements(run: Run, id: uint32): nat {
    if |run| == 0 then 0
    else
      var front, last := run[..|run| - 1], run[|run| - 1];
      Announcements(front, id) +
      if last.Scan? && id in Announced(Exec(front).sensors, last.sample) then 1 else 0
  }

  /** What one step does to a sensor's entry and log lines depends on that entry alone. */
  lemma StepIsLocal(s: State, t: State, step: Step, id: uint32)
    requires Lookup(s.sensors, id) == Lookup(t.sensors, id)
    ensures step.Scan? || step.IsPacketOf(id) ==> Lookup(Apply(s, step).sensors, id) == Lookup(Apply(t, step).sensors, id)
    ensures step.Scan? ==> (id in Announced(s.sensors, step.sample) <==> id in Announced(t.sensors, step.sample))
    ensures !step.Scan? && !step.IsPacketOf(id) ==> Lookup(Apply(s, step).sensors, id) == Lookup(s.sensors, id)
  {
    assert Entry(s.sensors, id) == Entry(t.sensors, id);
  }

  /** Nothing another sensor sends can be seen in this sensor's entry or in its log lines. */
  lemma {:induction false} ProjectionDecides(run: Run, id: uint32)
    ensures Lookup(Exec(run).sensors, id) == Lookup(Exec(Project(run, id)).sensors, id)
    ensures Announcements(run, id) == Announcements(Project(run, id), id)
  {
    if |run| > 0 {
      var front, last := run[..|run| - 1], run[|run| - 1];
      ProjectionDecides(front, id);
      var p := Project(front, id);
      StepIsLocal(Exec(front), Exec(p), last, id);
      if last.Scan? || last.IsPacketOf(id) {
        assert (p + [last])[..|p|] == p;
      }
    }
  }

  /** Any two interleavings that agree sensor by sensor end in the same registry. */
  lemma SameProjectionsSameRegistry(a: Run, b: Run)
    requires forall id: uint32 :: Project(a, id) == Project(b, id)
    ensures Exec(a).sensors == Exec(b).sensors
  {
    forall id: uint32
      ensures Lookup(Exec(a).sensors, id) == Lookup(Exec(b).sensors, id)
    {
      ProjectionDecides(a, id);
      ProjectionDecides(b, id);
    }
    forall id: uint32
      ensures id in Exec(a).sensors <==> id in Exec(b).sensors
      ensures id in Exec(a).sensors ==> Exec(a).sensors[id] == Exec(b).sensors[id]
    {
      assert Lookup(Exec(a).sensors, id) == Lookup(Exec(b).sensors, id);
    }
  }

  /** Packets of different sensors, or a telemetry packet and a heartbeat of one sensor. */
  predicate Independent(a: Step, b: Step) {
    match (a, b)
    case (Telemetry(m, _), Telemetry(n, _)) => m.header.sensorId != n.header.sensorId
    case (Heartbeat(m, _), Heartbeat(n, _)) => m.header.sensorId != n.header.sensorId
    case (Telemetry(_, _), Heartbeat(_, _)) => true
    case (Heartbeat(_, _), Telemetry(_, _)) => true
    case _ => false
  }

  lemma StepsCommute(s: State, a: Step, b: Step)
    requires Independent(a, b)
    ensures Apply(Apply(s, a), b) == Apply(Apply(s, b), a)
  {
    var ab, ba := Apply(Apply(s, a), b).sensors, Apply(Apply(s, b), a).sensors;
    assert ab.Keys == ba.Keys;
    assert forall id :: id in ab ==> ab[id] == ba[id];
  }

  /** Swapping two independent packets anywhere in a run changes neither registry nor counters. */
  lemma IndependentPacketsCommute(before: Run, a: Step, b: Step, after: Run)
    requires Independent(a, b)
    ensures Exec(before + [a, b] + after) == Exec(before + [b, a] + after)
  {
    ExecConcat(INITIAL, before + [a, b], after);
    ExecConcat(INITIAL, before + [b, a], after);
    ExecConcat(INITIAL, before, [a, b]);
    ExecConcat(INITIAL, before, [b, a]);
    var s := Exec(before);
    ExecPair(s, a, b);
    ExecPair(s, b, a);
    StepsCommute(s, a, b);
  }

  lemma ExecPair(s: State, a: Step, b: Step)
    ensures ExecFrom(s, [a, b]) == Apply(Apply(s, a), b)
  {
    assert [a, b][..1] == [a];
    assert ExecFrom(s, [a]) == Apply(s, a) by {
      assert [a][..0] == [];
    }
  }

  // ---- scans ----

  /** A repeated scan at the same sample changes nothing and logs nothing. */
  lemma ScanIsIdempotent(m: Registry, sample: uint64)
    ensures ScanRegistry(ScanRegistry(m, sample), sample) == ScanRegistry(m, sample)
    ensures Announced(ScanRegistry(m, sample), sample) == {}
  {
  }

  /**
   Scanning twice is scanning once at the later sample, as long as no stored stamp is later
   than the first sample; the two scans announce exactly what the one would, without overlap.
   */
  lemma EarlierScanIsAbsorbed(m: Registry, s1: uint64, s2: uint64)
    requires s1 <= s2 && forall id :: id in m ==> m[id].heartbeatStamp <= s1
    ensures ScanRegistry(ScanRegistry(m, s1), s2) == ScanRegistry(m, s2)
    ensures Announced(m, s1) + Announced(ScanRegistry(m, s1), s2) == Announced(m, s2)
    ensures Announced(m, s1) !! Announced(ScanRegistry(m, s1), s2)
  {
    var m1 := ScanRegistry(m, s1);
    forall id | id in m
      ensures id in Announced(m, s2) <==> id in Announced(m, s1) || id in Announced(m1, s2)
      ensures ScanEntry(ScanEntry(m[id], s1), s2) == ScanEntry(m[id], s2)
    {
    }
  }

  /** The hypothesis is needed: a stamp between the two samples makes the first scan spurious. */
  lemma StaleScanIsNotAbsorbed()
    ensures var m: Registry := map[1 := NEW_SENSOR.(heartbeatStamp := 1001, health := Online)];
            ScanRegistry(ScanRegistry(m, 1000), 1002) != ScanRegistry(m, 1002)
  {
    var m: Registry := map[1 := NEW_SENSOR.(heartbeatStamp := 1001, health := Online)];
    assert ScanRegistry(m, 1002)[1].health == Online;
    assert ScanRegistry(ScanRegistry(m, 1000), 1002)[1].health == Offline;
  }

  // ---- announcements ----

  function Heartbeats(run: Run, id: uint32): nat {
    if |run| == 0 then 0
    else Heartbeats(run[..|run| - 1], id) + if run[|run| - 1].IsHeartbeatOf(id) then 1 else 0
  }

  /** A scan announces exactly the sensors it takes from not offline to offline. */
  lemma AnnouncedIffTurnsOffline(m: Registry, sample: uint64, id: uint32)
    ensures id in Announced(m, sample) <==>
            id in m && m[id].health != Offline && ScanRegistry(m, sample)[id].health == Offline
  {
  }

  /** Step `k` takes the sensor from not offline to offline. */
  predicate GoesOffline(run: Run, k: int, id: uint32) {
    && 0 <= k < |run|
    && Entry(Exec(run[..k]).sensors, id).health != Offline
    && Entry(Exec(run[..k + 1]).sensors, id).health == Offline
  }

  function OfflineSteps(run: Run, id: uint32): set<int> {
    set k | 0 <= k < |run| && GoesOffline(run, k, id)
  }

  lemma OfflineStepsGrow(run: Run, id: uint32)
    requires |run| > 0
    ensures var n := |run| - 1;
            |OfflineSteps(run, id)| == |OfflineSteps(run[..n], id)| + if GoesOffline(run, n, id) then 1 else 0
  {
    var n := |run| - 1;
    var front := run[..n];
    forall k | 0 <= k < n
      ensures GoesOffline(run, k, id) <==> GoesOffline(front, k, id)
    {
      assert front[..k] == run[..k] && front[..k + 1] == run[..k + 1];
    }
    assert OfflineSteps(run, id) == OfflineSteps(front, id) + if GoesOffline(run, n, id) then {n} else {};
    assert n !in OfflineSteps(front, id);
  }

  /** A step logs the sensor as offline if and only if it takes it offline. */
  lemma AnnouncedAtIffGoesOffline(run: Run, k: nat, id: uint32)
    requires k < |run|
    ensures GoesOffline(run, k, id) <==> run[k].Scan? && id in Announced(Exec(run[..k]).sensors, run[k].sample)
  {
    ExecStep(run, k);
    if run[k].Scan? {
      AnnouncedIffTurnsOffline(Exec(run[..k]).sensors, run[k].sample, id);
    }
  }

  /** Over every run, the log has one line for each time the sensor goes offline, and no other. */
  lemma {:induction false} AnnouncementsAreTransitions(run: Run, id: uint32)
    ensures Announcements(run, id) == |OfflineSteps(run, id)|
  {
    if |run| > 0 {
      var n := |run| - 1;
      AnnouncementsAreTransitions(run[..n], id);
      OfflineStepsGrow(run, id);
      AnnouncedAtIffGoesOffline(run, n, id);
    }
  }

  /** Every offline announcement uses up a heartbeat, and an online sensor has one in hand. */
  lemma {:induction false} AnnouncementsNeedHeartbeats(run: Run, id: uint32)
    ensures Announcements(run, id) + (if Entry(Exec(run).sensors, id).health == Online then 1 else 0)
            <= Heartbeats(run, id)
  {
    if |run| > 0 {
      AnnouncementsNeedHeartbeats(run[..|run| - 1], id);
    }
  }

  lemma {:induction false} StaysOffline(run: Run, id: uint32, i: nat, j: nat)
    requires i <= j <= |run|
    requires Entry(Exec(run[..i]).sensors, id).health == Offline
    requires forall k :: i <= k < j ==> !run[k].IsHeartbeatOf(id)
    ensures Entry(Exec(run[..j]).sensors, id).health == Offline
  {
    if i < j {
      StaysOffline(run, id, i, j - 1);
      ExecStep(run, j - 1);
    }
  }

  /** Announcements are edge-triggered: between two of them the sensor sent a heartbeat. */
  lemma HeartbeatBetweenAnnouncements(run: Run, id: uint32, i: nat, j: nat)
    requires i < j < |run| && run[i].Scan? && run[j].Scan?
    requires id in Announced(Exec(run[..i]).sensors, run[i].sample)
    requires id in Announced(Exec(run[..j]).sensors, run[j].sample)
    ensures exists k :: i < k < j && run[k].IsHeartbeatOf(id)
  {
    ExecStep(run, i);
    if forall k :: i < k < j ==> !run[k].IsHeartbeatOf(id) {
      StaysOffline(run, id, i + 1, j);
      assert false;
    }
  }
}
