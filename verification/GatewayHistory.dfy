/**
 What a registry entry says about the run that produced it.

 `EntryIsHistory` reads every field of an entry off the run with no assumption on the clock,
 so it also covers scans with stale samples; the other results follow from it.
 */
module GatewayHistory {
  import opened Protocol
  import opened GatewayModel

  /** Index of the sensor's last heartbeat, -1 if there is none. */
  function LastHeartbeat(run: Run, id: uint32): (j: int)
    ensures -1 <= j < |run|
    ensures j >= 0 ==> run[j].IsHeartbeatOf(id)
    ensures forall k :: j < k < |run| ==> !run[k].IsHeartbeatOf(id)
  {
    if |run| == 0 then -1
    else if run[|run| - 1].IsHeartbeatOf(id) then |run| - 1
    else LastHeartbeat(run[..|run| - 1], id)
  }

  /** Index of the sensor's last telemetry packet, -1 if there is none. */
  function LastTelemetry(run: Run, id: uint32): (j: int)
    ensures -1 <= j < |run|
    ensures j >= 0 ==> run[j].IsTelemetryOf(id)
    ensures forall k :: j < k < |run| ==> !run[k].IsTelemetryOf(id)
  {
    if |run| == 0 then -1
    else if run[|run| - 1].IsTelemetryOf(id) then |run| - 1
    else LastTelemetry(run[..|run| - 1], id)
  }

  ghost predicate Seen(run: Run, id: uint32) {
    exists k :: 0 <= k < |run| && run[k].IsPacketOf(id)
  }

  /** Some scan after the last heartbeat computed an elapsed time above the timeout. */
  ghost predicate Expired(run: Run, id: uint32) {
    var j := LastHeartbeat(run, id);
    j >= 0 && run[j].at != 0 &&
    exists k :: j < k < |run| && run[k].Scan? && Elapsed(run[k].sample, run[j].at) > HEARTBEAT_TIMEOUT
  }

  function HeartbeatStamp(run: Run, id: uint32): uint64 {
    var j := LastHeartbeat(run, id);
    if j < 0 then 0 else run[j].at
  }

  lemma {:induction false} TelemetryIsHistory(run: Run, id: uint32)
    ensures id in Exec(run).sensors <==> Seen(run, id)
    ensures var info, t := Entry(Exec(run).sensors, id), LastTelemetry(run, id);
            && info.lastTelemetry == (if t < 0 then NO_TELEMETRY else run[t].telemetry)
            && info.telemetryStamp == (if t < 0 then 0 else run[t].at)
  {
    if |run| > 0 {
      var n := |run| - 1;
      var front, last := run[..n], run[n];
      TelemetryIsHistory(front, id);
      assert forall k :: 0 <= k < n ==> run[k] == front[k];
      assert Seen(run, id) <==> Seen(front, id) || last.IsPacketOf(id);
    }
  }

  lemma {:induction false} HeartbeatIsHistory(run: Run, id: uint32)
    ensures var info := Entry(Exec(run).sensors, id);
            && info.heartbeatStamp == HeartbeatStamp(run, id)
            && (info.health == Unknown <==> LastHeartbeat(run, id) < 0)
            && (info.health == Offline <==> Expired(run, id))
  {
    if |run| > 0 {
      var n := |run| - 1;
      HeartbeatIsHistory(run[..n], id);
      if 0 <= LastHeartbeat(run, id) < n {
        ExpiredStep(run, id);
      }
    }
  }

  /** Every run, every sensor: the entry is determined by the last packets and the scans after them. */
  lemma EntryIsHistory(run: Run, id: uint32)
    ensures id in Exec(run).sensors <==> Seen(run, id)
    ensures var info := Entry(Exec(run).sensors, id);
            var h, t := LastHeartbeat(run, id), LastTelemetry(run, id);
            && info.heartbeatStamp == HeartbeatStamp(run, id)
            && (info.health == Unknown <==> h < 0)
            && (info.health == Offline <==> Expired(run, id))
            && info.lastTelemetry == (if t < 0 then NO_TELEMETRY else run[t].telemetry)
            && info.telemetryStamp == (if t < 0 then 0 else run[t].at)
  {
    TelemetryIsHistory(run, id);
    HeartbeatIsHistory(run, id);
  }

  lemma ExpiredStep(run: Run, id: uint32)
    requires 0 <= LastHeartbeat(run, id) < |run| - 1
    ensures var last, h := run[|run| - 1], HeartbeatStamp(run, id);
            Expired(run, id) <==>
            Expired(run[..|run| - 1], id) ||
            (last.Scan? && h != 0 && Elapsed(last.sample, h) > HEARTBEAT_TIMEOUT)
  {
    var front := run[..|run| - 1];
    assert LastHeartbeat(front, id) == LastHeartbeat(run, id);
    assert forall k :: 0 <= k < |front| ==> front[k] == run[k];
  }

  /**
   With a positive clock that never goes back: UNKNOWN means no heartbeat yet, which is
   stamp 0; OFFLINE means some later scan was more than the timeout after the last
   heartbeat; ONLINE is everything else.
   */
  lemma HealthIsHistory(run: Run, id: uint32)
    requires Clocked(run)
    requires id in Exec(run).sensors
    ensures var info := Exec(run).sensors[id];
            var j := LastHeartbeat(run, id);
            var late := j >= 0 && exists k :: j < k < |run| && run[k].Scan? && run[k].sample - run[j].at > HEARTBEAT_TIMEOUT;
            && (info.health == Unknown <==> j < 0)
            && (info.health == Unknown <==> info.heartbeatStamp == 0)
            && (info.health == Offline <==> late)
            && (info.health == Online <==> j >= 0 && !late)
  {
    EntryIsHistory(run, id);
    var j := LastHeartbeat(run, id);
    if j >= 0 {
      assert 0 < run[j].Time();
      forall k | j < k < |run| && run[k].Scan?
        ensures Elapsed(run[k].sample, run[j].at) == run[k].sample - run[j].at
      {
        assert run[j].Time() <= run[k].Time();
      }
    }
  }

  // ---- timed detection ----

  /** Sample of the last scan, or the time the watchdog started if it has not scanned yet. */
  function LastSample(run: Run, start: nat): nat {
    if |run| == 0 then start
    else if run[|run| - 1].Scan? then run[|run| - 1].sample
    else LastSample(run[..|run| - 1], start)
  }

  /** From `start` to `end`, scan samples are never more than `period` apart. */
  ghost predicate ScansEvery(run: Run, start: nat, period: nat, end: nat) {
    && (forall k :: 0 <= k < |run| && run[k].Scan? ==> run[k].sample - LastSample(run[..k], start) <= period)
    && end - LastSample(run, start) <= period
  }

  /** `t` is a moment after the first `i` steps and before the next one. */
  ghost predicate Moment(run: Run, i: nat, t: nat, end: nat) {
    && i <= |run|
    && (i > 0 ==> run[i - 1].Time() <= t)
    && t <= (if i < |run| then run[i].Time() else end)
  }

  /** Within a regular schedule, no moment is more than a period after the last scan. */
  lemma {:induction false} LastSampleIsRecent(run: Run, start: nat, period: nat, end: nat, i: nat, n: nat)
    requires Clocked(run) && ScansEvery(run, start, period, end)
    requires i <= n <= |run| && LastSample(run[..n], start) == LastSample(run[..i], start)
    requires |run| > 0 ==> run[|run| - 1].Time() <= end
    ensures (if i < |run| then run[i].Time() else end) - LastSample(run[..i], start) <= period
    decreases |run| - n
  {
    if n == |run| {
      assert run[..n] == run;
    } else if !run[n].Scan? {
      assert run[..n + 1][..n] == run[..n];
      LastSampleIsRecent(run, start, period, end, i, n + 1);
    }
  }

  lemma {:induction false} LastSampleIsScan(run: Run, start: nat) returns (k: int)
    ensures -1 <= k < |run|
    ensures k < 0 ==> LastSample(run, start) == start
    ensures k >= 0 ==> run[k].Scan? && run[k].sample == LastSample(run, start)
  {
    if |run| == 0 {
      k := -1;
    } else if run[|run| - 1].Scan? {
      k := |run| - 1;
    } else {
      k := LastSampleIsScan(run[..|run| - 1], start);
    }
  }

  /**
   A silent sensor is not reported before the timeout, and is reported no later than one scan
   period after both the timeout and the watchdog's start, at every moment of every run.
   */
  lemma BoundedDetection(run: Run, start: nat, period: nat, end: nat, i: nat, t: nat, id: uint32)
    requires Clocked(run) && ScansEvery(run, start, period, end)
    requires |run| > 0 ==> run[|run| - 1].Time() <= end
    requires Moment(run, i, t, end)
    requires LastHeartbeat(run[..i], id) >= 0
    ensures var h := HeartbeatStamp(run[..i], id);
            var health := Entry(Exec(run[..i]).sensors, id).health;
            && (t <= h + HEARTBEAT_TIMEOUT ==> health == Online)
            && (t > (if start <= h + HEARTBEAT_TIMEOUT then h + HEARTBEAT_TIMEOUT else start) + period ==> health == Offline)
  {
    var seen := run[..i];
    var h, j := HeartbeatStamp(seen, id), LastHeartbeat(seen, id);
    assert Clocked(seen);
    EntryIsHistory(seen, id);
    assert seen[j].IsPacketOf(id);
    HealthIsHistory(seen, id);
    if t <= h + HEARTBEAT_TIMEOUT {
      forall k | j < k < i && run[k].Scan?
        ensures run[k].sample - h <= HEARTBEAT_TIMEOUT
      {
        assert run[k].Time() <= run[i - 1].Time();
      }
    }
    if t > (if start <= h + HEARTBEAT_TIMEOUT then h + HEARTBEAT_TIMEOUT else start) + period {
      LastSampleIsRecent(run, start, period, end, i, i);
      var k := LastSampleIsScan(seen, start);
      assert seen[k].sample > h + HEARTBEAT_TIMEOUT;
      if k <= j {
        assert seen[k].Time() <= seen[j].Time();
      }
    }
  }

  /** The age query on every run, whatever the clock did. */
  lemma AgeIsHistory(run: Run, id: uint32, now: uint64)
    ensures var h := HeartbeatStamp(run, id);
            AgeSeconds(Exec(run).sensors, id, now) == if h == 0 then 0 else Elapsed(now, h) / 1000
  {
    EntryIsHistory(run, id);
    var j := LastHeartbeat(run, id);
    if j >= 0 {
      assert run[j].IsPacketOf(id);
    }
  }

  /** The age query answers with the whole seconds since the last heartbeat, 0 if there was none. */
  lemma AgeIsExact(run: Run, id: uint32, now: uint64)
    requires Clocked(run) && (|run| > 0 ==> run[|run| - 1].Time() <= now)
    ensures var j := LastHeartbeat(run, id);
            AgeSeconds(Exec(run).sensors, id, now) == if j < 0 then 0 else (now - run[j].at) / 1000
  {
    EntryIsHistory(run, id);
    var j := LastHeartbeat(run, id);
    if j >= 0 {
      assert run[j].IsPacketOf(id);
      assert 0 < run[j].Time() <= run[|run| - 1].Time();
    }
  }

  /** Reported age and reported health agree, read at any time `now` after the last step. */
  lemma AgeAgreesWithHealth(run: Run, id: uint32, now: uint64)
    requires Clocked(run) && (|run| > 0 ==> run[|run| - 1].Time() <= now)
    ensures Entry(Exec(run).sensors, id).health == Offline ==> AgeSeconds(Exec(run).sensors, id, now) >= 10
    ensures AgeSeconds(Exec(run).sensors, id, now) <= 9 ==> Entry(Exec(run).sensors, id).health != Offline
  {
    AgeIsExact(run, id, now);
    if Entry(Exec(run).sensors, id).health == Offline {
      HealthIsHistory(run, id);
      var j := LastHeartbeat(run, id);
      var k :| j < k < |run| && run[k].Scan? && run[k].sample - run[j].at > HEARTBEAT_TIMEOUT;
      assert run[k].Time() <= run[|run| - 1].Time();
    }
  }

  /**
   The list command takes health from one snapshot and the age from a later read. A row that
   shows OFFLINE with an age under ten seconds is possible, and means that a heartbeat
   arrived in between.
   */
  lemma TornRowMeansNewHeartbeat(run: Run, i: nat, id: uint32, now: uint64)
    requires i <= |run|
    requires Clocked(run) && (|run| > 0 ==> run[|run| - 1].Time() <= now)
    requires Entry(Exec(run[..i]).sensors, id).health == Offline
    ensures AgeSeconds(Exec(run).sensors, id, now) < 10 ==> exists k :: i <= k < |run| && run[k].IsHeartbeatOf(id)
    ensures (exists k :: i <= k < |run| && run[k].IsHeartbeatOf(id)) ==>
              i <= LastHeartbeat(run, id) &&
              AgeSeconds(Exec(run).sensors, id, now) == (now - run[LastHeartbeat(run, id)].at) / 1000
  {
    AgeIsExact(run, id, now);
    HeartbeatIsHistory(run[..i], id);
    if LastHeartbeat(run, id) < i {
      SameHeartbeat(run, i, id);
      AgeIsExact(run[..i], id, now);
      AgeAgreesWithHealth(run[..i], id, now);
    }
  }

  lemma SameHeartbeat(run: Run, i: nat, id: uint32)
    requires i <= |run| && LastHeartbeat(run, id) < i
    ensures LastHeartbeat(run[..i], id) == LastHeartbeat(run, id)
  {
    assert forall k :: 0 <= k < i ==> run[..i][k] == run[k];
  }
}
