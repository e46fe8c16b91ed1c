/**
 Timer, network and the watchdog as it really interleaves.

 `Timeline` is the run the gateway would have made had every scan happened at the moment its
 clock was sampled. It obeys the clock, so `HeartbeatSafety` applies to it; the real run
 differs from it only where a heartbeat overtook a sample.
 */
module EndToEnd {
  import opened Protocol
  import opened GatewayModel
  import opened GatewayHistory
  import opened Watchdog
  import opened HeartbeatSafety

  function Timeline(trace: Trace): Run {
    if |trace| == 0 then []
    else
      var front := Timeline(trace[..|trace| - 1]);
      match trace[|trace| - 1]
      case Begin(now) => front + [Scan(now)]
      case Packet(step) => front + [step]
      case Commit => front
  }

  lemma ClockedAppend(run: Run, step: Step)
    requires Clocked(run) && 0 < step.Time()
    requires forall i :: 0 <= i < |run| ==> run[i].Time() <= step.Time()
    ensures Clocked(run + [step])
  {
  }

  /** Times in the idealised run are clock readings of the real one, so it obeys the clock. */
  lemma {:induction false} TimelineIsClocked(trace: Trace, bound: nat)
    requires Legal(trace)
    requires forall k :: 0 <= k < |trace| && !trace[k].Commit? ==> Reading(trace[k]).value <= bound
    ensures Clocked(Timeline(trace))
    ensures forall i :: 0 <= i < |Timeline(trace)| ==> Timeline(trace)[i].Time() <= bound
  {
    if |trace| > 0 {
      var n := |trace| - 1;
      var front, last := trace[..n], trace[n];
      LegalPrefix(trace, n);
      if last.Commit? {
        TimelineIsClocked(front, bound);
      } else {
        TimelineIsClocked(front, Reading(last).value);
        ClockedAppend(Timeline(front), if last.Begin? then Scan(last.now) else last.step);
      }
    }
  }

  lemma {:induction false} TimelinePrefix(trace: Trace, n: nat)
    requires n <= |trace|
    ensures Timeline(trace[..n]) <= Timeline(trace)
    decreases |trace|
  {
    if n == |trace| {
      assert trace[..n] == trace;
    } else {
      TimelinePrefix(trace[..|trace| - 1], n);
      assert trace[..|trace| - 1][..n] == trace[..n];
    }
  }

  lemma {:induction false} TimelineStamp(trace: Trace, id: uint32)
    requires forall i :: 0 <= i < |trace| && trace[i].Packet? ==> !trace[i].step.Scan?
    ensures var j := LastHeartbeatEvent(trace, id);
            && HeartbeatStamp(Timeline(trace), id) == (if j < 0 then 0 else trace[j].step.at)
            && (j < 0 <==> LastHeartbeat(Timeline(trace), id) < 0)
  {
    if |trace| > 0 {
      var front := trace[..|trace| - 1];
      TimelineStamp(front, id);
      var run, longer := Timeline(front), Timeline(trace);
      if |longer| > |run| {
        assert longer[..|run|] == run;
      }
    }
  }

  /** The hypotheses of `HeartbeatSafety`, for the idealised run of a trace. */
  ghost predicate LiveThroughout(c: Setting, x: Scenario, trace: Trace, id: uint32) {
    Legal(trace) && Fits(c, x, id) && x.run == Timeline(trace)
  }

  /**
   A scan about to commit announces a live sensor only if that sensor's heartbeat overtook the
   sample: the window is the only source of false alarms.
   */
  lemma OnlyOvertakenSamplesAnnounce(c: Setting, x: Scenario, trace: Trace, n: nat, id: uint32)
    requires LiveThroughout(c, x, trace, id) && WithinTimeout(c)
    requires n <= |trace| && Play(trace[..n]).pending.Some?
    requires Announces(Entry(Play(trace[..n]).gateway.sensors, id), Play(trace[..n]).pending.value)
    ensures Overtaken(Play(trace[..n]), id)
  {
    var part, sample := trace[..n], Play(trace[..n]).pending.value;
    LegalPrefix(trace, n);
    StampIsLastHeartbeat(part, id);
    var b := PendingBegin(part);
    var j := LastHeartbeatEvent(part, id);
    assert j >= 0 && part[j].step.at != 0;
    assert b < j ==> Reading(part[b]).value <= Reading(part[j]).value;
    if j < b {
      HeardBeforeBegin(c, x, trace, n, b, id);
    }
  }

  lemma HeardBeforeBegin(c: Setting, x: Scenario, trace: Trace, n: nat, b: nat, id: uint32)
    requires LiveThroughout(c, x, trace, id) && WithinTimeout(c)
    requires b < n <= |trace| && trace[b].Begin?
    requires 0 <= LastHeartbeatEvent(trace[..n], id) < b
    ensures Elapsed(trace[b].now, trace[LastHeartbeatEvent(trace[..n], id)].step.at) <= HEARTBEAT_TIMEOUT
  {
    assert trace[..n][..b] == trace[..b];
    SameLastHeartbeat(trace[..n], b, id);
    RecentAtBegin(c, x, trace, b, id);
  }

  lemma SameLastHeartbeat(trace: Trace, n: nat, id: uint32)
    requires n <= |trace| && LastHeartbeatEvent(trace, id) < n
    ensures LastHeartbeatEvent(trace[..n], id) == LastHeartbeatEvent(trace, id)
  {
    var j, k := LastHeartbeatEvent(trace, id), LastHeartbeatEvent(trace[..n], id);
    assert j >= 0 ==> HeartbeatAt(trace[..n], j, id);
    assert k >= 0 ==> HeartbeatAt(trace, k, id);
  }

  /** The idealised run scans where the real one samples. */
  lemma BeginIsScan(trace: Trace, b: nat)
    requires b < |trace| && trace[b].Begin?
    ensures var run, i := Timeline(trace), |Timeline(trace[..b])|;
            i < |run| && run[i] == Scan(trace[b].now) && run[..i] == Timeline(trace[..b])
  {
    var upto := trace[..b + 1];
    assert upto[..b] == trace[..b];
    assert Timeline(upto) == Timeline(trace[..b]) + [Scan(trace[b].now)];
    TimelinePrefix(trace, b + 1);
  }

  /** In a run without alarms every scan finds the last heartbeat within the timeout. */
  lemma QuietScan(run: Run, i: nat, id: uint32)
    requires NeverOffline(run, id) && i < |run| && run[i].Scan?
    requires LastHeartbeat(run[..i], id) >= 0 && HeartbeatStamp(run[..i], id) != 0
    ensures Elapsed(run[i].sample, HeartbeatStamp(run[..i], id)) <= HEARTBEAT_TIMEOUT
  {
    EntryIsHistory(run[..i], id);
    ExecStep(run, i);
    assert Entry(Exec(run[..i]).sensors, id).health == Online;
    assert Entry(Exec(run[..i + 1]).sensors, id).health != Offline;
  }

  /** When a sample is taken, a live sensor's last heartbeat is within the timeout. */
  lemma RecentAtBegin(c: Setting, x: Scenario, trace: Trace, b: nat, id: uint32)
    requires LiveThroughout(c, x, trace, id) && WithinTimeout(c)
    requires b < |trace| && trace[b].Begin?
    requires LastHeartbeatEvent(trace[..b], id) >= 0
    ensures Elapsed(trace[b].now, trace[LastHeartbeatEvent(trace[..b], id)].step.at) <= HEARTBEAT_TIMEOUT
  {
    LiveSensorNeverOffline(c, x, id);
    BeginIsScan(trace, b);
    LegalPrefix(trace, b);
    TimelineStamp(trace[..b], id);
    var j := LastHeartbeatEvent(trace[..b], id);
    assert 0 < Reading(trace[j]).value;
    QuietScan(Timeline(trace), |Timeline(trace[..b])|, id);
  }

  /** Only a committing scan that announces the sensor takes it offline. */
  lemma OfflineNeedsAnnouncement(m: Machine, e: Event, id: uint32)
    requires e.Packet? ==> !e.step.Scan?
    requires Entry(m.gateway.sensors, id).health != Offline
    ensures Entry(Next(m, e).gateway.sensors, id).health == Offline ==>
              e.Commit? && m.pending.Some? && Announces(Entry(m.gateway.sensors, id), m.pending.value)
  {
  }

  lemma {:induction false} NotOfflineUnlessOvertaken(c: Setting, x: Scenario, trace: Trace, n: nat, id: uint32)
    requires LiveThroughout(c, x, trace, id) && WithinTimeout(c) && n <= |trace|
    requires forall k :: 0 <= k < n && trace[k].Commit? ==> !Overtaken(Play(trace[..k]), id)
    ensures Entry(Play(trace[..n]).gateway.sensors, id).health != Offline
  {
    if n > 0 {
      NotOfflineUnlessOvertaken(c, x, trace, n - 1, id);
      var m := Play(trace[..n - 1]);
      assert trace[..n][..n - 1] == trace[..n - 1];
      OfflineNeedsAnnouncement(m, trace[n - 1], id);
      if trace[n - 1].Commit? && Announces(Entry(m.gateway.sensors, id), m.pending.value) {
        OnlyOvertakenSamplesAnnounce(c, x, trace, n - 1, id);
      }
    }
  }

  /**
   The whole system, within the bound: a live sensor is shown as offline at some point of an
   interleaving if and only if some scan is about to commit with the sensor online and its
   heartbeat stamped later than the sample.
   */
  lemma LiveSensorOfflineIffOvertaken(c: Setting, x: Scenario, trace: Trace, id: uint32)
    requires LiveThroughout(c, x, trace, id) && WithinTimeout(c)
    ensures (exists n :: 0 <= n <= |trace| && Entry(Play(trace[..n]).gateway.sensors, id).health == Offline) <==>
            (exists k :: 0 <= k < |trace| && trace[k].Commit? && Overtaken(Play(trace[..k]), id))
  {
    if k :| 0 <= k < |trace| && trace[k].Commit? && Overtaken(Play(trace[..k]), id) {
      WronglyMarkedIffOvertaken(Play(trace[..k]), id);
      assert trace[..k + 1][..k] == trace[..k];
      assert Entry(Play(trace[..k + 1]).gateway.sensors, id).health == Offline;
    } else {
      forall n | 0 <= n <= |trace|
        ensures Entry(Play(trace[..n]).gateway.sensors, id).health != Offline
      {
        NotOfflineUnlessOvertaken(c, x, trace, n, id);
      }
    }
  }
}
