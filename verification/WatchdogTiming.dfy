/**
 Timed detection by the watchdog as it really interleaves.

 Every event of a trace has a moment; for all but the locked scan it is the clock reading.
 Samples are at most `period` apart and each scan commits at most `latency` after its sample.
 */
module WatchdogTiming {
  import opened Protocol
  import opened GatewayModel
  import opened Watchdog

  /** The last sample taken, or the time the watchdog started. */
  function LastBegin(trace: Trace, start: nat): nat {
    if |trace| == 0 then start
    else if trace[|trace| - 1].Begin? then trace[|trace| - 1].now
    else LastBegin(trace[..|trace| - 1], start)
  }

  /** The sample of the last scan that committed, or the time the watchdog started. */
  function LastCommitted(trace: Trace, start: nat): nat {
    if |trace| == 0 then start
    else
      var pending := Play(trace[..|trace| - 1]).pending;
      if trace[|trace| - 1].Commit? && pending.Some? then pending.value
      else LastCommitted(trace[..|trace| - 1], start)
  }

  /** A trace with the moments of its events, up to `end`. */
  datatype Timed = Timed(trace: Trace, moments: seq<nat>, start: nat, end: nat)

  ghost predicate WellTimed(x: Timed) {
    && Legal(x.trace) && |x.moments| == |x.trace|
    && (forall i, j :: 0 <= i <= j < |x.moments| ==> x.moments[i] <= x.moments[j] <= x.end)
    && (forall i :: 0 <= i < |x.trace| && !x.trace[i].Commit? ==> Reading(x.trace[i]).value == x.moments[i])
  }

  ghost predicate SamplesEvery(x: Timed, period: nat) {
    && (forall k :: 0 <= k < |x.trace| && x.trace[k].Begin? ==>
          x.trace[k].now - LastBegin(x.trace[..k], x.start) <= period)
    && x.end - LastBegin(x.trace, x.start) <= period
  }

  ghost predicate CommitsWithin(x: Timed, latency: nat)
    requires WellTimed(x)
  {
    && (forall k :: 0 <= k < |x.trace| && x.trace[k].Commit? ==>
          x.moments[k] - Play(x.trace[..k]).pending.value <= latency)
    && (Play(x.trace).pending.Some? ==> x.end - Play(x.trace).pending.value <= latency)
  }

  /** `t` is a moment after the first `n` events and before the next one. */
  ghost predicate Moment(x: Timed, n: nat, t: nat) {
    && n <= |x.trace| == |x.moments|
    && (n > 0 ==> x.moments[n - 1] <= t)
    && t <= Due(x, n)
  }

  // ---- how old the last committed sample can be ----

  /** The moment of event `m`, or the end. */
  function Due(x: Timed, m: nat): nat {
    if m < |x.moments| then x.moments[m] else x.end
  }

  lemma DueGrows(x: Timed, m: nat)
    requires WellTimed(x) && m < |x.trace|
    ensures Due(x, m) <= Due(x, m + 1)
  {
    assert x.moments[m] <= x.end;
    assert m + 1 < |x.moments| ==> x.moments[m] <= x.moments[m + 1];
  }

  lemma BeginStays(trace: Trace, start: nat, m: nat)
    requires m < |trace| && !trace[m].Begin?
    ensures LastBegin(trace[..m + 1], start) == LastBegin(trace[..m], start)
  {
    assert trace[..m + 1][..m] == trace[..m];
  }

  /** The next sample, or the end, comes within a period of the last one. */
  lemma {:induction false} SampleIsRecent(x: Timed, period: nat, m: nat)
    requires WellTimed(x) && SamplesEvery(x, period) && m <= |x.trace|
    ensures Due(x, m) - LastBegin(x.trace[..m], x.start) <= period
    decreases |x.trace| - m
  {
    if m == |x.trace| {
      assert x.trace[..m] == x.trace;
    } else if x.trace[m].Begin? {
      assert Reading(x.trace[m]).value == x.moments[m];
    } else {
      BeginStays(x.trace, x.start, m);
      DueGrows(x, m);
      SampleIsRecent(x, period, m + 1);
    }
  }

  lemma PendingStays(trace: Trace, m: nat)
    requires Legal(trace) && m < |trace| && !trace[m].Commit? && Play(trace[..m]).pending.Some?
    ensures Play(trace[..m + 1]).pending == Play(trace[..m]).pending
  {
    assert trace[..m + 1][..m] == trace[..m];
  }

  /** The pending scan commits, or the trace ends, within the latency. */
  lemma {:induction false} PendingIsRecent(x: Timed, latency: nat, m: nat)
    requires WellTimed(x) && CommitsWithin(x, latency) && m <= |x.trace|
    requires Play(x.trace[..m]).pending.Some?
    ensures Due(x, m) - Play(x.trace[..m]).pending.value <= latency
    decreases |x.trace| - m
  {
    if m == |x.trace| {
      assert x.trace[..m] == x.trace;
    } else if !x.trace[m].Commit? {
      PendingStays(x.trace, m);
      DueGrows(x, m);
      PendingIsRecent(x, latency, m + 1);
    }
  }

  /** Between Begin and Commit the committed sample is one sample behind, otherwise it is the last. */
  lemma {:induction false} OneSampleBehind(x: Timed, period: nat, n: nat)
    requires WellTimed(x) && SamplesEvery(x, period) && n <= |x.trace|
    ensures var m := Play(x.trace[..n]);
            var last, committed := LastBegin(x.trace[..n], x.start), LastCommitted(x.trace[..n], x.start);
            if m.pending.None? then committed == last
            else m.pending.value == last && last - committed <= period
  {
    if n > 0 {
      OneSampleBehind(x, period, n - 1);
      assert x.trace[..n][..n - 1] == x.trace[..n - 1];
    }
  }

  lemma CommittedIsRecent(x: Timed, period: nat, latency: nat, n: nat, t: nat)
    requires WellTimed(x) && SamplesEvery(x, period) && CommitsWithin(x, latency) && Moment(x, n, t)
    ensures t - LastCommitted(x.trace[..n], x.start) <= period + latency
  {
    OneSampleBehind(x, period, n);
    SampleIsRecent(x, period, n);
    if Play(x.trace[..n]).pending.Some? {
      PendingIsRecent(x, latency, n);
    }
  }

  // ---- what a committed sample means ----

  ghost predicate ReadingsUpTo(trace: Trace, bound: nat) {
    forall k :: 0 <= k < |trace| && !trace[k].Commit? ==> Reading(trace[k]).value <= bound
  }

  lemma ReadingsPrefix(trace: Trace, n: nat, bound: nat)
    requires ReadingsUpTo(trace, bound) && n <= |trace|
    ensures ReadingsUpTo(trace[..n], bound)
  {
  }

  /** Every sample so far is at most a later clock reading. */
  lemma {:induction false} SamplesAreReadings(trace: Trace, start: nat, bound: nat)
    requires Legal(trace)
    requires ReadingsUpTo(trace, bound)
    ensures LastCommitted(trace, start) == start || LastCommitted(trace, start) <= bound
    ensures Play(trace).pending.Some? ==> Play(trace).pending.value <= bound
  {
    if |trace| > 0 {
      var n := |trace| - 1;
      LegalPrefix(trace, n);
      ReadingsPrefix(trace, n, bound);
      SamplesAreReadings(trace[..n], start, bound);
    }
  }

  /** No committed sample is later than a packet at the end. */
  lemma SamplesBeforeLast(trace: Trace, start: nat)
    requires Legal(trace) && |trace| > 0 && trace[|trace| - 1].Packet?
    ensures LastCommitted(trace, start) == start || LastCommitted(trace, start) <= trace[|trace| - 1].step.Time()
  {
    var n := |trace| - 1;
    LegalPrefix(trace, n);
    forall k | 0 <= k < n && !trace[k].Commit?
      ensures Reading(trace[..n][k]).value <= Reading(trace[n]).value
    {
    }
    SamplesAreReadings(trace[..n], start, Reading(trace[n]).value);
  }

  /** A committed sample more than the timeout after the last heartbeat has taken the sensor offline. */
  lemma {:induction false} LateSampleMeansOffline(trace: Trace, start: nat, id: uint32)
    requires Legal(trace) && LastHeartbeatEvent(trace, id) >= 0
    requires var h := trace[LastHeartbeatEvent(trace, id)].step.at;
             start < LastCommitted(trace, start) && h + HEARTBEAT_TIMEOUT < LastCommitted(trace, start)
    ensures Entry(Play(trace).gateway.sensors, id).health == Offline
  {
    var n := |trace| - 1;
    var front, last := trace[..n], trace[n];
    LegalPrefix(trace, n);
    if HeartbeatAt(trace, n, id) {
      SamplesBeforeLast(trace, start);
      assert false;
    } else if last.Commit? {
      StampIsLastHeartbeat(front, id);
      assert 0 < Reading(trace[LastHeartbeatEvent(trace, id)]).value;
      CommitTooLate(Play(front), id);
    } else {
      OtherEvents(Play(front), last, id);
      LateSampleMeansOffline(front, start, id);
    }
  }

  lemma CommitTooLate(m: Machine, id: uint32)
    requires m.pending.Some?
    requires var info := Entry(m.gateway.sensors, id);
             info.health != Unknown && info.heartbeatStamp != 0
             && info.heartbeatStamp + HEARTBEAT_TIMEOUT < m.pending.value
    ensures Entry(Next(m, Commit).gateway.sensors, id).health == Offline
  {
  }

  /** Since its last heartbeat, some scan committed while the sensor's stamp had overtaken it. */
  ghost predicate OvertakenSince(trace: Trace, id: uint32) {
    exists k :: LastHeartbeatEvent(trace, id) < k < |trace| && trace[k].Commit? && Overtaken(Play(trace[..k]), id)
  }

  lemma OvertakenSinceStep(trace: Trace, id: uint32)
    requires |trace| > 0 && LastHeartbeatEvent(trace, id) < |trace| - 1
    ensures var front := trace[..|trace| - 1];
            && LastHeartbeatEvent(front, id) == LastHeartbeatEvent(trace, id)
            && (OvertakenSince(trace, id) <==>
                OvertakenSince(front, id) || (trace[|trace| - 1].Commit? && Overtaken(Play(front), id)))
  {
    var front := trace[..|trace| - 1];
    assert forall k :: 0 <= k < |front| ==> front[k] == trace[k] && front[..k] == trace[..k];
  }

  /** A scan whose sample is within the timeout of the stamp goes wrong only by being overtaken. */
  lemma CommitWithinTimeout(m: Machine, id: uint32)
    requires m.pending.Some?
    requires var info := Entry(m.gateway.sensors, id);
             info.health != Unknown && info.heartbeatStamp != 0
             && m.pending.value <= info.heartbeatStamp + HEARTBEAT_TIMEOUT
    ensures Entry(Next(m, Commit).gateway.sensors, id).health ==
            if Entry(m.gateway.sensors, id).health == Offline || Overtaken(m, id) then Offline else Online
  {
  }

  /** Other events leave the sensor's health alone. */
  lemma OtherEvents(m: Machine, e: Event, id: uint32)
    requires !e.Commit? && (e.Packet? ==> !e.step.Scan? && !e.step.IsHeartbeatOf(id))
    ensures Entry(Next(m, e).gateway.sensors, id).health == Entry(m.gateway.sensors, id).health
  {
  }

  /** Within the timeout of its last heartbeat, a sensor is online unless it was overtaken since. */
  lemma {:induction false} OfflineEarlyIffOvertaken(trace: Trace, id: uint32, bound: nat)
    requires Legal(trace) && LastHeartbeatEvent(trace, id) >= 0
    requires bound == trace[LastHeartbeatEvent(trace, id)].step.at + HEARTBEAT_TIMEOUT && ReadingsUpTo(trace, bound)
    ensures Entry(Play(trace).gateway.sensors, id).health == if OvertakenSince(trace, id) then Offline else Online
  {
    var n, j := |trace| - 1, LastHeartbeatEvent(trace, id);
    if j < n {
      var front := trace[..n];
      LegalPrefix(trace, n);
      ReadingsPrefix(trace, n, bound);
      OvertakenSinceStep(trace, id);
      OfflineEarlyIffOvertaken(front, id, bound);
      if trace[n].Commit? {
        StampIsLastHeartbeat(front, id);
        assert 0 < Reading(trace[j]).value;
        SamplesAreReadings(front, 0, bound);
        CommitWithinTimeout(Play(front), id);
      } else {
        assert !HeartbeatAt(trace, n, id);
        OtherEvents(Play(front), trace[n], id);
      }
    }
  }

  /** A sensor reporting an age under ten seconds is offline if and only if it was overtaken since. */
  lemma YoungOfflineIffOvertaken(trace: Trace, id: uint32, now: uint64)
    requires Legal(trace) && ReadingsUpTo(trace, now) && LastHeartbeatEvent(trace, id) >= 0
    requires AgeSeconds(Play(trace).gateway.sensors, id, now) < 10
    ensures Entry(Play(trace).gateway.sensors, id).health == Offline <==> OvertakenSince(trace, id)
  {
    var j := LastHeartbeatEvent(trace, id);
    StampIsLastHeartbeat(trace, id);
    assert 0 < Reading(trace[j]).value <= now;
    var h := trace[j].step.at;
    assert now - h < 10000;
    assert ReadingsUpTo(trace, h + HEARTBEAT_TIMEOUT);
    OfflineEarlyIffOvertaken(trace, id, h + HEARTBEAT_TIMEOUT);
  }

  /**
   The real watchdog's timing, at every moment of every interleaving. Up to the timeout after a
   heartbeat the sensor is online, except after a scan that the heartbeat overtook; and it is
   offline once the timeout (or the watchdog's start, if later), a period and a latency have
   passed.
   */
  lemma DetectionOfTheSplitWatchdog(x: Timed, period: nat, latency: nat, n: nat, t: nat, id: uint32)
    requires WellTimed(x) && SamplesEvery(x, period) && CommitsWithin(x, latency) && Moment(x, n, t)
    requires LastHeartbeatEvent(x.trace[..n], id) >= 0
    ensures var seen := x.trace[..n];
            var h, health := seen[LastHeartbeatEvent(seen, id)].step.at, Entry(Play(seen).gateway.sensors, id).health;
            var silent := if x.start <= h + HEARTBEAT_TIMEOUT then h + HEARTBEAT_TIMEOUT else x.start;
            && (t <= h + HEARTBEAT_TIMEOUT ==> health == if OvertakenSince(seen, id) then Offline else Online)
            && (t > silent + period + latency ==> health == Offline)
  {
    var seen := x.trace[..n];
    LegalPrefix(x.trace, n);
    var h := seen[LastHeartbeatEvent(seen, id)].step.at;
    if t <= h + HEARTBEAT_TIMEOUT {
      forall k | 0 <= k < n && !seen[k].Commit?
        ensures Reading(seen[k]).value <= h + HEARTBEAT_TIMEOUT
      {
        assert x.moments[k] <= x.moments[n - 1];
      }
      OfflineEarlyIffOvertaken(seen, id, h + HEARTBEAT_TIMEOUT);
    }
    CommittedIsRecent(x, period, latency, n, t);
    if t > (if x.start <= h + HEARTBEAT_TIMEOUT then h + HEARTBEAT_TIMEOUT else x.start) + period + latency {
      LateSampleMeansOffline(seen, x.start, id);
    }
  }
}
