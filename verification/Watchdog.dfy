/**
 The watchdog as it really interleaves: it reads the clock first and takes the lock later,
 and handlers may run in between.

 `Commit` is the locked scan, made with the sample its `Begin` took. A run of this machine is
 a gateway run whose scan samples may be stale, and that staleness is exactly what makes the
 unsigned subtraction report a live sensor as offline.
 */
module Watchdog {
  import opened Protocol
  import opened GatewayModel

  datatype Event =
    | Begin(now: uint64)
    | Commit
    | Packet(step: Step)

  type Trace = seq<Event>

  datatype Machine = Machine(gateway: State, pending: Option<uint64>)

  /** Clock reading of an event; the locked scan reads no clock. */
  function Reading(e: Event): Option<uint64> {
    match e
    case Begin(now) => Some(now)
    case Commit => None
    case Packet(step) => Some(step.Time())
  }

  function Next(m: Machine, e: Event): Machine {
    match e
    case Begin(now) => m.(pending := Some(now))
    case Commit => if m.pending.None? then m else Machine(Apply(m.gateway, Scan(m.pending.value)), None)
    case Packet(step) => m.(gateway := Apply(m.gateway, step))
  }

  function Play(trace: Trace): Machine {
    if |trace| == 0 then Machine(INITIAL, None)
    else Next(Play(trace[..|trace| - 1]), trace[|trace| - 1])
  }

  /**
   One watchdog thread alternates Begin and Commit, packets are handlers only, and the clock
   readings are positive and never go back.
   */
  ghost predicate Legal(trace: Trace) {
    && (forall i :: 0 <= i < |trace| && trace[i].Begin? ==> Play(trace[..i]).pending.None?)
    && (forall i :: 0 <= i < |trace| && trace[i].Commit? ==> Play(trace[..i]).pending.Some?)
    && (forall i :: 0 <= i < |trace| && trace[i].Packet? ==> !trace[i].step.Scan?)
    && (forall i :: 0 <= i < |trace| && !trace[i].Commit? ==> 0 < Reading(trace[i]).value)
    && (forall i, j :: 0 <= i <= j < |trace| && !trace[i].Commit? && !trace[j].Commit? ==>
          Reading(trace[i]).value <= Reading(trace[j]).value)
  }

  /** The order in which the critical sections happened. */
  function Linearise(trace: Trace): Run {
    if |trace| == 0 then []
    else
      var front, last := trace[..|trace| - 1], trace[|trace| - 1];
      match last
      case Begin(_) => Linearise(front)
      case Commit =>
        var pending := Play(front).pending;
        if pending.None? then Linearise(front) else Linearise(front) + [Scan(pending.value)]
      case Packet(step) => Linearise(front) + [step]
  }

  /** Splitting the scan adds no behaviour beyond stale samples. */
  lemma {:induction false} LineariseIsFaithful(trace: Trace)
    ensures Play(trace).gateway == Exec(Linearise(trace))
  {
    if |trace| > 0 {
      var front := trace[..|trace| - 1];
      LineariseIsFaithful(front);
      var run, full := Linearise(front), Linearise(trace);
      if |full| != |run| {
        assert full[..|run|] == run;
      }
    }
  }

  /** A scan takes an entry from not offline to offline although its heartbeat was within the timeout. */
  predicate WronglyMarked(m: Machine, id: uint32)
    requires m.pending.Some?
  {
    var info := Entry(m.gateway.sensors, id);
    && info.health != Offline
    && Entry(Next(m, Commit).gateway.sensors, id).health == Offline
    && m.pending.value - info.heartbeatStamp <= HEARTBEAT_TIMEOUT
  }

  /**
   The guard that fails: an online sensor whose stamp is later than the pending sample. (The
   upper limit is reached only by a gap of 2^64 ms less the timeout.)
   */
  predicate Overtaken(m: Machine, id: uint32) {
    var info := Entry(m.gateway.sensors, id);
    && m.pending.Some? && info.health == Online
    && m.pending.value < info.heartbeatStamp < m.pending.value + TWO_TO_THE_64 - HEARTBEAT_TIMEOUT
  }

  /** Exactly when one locked scan is wrong about a sensor: its stamp overtook the sample. */
  lemma WronglyMarkedIffOvertaken(m: Machine, id: uint32)
    requires m.pending.Some?
    ensures WronglyMarked(m, id) <==> Overtaken(m, id)
  {
  }

  /** A pending sample was taken by a Begin after which only handlers ran. */
  lemma {:induction false} PendingBegin(trace: Trace) returns (b: int)
    requires Legal(trace) && Play(trace).pending.Some?
    ensures 0 <= b < |trace| && trace[b] == Begin(Play(trace).pending.value)
    ensures forall k :: b < k < |trace| ==> trace[k].Packet?
  {
    var n := |trace| - 1;
    var front := trace[..n];
    if trace[n].Begin? {
      b := n;
    } else {
      LegalPrefix(trace, n);
      b := PendingBegin(front);
    }
  }

  lemma LegalPrefix(trace: Trace, n: nat)
    requires Legal(trace) && n <= |trace|
    ensures Legal(trace[..n])
  {
    var front := trace[..n];
    forall i | 0 <= i < n
      ensures front[i] == trace[i] && front[..i] == trace[..i]
    {
    }
  }

  predicate HeartbeatAt(trace: Trace, k: int, id: uint32) {
    0 <= k < |trace| && trace[k].Packet? && trace[k].step.IsHeartbeatOf(id)
  }

  function LastHeartbeatEvent(trace: Trace, id: uint32): (j: int)
    ensures -1 <= j < |trace|
    ensures j >= 0 ==> HeartbeatAt(trace, j, id)
    ensures forall k :: j < k < |trace| ==> !HeartbeatAt(trace, k, id)
  {
    if |trace| == 0 then -1
    else if HeartbeatAt(trace, |trace| - 1, id) then |trace| - 1
    else
      var front := trace[..|trace| - 1];
      assert forall k :: 0 <= k < |front| ==> HeartbeatAt(front, k, id) == HeartbeatAt(trace, k, id);
      LastHeartbeatEvent(front, id)
  }

  /** The stored stamp is that of the last heartbeat event; without one the sensor is unknown. */
  lemma {:induction false} StampIsLastHeartbeat(trace: Trace, id: uint32)
    ensures var j, info := LastHeartbeatEvent(trace, id), Entry(Play(trace).gateway.sensors, id);
            if j < 0 then info.health == Unknown && info.heartbeatStamp == 0
            else info.heartbeatStamp == trace[j].step.at && info.health != Unknown
  {
    if |trace| > 0 {
      StampIsLastHeartbeat(trace[..|trace| - 1], id);
    }
  }

  lemma {:induction false} OnlineUntilNextScan(trace: Trace, id: uint32, n: nat)
    requires 0 <= LastHeartbeatEvent(trace, id) < n <= |trace|
    requires forall k :: LastHeartbeatEvent(trace, id) < k < |trace| ==> trace[k].Packet? && !trace[k].step.Scan?
    ensures Entry(Play(trace[..n]).gateway.sensors, id).health == Online
  {
    assert trace[..n][..n - 1] == trace[..n - 1];
    if n > LastHeartbeatEvent(trace, id) + 1 {
      OnlineUntilNextScan(trace, id, n - 1);
    }
  }

  /**
   In every legal interleaving, a scan that is about to commit marks a live sensor offline
   if and only if that sensor's last heartbeat was handled between the sample and the lock
   and stamped later than the sample. (The upper limit on the stamp is reached only by a gap
   of 2^64 ms less the timeout.)
   */
  lemma FalseOfflineIffHeartbeatInWindow(trace: Trace, id: uint32)
    requires Legal(trace) && Play(trace).pending.Some?
    ensures var sample, j := Play(trace).pending.value, LastHeartbeatEvent(trace, id);
            WronglyMarked(Play(trace), id) <==>
            exists b :: 0 <= b < j && trace[b] == Begin(sample)
              && (forall i :: b < i < |trace| ==> trace[i].Packet?)
              && sample < trace[j].step.at < sample + TWO_TO_THE_64 - HEARTBEAT_TIMEOUT
  {
    var j := LastHeartbeatEvent(trace, id);
    WronglyMarkedIffOvertaken(Play(trace), id);
    StampIsLastHeartbeat(trace, id);
    var b := PendingBegin(trace);
    assert 0 <= j < b ==> Reading(trace[j]).value <= Reading(trace[b]).value;
    assert trace[..|trace|] == trace;
    if b < j {
      OnlineUntilNextScan(trace, id, |trace|);
    }
  }

  /** Taking the sample under the lock would make every scan right. */
  lemma SampleUnderLockIsNeverWrong(trace: Trace, now: uint64, id: uint32)
    requires Legal(trace + [Begin(now)])
    ensures !WronglyMarked(Play(trace + [Begin(now)]), id)
  {
    var full := trace + [Begin(now)];
    assert full[..|trace|] == trace;
    var j := LastHeartbeatEvent(full, id);
    StampIsLastHeartbeat(full, id);
    if j >= 0 {
      assert Reading(full[j]).value <= Reading(full[|trace|]).value;
    }
    WronglyMarkedIffOvertaken(Play(full), id);
  }

  const OVERTAKEN: Trace := [
    Packet(Heartbeat(HeartbeatMessage(PacketHeader(HEARTBEAT, 1, 900)), 1000)),
    Begin(2000),
    Packet(Heartbeat(HeartbeatMessage(PacketHeader(HEARTBEAT, 1, 1900)), 2001))]

  /** A legal run in which a sensor heard from one millisecond ago is declared offline. */
  lemma OvertakenSampleWitness()
    ensures Legal(OVERTAKEN) && Play(OVERTAKEN).pending == Some(2000)
    ensures WronglyMarked(Play(OVERTAKEN), 1)
    ensures Entry(Play(OVERTAKEN + [Commit]).gateway.sensors, 1).health == Offline
  {
    var t := OVERTAKEN;
    assert t[..0] == [];
    assert t[..1] == [t[0]] && t[..1][..0] == [];
    assert t[..2][..1] == t[..1];
    assert t[..3] == t && t[..3][..2] == t[..2];
    assert Play(t[..1]) == Next(Play(t[..0]), t[0]);
    assert Play(t[..2]) == Next(Play(t[..1]), t[1]);
    assert Play(t) == Next(Play(t[..2]), t[2]);
    assert (t + [Commit])[..3] == t;
  }
}
