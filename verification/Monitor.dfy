/**
 Readers of the gateway: statistics assembled from four separate lock acquisitions, and the
 sorted list of sensor ids.
 */
module Monitor {
  import opened Protocol
  import opened GatewayModel
  import opened GatewayHistory

  datatype HealthCounts = HealthCounts(online: nat, offline: nat, unknown: nat)

  datatype SystemStats = SystemStats(
    totalSensors: nat, telemetryPackets: nat, heartbeatPackets: nat, health: HealthCounts)

  function WithHealth(m: Registry, h: Health): set<uint32> {
    set id | id in m && m[id].health == h
  }

  function Counts(m: Registry): HealthCounts {
    HealthCounts(|WithHealth(m, Online)|, |WithHealth(m, Offline)|, |WithHealth(m, Unknown)|)
  }

  /** The counts over the entries already visited. */
  ghost function CountsOutside(m: Registry, pending: set<uint32>): HealthCounts {
    HealthCounts(|WithHealth(m, Online) - pending|, |WithHealth(m, Offline) - pending|, |WithHealth(m, Unknown) - pending|)
  }

  lemma CountNone(m: Registry)
    ensures CountsOutside(m, m.Keys) == HealthCounts(0, 0, 0)
  {
    assert WithHealth(m, Online) - m.Keys == {};
    assert WithHealth(m, Offline) - m.Keys == {};
    assert WithHealth(m, Unknown) - m.Keys == {};
  }

  lemma CountAll(m: Registry)
    ensures CountsOutside(m, {}) == Counts(m)
  {
    assert WithHealth(m, Online) - {} == WithHealth(m, Online);
    assert WithHealth(m, Offline) - {} == WithHealth(m, Offline);
    assert WithHealth(m, Unknown) - {} == WithHealth(m, Unknown);
  }

  lemma CountOne(m: Registry, h: Health, pending: set<uint32>, id: uint32)
    requires id in pending && pending <= m.Keys
    ensures |WithHealth(m, h) - (pending - {id})| ==
            |WithHealth(m, h) - pending| + if m[id].health == h then 1 else 0
  {
    var before, after := WithHealth(m, h) - pending, WithHealth(m, h) - (pending - {id});
    if m[id].health == h {
      assert after == before + {id};
    } else {
      assert after == before;
    }
  }

  lemma CountNext(m: Registry, pending: set<uint32>, id: uint32)
    requires id in pending && pending <= m.Keys
    ensures var hc := CountsOutside(m, pending);
            CountsOutside(m, pending - {id}) ==
            match m[id].health
            case Online => hc.(online := hc.online + 1)
            case Offline => hc.(offline := hc.offline + 1)
            case Unknown => hc.(unknown := hc.unknown + 1)
  {
    CountOne(m, Online, pending, id);
    CountOne(m, Offline, pending, id);
    CountOne(m, Unknown, pending, id);
  }

  /** The counting loop over the unordered map, for every order of its entries. */
  method CountHealthSensors(m: Registry) returns (hc: HealthCounts)
    ensures hc == Counts(m)
  {
    hc := HealthCounts(0, 0, 0);
    var pending := m.Keys;
    CountNone(m);
    while pending != {}
      invariant pending <= m.Keys
      invariant hc == CountsOutside(m, pending)
      decreases pending
    {
      var id :| id in pending;
      CountNext(m, pending, id);
      pending := pending - {id};
      match m[id].health {
        case Online => hc := hc.(online := hc.online + 1);
        case Offline => hc := hc.(offline := hc.offline + 1);
        case Unknown => hc := hc.(unknown := hc.unknown + 1);
      }
    }
    CountAll(m);
  }

  /** The statistics put together from two registry snapshots and two counter reads. */
  function Stats(first: Registry, second: Registry, telemetry: uint64, heartbeats: uint64): SystemStats {
    SystemStats(|first|, telemetry, heartbeats, HealthCounts(Counts(second).online, Counts(second).offline, 0))
  }

  /** The arguments are what the four locked reads returned, in order; `unknown` keeps its default. */
  method GetStats(first: Registry, second: Registry, telemetry: uint64, heartbeats: uint64)
    returns (stats: SystemStats)
    ensures stats == Stats(first, second, telemetry, heartbeats)
  {
    var healthCount := CountHealthSensors(second);
    stats := SystemStats(0, 0, 0, HealthCounts(0, 0, 0));
    stats := stats.(totalSensors := |first|);
    stats := stats.(telemetryPackets := telemetry, heartbeatPackets := heartbeats);
    stats := stats.(health := stats.health.(online := healthCount.online));
    stats := stats.(health := stats.health.(offline := healthCount.offline));
  }

  // ---- counting over runs ----

  function TelemetryCount(run: Run): (n: nat)
    ensures n <= |run|
  {
    if |run| == 0 then 0
    else TelemetryCount(run[..|run| - 1]) + if run[|run| - 1].Telemetry? then 1 else 0
  }

  function HeartbeatCount(run: Run): (n: nat)
    ensures n <= |run|
  {
    if |run| == 0 then 0
    else HeartbeatCount(run[..|run| - 1]) + if run[|run| - 1].Heartbeat? then 1 else 0
  }

  lemma IncrementIsModular(n: nat)
    ensures Increment(n % TWO_TO_THE_64) == (n + 1) % TWO_TO_THE_64
  {
  }

  /** The counters count, modulo their width. */
  lemma {:induction false} CountersCount(run: Run)
    ensures Exec(run).telemetryPackets == TelemetryCount(run) % TWO_TO_THE_64
    ensures Exec(run).heartbeatPackets == HeartbeatCount(run) % TWO_TO_THE_64
  {
    if |run| > 0 {
      var front := run[..|run| - 1];
      CountersCount(front);
      IncrementIsModular(TelemetryCount(front));
      IncrementIsModular(HeartbeatCount(front));
    }
  }

  /** The sensors that have been heard from. */
  function Heard(m: Registry): set<uint32> {
    set id | id in m && m[id].health != Unknown
  }

  lemma DisjointSize(a: set<uint32>, b: set<uint32>)
    requires a !! b
    ensures |a + b| == |a| + |b|
  {
  }

  lemma HealthPartition(m: Registry)
    ensures |Heard(m)| == Counts(m).online + Counts(m).offline
    ensures |m| == Counts(m).online + Counts(m).offline + Counts(m).unknown
  {
    var on, off, un := WithHealth(m, Online), WithHealth(m, Offline), WithHealth(m, Unknown);
    assert Heard(m) == on + off && on !! off;
    assert m.Keys == Heard(m) + un && Heard(m) !! un;
    DisjointSize(on, off);
    DisjointSize(Heard(m), un);
    assert |m| == |m.Keys|;
  }

  lemma AtMostOneMore(a: set<uint32>, b: set<uint32>, id: uint32)
    requires b <= a + {id}
    ensures |b| <= |a| + 1
  {
    assert |a + {id}| <= |a| + 1;
    SubsetSize(b, a + {id});
  }

  lemma SubsetSize(a: set<uint32>, b: set<uint32>)
    requires a <= b
    ensures |a| <= |b|
  {
    assert b == a + (b - a);
  }

  function SenderOf(step: Step): uint32
    requires !step.Scan?
  {
    if step.Telemetry? then step.telemetry.header.sensorId else step.heartbeat.header.sensorId
  }

  /** A packet registers at most one sensor. */
  lemma StepRegisters(s: State, step: Step)
    ensures |Apply(s, step).sensors| <= |s.sensors| + if step.Scan? then 0 else 1
  {
    var keys, keys' := s.sensors.Keys, Apply(s, step).sensors.Keys;
    assert |s.sensors| == |keys| && |Apply(s, step).sensors| == |keys'|;
    if step.Scan? {
      assert keys' == keys;
    } else {
      AtMostOneMore(keys, keys', SenderOf(step));
    }
  }

  /** A heartbeat is heard from at most one sensor. */
  lemma StepHears(s: State, step: Step)
    ensures |Heard(Apply(s, step).sensors)| <= |Heard(s.sensors)| + if step.Heartbeat? then 1 else 0
  {
    var m, m' := s.sensors, Apply(s, step).sensors;
    if step.Heartbeat? {
      AtMostOneMore(Heard(m), Heard(m'), SenderOf(step));
    } else {
      assert Heard(m') == Heard(m);
    }
  }

  lemma {:induction false} SizeBounds(run: Run)
    ensures |Exec(run).sensors| <= TelemetryCount(run) + HeartbeatCount(run)
    ensures |Heard(Exec(run).sensors)| <= HeartbeatCount(run)
  {
    if |run| > 0 {
      SizeBounds(run[..|run| - 1]);
      StepRegisters(Exec(run[..|run| - 1]), run[|run| - 1]);
      StepHears(Exec(run[..|run| - 1]), run[|run| - 1]);
    }
  }

  /** Sensors are never forgotten and counts never go down. */
  lemma {:induction false} Growth(run: Run, i: nat, j: nat)
    requires i <= j <= |run|
    ensures Exec(run[..i]).sensors.Keys <= Exec(run[..j]).sensors.Keys
    ensures TelemetryCount(run[..i]) <= TelemetryCount(run[..j])
    ensures HeartbeatCount(run[..i]) <= HeartbeatCount(run[..j])
  {
    if i < j {
      Growth(run, i, j - 1);
      ExecStep(run, j - 1);
      assert run[..j][..j - 1] == run[..j - 1];
    }
  }

  // ---- torn statistics ----

  function TornStats(run: Run, i1: nat, i2: nat, i3: nat, i4: nat): SystemStats
    requires i1 <= i2 <= i3 <= i4 <= |run|
  {
    Stats(Exec(run[..i1]).sensors, Exec(run[..i2]).sensors,
          Exec(run[..i3]).telemetryPackets, Exec(run[..i4]).heartbeatPackets)
  }

  ghost function Senders(run: Run): set<uint32> {
    set k | 0 <= k < |run| && !run[k].Scan? :: SenderOf(run[k])
  }

  /** The sensors with a packet in the run. */
  ghost function SeenIds(run: Run): (ids: set<uint32>)
    ensures forall id: uint32 :: id in ids <==> Seen(run, id)
  {
    var ids := Senders(run);
    assert forall k :: 0 <= k < |run| && !run[k].Scan? ==> run[k].IsPacketOf(SenderOf(run[k]));
    ids
  }

  /** The sensors that have sent a heartbeat and whose last one has not expired. */
  ghost function OnlineIds(run: Run): (ids: set<uint32>)
    ensures forall id: uint32 :: id in ids <==> LastHeartbeat(run, id) >= 0 && !Expired(run, id)
  {
    set id | id in SeenIds(run) && LastHeartbeat(run, id) >= 0 && !Expired(run, id)
  }

  ghost function OfflineIds(run: Run): (ids: set<uint32>)
    ensures forall id: uint32 :: id in ids <==> Expired(run, id)
  {
    set id | id in SeenIds(run) && Expired(run, id)
  }

  function TelemetrySteps(run: Run): set<int> {
    set k | 0 <= k < |run| && run[k].Telemetry?
  }

  function HeartbeatSteps(run: Run): set<int> {
    set k | 0 <= k < |run| && run[k].Heartbeat?
  }

  lemma StepsGrow(run: Run)
    requires |run| > 0
    ensures var n := |run| - 1;
            && TelemetrySteps(run) == TelemetrySteps(run[..n]) + (if run[n].Telemetry? then {n} else {})
            && HeartbeatSteps(run) == HeartbeatSteps(run[..n]) + (if run[n].Heartbeat? then {n} else {})
            && n !in TelemetrySteps(run[..n]) && n !in HeartbeatSteps(run[..n])
  {
  }

  lemma {:induction false} CountsAreSizes(run: Run)
    ensures TelemetryCount(run) == |TelemetrySteps(run)| && HeartbeatCount(run) == |HeartbeatSteps(run)|
  {
    if |run| > 0 {
      CountsAreSizes(run[..|run| - 1]);
      StepsGrow(run);
    }
  }

  lemma RegistryIsHistory(run: Run)
    ensures Exec(run).sensors.Keys == SeenIds(run)
    ensures WithHealth(Exec(run).sensors, Online) == OnlineIds(run)
    ensures WithHealth(Exec(run).sensors, Offline) == OfflineIds(run)
  {
    var m := Exec(run).sensors;
    forall id: uint32
      ensures id in m <==> id in SeenIds(run)
      ensures id in WithHealth(m, Online) <==> id in OnlineIds(run)
      ensures id in WithHealth(m, Offline) <==> id in OfflineIds(run)
    {
      EntryIsHistory(run, id);
    }
  }

  /**
   What each field of the statistics means, whatever happens between the four reads: each is read
   off the part of the run before its own read.
   */
  lemma TornStatsAreExact(run: Run, i1: nat, i2: nat, i3: nat, i4: nat)
    requires i1 <= i2 <= i3 <= i4 <= |run|
    ensures var stats := TornStats(run, i1, i2, i3, i4);
            && stats.totalSensors == |SeenIds(run[..i1])|
            && stats.health.online == |OnlineIds(run[..i2])|
            && stats.health.offline == |OfflineIds(run[..i2])|
            && stats.health.unknown == 0
            && stats.telemetryPackets == |TelemetrySteps(run[..i3])| % TWO_TO_THE_64
            && stats.heartbeatPackets == |HeartbeatSteps(run[..i4])| % TWO_TO_THE_64
  {
    RegistryIsHistory(run[..i1]);
    RegistryIsHistory(run[..i2]);
    assert |Exec(run[..i1]).sensors| == |Exec(run[..i1]).sensors.Keys|;
    CountersCount(run[..i3]);
    CountersCount(run[..i4]);
    CountsAreSizes(run[..i3]);
    CountsAreSizes(run[..i4]);
  }

  /**
   Whatever happens between the four reads: every sensor counted in the total is in the later
   health snapshot and has sent a counted packet; every sensor counted online or offline has
   sent a counted heartbeat; and online plus offline exceeds the total by no more than the
   sensors that registered between the first two reads. (Up to counter wrap-around.)
   */
  lemma TornStatsBounds(run: Run, i1: nat, i2: nat, i3: nat, i4: nat)
    requires i1 <= i2 <= i3 <= i4 <= |run| < TWO_TO_THE_64
    ensures var stats := TornStats(run, i1, i2, i3, i4);
            var m1, m2 := Exec(run[..i1]).sensors, Exec(run[..i2]).sensors;
            && stats.totalSensors <= Counts(m2).online + Counts(m2).offline + Counts(m2).unknown
            && stats.totalSensors <= stats.telemetryPackets + stats.heartbeatPackets
            && stats.health.online + stats.health.offline <= stats.heartbeatPackets
            && stats.health.online + stats.health.offline <= stats.totalSensors + |m2.Keys - m1.Keys|
  {
    HealthPartition(Exec(run[..i2]).sensors);
    NewSensors(run, i1, i2);
    CounterReads(run, i3);
    CounterReads(run, i4);
    SizeBounds(run[..i1]);
    SizeBounds(run[..i2]);
    Growth(run, i1, i3);
    Growth(run, i1, i4);
    Growth(run, i2, i4);
  }

  lemma NewSensors(run: Run, i: nat, j: nat)
    requires i <= j <= |run|
    ensures var m1, m2 := Exec(run[..i]).sensors, Exec(run[..j]).sensors;
            |m2| == |m1| + |m2.Keys - m1.Keys|
  {
    var m1, m2 := Exec(run[..i]).sensors, Exec(run[..j]).sensors;
    Growth(run, i, j);
    assert m2.Keys == m1.Keys + (m2.Keys - m1.Keys);
    assert |m1| == |m1.Keys| && |m2| == |m2.Keys|;
  }

  lemma CounterReads(run: Run, i: nat)
    requires i <= |run| < TWO_TO_THE_64
    ensures Exec(run[..i]).telemetryPackets == TelemetryCount(run[..i])
    ensures Exec(run[..i]).heartbeatPackets == HeartbeatCount(run[..i])
  {
    CountersCount(run[..i]);
  }

  lemma {:induction false} NoHeartbeatNoNews(before: Run, between: Run)
    requires forall k :: 0 <= k < |between| ==> !between[k].Heartbeat?
    ensures |Heard(Exec(before + between).sensors)| <= |Heard(Exec(before).sensors)|
  {
    if |between| == 0 {
      assert before + between == before;
    } else {
      var n := |between| - 1;
      NoHeartbeatNoNews(before, between[..n]);
      assert (before + between)[..|before| + n] == before + between[..n];
      StepHears(Exec(before + between[..n]), between[n]);
    }
  }

  /** Read before and after the steps in between, online plus offline is within the total. */
  predicate HealthFits(before: Run, between: Run) {
    var counts := Counts(Exec(before + between).sensors);
    counts.online + counts.offline <= |Exec(before).sensors|
  }

  lemma QuietHealthFits(before: Run, between: Run)
    requires forall k :: 0 <= k < |between| ==> !between[k].Heartbeat?
    ensures HealthFits(before, between)
  {
    NoHeartbeatNoNews(before, between);
    HealthPartition(Exec(before + between).sensors);
    HealthPartition(Exec(before).sensors);
  }

  /** On a fresh gateway any heartbeat in between is one sensor too many. */
  lemma HeartbeatBreaksFit(between: Run, k: nat)
    requires k < |between| && between[k].Heartbeat?
    ensures !HealthFits([], between)
  {
    var id, m := SenderOf(between[k]), Exec(between).sensors;
    assert [] + between == between;
    assert between[k].IsPacketOf(id);
    EntryIsHistory(between, id);
    HealthPartition(m);
    assert id in Heard(m);
  }

  /**
   The exact guarantee: whatever the gateway did before, online plus offline is within the
   total if and only if no heartbeat is handled between the first two reads.
   */
  lemma TornHealthWithinTotalIffNoHeartbeat(between: Run)
    ensures (forall before: Run :: HealthFits(before, between)) <==>
            forall k :: 0 <= k < |between| ==> !between[k].Heartbeat?
  {
    if k :| 0 <= k < |between| && between[k].Heartbeat? {
      HeartbeatBreaksFit(between, k);
    } else {
      forall before: Run ensures HealthFits(before, between) {
        QuietHealthFits(before, between);
      }
    }
  }

  /** One intervening heartbeat is enough to show more online sensors than sensors. */
  lemma TornStatsWitness(msg: HeartbeatMessage, at: uint64)
    ensures var stats := TornStats([Heartbeat(msg, at)], 0, 1, 1, 1);
            stats.totalSensors == 0 && stats.health.online == 1
  {
    var run := [Heartbeat(msg, at)];
    assert run[..1] == run && run[..0] == [];
    ExecStep(run, 0);
    assert WithHealth(Exec(run).sensors, Online) == {msg.header.sensorId};
  }

  /**
   The statistics leave `unknown` at 0, so even without interleaving the health counts add up
   to the total if and only if every registered sensor has sent a heartbeat.
   */
  lemma HealthAddsUpIffAllHeard(run: Run)
    ensures var m := Exec(run).sensors;
            var stats := Stats(m, m, Exec(run).telemetryPackets, Exec(run).heartbeatPackets);
            stats.health.online + stats.health.offline + stats.health.unknown == stats.totalSensors <==>
            forall id :: id in m ==> LastHeartbeat(run, id) >= 0
  {
    var m := Exec(run).sensors;
    HealthPartition(m);
    forall id: uint32 | id in m
      ensures LastHeartbeat(run, id) >= 0 <==> id !in WithHealth(m, Unknown)
    {
      EntryIsHistory(run, id);
    }
    if Counts(m).unknown == 0 {
      assert WithHealth(m, Unknown) == {};
    } else {
      var id :| id in WithHealth(m, Unknown);
    }
  }

  // ---- the sensor list ----

  predicate Sorted(ids: seq<uint32>) {
    forall i, j :: 0 <= i < j < |ids| ==> ids[i] <= ids[j]
  }

  predicate Ascending(ids: seq<uint32>) {
    forall i, j :: 0 <= i < j < |ids| ==> ids[i] < ids[j]
  }

  lemma InsertKeepsSorted(x: uint32, s: seq<uint32>, k: nat)
    requires Sorted(s) && k <= |s|
    requires k < |s| ==> x <= s[k]
    requires k > 0 ==> s[k - 1] <= x
    ensures Sorted(s[..k] + [x] + s[k..])
  {
    var r := s[..k] + [x] + s[k..];
    forall i, j | 0 <= i < j < |r|
      ensures r[i] <= r[j]
    {
      assert r[i] == if i < k then s[i] else if i == k then x else s[i - 1];
      assert r[j] == if j < k then s[j] else if j == k then x else s[j - 1];
    }
  }

  lemma InsertAddsOne(x: uint32, s: seq<uint32>, k: nat)
    requires k <= |s|
    ensures multiset(s[..k] + [x] + s[k..]) == multiset(s) + multiset{x}
  {
    assert s == s[..k] + s[k..];
  }

  method Insert(x: uint32, s: seq<uint32>) returns (r: seq<uint32>)
    requires Sorted(s)
    ensures Sorted(r) && multiset(r) == multiset(s) + multiset{x}
  {
    var k := |s|;
    while k > 0 && x < s[k - 1]
      invariant 0 <= k <= |s|
      invariant k < |s| ==> x <= s[k]
    {
      k := k - 1;
    }
    InsertKeepsSorted(x, s, k);
    InsertAddsOne(x, s, k);
    r := s[..k] + [x] + s[k..];
  }

  /** Stands for the library sort. */
  method Sort(ids: seq<uint32>) returns (sorted: seq<uint32>)
    ensures Sorted(sorted) && multiset(sorted) == multiset(ids)
  {
    sorted := [];
    for i := 0 to |ids|
      invariant Sorted(sorted) && multiset(sorted) == multiset(ids[..i])
    {
      assert ids[..i + 1] == ids[..i] + [ids[i]];
      sorted := Insert(ids[i], sorted);
    }
    assert ids[..|ids|] == ids;
  }

  /** The ids in the list: every registered sensor exactly once, in ascending order. */
  method ListIds(m: Registry) returns (ids: seq<uint32>)
    ensures Ascending(ids)
    ensures forall id: uint32 :: id in ids <==> id in m
  {
    var collected: seq<uint32> := [];
    var pending := m.Keys;
    while pending != {}
      invariant pending <= m.Keys
      invariant multiset(collected) == multiset(m.Keys - pending)
      decreases pending
    {
      var id :| id in pending;
      assert m.Keys - (pending - {id}) == (m.Keys - pending) + {id};
      pending := pending - {id};
      collected := collected + [id];
    }
    assert m.Keys - {} == m.Keys;
    ids := Sort(collected);
    NoRepeats(ids, m.Keys);
    forall id: uint32
      ensures id in ids <==> id in m
    {
      assert id in ids <==> id in multiset(ids);
    }
  }

  lemma TwoOccurrences(ids: seq<uint32>, i: nat, j: nat)
    requires i < j < |ids| && ids[i] == ids[j]
    ensures multiset(ids)[ids[i]] >= 2
  {
    assert ids == ids[..j] + [ids[j]] + ids[j + 1..];
    assert ids[i] in multiset(ids[..j]) by {
      assert ids[..j][i] == ids[i];
    }
  }

  lemma NoRepeats(ids: seq<uint32>, keys: set<uint32>)
    requires Sorted(ids) && multiset(ids) == multiset(keys)
    ensures Ascending(ids)
  {
    forall i, j | 0 <= i < j < |ids|
      ensures ids[i] < ids[j]
    {
      if ids[i] == ids[j] {
        TwoOccurrences(ids, i, j);
      }
    }
  }

  /** So the list is determined by the registry, whatever order the map is walked in. */
  lemma {:induction false} ListIsUnique(a: seq<uint32>, b: seq<uint32>)
    requires Ascending(a) && Ascending(b)
    requires forall id: uint32 :: id in a <==> id in b
    ensures a == b
  {
    assert |a| > 0 ==> a[0] in a;
    assert |b| > 0 ==> b[0] in b;
    if |a| > 0 && |b| > 0 {
      var x, y := a[|a| - 1], b[|b| - 1];
      assert x in b && y in a;
      assert x == y;
      var a', b' := a[..|a| - 1], b[..|b| - 1];
      forall id: uint32
        ensures id in a' <==> id in b'
      {
        assert id in a' <==> id in a && id != x;
        assert id in b' <==> id in b && id != y;
      }
      ListIsUnique(a', b');
    }
  }
}
