/**
 Exactly which gateway runs the split watchdog can produce.

 A scan's sample may be older than packets handled since the scan before it, but not older
 than that scan or anything before it; packets obey the clock.
 */
module WatchdogRuns {
  import opened Protocol
  import opened GatewayModel
  import opened Watchdog
  import opened WatchdogTiming

  /** The latest time in the run. */
  function Newest(run: Run): nat {
    if |run| == 0 then 0
    else
      var before, t := Newest(run[..|run| - 1]), run[|run| - 1].Time();
      if t > before then t else before
  }

  /** The latest time in the run up to its last scan. */
  function Settled(run: Run): nat {
    if |run| == 0 then 0
    else if run[|run| - 1].Scan? then Newest(run)
    else Settled(run[..|run| - 1])
  }

  predicate Admissible(run: Run) {
    |run| == 0 ||
    var front, last := run[..|run| - 1], run[|run| - 1];
    && Admissible(front) && 0 < last.Time()
    && (if last.Scan? then Settled(front) else Newest(front)) <= last.Time()
  }

  // ---- every trace gives an admissible run ----

  lemma AppendStep(run: Run, step: Step)
    requires Admissible(run) && 0 < step.Time()
    requires (if step.Scan? then Settled(run) else Newest(run)) <= step.Time()
    ensures Admissible(run + [step])
    ensures Newest(run + [step]) == if step.Time() > Newest(run) then step.Time() else Newest(run)
    ensures !step.Scan? ==> Settled(run + [step]) == Settled(run)
  {
    assert (run + [step])[..|run|] == run;
  }

  lemma {:induction false} SettledIsOlder(run: Run)
    ensures Settled(run) <= Newest(run)
  {
    if |run| > 0 {
      SettledIsOlder(run[..|run| - 1]);
    }
  }

  lemma {:induction false} TraceIsAdmissible(trace: Trace, bound: nat)
    requires Legal(trace) && ReadingsUpTo(trace, bound)
    ensures var run, pending := Linearise(trace), Play(trace).pending;
            && Admissible(run) && Newest(run) <= bound
            && (pending.Some? ==> 0 < pending.value <= bound && Settled(run) <= pending.value)
  {
    if |trace| > 0 {
      var n := |trace| - 1;
      var front, e := trace[..n], trace[n];
      LegalPrefix(trace, n);
      ReadingsPrefix(trace, n, bound);
      var run := Linearise(front);
      if e.Commit? {
        TraceIsAdmissible(front, bound);
        AppendStep(run, Scan(Play(front).pending.value));
      } else {
        TraceIsAdmissible(front, Reading(e).value);
        if e.Packet? {
          AppendStep(run, e.step);
        } else {
          SettledIsOlder(run);
        }
      }
    }
  }

  // ---- every admissible run comes from a trace ----

  /** An event may be appended when no reading is later, and Begin and Commit alternate. */
  lemma AppendEvent(trace: Trace, e: Event)
    requires Legal(trace)
    requires e.Begin? ==> Play(trace).pending.None?
    requires e.Commit? ==> Play(trace).pending.Some?
    requires e.Packet? ==> !e.step.Scan?
    requires !e.Commit? ==> 0 < Reading(e).value && ReadingsUpTo(trace, Reading(e).value)
    ensures Legal(trace + [e]) && Play(trace + [e]) == Next(Play(trace), e)
    ensures Linearise(trace + [e]) ==
            Linearise(trace) + match e
                               case Begin(_) => []
                               case Commit => [Scan(Play(trace).pending.value)]
                               case Packet(step) => [step]
  {
    var longer := trace + [e];
    assert longer[..|trace|] == trace;
    forall i | 0 <= i < |trace|
      ensures longer[i] == trace[i] && longer[..i] == trace[..i]
    {
    }
  }

  /** The latest reading needed to make the run and leave the given sample pending. */
  function Latest(run: Run, pending: Option<uint64>): nat {
    if pending.Some? && pending.value > Newest(run) then pending.value else Newest(run)
  }

  /**
   A trace that makes the run and ends with the given sample pending, or none. A Begin goes
   directly before the first packet with a later stamp.
   */
  lemma {:induction false} Interleave(run: Run, pending: Option<uint64>) returns (trace: Trace)
    requires Admissible(run)
    requires pending.Some? ==> 0 < pending.value && Settled(run) <= pending.value
    ensures Legal(trace) && Linearise(trace) == run && Play(trace).pending == pending
    ensures ReadingsUpTo(trace, Latest(run, pending))
    decreases |run|, pending.Some?
  {
    if pending.Some? && Newest(run) <= pending.value {
      trace := Interleave(run, None);
      AppendEvent(trace, Begin(pending.value));
      trace := trace + [Begin(pending.value)];
    } else if |run| == 0 {
      trace := [];
    } else {
      var front, last := run[..|run| - 1], run[|run| - 1];
      assert run == front + [last];
      if last.Scan? {
        trace := Interleave(front, Some(last.sample));
        AppendEvent(trace, Commit);
        trace := trace + [Commit];
      } else {
        trace := Interleave(front, pending);
        AppendEvent(trace, Packet(last));
        trace := trace + [Packet(last)];
      }
    }
  }

  ghost predicate Produces(trace: Trace, run: Run) {
    Legal(trace) && Play(trace).pending.None? && Linearise(trace) == run
  }

  /** The runs that interleavings of the split watchdog amount to are the admissible ones. */
  lemma SplitRunsAreAdmissible(run: Run)
    ensures Admissible(run) <==> exists trace :: Produces(trace, run)
  {
    if Admissible(run) {
      var trace := Interleave(run, None);
      assert Produces(trace, run);
    } else if trace :| Produces(trace, run) {
      TraceIsAdmissible(trace, TWO_TO_THE_64);
    }
  }

  /** So the split watchdog reaches exactly the gateway states of the admissible runs. */
  lemma SplitStatesAreAdmissible(s: State)
    ensures (exists trace :: Legal(trace) && Play(trace).pending.None? && Play(trace).gateway == s) <==>
            (exists run :: Admissible(run) && Exec(run) == s)
  {
    if trace :| Legal(trace) && Play(trace).pending.None? && Play(trace).gateway == s {
      LineariseIsFaithful(trace);
      TraceIsAdmissible(trace, TWO_TO_THE_64);
    }
    if run :| Admissible(run) && Exec(run) == s {
      var trace := Interleave(run, None);
      LineariseIsFaithful(trace);
    }
  }
}
