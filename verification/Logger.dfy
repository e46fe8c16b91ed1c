/**
 The asynchronous logger: producers, one worker thread and `stop`, over a mutex, a condition
 variable and an atomic flag.

 `Logger` is the object and its critical sections. `Play` interleaves those sections with
 explicit positions for the worker and for `stop`, at the granularity at which another thread
 can get in between: the flag is read and written without the mutex, and notifications are
 sent outside it. One start and one stop are modelled.
 */
module Logger {
  import opened Protocol

  const MAX_HISTORY: nat := 15

  function Line(msg: string, time: string): string {
    "[" + time + "] " + msg
  }

  /** The last `MAX_HISTORY` elements. */
  function Recent(lines: seq<string>): seq<string> {
    if |lines| <= MAX_HISTORY then lines else lines[|lines| - MAX_HISTORY..]
  }

  class Logger {
    var queue: seq<string>
    var history: seq<string>
    var running: bool

    ghost predicate Valid()
      reads this
    {
      |history| <= MAX_HISTORY
    }

    /** The object holds the shared part of a protocol state. */
    ghost predicate Shows(s: State)
      reads this
    {
      s.queue == queue && s.history == history && s.running == running
    }

    constructor ()
      ensures Valid() && Shows(FRESH)
    {
      queue, history, running := [], [], false;
    }

    /** The flag write of `start`, which then creates the worker. */
    method Start()
      modifies this
      ensures running && queue == old(queue) && history == old(history)
      ensures forall s: State :: old(Shows(s)) ==> Shows(Next(s, Event.Start))
    {
      running := true;
    }

    /** The flag write of `stop`, made without the mutex. */
    method ClearFlag()
      modifies this
      ensures !running && queue == old(queue) && history == old(history)
      ensures forall s: State :: old(Shows(s)) ==> Shows(Next(s, Event.ClearFlag))
    {
      running := false;
    }

    /** The critical section of `log`. */
    method Log(msg: string, time: string)
      requires Valid()
      modifies this
      ensures Valid() && queue == old(queue) + [msg] && running == old(running)
      ensures history == Recent(old(history) + [Line(msg, time)])
      ensures |history| == (if |old(history)| < 15 then |old(history)| + 1 else 15)
      ensures history[|history| - 1] == "[" + time + "] " + msg
      ensures forall i :: 0 <= i < |history| - 1 ==> history[i] == old(history)[|old(history)| - |history| + 1 + i]
      ensures forall s: State :: old(Shows(s)) ==> Shows(Next(s, Event.Log(msg, time)))
    {
      queue := queue + [msg];
      history := history + [Line(msg, time)];
      if |history| > MAX_HISTORY {
        history := history[1..];
      }
    }

    /** The worker's inner loop, run while holding the mutex: its own steps until the queue is empty. */
    method Drain() returns (popped: seq<string>)
      modifies this
      ensures queue == [] && popped == old(queue)
      ensures history == old(history) && running == old(running)
      ensures forall s: State :: old(Shows(s)) && s.worker == Draining ==> Shows(WorkAlone(s, |s.queue|))
    {
      popped := [];
      while queue != []
        invariant popped + queue == old(queue)
        invariant history == old(history) && running == old(running)
        decreases |queue|
      {
        popped := popped + [queue[0]];
        queue := queue[1..];
      }
      forall s: State | old(Shows(s)) && s.worker == Draining
        ensures Shows(WorkAlone(s, |s.queue|))
      {
        DrainAlone(s);
      }
    }
  }

  // ---- the protocol ----

  /**
   Where the worker is: about to test the flag; about to lock; holding the lock and about to
   evaluate the wait predicate; holding the lock with the predicate found false; asleep;
   notified and about to lock; holding the lock and popping.
   */
  datatype Worker = NotStarted | Test | Lock | Check | Park | Blocked | Wake | Draining | Exited

  /** Progress of `stop`: not called, flag cleared, notified, returned. */
  datatype Stopper = Idle | Cleared | Notified | Joined

  datatype State = State(
    queue: seq<string>, history: seq<string>, running: bool, worker: Worker, stopper: Stopper, notifies: nat)

  const FRESH := State([], [], false, NotStarted, Idle, 0)

  datatype Event =
    | Start
    | Log(msg: string, time: string)
    | NotifyOne
    | Spurious
    | ClearFlag
    | NotifyAll
    | Join
    | Work

  type Trace = seq<Event>

  predicate HoldsLock(w: Worker) {
    w == Check || w == Park || w == Draining
  }

  predicate Enabled(s: State, e: Event) {
    match e
    case Start => s.worker == NotStarted
    case Log(_, _) => !HoldsLock(s.worker)
    case NotifyOne => s.notifies > 0
    case Spurious => s.worker == Blocked
    case ClearFlag => s.stopper == Idle && s.worker != NotStarted
    case NotifyAll => s.stopper == Cleared
    case Join => s.stopper == Notified && s.worker == Exited
    case Work => s.worker !in {NotStarted, Blocked, Exited}
  }

  function Notify(w: Worker): Worker {
    if w == Blocked then Wake else w
  }

  function WorkStep(s: State): State {
    match s.worker
    case Test => s.(worker := if s.running then Lock else Exited)
    case Lock => s.(worker := Check)
    case Check => s.(worker := if s.queue != [] || !s.running then Draining else Park)
    case Park => s.(worker := Blocked)
    case Wake => s.(worker := Check)
    case Draining => if s.queue == [] then s.(worker := Test) else s.(queue := s.queue[1..])
    case _ => s
  }

  function Next(s: State, e: Event): State {
    match e
    case Start => s.(running := true, worker := Test)
    case Log(msg, time) =>
      s.(queue := s.queue + [msg], history := Recent(s.history + [Line(msg, time)]), notifies := s.notifies + 1)
    case NotifyOne => s.(notifies := if s.notifies > 0 then s.notifies - 1 else 0, worker := Notify(s.worker))
    case Spurious => s.(worker := Notify(s.worker))
    case ClearFlag => s.(running := false, stopper := Cleared)
    case NotifyAll => s.(stopper := Notified, worker := Notify(s.worker))
    case Join => s.(stopper := Joined)
    case Work => WorkStep(s)
  }

  // ---- runs, with observers ----

  /** What an observer of the run has noted when `stop` cleared the flag. */
  datatype Snapshot = Snapshot(worker: Worker, queue: seq<string>, logged: seq<string>, popped: seq<string>)

  /**
   The state, together with observers that the program does not have: everything logged
   (plain and as history lines) and popped so far, what was logged since the worker last
   finished a drain, the snapshot at the clearing of the flag, and the worker's position when
   `stop` notified.
   */
  datatype Machine = Machine(
    s: State,
    logged: seq<string>,
    lines: seq<string>,
    popped: seq<string>,
    sinceDrain: seq<string>,
    atClear: Option<Snapshot>,
    atNotify: Option<Worker>)

  const INITIAL := Machine(FRESH, [], [], [], [], None, None)

  function Observe(m: Machine, e: Event): Machine {
    var next := m.(s := Next(m.s, e));
    match e
    case Log(msg, time) =>
      next.(logged := m.logged + [msg], lines := m.lines + [Line(msg, time)], sinceDrain := m.sinceDrain + [msg])
    case ClearFlag => next.(atClear := Some(Snapshot(m.s.worker, m.s.queue, m.logged, m.popped)))
    case NotifyAll => next.(atNotify := Some(m.s.worker))
    case Work =>
      if m.s.worker != Draining then next
      else if m.s.queue == [] then next.(sinceDrain := [])
      else next.(popped := m.popped + [m.s.queue[0]])
    case _ => next
  }

  function Play(trace: Trace): Machine {
    if |trace| == 0 then INITIAL else Observe(Play(trace[..|trace| - 1]), trace[|trace| - 1])
  }

  predicate Legal(trace: Trace) {
    |trace| == 0 || (Legal(trace[..|trace| - 1]) && Enabled(Play(trace[..|trace| - 1]).s, trace[|trace| - 1]))
  }

  // ---- invariants ----

  ghost predicate DataInvariant(m: Machine) {
    && m.popped + m.s.queue == m.logged
    && m.s.history == Recent(m.lines)
    && (m.s.worker != Draining ==> m.s.queue == m.sinceDrain)
  }

  ghost predicate FlagInvariant(m: Machine) {
    && (m.s.stopper == Idle <==> m.atClear.None?)
    && (m.s.stopper in {Notified, Joined} <==> m.atNotify.Some?)
    && (m.s.worker == NotStarted ==> !m.s.running)
    && (m.atClear.None? ==> m.s.worker != Exited && (m.s.worker != NotStarted ==> m.s.running))
    && (m.atClear.Some? ==> !m.s.running && m.s.worker != NotStarted)
    && (m.atNotify.Some? && m.s.worker in {Park, Blocked} ==> m.atNotify.value == Park)
  }

  ghost predicate StopInvariant(m: Machine) {
    m.atClear.Some? ==>
      var c := m.atClear.value;
      && c.logged <= m.logged
      && c.popped + c.queue == c.logged
      && (if c.worker == Test
          then m.s.worker in {Test, Exited} && m.popped == c.popped
          else m.s.worker !in {Test, Exited} || |m.popped| >= |c.logged|)
  }

  lemma RecentAppend(lines: seq<string>, line: string)
    ensures Recent(Recent(lines) + [line]) == Recent(lines + [line])
  {
  }

  lemma DataKept(m: Machine, e: Event)
    requires DataInvariant(m) && Enabled(m.s, e)
    ensures DataInvariant(Observe(m, e))
  {
    match e
    case Log(msg, time) =>
      RecentAppend(m.lines, Line(msg, time));
      assert m.popped + (m.s.queue + [msg]) == m.popped + m.s.queue + [msg];
    case Work =>
      if m.s.worker == Draining && m.s.queue != [] {
        assert m.popped + [m.s.queue[0]] + m.s.queue[1..] == m.popped + m.s.queue;
      }
    case _ =>
  }

  lemma FlagKept(m: Machine, e: Event)
    requires FlagInvariant(m) && Enabled(m.s, e)
    ensures FlagInvariant(Observe(m, e))
  {
  }

  lemma StopKept(m: Machine, e: Event)
    requires DataInvariant(m) && FlagInvariant(m) && StopInvariant(m) && Enabled(m.s, e)
    ensures StopInvariant(Observe(m, e))
  {
  }

  lemma {:induction false} InvariantsHold(trace: Trace)
    requires Legal(trace)
    ensures DataInvariant(Play(trace)) && FlagInvariant(Play(trace)) && StopInvariant(Play(trace))
  {
    if |trace| > 0 {
      var front, e := trace[..|trace| - 1], trace[|trace| - 1];
      InvariantsHold(front);
      DataKept(Play(front), e);
      FlagKept(Play(front), e);
      StopKept(Play(front), e);
    }
  }

  /** The calls of `log` in a trace, in order. */
  function LogCalls(trace: Trace): (calls: seq<Event>)
    ensures forall i :: 0 <= i < |calls| ==> calls[i].Log?
  {
    if |trace| == 0 then []
    else LogCalls(trace[..|trace| - 1]) + if trace[|trace| - 1].Log? then [trace[|trace| - 1]] else []
  }

  lemma {:induction false} CallsAreObserved(trace: Trace)
    ensures var m, calls := Play(trace), LogCalls(trace);
            && |m.logged| == |m.lines| == |calls|
            && (forall i :: 0 <= i < |calls| ==> m.logged[i] == calls[i].msg)
            && (forall i :: 0 <= i < |calls| ==> m.lines[i] == "[" + calls[i].time + "] " + calls[i].msg)
  {
    if |trace| > 0 {
      CallsAreObserved(trace[..|trace| - 1]);
    }
  }

  /**
   In every reachable state, what was popped followed by what is queued is the messages of all
   calls of `log`, in order.
   */
  lemma MessagesAreConserved(trace: Trace)
    requires Legal(trace)
    ensures var m, calls := Play(trace), LogCalls(trace);
            && m.popped + m.s.queue == m.logged && |m.logged| == |calls|
            && (forall i :: 0 <= i < |calls| ==> m.logged[i] == calls[i].msg)
            && m.s.history == Recent(m.lines)
  {
    InvariantsHold(trace);
    CallsAreObserved(trace);
  }

  lemma RecentAt(lines: seq<string>)
    ensures var r := Recent(lines);
            && |r| == (if |lines| < 15 then |lines| else 15)
            && forall i :: 0 <= i < |r| ==> r[i] == lines[|lines| - |r| + i]
  {
  }

  /** In every reachable state, the history is the lines of the last fifteen calls, in order. */
  lemma HistoryIsLastFifteen(trace: Trace)
    requires Legal(trace)
    ensures var h, calls := Play(trace).s.history, LogCalls(trace);
            && |h| == (if |calls| < 15 then |calls| else 15)
            && forall i :: 0 <= i < |h| ==>
                 var call := calls[|calls| - |h| + i];
                 h[i] == "[" + call.time + "] " + call.msg
  {
    InvariantsHold(trace);
    CallsAreObserved(trace);
    var lines, calls := Play(trace).lines, LogCalls(trace);
    RecentAt(lines);
    var h := Recent(lines);
    forall i | 0 <= i < |h|
      ensures var call := calls[|calls| - |h| + i];
              h[i] == "[" + call.time + "] " + call.msg
    {
      assert h[i] == lines[|lines| - |h| + i];
    }
  }

  // ---- while running: every message is consumed ----

  /** The worker goes to sleep on an empty queue only, and no message finds it asleep without a notification to come. */
  ghost predicate WakeInvariant(s: State) {
    && (s.worker == Park ==> s.queue == [])
    && (s.worker == Blocked && s.queue != [] ==> s.notifies > 0)
  }

  lemma WakeKept(s: State, e: Event)
    requires WakeInvariant(s) && Enabled(s, e)
    ensures WakeInvariant(Next(s, e))
  {
  }

  lemma {:induction false} SleeperIsNotified(trace: Trace)
    requires Legal(trace)
    ensures WakeInvariant(Play(trace).s)
  {
    if |trace| > 0 {
      SleeperIsNotified(trace[..|trace| - 1]);
      WakeKept(Play(trace[..|trace| - 1]).s, trace[|trace| - 1]);
    }
  }

  /** The worker will take the lock and drain before it looks at the flag or sleeps on a queue with messages. */
  predicate WillDrain(s: State) {
    s.worker in {Lock, Check, Wake, Draining} || (s.worker == Test && s.running)
  }

  /** Steps left until the queue is empty. */
  function StepsToDrain(s: State): nat {
    match s.worker
    case Draining => |s.queue|
    case Check => |s.queue| + 1
    case Test => |s.queue| + 3
    case _ => |s.queue| + 2
  }

  lemma {:induction false} WorkerDrains(s: State)
    requires WillDrain(s) && s.queue != []
    ensures WorkAlone(s, StepsToDrain(s)).queue == []
    decreases StepsToDrain(s)
  {
    var next := WorkStep(s);
    assert StepsToDrain(next) == StepsToDrain(s) - 1;
    if next.queue == [] {
      DrainAlone(next);
    } else {
      WorkerDrains(next);
    }
  }

  lemma {:induction false} IdleWorkerKeepsQueue(s: State, n: nat)
    requires s.worker in {NotStarted, Blocked, Exited} || (s.worker == Test && !s.running)
    ensures WorkAlone(s, n).queue == s.queue
    decreases n
  {
    if n > 0 {
      IdleWorkerKeepsQueue(WorkStep(s), n - 1);
    }
  }

  /**
   In every reachable state with queued messages, the worker on its own consumes them all if and
   only if it is awake and not about to find the flag cleared. If it is asleep, a notification is
   still to come, and after that it consumes them.
   */
  lemma QueueIsDrainedIffAwake(trace: Trace)
    requires Legal(trace) && Play(trace).s.queue != []
    ensures var s := Play(trace).s;
            && ((exists n: nat :: WorkAlone(s, n).queue == []) <==> WillDrain(s))
            && (s.worker == Blocked ==>
                  Enabled(s, NotifyOne) && exists n: nat :: WorkAlone(Next(s, NotifyOne), n).queue == [])
  {
    var s := Play(trace).s;
    SleeperIsNotified(trace);
    if WillDrain(s) {
      WorkerDrains(s);
    } else {
      forall n: nat ensures WorkAlone(s, n).queue != [] {
        IdleWorkerKeepsQueue(s, n);
      }
    }
    if s.worker == Blocked {
      WorkerDrains(Next(s, NotifyOne));
    }
  }

  lemma WakesAndDrains(s: State)
    requires WakeInvariant(s) && s.queue != [] && s.running && s.worker !in {NotStarted, Exited}
    ensures WillDrain(s) || (Enabled(s, NotifyOne) && WillDrain(Next(s, NotifyOne)))
  {
  }

  /** So while the logger runs, no message is stuck. */
  lemma NoMessageIsStuck(trace: Trace)
    requires Legal(trace) && Play(trace).s.running && Play(trace).s.queue != []
    ensures var s := Play(trace).s;
            WillDrain(s) || (Enabled(s, NotifyOne) && WillDrain(Next(s, NotifyOne)))
  {
    SleeperIsNotified(trace);
    InvariantsHold(trace);
    WakesAndDrains(Play(trace).s);
  }

  // ---- shutdown: which messages are lost ----

  /**
   The promise made for `stop`, that all queued messages have been consumed when it returns,
   holds if and only if nothing was logged after the worker's last drain; what is left is
   exactly that.
   */
  lemma AllConsumedIffQuietSinceDrain(trace: Trace)
    requires Legal(trace) && Play(trace).s.worker == Exited
    ensures var m := Play(trace);
            && m.s.queue == m.sinceDrain
            && (m.popped == m.logged <==> m.sinceDrain == [])
  {
    InvariantsHold(trace);
  }

  /**
   What `stop` does to the messages logged before it was called, decided at the call: they are
   all consumed before the worker exits if and only if the worker was not just about to test
   the flag, or nothing was queued.
   */
  lemma StopFlushesIffNotAtTest(trace: Trace)
    requires Legal(trace) && Play(trace).s.worker == Exited
    ensures var m := Play(trace);
            && m.atClear.Some?
            && (m.atClear.value.logged <= m.popped <==>
                m.atClear.value.worker != Test || m.atClear.value.queue == [])
  {
    InvariantsHold(trace);
    var m := Play(trace);
    var c := m.atClear.value;
    if c.worker != Test {
      assert m.popped <= m.logged && c.logged <= m.logged;
    }
  }

  // ---- shutdown: the missed notification ----

  /** The worker running on its own, nothing else happening. */
  function WorkAlone(s: State, n: nat): State
    decreases n
  {
    if n == 0 then s else WorkAlone(WorkStep(s), n - 1)
  }

  lemma {:induction false} DrainAlone(s: State)
    requires s.worker == Draining
    ensures WorkAlone(s, |s.queue|) == s.(queue := [])
    decreases |s.queue|
  {
    if s.queue != [] {
      DrainAlone(WorkStep(s));
    }
  }

  /** Steps left until exit once the flag is cleared. */
  function Rank(s: State): nat {
    match s.worker
    case Exited => 0
    case Test => 1
    case Draining => |s.queue| + 2
    case Check => |s.queue| + 3
    case Lock => |s.queue| + 4
    case Wake => |s.queue| + 4
    case _ => 0
  }

  lemma {:induction false} AwakeWorkerExits(s: State)
    requires !s.running && s.worker !in {NotStarted, Park, Blocked}
    ensures WorkAlone(s, Rank(s)).worker == Exited
    decreases Rank(s)
  {
    if s.worker != Exited {
      assert Rank(WorkStep(s)) == Rank(s) - 1;
      AwakeWorkerExits(WorkStep(s));
    }
  }

  lemma {:induction false} ParkedWorkerSleeps(s: State, n: nat)
    requires s.worker in {Park, Blocked}
    ensures WorkAlone(s, n).worker in {Park, Blocked}
    decreases n
  {
    if n > 0 {
      ParkedWorkerSleeps(WorkStep(s), n - 1);
    }
  }

  /**
   At any time after its notification, `stop` is stuck waiting for a sleeping worker only if
   that notification fell between the worker's predicate check and its wait; and if it did not,
   the worker exits on its own. The flag is cleared without the mutex, so nothing rules the
   window out.
   */
  lemma StopHangsOnlyIfNotificationMissed(trace: Trace)
    requires Legal(trace) && Play(trace).atNotify.Some?
    ensures var m := Play(trace);
            && ((exists n: nat :: WorkAlone(m.s, n).worker == Exited) <==> m.s.worker !in {Park, Blocked})
            && (m.s.worker in {Park, Blocked} ==> m.atNotify.value == Park)
  {
    InvariantsHold(trace);
    var s := Play(trace).s;
    if s.worker in {Park, Blocked} {
      forall n: nat ensures WorkAlone(s, n).worker != Exited {
        ParkedWorkerSleeps(s, n);
      }
    } else {
      AwakeWorkerExits(s);
    }
  }

  /** Right after the notification the condition is exact. */
  lemma StopReturnsIffNotifiedInTime(trace: Trace)
    requires Legal(trace + [NotifyAll])
    ensures (exists n: nat :: WorkAlone(Play(trace + [NotifyAll]).s, n).worker == Exited) <==>
            Play(trace).s.worker != Park
  {
    PlayAppend(trace, NotifyAll);
    StopHangsOnlyIfNotificationMissed(trace + [NotifyAll]);
  }

  // ---- both departures happen ----

  lemma PlayAppend(trace: Trace, e: Event)
    ensures Play(trace + [e]) == Observe(Play(trace), e)
    ensures Legal(trace + [e]) <==> Legal(trace) && Enabled(Play(trace).s, e)
  {
    assert (trace + [e])[..|trace|] == trace;
  }

  /** Extends a legal trace by an enabled event. */
  lemma Advance(trace: Trace, e: Event) returns (longer: Trace)
    requires Legal(trace) && Enabled(Play(trace).s, e)
    ensures Legal(longer) && Play(longer) == Observe(Play(trace), e)
  {
    PlayAppend(trace, e);
    longer := trace + [e];
  }

  /** Start, find the queue empty, be told to stop just before going to sleep: `stop` hangs. */
  lemma MissedNotificationWitness() returns (trace: Trace)
    ensures Legal(trace) && Play(trace).s.stopper == Notified
    ensures forall n: nat :: WorkAlone(Play(trace).s, n).worker != Exited
  {
    trace := Advance([], Start);
    trace := Advance(trace, Work);
    trace := Advance(trace, Work);
    trace := Advance(trace, Work);
    assert Play(trace).s.worker == Park;
    trace := Advance(trace, ClearFlag);
    trace := Advance(trace, NotifyAll);
    var s := Play(trace).s;
    forall n: nat ensures WorkAlone(s, n).worker != Exited {
      ParkedWorkerSleeps(s, n);
    }
  }

  /** A message logged before `stop` is still queued after `stop` has returned. */
  lemma LostMessageWitness() returns (trace: Trace)
    ensures Legal(trace) && Play(trace).s.stopper == Joined && Play(trace).s.queue == ["m"]
    ensures Play(trace).atClear == Some(Snapshot(Test, ["m"], ["m"], []))
  {
    trace := Advance([], Start);
    trace := Advance(trace, Log("m", "t"));
    assert Play(trace).s.queue == ["m"] && Play(trace).logged == ["m"] && Play(trace).s.worker == Test;
    trace := Advance(trace, ClearFlag);
    trace := Advance(trace, NotifyAll);
    trace := Advance(trace, Work);
    trace := Advance(trace, Join);
  }
}
