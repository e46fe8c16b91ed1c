/**
 The battery sensor over the reals: each measurement drains an arbitrary amount from the
 half-open interval that the random generator draws from.
 */
module BatterySensor {
  datatype SensorState = Active | Warning | Error

  const FULL := 100.0
  const WARNING_THRESHOLD := 30.0
  const ERROR_THRESHOLD := 10.0

  predicate IsDrain(d: real) {
    0.2 <= d < 0.5
  }

  function Drained(level: real, d: real): real {
    if level - d < 0.0 then 0.0 else level - d
  }

  function StateAt(level: real): SensorState {
    if level > WARNING_THRESHOLD then Active else if level > ERROR_THRESHOLD then Warning else Error
  }

  class Battery {
    var level: real
    var value: real
    var state: SensorState

    constructor ()
      ensures level == FULL && value == 0.0 && state == Active
    {
      level, value, state := FULL, 0.0, Active;
    }

    method CollectData(drain: real) returns (reading: real)
      requires IsDrain(drain)
      modifies this
      ensures reading == level == value == Drained(old(level), drain)
      ensures state == StateAt(level)
    {
      level := level - drain;
      if level < 0.0 {
        level := 0.0;
      }
      value := level;
      if level > WARNING_THRESHOLD {
        state := Active;
      } else if level > ERROR_THRESHOLD {
        state := Warning;
      } else {
        state := Error;
      }
      return level;
    }
  }

  // ---- runs ----

  predicate Drains(ds: seq<real>) {
    forall i :: 0 <= i < |ds| ==> IsDrain(ds[i])
  }

  /** The level after the given measurements. */
  function Level(ds: seq<real>): real {
    if |ds| == 0 then FULL else Drained(Level(ds[..|ds| - 1]), ds[|ds| - 1])
  }

  function Severity(s: SensorState): nat {
    match s
    case Active => 0
    case Warning => 1
    case Error => 2
  }

  lemma {:induction false} LevelBounds(ds: seq<real>)
    requires Drains(ds)
    ensures 0.0 <= Level(ds) <= FULL
    ensures Level(ds) == 0.0 || Level(ds) <= FULL - 0.2 * |ds| as real
    ensures Level(ds) >= FULL - 0.5 * |ds| as real
    ensures |ds| > 0 ==> Level(ds) > FULL - 0.5 * |ds| as real
  {
    if |ds| > 0 {
      LevelBounds(ds[..|ds| - 1]);
    }
  }

  function Total(ds: seq<real>): real {
    if |ds| == 0 then 0.0 else Total(ds[..|ds| - 1]) + ds[|ds| - 1]
  }

  /** The level is what the drains together leave of a full battery. */
  lemma {:induction false} LevelIsRemainder(ds: seq<real>)
    requires Drains(ds)
    ensures Level(ds) == if Total(ds) <= 100.0 then 100.0 - Total(ds) else 0.0
  {
    if |ds| > 0 {
      LevelIsRemainder(ds[..|ds| - 1]);
    }
  }

  /** The level never rises and the reported severity never falls. */
  lemma {:induction false} BatteryOnlyWorsens(ds: seq<real>, i: nat)
    requires Drains(ds) && i <= |ds|
    ensures 0.0 <= Level(ds) <= Level(ds[..i]) <= FULL
    ensures Severity(StateAt(Level(ds[..i]))) <= Severity(StateAt(Level(ds)))
  {
    LevelBounds(ds);
    LevelBounds(ds[..i]);
    if i == |ds| {
      assert ds[..i] == ds;
    } else {
      var front := ds[..|ds| - 1];
      BatteryOnlyWorsens(front, i);
      assert front[..i] == ds[..i];
    }
  }

  /** `n` equal drains. */
  function Steady(d: real, n: nat): (ds: seq<real>)
    ensures |ds| == n
    ensures IsDrain(d) ==> Drains(ds)
  {
    seq(n, _ => d)
  }

  lemma {:induction false} SteadyLevel(d: real, n: nat)
    requires IsDrain(d)
    ensures Level(Steady(d, n)) == if FULL - d * n as real < 0.0 then 0.0 else FULL - d * n as real
  {
    if n > 0 {
      SteadyLevel(d, n - 1);
      assert Steady(d, n)[..n - 1] == Steady(d, n - 1);
      assert d * n as real == d * (n - 1) as real + d;
    }
  }

  /** Every run is ACTIVE after `n` measurements. */
  ghost predicate AlwaysActive(n: nat) {
    forall ds: seq<real> :: |ds| == n && Drains(ds) ==> StateAt(Level(ds)) == Active
  }

  ghost predicate NeverActive(n: nat) {
    forall ds: seq<real> :: |ds| == n && Drains(ds) ==> StateAt(Level(ds)) != Active
  }

  ghost predicate NeverError(n: nat) {
    forall ds: seq<real> :: |ds| == n && Drains(ds) ==> StateAt(Level(ds)) != Error
  }

  ghost predicate AlwaysError(n: nat) {
    forall ds: seq<real> :: |ds| == n && Drains(ds) ==> StateAt(Level(ds)) == Error
  }

  ghost predicate AlwaysEmpty(n: nat) {
    forall ds: seq<real> :: |ds| == n && Drains(ds) ==> Level(ds) == 0.0
  }

  /** The battery's timetable over all runs, exact to the measurement. */
  lemma Timetable(n: nat)
    ensures AlwaysActive(n) <==> n <= 140
    ensures NeverActive(n) <==> n >= 350
    ensures NeverError(n) <==> n <= 180
    ensures AlwaysError(n) <==> n >= 450
    ensures AlwaysEmpty(n) <==> n >= 500
  {
    forall ds: seq<real> | |ds| == n && Drains(ds)
      ensures n <= 140 ==> Level(ds) > 30.0
      ensures n >= 350 ==> Level(ds) <= 30.0
      ensures n <= 180 ==> Level(ds) > 10.0
      ensures n >= 450 ==> Level(ds) <= 10.0
      ensures n >= 500 ==> Level(ds) == 0.0
    {
      LevelBounds(ds);
    }
    SteadyLevel(0.499, n);
    SteadyLevel(0.2, n);
    var fast, slow := Steady(0.499, n), Steady(0.2, n);
    assert |fast| == n && Drains(fast) && |slow| == n && Drains(slow);
    assert n > 140 ==> Level(fast) <= 30.0;
    assert n > 180 ==> Level(fast) <= 10.0;
    assert n < 350 ==> Level(slow) > 30.0;
    assert n < 450 ==> Level(slow) > 10.0;
    assert n < 500 ==> Level(slow) > 0.0;
  }
}
