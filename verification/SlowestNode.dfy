/**
 The slowest node a polling gap allows: every heartbeat a full stride after the one before.
 */
module SlowestNode {
  import opened SensorNode

  /** `n` times `stride`, by repeated addition. */
  function Span(n: nat, stride: nat): nat {
    if n == 0 then 0 else Span(n - 1, stride) + stride
  }

  lemma {:induction false} SpanIsProduct(n: nat, stride: nat)
    ensures Span(n, stride) == n * stride
  {
    if n > 0 {
      SpanIsProduct(n - 1, stride);
      assert n * stride == (n - 1) * stride + stride;
    }
  }

  lemma {:induction false} SpanMonotone(m: nat, n: nat, stride: nat)
    requires m <= n
    ensures Span(m, stride) <= Span(n, stride)
  {
    if m < n {
      SpanMonotone(m, n - 1, stride);
    }
  }

  lemma {:induction false} SpanAtLeast(n: nat, stride: nat)
    requires 1 <= stride
    ensures n <= Span(n, stride)
  {
    if n > 0 {
      SpanAtLeast(n - 1, stride);
    }
  }

  lemma {:induction false} FiresConcat(start: nat, interval: nat, a: seq<nat>, b: seq<nat>)
    ensures var last := LastFire(start, interval, a);
            && LastFire(start, interval, a + b) == LastFire(last, interval, b)
            && Fires(start, interval, a + b) == Fires(start, interval, a) + Fires(last, interval, b)
  {
    if |b| == 0 {
      assert a + b == a;
    } else {
      var front := b[..|b| - 1];
      FiresConcat(start, interval, a, front);
      assert (a + b)[..|a + b| - 1] == a + front;
    }
  }

  lemma {:induction false} PacedConcat(start: nat, a: seq<nat>, b: seq<nat>, gap: nat)
    requires Paced(start, a, gap) && Paced(LastPass(start, a), b, gap)
    ensures Paced(start, a + b, gap)
  {
    if |b| == 0 {
      assert a + b == a;
    } else {
      var front := b[..|b| - 1];
      PacedConcat(start, a, front, gap);
      assert (a + b)[..|a + b| - 1] == a + front;
    }
  }

  /** `n` passes one tick apart. */
  function Ticks(base: nat, n: nat): seq<nat> {
    if n == 0 then [] else Ticks(base, n - 1) + [base + n]
  }

  lemma {:induction false} TicksAreQuiet(base: nat, n: nat, interval: nat, gap: nat)
    requires n < interval || n == 0
    requires 1 <= gap
    ensures Paced(base, Ticks(base, n), gap) && LastPass(base, Ticks(base, n)) == base + n
    ensures Fires(base, interval, Ticks(base, n)) == [] && LastFire(base, interval, Ticks(base, n)) == base
  {
    if n > 0 {
      TicksAreQuiet(base, n - 1, interval, gap);
      assert Ticks(base, n)[..|Ticks(base, n)| - 1] == Ticks(base, n - 1);
    }
  }

  /** Passes that just miss the deadline and then come a full gap later. */
  function Rung(base: nat, interval: nat, gap: nat): seq<nat> {
    Ticks(base, if interval == 0 then 0 else interval - 1) + [base + Stride(interval, gap)]
  }

  lemma RungFiresOnce(base: nat, interval: nat, gap: nat)
    requires 1 <= gap
    ensures var rung, next := Rung(base, interval, gap), base + Stride(interval, gap);
            && Paced(base, rung, gap) && LastPass(base, rung) == next
            && Fires(base, interval, rung) == [next] && LastFire(base, interval, rung) == next
  {
    var n := if interval == 0 then 0 else interval - 1;
    TicksAreQuiet(base, n, interval, gap);
    var rung := Rung(base, interval, gap);
    assert rung[..|rung| - 1] == Ticks(base, n);
  }

  /** One fire per stride. */
  function Steps(start: nat, stride: nat, n: nat): (ts: seq<nat>)
    ensures |ts| == n
  {
    if n == 0 then [] else Steps(start, stride, n - 1) + [start + Span(n, stride)]
  }

  lemma {:induction false} StepAt(start: nat, stride: nat, n: nat, i: nat)
    requires i < n
    ensures Steps(start, stride, n)[i] == start + Span(i + 1, stride)
  {
    if i < n - 1 {
      StepAt(start, stride, n - 1, i);
    }
  }

  /** The slowest node: every heartbeat comes a full stride after the one before. */
  lemma {:induction false} SlowestPasses(start: nat, interval: nat, gap: nat, n: nat) returns (passes: seq<nat>)
    requires 1 <= gap
    ensures Paced(start, passes, gap)
    ensures LastPass(start, passes) == LastFire(start, interval, passes) == start + Span(n, Stride(interval, gap))
    ensures Fires(start, interval, passes) == Steps(start, Stride(interval, gap), n)
  {
    if n == 0 {
      passes := [];
    } else {
      var below := SlowestPasses(start, interval, gap, n - 1);
      passes := AddRung(start, interval, gap, below);
    }
  }

  lemma AddRung(start: nat, interval: nat, gap: nat, below: seq<nat>) returns (passes: seq<nat>)
    requires 1 <= gap && Paced(start, below, gap)
    requires LastPass(start, below) == LastFire(start, interval, below)
    ensures var next := LastPass(start, below) + Stride(interval, gap);
            && Paced(start, passes, gap)
            && LastPass(start, passes) == LastFire(start, interval, passes) == next
            && Fires(start, interval, passes) == Fires(start, interval, below) + [next]
  {
    var base := LastPass(start, below);
    var rung := Rung(base, interval, gap);
    passes := below + rung;
    RungFiresOnce(base, interval, gap);
    FiresConcat(start, interval, below, rung);
    PacedConcat(start, below, rung, gap);
    assert passes[|passes| - 1] == rung[|rung| - 1];
  }
}
