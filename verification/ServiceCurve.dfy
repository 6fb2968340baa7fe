/** The rate-latency service curve and its deterministic delay bound. */
module ServiceCurves {
  import opened Machine

  datatype ServiceCurve = ServiceCurve(minimumCompletions: u16, maximumAdmissions: u16,
                                       windowTicks: u64, latencyTicks: u64, maximumBacklog: u16)

  predicate CurveValid(c: ServiceCurve) {
    && c.minimumCompletions != 0 && c.maximumAdmissions != 0 && c.windowTicks != 0 && c.maximumBacklog != 0
    && c.minimumCompletions <= c.maximumBacklog && c.maximumAdmissions <= c.maximumBacklog
  }

  function DeterministicDelay(c: ServiceCurve, backlogBefore: nat): Option<u64> {
    if !CurveValid(c) || backlogBefore >= c.maximumBacklog then None
    else
      var windows := CeilDiv(backlogBefore + 1, c.minimumCompletions);
      match CheckedMul(windows, c.windowTicks)
      case None => None
      case Some(ticks) => CheckedAdd(c.latencyTicks, ticks)
  }

  /** The completions the curve guarantees within `t` ticks: none during the latency, then a batch per window. */
  function Served(c: ServiceCurve, t: nat): int
    requires CurveValid(c)
  {
    if t < c.latencyTicks then 0 else c.minimumCompletions * ((t - c.latencyTicks) / c.windowTicks)
  }

  lemma BatchesReach(s: nat, k: nat, n: nat, demand: nat)
    requires s * (n - 1) < demand <= s * n
    ensures s * k >= demand <==> k >= n
  {
    if k >= n {
      MulAtLeast(s, k, n);
    } else {
      MulAtLeast(s, n - 1, k);
    }
  }

  /** `t` ticks serve `demand` jobs exactly when they cover the latency and every window needed. */
  lemma ServedExactly(c: ServiceCurve, demand: nat, t: nat)
    requires CurveValid(c) && demand > 0
    ensures Served(c, t) >= demand <==> t >= c.latencyTicks + CeilDiv(demand, c.minimumCompletions) * c.windowTicks
  {
    var s, n, w := c.minimumCompletions, CeilDiv(demand, c.minimumCompletions), c.windowTicks;
    if t >= c.latencyTicks {
      BatchesByTime(s, n, t - c.latencyTicks, w, demand);
    } else {
      MulAtLeast(w, n, 1);
    }
  }

  lemma BatchesByTime(s: nat, n: nat, x: nat, w: nat, demand: nat)
    requires s * (n - 1) < demand <= s * n && w > 0
    ensures s * (x / w) >= demand <==> x >= n * w
  {
    var k := x / w;
    QuotientBounds(x, w, k, n);
    BatchesReach(s, k, n, demand);
  }

  lemma QuotientBounds(x: nat, w: nat, k: nat, n: nat)
    requires w > 0 && k == x / w
    ensures k >= n <==> x >= n * w
  {
    assert x == w * k + x % w;
    if k >= n {
      MulAtLeast(w, k, n);
    } else {
      MulAtLeast(w, n, k + 1);
      assert w * (k + 1) == w * k + w;
    }
  }

  /**
   The deterministic bound is the least number of ticks within which the curve serves the backlog
   and the new job, and it is missing exactly when the curve or the backlog is out of range or no
   representable number of ticks is enough.
   */
  lemma DelayIsLeast(c: ServiceCurve, backlogBefore: nat)
    ensures match DeterministicDelay(c, backlogBefore)
            case Some(d) =>
              && CurveValid(c) && backlogBefore < c.maximumBacklog
              && Served(c, d) >= backlogBefore + 1
              && (forall t: nat :: t < d ==> Served(c, t) < backlogBefore + 1)
            case None =>
              CurveValid(c) && backlogBefore < c.maximumBacklog ==>
                forall t: u64 :: Served(c, t) < backlogBefore + 1
  {
    if CurveValid(c) && backlogBefore < c.maximumBacklog {
      var n := CeilDiv(backlogBefore + 1, c.minimumCompletions);
      MulAtLeast(c.windowTicks, n, 1);
      forall t: nat
        ensures Served(c, t) >= backlogBefore + 1 <==> t >= c.latencyTicks + n * c.windowTicks
      {
        ServedExactly(c, backlogBefore + 1, t);
      }
    }
  }

  /** A longer queue never has a smaller bound. */
  lemma DelayMonotone(c: ServiceCurve, b1: nat, b2: nat)
    requires b1 <= b2 && DeterministicDelay(c, b2).Some?
    ensures DeterministicDelay(c, b1).Some? && DeterministicDelay(c, b1).value <= DeterministicDelay(c, b2).value
  {
    DelayIsLeast(c, b1);
    DelayIsLeast(c, b2);
    var d2 := DeterministicDelay(c, b2).value;
    assert Served(c, d2) >= b1 + 1;
  }

  /** The bound is never zero. */
  lemma DelayPositive(c: ServiceCurve, b: nat)
    requires DeterministicDelay(c, b).Some?
    ensures DeterministicDelay(c, b).value > 0
  {
    MulAtLeast(c.windowTicks, CeilDiv(b + 1, c.minimumCompletions), 1);
  }
}
