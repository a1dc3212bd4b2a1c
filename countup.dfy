/**
 * `animateTotal`: the total cell counts up from 0 towards its target in
 * steps of target/40, one step per timer tick. Values are exact reals; the
 * 15 ms timer period is not modelled, only the sequence of shown values.
 */
module CountUp {

  /** The number of increments the count-up divides its target into. */
  const Steps: nat := 40

  /** `Math.ceil(x)`: the least integer not below x. */
  function Ceil(x: real): (c: int)
    ensures x <= c as real < x + 1.0
  {
    -((-x).Floor)
  }

  /** The least-integer property of Ceil: every integer at or above x is at or above Ceil(x). */
  lemma CeilLeast(x: real, n: int)
    requires x <= n as real
    ensures Ceil(x) <= n
  {
  }

  /** `current` after k ticks: k increments of target/40, without float rounding. */
  function Counter(target: real, k: nat): real
  {
    (k as real) * (target / (Steps as real))
  }

  /** The number of ticks before the timer is cleared. */
  function TickCount(target: real): nat
  {
    if target > 0.0 then Steps else 1
  }

  /** What tick k (counted from 1) writes into the cell. */
  function Frame(target: real, k: nat): real
  {
    var current := Counter(target, k);
    if current >= target then target else Ceil(current) as real
  }

  /** The values the cell shows, one per tick, in order. */
  function Frames(target: real): (f: seq<real>)
  {
    seq(TickCount(target), i requires 0 <= i < TickCount(target) => Frame(target, i + 1))
  }

  lemma CounterStep(target: real, k: nat)
    ensures Counter(target, k + 1) == Counter(target, k) + target / (Steps as real)
  {
  }

  /** For a positive target the counter grows strictly with the tick number. */
  lemma CounterIncreasing(target: real, k: nat, k': nat)
    requires target > 0.0 && k < k'
    ensures Counter(target, k) < Counter(target, k')
  {
    var inc := target / (Steps as real);
    assert inc > 0.0;
    assert (k' as real) * inc - (k as real) * inc == ((k' - k) as real) * inc;
  }

  /**
   * The timer stops at the first tick whose counter reaches the target:
   * after 40 ticks for a positive target, after the first for any other.
   */
  lemma StopsAtFirstReach(target: real)
    ensures 1 <= TickCount(target) <= Steps
    ensures Counter(target, TickCount(target)) >= target
    ensures forall k :: 1 <= k < TickCount(target) ==> Counter(target, k) < target
  {
    if target > 0.0 {
      assert Counter(target, Steps) == target;
      forall k | 1 <= k < Steps ensures Counter(target, k) < target {
        CounterIncreasing(target, k, Steps);
      }
    } else {
      assert Counter(target, 1) == target / 40.0;
    }
  }

  /**
   * The count-up loop of `animateTotal`: add the increment, then show the
   * target and stop once it is reached, or the rounded-up counter otherwise.
   */
  method AnimateTotal(target: real) returns (shown: seq<real>)
    ensures shown == Frames(target)
  {
    StopsAtFirstReach(target);
    var current := 0.0;
    var increment := target / (Steps as real);
    var ticks: nat := 0;
    var running := true;
    shown := [];
    while running
      invariant ticks <= TickCount(target)
      invariant running <==> ticks < TickCount(target)
      invariant current == Counter(target, ticks)
      invariant shown == Frames(target)[..ticks]
      decreases TickCount(target) - ticks
    {
      CounterStep(target, ticks);
      current := current + increment;
      ticks := ticks + 1;
      if current >= target {
        shown := shown + [target];
        running := false;
      } else {
        shown := shown + [Ceil(current) as real];
      }
    }
  }

  /** The count-up always ends, within 40 ticks, on exactly the target value. */
  lemma EndsOnTarget(target: real)
    ensures 1 <= |Frames(target)| <= Steps
    ensures Frames(target)[|Frames(target)| - 1] == target
  {
    StopsAtFirstReach(target);
  }

  /** A target that is zero or negative is shown at the first tick, and nothing else is. */
  lemma NonPositiveStopsAtOnce(target: real)
    requires target <= 0.0
    ensures Frames(target) == [target]
  {
    assert Counter(target, 1) >= target;
  }

  /** A positive target takes exactly 40 ticks, and every tick before the last shows a whole number. */
  lemma PositiveTakesFortyTicks(target: real)
    requires target > 0.0
    ensures |Frames(target)| == Steps
    ensures forall i :: 0 <= i < Steps - 1 ==> Frames(target)[i] == Ceil(Counter(target, i + 1)) as real
  {
    StopsAtFirstReach(target);
  }

  /** The values shown before the last one never decrease. */
  lemma IntermediateNonDecreasing(target: real, i: nat, j: nat)
    requires i <= j < |Frames(target)| - 1
    ensures Frames(target)[i] <= Frames(target)[j]
  {
    StopsAtFirstReach(target);
    if i < j {
      CounterIncreasing(target, i + 1, j + 1);
      CeilLeast(Counter(target, i + 1), Ceil(Counter(target, j + 1)));
    }
  }

  /**
   * For a whole-number target every shown value lies at or below the
   * target, so the whole sequence never decreases.
   */
  lemma WholeTargetMonotone(target: int, i: nat, j: nat)
    requires i <= j < |Frames(target as real)|
    ensures Frames(target as real)[j] <= target as real
    ensures Frames(target as real)[i] <= Frames(target as real)[j]
  {
    var t := target as real;
    StopsAtFirstReach(t);
    var last := |Frames(t)| - 1;
    if j < last {
      CeilLeast(Counter(t, j + 1), target);
    }
    if i < j {
      if j < last {
        IntermediateNonDecreasing(t, i, j);
      } else {
        CeilLeast(Counter(t, i + 1), target);
      }
    }
  }

  /**
   * For a fractional target the rounding can overshoot: counting up to 10.9,
   * the 39th tick shows 11 and the 40th drops back to 10.9.
   */
  lemma FractionalTargetOvershoots()
    ensures |Frames(10.9)| == Steps
    ensures Frames(10.9)[38] == 11.0 && Frames(10.9)[39] == 10.9
    ensures Frames(10.9)[38] > Frames(10.9)[39]
  {
    StopsAtFirstReach(10.9);
    assert Counter(10.9, 39) == 10.6275;
    assert Ceil(10.6275) == 11;
  }
}
