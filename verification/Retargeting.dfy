/** How the target follows the time that the last blocks took, and what the averages weigh. */
module Retargeting {
  import opened Difficulty
  import opened Modular

  // ---------- the averages ----------

  /** The targets from the i-th block of a window on. */
  ghost function SumFrom(w: seq<Header>, i: nat): int
    requires i <= |w|
    decreases |w| - i
  {
    if i == |w| then 0 else w[i].baseTarget + SumFrom(w, i + 1)
  }

  /** What rounding down loses at most, from the i-th of 24 blocks on. */
  ghost function Lost(i: nat): int
    requires i < 24
    decreases 24 - i
  {
    if i == 23 then 0 else 24 - i + Lost(i + 1)
  }

  lemma LostIs()
    ensures Lost(0) == 299
  {
    assert Lost(20) == 9;
    assert Lost(16) == 35;
    assert Lost(12) == 77;
    assert Lost(8) == 135;
    assert Lost(4) == 209;
  }

  lemma MeanTimes(a: int, b: int, n: nat)
    requires n > 0
    ensures a * n + b - n <= (n + 1) * Mean(a, b, n) <= a * n + b
  {
  }

  /** The weighted average of 24 counts the newest block twice and every other once, among 25. */
  lemma {:induction false} WeightedSum(w: seq<Header>, i: nat)
    requires |w| == 24 && i < 24
    ensures var s := SumFrom(w, i) + w[23].baseTarget;
            s - Lost(i) <= (25 - i) * Weighted(w, i) <= s
    decreases 24 - i
  {
    hide Mean;
    if i == 23 {
      assert SumFrom(w, 23) == w[23].baseTarget + SumFrom(w, 24);
    } else {
      WeightedSum(w, i + 1);
      MeanTimes(Weighted(w, i + 1), w[i].baseTarget, 24 - i);
    }
  }

  lemma AverageOf24(w: seq<Header>)
    requires |w| == 24
    ensures SumFrom(w, 0) + w[23].baseTarget - 299 <= 25 * Weighted(w, 0) <= SumFrom(w, 0) + w[23].baseTarget
  {
    WeightedSum(w, 0);
    LostIs();
  }

  lemma TotalOf4(w: seq<Header>)
    requires |w| == 4
    ensures Total(w) == w[0].baseTarget + w[1].baseTarget + w[2].baseTarget + w[3].baseTarget
  {
    assert w[..3][..2] == w[..2] && w[..2][..1] == w[..1] && w[..1][..0] == [];
    assert Total(w[..1]) == w[0].baseTarget;
    assert Total(w[..2]) == w[0].baseTarget + w[1].baseTarget;
    assert Total(w[..3]) == w[0].baseTarget + w[1].baseTarget + w[2].baseTarget;
  }

  // ---------- the time taken ----------

  lemma ScaleUp(a: int, dt1: int, dt2: int, m: int)
    requires a >= 0 && dt1 <= dt2 && m > 0
    ensures a * dt1 / m <= a * dt2 / m
  {
    MulLe(dt1, dt2, a);
    assert a * dt1 <= a * dt2;
    QuotientUp(a * dt1, a * dt2, m);
  }

  lemma QuotientUp(s: int, t: int, m: int)
    requires s <= t && m > 0
    ensures s / m <= t / m
  {
    var q, r := s / m, t / m;
    assert s == q * m + s % m && t == r * m + t % m;
    if r < q {
      MulLe(r + 1, q, m);
    }
  }

  lemma EarlyMonotone(average: int, dt1: int, dt2: int)
    requires average >= 0 && dt1 <= dt2
    ensures EarlyTarget(average, dt1) <= EarlyTarget(average, dt2)
  {
    ScaleUp(average, dt1, dt2, 960);
  }

  lemma LateMonotone(average: int, current: int, dt1: int, dt2: int)
    requires average >= 0 && dt1 <= dt2
    ensures LateTarget(average, current, dt1) <= LateTarget(average, current, dt2)
  {
    ScaleUp(average, Min(Max(dt1, 2880), 11520), Min(Max(dt2, 2880), 11520), 5760);
  }

  /** The seconds from the oldest block the rule looks at. */
  ghost function TimeTaken(previous: seq<Header>, height: int, timestamp: int): int
    requires height >= 4 && |previous| >= WindowSize(height)
  {
    Elapsed(timestamp, previous[|previous| - WindowSize(height)].timestamp)
  }

  /** After the same blocks, the longer the time taken the easier the next target. */
  lemma SlowerIsEasier(previous: seq<Header>, height: int, t1: int, t2: int)
    requires height >= 4 && Healthy(previous, height)
    requires TimeTaken(previous, height, t1) <= TimeTaken(previous, height, t2)
    ensures Target(previous, height, t1) <= Target(previous, height, t2)
  {
    hide EarlyTarget, LateTarget, Elapsed, Weighted, Total;
    if height < ADJUST_DIFFICULTY_HEIGHT {
      EarlyMonotone(Total(Last(previous, 4)) / 4, TimeTaken(previous, height, t1), TimeTaken(previous, height, t2));
    } else {
      var w := Last(previous, 24);
      WeightedBetween(w, 0, 0, MAX_BASE_TARGET);
      LateMonotone(Weighted(w, 0), w[23].baseTarget, TimeTaken(previous, height, t1), TimeTaken(previous, height, t2));
    }
  }

  /** The time the window should take: 240 seconds a block. */
  ghost function Nominal(height: int): int
  {
    if height < ADJUST_DIFFICULTY_HEIGHT then 960 else 5760
  }

  lemma SteadyTarget(t: int)
    requires 1 <= t <= MAX_BASE_TARGET
    ensures EarlyTarget(t, 960) == t && LateTarget(t, t, 5760) == t
  {
  }

  /** A window of equal targets that took exactly its time keeps the target. */
  lemma SteadyStays(previous: seq<Header>, height: int, timestamp: int, t: int)
    requires height >= 4 && Healthy(previous, height) && 1 <= t
    requires forall i :: |previous| - WindowSize(height) <= i < |previous| ==> previous[i].baseTarget == t
    requires TimeTaken(previous, height, timestamp) == Nominal(height)
    ensures Target(previous, height, timestamp) == t
  {
    hide Elapsed, Weighted, Total, EarlyTarget, LateTarget;
    assert previous[|previous| - 1].baseTarget == t;
    SteadyTarget(t);
    var w := Last(previous, WindowSize(height));
    assert forall i :: 0 <= i < |w| ==> w[i].baseTarget == t;
    if height < ADJUST_DIFFICULTY_HEIGHT {
      TotalOf4(w);
    } else {
      WeightedBetween(w, 0, t, t);
    }
  }

  /**
   Where no bound is reached the target is proportional to the time taken: the
   average of the last four, times the seconds, over 960.
   */
  lemma EarlyProportional(previous: seq<Header>, height: int, timestamp: int)
    requires 4 <= height < ADJUST_DIFFICULTY_HEIGHT && Healthy(previous, height)
    ensures var (n, dt, t) := (|previous|, TimeTaken(previous, height, timestamp), Target(previous, height, timestamp));
            var a := (previous[n - 4].baseTarget + previous[n - 3].baseTarget
                      + previous[n - 2].baseTarget + previous[n - 1].baseTarget) / 4;
            a * 9 / 10 < t < a * 11 / 10 && 1 < t < MAX_BASE_TARGET ==> 960 * t <= a * dt < 960 * (t + 1)
  {
    hide Elapsed, Total;
    TotalOf4(Last(previous, 4));
  }

  /** The same for the last 24: the weighted average, times the seconds within their bounds, over 5760. */
  lemma LateProportional(previous: seq<Header>, height: int, timestamp: int)
    requires height >= ADJUST_DIFFICULTY_HEIGHT && Healthy(previous, height)
    ensures var (dt, t) := (TimeTaken(previous, height, timestamp), Target(previous, height, timestamp));
            var c, a := previous[|previous| - 1].baseTarget, Weighted(Last(previous, 24), 0);
            c * 8 / 10 < t < c * 12 / 10 && 1 < t < MAX_BASE_TARGET
            ==> 5760 * t <= a * Min(Max(dt, 2880), 11520) < 5760 * (t + 1)
  {
    hide Elapsed, Weighted;
  }
}
