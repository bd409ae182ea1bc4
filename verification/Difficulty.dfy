/** Retargeting: how hard each block is, from the blocks before it, and how the work adds up along a chain. */
module Difficulty {
  import opened MachineWords
  import opened Modular

  const INITIAL_BASE_TARGET := 18325193796
  const MAX_BASE_TARGET := 18325193796
  const ADJUST_DIFFICULTY_HEIGHT := 2700
  const MAX_BIG_64 := 0xffff_ffff_ffff_ffff

  /** What retargeting reads and writes of a block. */
  datatype Header = Header(height: int, timestamp: int, baseTarget: int, cumulativeDifficulty: int)

  // ---------- the rules ----------

  function Min(a: int, b: int): int { if a <= b then a else b }

  function Max(a: int, b: int): int { if a >= b then a else b }

  /** Seconds between two timestamps, in the 32 bits they are kept in. */
  function Elapsed(later: int, earlier: int): (dt: int)
    ensures 0 <= dt < 0x1_0000_0000
  {
    (later - earlier) % 0x1_0000_0000
  }

  /** Up to height 2700: within ten percent of the average of four, never 0. */
  function EarlyTarget(average: int, dt: int): int
  {
    Min(Max(Max(Min(average * dt / 960, MAX_BASE_TARGET), average * 9 / 10), 1), average * 11 / 10)
  }

  /** From then on: within twenty percent of the last, from a weighted average of 24 and a bounded time span. */
  function LateTarget(average: int, current: int, dt: int): int
  {
    Min(Max(Max(Min(average * Min(Max(dt, 2880), 11520) / 5760, MAX_BASE_TARGET), 1), current * 8 / 10),
        current * 12 / 10)
  }

  function Total(w: seq<Header>): int
  {
    if w == [] then 0 else Total(w[..|w| - 1]) + w[|w| - 1].baseTarget
  }

  /** The mean of a, n times, and b. */
  function Mean(a: int, b: int, n: nat): int
    requires n > 0
  {
    (a * n + b) / (n + 1)
  }

  /** The average that gives each earlier block one more vote against the average of those after it. */
  function Weighted(w: seq<Header>, i: nat): int
    requires |w| == 24 && i < 24
    decreases 24 - i
  {
    if i == 23 then w[23].baseTarget else Mean(Weighted(w, i + 1), w[i].baseTarget, 24 - i)
  }

  function Last(w: seq<Header>, n: nat): (l: seq<Header>)
    requires n <= |w|
    ensures |l| == n
  {
    w[|w| - n..]
  }

  /** How many predecessors the rule for a height looks at. */
  function WindowSize(height: int): (n: nat)
    requires height >= 0
    ensures n <= 24
  {
    if height == 0 then 0 else if height < 4 then 1 else if height < ADJUST_DIFFICULTY_HEIGHT then 4 else 24
  }

  function Target(previous: seq<Header>, height: int, timestamp: int): int
    requires height >= 0 && |previous| >= WindowSize(height)
  {
    if height < 4 then INITIAL_BASE_TARGET
    else if height < ADJUST_DIFFICULTY_HEIGHT then
      var w := Last(previous, 4);
      EarlyTarget(Total(w) / 4, Elapsed(timestamp, w[0].timestamp))
    else
      var w := Last(previous, 24);
      LateTarget(Weighted(w, 0), w[23].baseTarget, Elapsed(timestamp, w[0].timestamp))
  }

  /** The work a base target stands for. */
  function Work(target: int): int
  {
    if target <= 0 then 0 else MAX_BIG_64 / target
  }

  function Next(previous: seq<Header>, height: int, timestamp: int): Header
    requires height >= 0 && |previous| >= WindowSize(height)
  {
    var t := Target(previous, height, timestamp);
    Header(height, timestamp, t,
           if height == 0 then 0 else previous[|previous| - 1].cumulativeDifficulty + Work(t))
  }

  // ---------- the retargeting method ----------

  /** Predecessors for which no target overflows or vanishes. */
  ghost predicate Healthy(previous: seq<Header>, height: int)
    requires height >= 0
  {
    && |previous| >= WindowSize(height)
    && (forall i :: 0 <= i < |previous| ==> 0 <= previous[i].baseTarget <= MAX_BASE_TARGET)
    && (4 <= height < ADJUST_DIFFICULTY_HEIGHT ==> Total(Last(previous, 4)) >= 4)
    && (height >= ADJUST_DIFFICULTY_HEIGHT ==> Last(previous, 24)[23].baseTarget >= 1)
  }

  function Uint64(x: int): uint64
  {
    (x % 0x1_0000_0000_0000_0000) as uint64
  }

  lemma TotalBound(w: seq<Header>)
    requires forall i :: 0 <= i < |w| ==> 0 <= w[i].baseTarget <= MAX_BASE_TARGET
    ensures 0 <= Total(w) <= |w| * MAX_BASE_TARGET
  {
    if w != [] {
      TotalBound(w[..|w| - 1]);
    }
  }

  /** The weighted average lies between the least and the greatest of the window. */
  lemma {:induction false} WeightedBetween(w: seq<Header>, i: nat, lo: int, hi: int)
    requires |w| == 24 && i < 24
    requires forall k :: i <= k < 24 ==> lo <= w[k].baseTarget <= hi
    ensures lo <= Weighted(w, i) <= hi
    decreases 24 - i
  {
    hide Mean;
    if i < 23 {
      WeightedBetween(w, i + 1, lo, hi);
      MeanBetween(Weighted(w, i + 1), w[i].baseTarget, 24 - i, lo, hi);
    }
  }

  lemma MeanIs(a: int, b: int, n: nat)
    requires n > 0
    ensures Mean(a, b, n) == (a * n + b) / (n + 1)
  {
  }

  lemma MeanBetween(a: int, b: int, n: int, lo: int, hi: int)
    requires lo <= a <= hi && lo <= b <= hi && n > 0
    ensures lo <= Mean(a, b, n) <= hi
  {
    MulLe(lo, a, n);
    MulLe(a, hi, n);
    QuotientBetween(a * n + b, n + 1, lo, hi);
  }

  lemma QuotientBetween(s: int, m: int, lo: int, hi: int)
    requires m > 0 && lo * m <= s <= hi * m
    ensures lo <= s / m <= hi
  {
    var q, r := s / m, s % m;
    assert s == q * m + r;
    if q < lo {
      MulLe(q, lo - 1, m);
    }
    if q > hi {
      MulLe(hi + 1, q, m);
    }
  }

  lemma EarlyRange(average: int, dt: int)
    requires 1 <= average <= MAX_BASE_TARGET && 0 <= dt < 0x1_0000_0000
    ensures 0 <= average * dt <= MAX_BASE_TARGET * 0xffff_ffff
    ensures 1 <= EarlyTarget(average, dt) <= MAX_BASE_TARGET
  {
    MulLe(average, MAX_BASE_TARGET, dt);
    MulLe(dt, 0xffff_ffff, MAX_BASE_TARGET);
    MulLe(0, average, dt);
  }

  lemma LateRange(average: int, current: int, dt: int)
    requires 0 <= average <= MAX_BASE_TARGET && 1 <= current <= MAX_BASE_TARGET && 2880 <= dt <= 11520
    ensures 0 <= average * dt <= MAX_BASE_TARGET * 11520
    ensures 1 <= LateTarget(average, current, dt) <= MAX_BASE_TARGET
  {
    MulLe(average, MAX_BASE_TARGET, dt);
    MulLe(dt, 11520, MAX_BASE_TARGET);
    MulLe(0, average, dt);
  }

  lemma Uint64Fits(x: int)
    requires 0 <= x < 0x1_0000_0000_0000_0000
    ensures Uint64(x) as int == x
  {
  }

  class Block {
    const height: int
    const timestamp: uint32
    var baseTarget: uint64
    var cumulativeDifficulty: nat

    constructor (height: int, timestamp: uint32, baseTarget: uint64, cumulativeDifficulty: nat)
      ensures this.height == height && this.timestamp == timestamp
      ensures this.baseTarget == baseTarget && this.cumulativeDifficulty == cumulativeDifficulty
    {
      this.height, this.timestamp := height, timestamp;
      this.baseTarget, this.cumulativeDifficulty := baseTarget, cumulativeDifficulty;
    }

    function Head(): Header
      reads this
    {
      Header(height, timestamp as int, baseTarget as int, cumulativeDifficulty)
    }

    /** Every intermediate fits its machine word, and the result is what the rules say. */
    method SetBaseTargetAndCumulativeDifficulty(previousBlocks: seq<Block>)
      requires height >= 0 && this !in previousBlocks
      requires Healthy(Heads(previousBlocks), height)
      modifies this
      ensures Head() == Next(old(Heads(previousBlocks)), height, timestamp as int)
      ensures height >= 1 ==> 1 <= baseTarget as int <= MAX_BASE_TARGET
    {
      ghost var heads := Heads(previousBlocks);
      if height == 0 {
        baseTarget := INITIAL_BASE_TARGET as uint64;
        cumulativeDifficulty := 0;
      } else if height < 4 {
        baseTarget := INITIAL_BASE_TARGET as uint64;
        cumulativeDifficulty := previousBlocks[|previousBlocks| - 1].cumulativeDifficulty
          + MAX_BIG_64 / INITIAL_BASE_TARGET;
      } else if height < ADJUST_DIFFICULTY_HEIGHT {
        ghost var w := previousBlocks[|previousBlocks| - 4..];
        assert Heads(w) == Last(heads, 4);
        WindowBound(w, previousBlocks);
        EarlyRetarget(previousBlocks[|previousBlocks| - 4..]);
      } else {
        ghost var w := previousBlocks[|previousBlocks| - 24..];
        assert Heads(w) == Last(heads, 24);
        WindowBound(w, previousBlocks);
        LateRetarget(previousBlocks[|previousBlocks| - 24..]);
      }
    }

    lemma WindowBound(w: seq<Block>, previousBlocks: seq<Block>)
      requires |w| <= |previousBlocks| && w == previousBlocks[|previousBlocks| - |w|..]
      requires forall i :: 0 <= i < |previousBlocks| ==> Heads(previousBlocks)[i].baseTarget <= MAX_BASE_TARGET
      ensures forall p :: p in w ==> p.baseTarget as int <= MAX_BASE_TARGET
      ensures |w| > 0 ==> Heads(w)[|w| - 1] == w[|w| - 1].Head()
    {
      forall p | p in w ensures p.baseTarget as int <= MAX_BASE_TARGET {
        var i :| 0 <= i < |w| && w[i] == p;
        assert Heads(previousBlocks)[|previousBlocks| - |w| + i] == p.Head();
      }
    }

    method EarlyTargetOf(avgBaseTargetBig: int, dt: int64) returns (newBaseTarget: uint64)
      requires 1 <= avgBaseTargetBig <= MAX_BASE_TARGET && 0 <= dt as int < 0x1_0000_0000
      ensures newBaseTarget as int == EarlyTarget(avgBaseTargetBig, dt as int)
      ensures 1 <= newBaseTarget as int <= MAX_BASE_TARGET
    {
      EarlyRange(avgBaseTargetBig, dt as int);
      var currentBaseTarget := Uint64(avgBaseTargetBig);
      Uint64Fits(avgBaseTargetBig);
      var newBaseTargetBig := avgBaseTargetBig * dt as int;
      Uint64Fits(newBaseTargetBig / 960);
      newBaseTarget := Uint64(newBaseTargetBig / (240 * 4));
      if newBaseTarget < 0 || newBaseTarget > MAX_BASE_TARGET as uint64 {
        newBaseTarget := MAX_BASE_TARGET as uint64;
      }
      if newBaseTarget < currentBaseTarget * 9 / 10 {
        newBaseTarget := currentBaseTarget * 9 / 10;
      }
      if newBaseTarget == 0 {
        newBaseTarget := 1;
      }
      var twofoldCurrentBaseTarget := currentBaseTarget as int64 * 11 / 10;
      if newBaseTarget > twofoldCurrentBaseTarget as uint64 {
        newBaseTarget := twofoldCurrentBaseTarget as uint64;
      }
    }

    method EarlyRetarget(previousBlocks: seq<Block>)
      requires |previousBlocks| == 4 && this !in previousBlocks
      requires forall p :: p in previousBlocks ==> p.baseTarget as int <= MAX_BASE_TARGET
      requires Total(Heads(previousBlocks)) >= 4
      modifies this
      ensures baseTarget as int == EarlyTarget(Total(old(Heads(previousBlocks))) / 4,
                                               Elapsed(timestamp as int, previousBlocks[0].timestamp as int))
      ensures 1 <= baseTarget as int <= MAX_BASE_TARGET
      ensures cumulativeDifficulty == previousBlocks[3].cumulativeDifficulty + Work(baseTarget as int)
    {
      hide EarlyTarget, Elapsed;
      ghost var heads := Heads(previousBlocks);
      var avgBaseTargetBig: int := 0;
      for i := 0 to 4
        invariant avgBaseTargetBig == Total(heads[..i])
      {
        assert heads[..i + 1][..i] == heads[..i];
        avgBaseTargetBig := avgBaseTargetBig + previousBlocks[i].baseTarget as int;
      }
      assert heads[..4] == heads;
      TotalBound(heads);
      avgBaseTargetBig := avgBaseTargetBig / 4;
      var dt := Elapsed(timestamp as int, previousBlocks[0].timestamp as int) as int64;
      var newBaseTarget := EarlyTargetOf(avgBaseTargetBig, dt);
      baseTarget := newBaseTarget;
      cumulativeDifficulty := previousBlocks[3].cumulativeDifficulty + MAX_BIG_64 / newBaseTarget as int;
    }

    method WeightedAverage(previousBlocks: seq<Block>) returns (avgBaseTargetBig: int)
      requires |previousBlocks| == 24
      ensures avgBaseTargetBig == Weighted(Heads(previousBlocks), 0)
    {
      hide Mean;
      ghost var heads := Heads(previousBlocks);
      avgBaseTargetBig := previousBlocks[23].baseTarget as int;
      var i := 22;
      while i >= 0
        invariant -1 <= i <= 22
        invariant avgBaseTargetBig == Weighted(heads, i + 1)
      {
        MeanIs(avgBaseTargetBig, previousBlocks[i].baseTarget as int, 24 - i);
        avgBaseTargetBig := avgBaseTargetBig * (24 - i);
        avgBaseTargetBig := avgBaseTargetBig + previousBlocks[i].baseTarget as int;
        avgBaseTargetBig := avgBaseTargetBig / (25 - i);
        i := i - 1;
      }
    }

    method LateTargetOf(avgBaseTargetBig: int, currentBaseTarget: uint64,
        elapsed: int64) returns (newBaseTarget: uint64)
      requires 0 <= avgBaseTargetBig <= MAX_BASE_TARGET && 1 <= currentBaseTarget as int <= MAX_BASE_TARGET
      requires elapsed >= 0
      ensures newBaseTarget as int == LateTarget(avgBaseTargetBig, currentBaseTarget as int, elapsed as int)
      ensures 1 <= newBaseTarget as int <= MAX_BASE_TARGET
    {
      var dtTarget: int64 := 24 * 4 * 60;
      var dt := elapsed;
      if dt < dtTarget / 2 {
        dt := dtTarget / 2;
      }
      if dt > dtTarget * 2 {
        dt := dtTarget * 2;
      }
      LateRange(avgBaseTargetBig, currentBaseTarget as int, dt as int);
      var tmp1 := avgBaseTargetBig * dt as int;
      Uint64Fits(tmp1 / 5760);
      newBaseTarget := Uint64(tmp1 / dtTarget as int);
      if newBaseTarget < 0 || newBaseTarget > MAX_BASE_TARGET as uint64 {
        newBaseTarget := MAX_BASE_TARGET as uint64;
      }
      if newBaseTarget == 0 {
        newBaseTarget := 1;
      }
      if newBaseTarget < currentBaseTarget * 8 / 10 {
        newBaseTarget := currentBaseTarget * 8 / 10;
      }
      if newBaseTarget > currentBaseTarget * 12 / 10 {
        newBaseTarget := currentBaseTarget * 12 / 10;
      }
    }

    method LateRetarget(previousBlocks: seq<Block>)
      requires |previousBlocks| == 24 && this !in previousBlocks
      requires forall p :: p in previousBlocks ==> p.baseTarget as int <= MAX_BASE_TARGET
      requires previousBlocks[23].baseTarget >= 1
      modifies this
      ensures baseTarget as int == LateTarget(Weighted(old(Heads(previousBlocks)), 0),
               previousBlocks[23].baseTarget as int,
                                              Elapsed(timestamp as int, previousBlocks[0].timestamp as int))
      ensures 1 <= baseTarget as int <= MAX_BASE_TARGET
      ensures cumulativeDifficulty == previousBlocks[23].cumulativeDifficulty + Work(baseTarget as int)
    {
      hide Weighted, LateTarget;
      ghost var heads := Heads(previousBlocks);
      var avgBaseTargetBig := WeightedAverage(previousBlocks);
      WeightedBetween(heads, 0, 0, MAX_BASE_TARGET);
      var dt := Elapsed(timestamp as int, previousBlocks[0].timestamp as int) as int64;
      var newBaseTarget := LateTargetOf(avgBaseTargetBig, previousBlocks[23].baseTarget, dt);
      baseTarget := newBaseTarget;
      cumulativeDifficulty := previousBlocks[23].cumulativeDifficulty + MAX_BIG_64 / newBaseTarget as int;
    }
  }

  function Heads(blocks: seq<Block>): (s: seq<Header>)
    reads blocks
    ensures |s| == |blocks|
  {
    seq(|blocks|, i requires 0 <= i < |blocks| reads blocks => blocks[i].Head())
  }

  // ---------- chains ----------

  /** The predecessors kept at hand for the block at height h: at most 24. */
  ghost function Recent(chain: seq<Header>, h: nat): (w: seq<Header>)
    requires h <= |chain|
    ensures |w| == Min(h, 24)
  {
    chain[if h <= 24 then 0 else h - 24..h]
  }

  /** A chain grown block by block from a genesis block without work. */
  ghost predicate Grown(chain: seq<Header>)
  {
    && |chain| >= 1
    && chain[0].height == 0 && 0 <= chain[0].baseTarget <= MAX_BASE_TARGET && chain[0].cumulativeDifficulty == 0
    && (forall h :: 1 <= h < |chain| ==> chain[h] == Next(Recent(chain, h), h, chain[h].timestamp))
  }

  ghost predicate InRange(chain: seq<Header>, n: nat)
  {
    forall h :: 1 <= h < n <= |chain| ==> 1 <= chain[h].baseTarget <= MAX_BASE_TARGET
  }

  lemma TotalPositive(w: seq<Header>)
    requires |w| == 4 && 0 <= w[0].baseTarget
    requires (w[0].baseTarget >= 1 && w[1].baseTarget >= 1 && w[2].baseTarget >= 1 && w[3].baseTarget >= 1)
          || w[3].baseTarget >= 4
    requires forall i :: 0 <= i < 4 ==> w[i].baseTarget >= 0
    ensures Total(w) >= 4
  {
    assert w[..3][..2] == w[..2] && w[..2][..1] == w[..1] && w[..1][..0] == [];
    assert Total(w[..1]) == w[0].baseTarget;
    assert Total(w[..2]) == w[0].baseTarget + w[1].baseTarget;
    assert Total(w[..3]) == w[0].baseTarget + w[1].baseTarget + w[2].baseTarget;
  }

  lemma WindowHealthy(chain: seq<Header>, h: nat)
    requires Grown(chain) && 1 <= h <= |chain| && InRange(chain, h)
    ensures Healthy(Recent(chain, h), h)
  {
    hide Total, Grown, Next, Recent, Last;
    var w := Recent(chain, h);
    WindowAt(chain, h);
    GenesisRange(chain);
    if h >= 4 {
      ThirdTarget(chain);
      TotalPositive(Last(w, 4));
    }
  }

  lemma GenesisRange(chain: seq<Header>)
    requires Grown(chain)
    ensures 0 <= chain[0].baseTarget <= MAX_BASE_TARGET
  {
  }

  lemma WindowAt(chain: seq<Header>, h: nat)
    requires h <= |chain|
    ensures forall i :: 0 <= i < Min(h, 24) ==> Recent(chain, h)[i] == chain[h - Min(h, 24) + i]
    ensures forall i :: h >= 4 && 0 <= i < 4 ==> Last(Recent(chain, h), 4)[i] == chain[h - 4 + i]
    ensures h >= 24 ==> Last(Recent(chain, h), 24)[23] == chain[h - 1]
  {
  }

  lemma ThirdTarget(chain: seq<Header>)
    requires Grown(chain) && |chain| >= 4
    ensures chain[3].baseTarget == INITIAL_BASE_TARGET
  {
    assert chain[3] == Next(Recent(chain, 3), 3, chain[3].timestamp);
  }

  lemma TargetRange(previous: seq<Header>, height: int, timestamp: int)
    requires height >= 1 && Healthy(previous, height)
    ensures 1 <= Target(previous, height, timestamp) <= MAX_BASE_TARGET
  {
    if 4 <= height < ADJUST_DIFFICULTY_HEIGHT {
      var w := Last(previous, 4);
      TotalBound(w);
      EarlyRange(Total(w) / 4, Elapsed(timestamp, w[0].timestamp));
    } else if height >= ADJUST_DIFFICULTY_HEIGHT {
      var w := Last(previous, 24);
      WeightedBetween(w, 0, 0, MAX_BASE_TARGET);
      var dt := Min(Max(Elapsed(timestamp, w[0].timestamp), 2880), 11520);
      LateRange(Weighted(w, 0), w[23].baseTarget, dt);
      assert LateTarget(Weighted(w, 0), w[23].baseTarget, dt) == Target(previous, height, timestamp);
    }
  }

  /** On every grown chain each block above genesis has a base target between 1 and the maximum. */
  lemma {:induction false} TargetsInRange(chain: seq<Header>, n: nat)
    requires Grown(chain) && n <= |chain|
    ensures InRange(chain, n)
  {
    hide Target;
    if n > 1 {
      TargetsInRange(chain, n - 1);
      WindowHealthy(chain, n - 1);
      TargetRange(Recent(chain, n - 1), n - 1, chain[n - 1].timestamp);
    }
  }

  /** From height 2700 on a target moves by at most twenty percent from one block to the next. */
  lemma RetargetGentle(chain: seq<Header>, h: nat)
    requires Grown(chain) && ADJUST_DIFFICULTY_HEIGHT <= h < |chain|
    ensures chain[h - 1].baseTarget * 8 / 10 <= chain[h].baseTarget <= chain[h - 1].baseTarget * 12 / 10
  {
    hide Weighted, Total;
    TargetsInRange(chain, h);
    WindowAt(chain, h);
    assert Last(Recent(chain, h), 24)[23] == chain[h - 1];
  }

  /** The work of the blocks from height 1 to h. */
  ghost function WorkUpTo(chain: seq<Header>, h: nat): int
    requires h < |chain|
  {
    if h == 0 then 0 else WorkUpTo(chain, h - 1) + MAX_BIG_64 / Max(chain[h].baseTarget, 1)
  }

  /** The cumulative difficulty is the sum of the work below it. */
  lemma {:induction false} CumulativeIsSum(chain: seq<Header>, h: nat)
    requires Grown(chain) && h < |chain|
    ensures chain[h].cumulativeDifficulty == WorkUpTo(chain, h)
  {
    hide Target;
    if h > 0 {
      CumulativeIsSum(chain, h - 1);
      TargetsInRange(chain, h + 1);
      var w := Recent(chain, h);
      assert w[|w| - 1] == chain[h - 1];
    }
  }

  /** Every block adds work. */
  lemma {:induction false} CumulativeIncreases(chain: seq<Header>, g: nat, h: nat)
    requires Grown(chain) && g < h < |chain|
    ensures chain[g].cumulativeDifficulty < chain[h].cumulativeDifficulty
  {
    hide Grown, Next, Target, Recent;
    CumulativeIsSum(chain, h);
    CumulativeIsSum(chain, h - 1);
    TargetsInRange(chain, h + 1);
    WorkPositive(chain[h].baseTarget);
    if g < h - 1 {
      CumulativeIncreases(chain, g, h - 1);
    }
  }

  lemma WorkPositive(t: int)
    requires 1 <= t <= MAX_BASE_TARGET
    ensures MAX_BIG_64 / t > 0
  {
  }
}
