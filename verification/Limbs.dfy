/**
 Ten-limb numbers in radix 2^25.5, the representation of field elements modulo
 p = 2^255 - 19. Even limbs carry 26 bits, odd ones 25; limbs may be negative.
 */
module Limbs {
  import opened MachineWords
  import opened Modular

  const P: int := 0x7FFFFFFFFFFFFFFFFFFFFFFFFFFFFFFFFFFFFFFFFFFFFFFFFFFFFFFFFFFFFFED

  datatype Ten = Ten(c0: int, c1: int, c2: int, c3: int, c4: int, c5: int, c6: int, c7: int, c8: int, c9: int)

  /** The integer that ten limbs stand for: limb i weighs 2^ceil(25.5 i). */
  ghost function Number(v: Ten): int
  {
    v.c0 +
    0x4000000 * v.c1 +
    0x8000000000000 * v.c2 +
    0x20000000000000000000 * v.c3 +
    0x40000000000000000000000000 * v.c4 +
    0x100000000000000000000000000000000 * v.c5 +
    0x200000000000000000000000000000000000000 * v.c6 +
    0x800000000000000000000000000000000000000000000 * v.c7 +
    0x1000000000000000000000000000000000000000000000000000 * v.c8 +
    0x4000000000000000000000000000000000000000000000000000000000 * v.c9
  }

  /** A product, kept as a named term so that sums of products stay linear. */
  ghost function Mul(a: int, b: int): int
  {
    a * b
  }

  function Of(s: seq<int64>): Ten
    requires |s| == 10
  {
    Ten(s[0] as int, s[1] as int, s[2] as int, s[3] as int, s[4] as int,
        s[5] as int, s[6] as int, s[7] as int, s[8] as int, s[9] as int)
  }

  ghost function Num(a: array<int64>): int
    requires a.Length == 10
    reads a
  {
    Number(Of(a[..]))
  }

  // ---------- ranges ----------

  /** What every multiplication leaves behind: limbs in their range, the top one with a little slack. */
  ghost predicate Reduced(v: Ten)
  {
    && 0 <= v.c0 < 0x400_0000 && 0 <= v.c1 < 0x200_0000 && 0 <= v.c2 < 0x400_0000 && 0 <= v.c3 < 0x200_0000
    && 0 <= v.c4 < 0x400_0000 && 0 <= v.c5 < 0x200_0000 && 0 <= v.c6 < 0x400_0000 && 0 <= v.c7 < 0x200_0000
    && 0 <= v.c8 < 0x400_0000 && -0x1000 <= v.c9 < 0x400_0000
  }

  ghost predicate Narrow(a: int)
  {
    -0x800_0000 <= a <= 0x800_0000
  }

  /** Limbs that are a sum or a difference of two reduced ones. */
  ghost predicate Wide(v: Ten)
  {
    && Narrow(v.c0) && Narrow(v.c1) && Narrow(v.c2) && Narrow(v.c3) && Narrow(v.c4)
    && Narrow(v.c5) && Narrow(v.c6) && Narrow(v.c7) && Narrow(v.c8) && Narrow(v.c9)
  }

  ghost predicate ColumnFits(a: int)
  {
    -0x4300_0000_0000_0000 <= a <= 0x4300_0000_0000_0000
  }

  ghost predicate ColumnsFit(c: Ten)
  {
    && ColumnFits(c.c0) && ColumnFits(c.c1) && ColumnFits(c.c2) && ColumnFits(c.c3) && ColumnFits(c.c4)
    && ColumnFits(c.c5) && ColumnFits(c.c6) && ColumnFits(c.c7) && ColumnFits(c.c8) && ColumnFits(c.c9)
  }

  // ---------- products and carries ----------

  /** The ten sums of products that the schoolbook product collects per limb, with 2^255 folded to 19. */
  ghost function MulColumns(x: Ten, y: Ten): Ten
  {
    Ten(Mul(x.c0, y.c0) + 19 * (Mul(x.c2, y.c8) + Mul(x.c4, y.c6) + Mul(x.c6, y.c4) + Mul(x.c8, y.c2))
         + 38 * (Mul(x.c1, y.c9) + Mul(x.c3, y.c7) + Mul(x.c5, y.c5) + Mul(x.c7, y.c3) + Mul(x.c9, y.c1)),
        Mul(x.c0, y.c1) + Mul(x.c1, y.c0) + 19 * (Mul(x.c2, y.c9) + Mul(x.c3, y.c8) + Mul(x.c4, y.c7)
             + Mul(x.c5, y.c6) + Mul(x.c6, y.c5) + Mul(x.c7, y.c4) + Mul(x.c8, y.c3) + Mul(x.c9, y.c2)),
        Mul(x.c0, y.c2) + Mul(x.c2, y.c0) + 19 * (Mul(x.c4, y.c8) + Mul(x.c6, y.c6) + Mul(x.c8, y.c4))
             + 2 * Mul(x.c1, y.c1) + 38 * (Mul(x.c3, y.c9) + Mul(x.c5, y.c7) + Mul(x.c7, y.c5)
             + Mul(x.c9, y.c3)),
        Mul(x.c0, y.c3) + Mul(x.c1, y.c2) + Mul(x.c2, y.c1) + Mul(x.c3, y.c0) + 19 * (Mul(x.c4, y.c9)
             + Mul(x.c5, y.c8) + Mul(x.c6, y.c7) + Mul(x.c7, y.c6) + Mul(x.c8, y.c5) + Mul(x.c9, y.c4)),
        Mul(x.c0, y.c4) + Mul(x.c2, y.c2) + Mul(x.c4, y.c0) + 19 * (Mul(x.c6, y.c8) + Mul(x.c8, y.c6))
             + 2 * (Mul(x.c1, y.c3) + Mul(x.c3, y.c1)) + 38 * (Mul(x.c5, y.c9) + Mul(x.c7, y.c7)
             + Mul(x.c9, y.c5)),
        Mul(x.c0, y.c5) + Mul(x.c1, y.c4) + Mul(x.c2, y.c3) + Mul(x.c3, y.c2) + Mul(x.c4, y.c1)
             + Mul(x.c5, y.c0) + 19 * (Mul(x.c6, y.c9) + Mul(x.c7, y.c8) + Mul(x.c8, y.c7) + Mul(x.c9, y.c6)),
        Mul(x.c0, y.c6) + Mul(x.c2, y.c4) + Mul(x.c4, y.c2) + Mul(x.c6, y.c0) + 19 * Mul(x.c8, y.c8)
             + 2 * (Mul(x.c1, y.c5) + Mul(x.c3, y.c3) + Mul(x.c5, y.c1)) + 38 * (Mul(x.c7, y.c9)
             + Mul(x.c9, y.c7)),
        Mul(x.c0, y.c7) + Mul(x.c1, y.c6) + Mul(x.c2, y.c5) + Mul(x.c3, y.c4) + Mul(x.c4, y.c3)
             + Mul(x.c5, y.c2) + Mul(x.c6, y.c1) + Mul(x.c7, y.c0) + 19 * (Mul(x.c8, y.c9) + Mul(x.c9, y.c8)),
        Mul(x.c0, y.c8) + Mul(x.c2, y.c6) + Mul(x.c4, y.c4) + Mul(x.c6, y.c2) + Mul(x.c8, y.c0)
             + 2 * (Mul(x.c1, y.c7) + Mul(x.c3, y.c5) + Mul(x.c5, y.c3) + Mul(x.c7, y.c1))
             + 38 * Mul(x.c9, y.c9),
        Mul(x.c0, y.c9) + Mul(x.c1, y.c8) + Mul(x.c2, y.c7) + Mul(x.c3, y.c6) + Mul(x.c4, y.c5)
             + Mul(x.c5, y.c4) + Mul(x.c6, y.c3) + Mul(x.c7, y.c2) + Mul(x.c8, y.c1) + Mul(x.c9, y.c0))
  }


  // `>> n` and `& (2^n - 1)` on a signed word are the quotient and the remainder by 2^n

  ghost function High26(t: int): int { t / 0x400_0000 }
  ghost function High25(t: int): int { t / 0x200_0000 }
  ghost function Low26(t: int): int { t % 0x400_0000 }
  ghost function Low25(t: int): int { t % 0x200_0000 }

  function Shift26(t: int64): (r: int64)
    ensures r as int == High26(t as int) && -0x20_0000_0000 <= r < 0x20_0000_0000
  {
    t / 0x400_0000
  }

  function Shift25(t: int64): (r: int64)
    ensures r as int == High25(t as int) && -0x40_0000_0000 <= r < 0x40_0000_0000
  {
    t / 0x200_0000
  }

  function Mask26(t: int64): (r: int64)
    ensures r as int == Low26(t as int) && 0 <= r < 0x400_0000
  {
    t % 0x400_0000
  }

  function Mask25(t: int64): (r: int64)
    ensures r as int == Low25(t as int) && 0 <= r < 0x200_0000
  {
    t % 0x200_0000
  }

  /** What carries out of limb 9; it comes back in at limb 0 with weight 19. */
  ghost function WrapAround(c: Ten): int
  {
    High25(High26(c.c8) + c.c9)
  }

  /** The carry chain: starts at limb 8 so that one extra step at the end suffices. */
  ghost function Carry(c: Ten): Ten
  {
    var t9 := High26(c.c8) + c.c9;
    var t0 := 19 * High25(t9) + c.c0;
    var t1 := High26(t0) + c.c1;
    var t2 := High25(t1) + c.c2;
    var t3 := High26(t2) + c.c3;
    var t4 := High25(t3) + c.c4;
    var t5 := High26(t4) + c.c5;
    var t6 := High25(t5) + c.c6;
    var t7 := High26(t6) + c.c7;
    var t8 := High25(t7) + Low26(c.c8);
    Ten(Low26(t0), Low25(t1), Low26(t2), Low25(t3), Low26(t4), Low25(t5), Low26(t6), Low25(t7),
        Low26(t8), Low25(t9) + High26(t8))
  }

  ghost function Product(x: Ten, y: Ten): Ten
  {
    Carry(MulColumns(x, y))
  }

  /** Carrying changes the number by a multiple of p only. */
  lemma CarryNumber(c: Ten)
    ensures Number(Carry(c)) == Number(c) - P * WrapAround(c)
  {
  }

  /** Ranges of the pieces of a running sum. */
  lemma Pieces(t: int)
    requires -0x4300_1000_0000_0000 <= t <= 0x4300_1000_0000_0000
    ensures -0x21_9000_0000 <= High25(t) <= 0x21_9000_0000 && -0x10_d000_0000 <= High26(t) <= 0x10_d000_0000
    ensures 0 <= Low26(t) < 0x400_0000 && 0 <= Low25(t) < 0x200_0000
  {
  }

  lemma LastPiece(t: int)
    requires -0x22_0000_0000 <= t <= 0x22_0000_0000
    ensures -0x1000 <= High26(t) <= 0x1000
  {
  }

  lemma CarryReduced(c: Ten)
    requires ColumnsFit(c)
    ensures Reduced(Carry(c)) && Carry(c).c9 <= 0x200_1000
  {
    hide High26, High25, Low26, Low25;
    Pieces(c.c8);
    var t9 := High26(c.c8) + c.c9;
    Pieces(t9);
    var t0 := 19 * High25(t9) + c.c0;
    Pieces(t0);
    var t1 := High26(t0) + c.c1;
    Pieces(t1);
    var t2 := High25(t1) + c.c2;
    Pieces(t2);
    var t3 := High26(t2) + c.c3;
    Pieces(t3);
    var t4 := High25(t3) + c.c4;
    Pieces(t4);
    var t5 := High26(t4) + c.c5;
    Pieces(t5);
    var t6 := High25(t5) + c.c6;
    Pieces(t6);
    var t7 := High26(t6) + c.c7;
    Pieces(t7);
    var t8 := High25(t7) + Low26(c.c8);
    Pieces(t8);
    LastPiece(t8);
  }

  lemma BelowTwiceP(v: Ten)
    requires Reduced(v) && v.c9 <= 0x200_1000
    ensures Number(v) < 2 * P
  {
  }

  function Times(a: int64, b: int64): (r: int64)
    requires Narrow(a as int) && Narrow(b as int)
    ensures r as int == Mul(a as int, b as int)
    ensures -0x40_0000_0000_0000 <= r <= 0x40_0000_0000_0000
  {
    TimesBound(a as int, b as int);
    a * b
  }

  lemma TimesBound(a: int, b: int)
    requires Narrow(a) && Narrow(b)
    ensures -0x40_0000_0000_0000 <= a * b <= 0x40_0000_0000_0000
  {
    if a >= 0 {
      MulLe(b, 0x800_0000, a);
      MulLe(-0x800_0000, b, a);
    } else {
      MulLe(b, 0x800_0000, -a);
      MulLe(-0x800_0000, b, -a);
    }
  }

  function MulColumn0(carry: int64, x: seq<int64>, y: seq<int64>): (r: int64)
    requires |x| == 10 && |y| == 10 && Wide(Of(x)) && Wide(Of(y))
    requires -0x1_0000_0000_0000 <= carry <= 0x1_0000_0000_0000
    ensures r as int == MulColumns(Of(x), Of(y)).c0 + 19 * (carry as int)
    ensures ColumnFits(MulColumns(Of(x), Of(y)).c0)
  {
    hide Mul;
    Times(x[0], y[0]) + 19 * (carry + Times(x[2], y[8]) + Times(x[4], y[6]) + Times(x[6], y[4])
         + Times(x[8], y[2])) + 38 * (Times(x[1], y[9]) + Times(x[3], y[7]) + Times(x[5], y[5])
         + Times(x[7], y[3]) + Times(x[9], y[1]))
  }

  function MulColumn1(x: seq<int64>, y: seq<int64>): (r: int64)
    requires |x| == 10 && |y| == 10 && Wide(Of(x)) && Wide(Of(y))
    ensures r as int == MulColumns(Of(x), Of(y)).c1
    ensures ColumnFits(MulColumns(Of(x), Of(y)).c1)
  {
    hide Mul;
    Times(x[0], y[1]) + Times(x[1], y[0]) + 19 * (Times(x[2], y[9]) + Times(x[3], y[8]) + Times(x[4], y[7])
         + Times(x[5], y[6]) + Times(x[6], y[5]) + Times(x[7], y[4]) + Times(x[8], y[3]) + Times(x[9], y[2]))
  }

  function MulColumn2(x: seq<int64>, y: seq<int64>): (r: int64)
    requires |x| == 10 && |y| == 10 && Wide(Of(x)) && Wide(Of(y))
    ensures r as int == MulColumns(Of(x), Of(y)).c2
    ensures ColumnFits(MulColumns(Of(x), Of(y)).c2)
  {
    hide Mul;
    Times(x[0], y[2]) + Times(x[2], y[0]) + 19 * (Times(x[4], y[8]) + Times(x[6], y[6]) + Times(x[8], y[4]))
         + 2 * Times(x[1], y[1]) + 38 * (Times(x[3], y[9]) + Times(x[5], y[7]) + Times(x[7], y[5])
         + Times(x[9], y[3]))
  }

  function MulColumn3(x: seq<int64>, y: seq<int64>): (r: int64)
    requires |x| == 10 && |y| == 10 && Wide(Of(x)) && Wide(Of(y))
    ensures r as int == MulColumns(Of(x), Of(y)).c3
    ensures ColumnFits(MulColumns(Of(x), Of(y)).c3)
  {
    hide Mul;
    Times(x[0], y[3]) + Times(x[1], y[2]) + Times(x[2], y[1]) + Times(x[3], y[0]) + 19 * (Times(x[4], y[9])
         + Times(x[5], y[8]) + Times(x[6], y[7]) + Times(x[7], y[6]) + Times(x[8], y[5]) + Times(x[9], y[4]))
  }

  function MulColumn4(x: seq<int64>, y: seq<int64>): (r: int64)
    requires |x| == 10 && |y| == 10 && Wide(Of(x)) && Wide(Of(y))
    ensures r as int == MulColumns(Of(x), Of(y)).c4
    ensures ColumnFits(MulColumns(Of(x), Of(y)).c4)
  {
    hide Mul;
    Times(x[0], y[4]) + Times(x[2], y[2]) + Times(x[4], y[0]) + 19 * (Times(x[6], y[8]) + Times(x[8], y[6]))
         + 2 * (Times(x[1], y[3]) + Times(x[3], y[1])) + 38 * (Times(x[5], y[9]) + Times(x[7], y[7])
         + Times(x[9], y[5]))
  }

  function MulColumn5(x: seq<int64>, y: seq<int64>): (r: int64)
    requires |x| == 10 && |y| == 10 && Wide(Of(x)) && Wide(Of(y))
    ensures r as int == MulColumns(Of(x), Of(y)).c5
    ensures ColumnFits(MulColumns(Of(x), Of(y)).c5)
  {
    hide Mul;
    Times(x[0], y[5]) + Times(x[1], y[4]) + Times(x[2], y[3]) + Times(x[3], y[2]) + Times(x[4], y[1])
         + Times(x[5], y[0]) + 19 * (Times(x[6], y[9]) + Times(x[7], y[8]) + Times(x[8], y[7])
         + Times(x[9], y[6]))
  }

  function MulColumn6(x: seq<int64>, y: seq<int64>): (r: int64)
    requires |x| == 10 && |y| == 10 && Wide(Of(x)) && Wide(Of(y))
    ensures r as int == MulColumns(Of(x), Of(y)).c6
    ensures ColumnFits(MulColumns(Of(x), Of(y)).c6)
  {
    hide Mul;
    Times(x[0], y[6]) + Times(x[2], y[4]) + Times(x[4], y[2]) + Times(x[6], y[0]) + 19 * Times(x[8], y[8])
         + 2 * (Times(x[1], y[5]) + Times(x[3], y[3]) + Times(x[5], y[1])) + 38 * (Times(x[7], y[9])
         + Times(x[9], y[7]))
  }

  function MulColumn7(x: seq<int64>, y: seq<int64>): (r: int64)
    requires |x| == 10 && |y| == 10 && Wide(Of(x)) && Wide(Of(y))
    ensures r as int == MulColumns(Of(x), Of(y)).c7
    ensures ColumnFits(MulColumns(Of(x), Of(y)).c7)
  {
    hide Mul;
    Times(x[0], y[7]) + Times(x[1], y[6]) + Times(x[2], y[5]) + Times(x[3], y[4]) + Times(x[4], y[3])
         + Times(x[5], y[2]) + Times(x[6], y[1]) + Times(x[7], y[0]) + 19 * (Times(x[8], y[9])
         + Times(x[9], y[8]))
  }

  function MulColumn8(x: seq<int64>, y: seq<int64>): (r: int64)
    requires |x| == 10 && |y| == 10 && Wide(Of(x)) && Wide(Of(y))
    ensures r as int == MulColumns(Of(x), Of(y)).c8
    ensures ColumnFits(MulColumns(Of(x), Of(y)).c8)
  {
    hide Mul;
    Times(x[0], y[8]) + Times(x[2], y[6]) + Times(x[4], y[4]) + Times(x[6], y[2]) + Times(x[8], y[0])
         + 2 * (Times(x[1], y[7]) + Times(x[3], y[5]) + Times(x[5], y[3]) + Times(x[7], y[1]))
         + 38 * Times(x[9], y[9])
  }

  function MulColumn9(x: seq<int64>, y: seq<int64>): (r: int64)
    requires |x| == 10 && |y| == 10 && Wide(Of(x)) && Wide(Of(y))
    ensures r as int == MulColumns(Of(x), Of(y)).c9
    ensures ColumnFits(MulColumns(Of(x), Of(y)).c9)
  {
    hide Mul;
    Times(x[0], y[9]) + Times(x[1], y[8]) + Times(x[2], y[7]) + Times(x[3], y[6]) + Times(x[4], y[5])
         + Times(x[5], y[4]) + Times(x[6], y[3]) + Times(x[7], y[2]) + Times(x[8], y[1]) + Times(x[9], y[0])
  }

  function SqrColumn0(carry: int64, x: seq<int64>): (r: int64)
    requires |x| == 10 && Wide(Of(x))
    requires -0x1_0000_0000_0000 <= carry <= 0x1_0000_0000_0000
    ensures r as int == MulColumns(Of(x), Of(x)).c0 + 19 * (carry as int)
    ensures ColumnFits(MulColumns(Of(x), Of(x)).c0)
  {
    hide Mul;
    19 * (carry) + Times(x[0], x[0]) + 38 * (Times(x[2], x[8]) + Times(x[4], x[6]) + Times(x[5], x[5]))
         + 76 * (Times(x[1], x[9]) + Times(x[3], x[7]))
  }

  function SqrColumn1(x: seq<int64>): (r: int64)
    requires |x| == 10 && Wide(Of(x))
    ensures r as int == MulColumns(Of(x), Of(x)).c1
    ensures ColumnFits(MulColumns(Of(x), Of(x)).c1)
  {
    hide Mul;
    2 * Times(x[0], x[1]) + 38 * (Times(x[2], x[9]) + Times(x[3], x[8]) + Times(x[4], x[7]) + Times(x[5], x[6]))
  }

  function SqrColumn2(x: seq<int64>): (r: int64)
    requires |x| == 10 && Wide(Of(x))
    ensures r as int == MulColumns(Of(x), Of(x)).c2
    ensures ColumnFits(MulColumns(Of(x), Of(x)).c2)
  {
    hide Mul;
    19 * Times(x[6], x[6]) + 2 * (Times(x[0], x[2]) + Times(x[1], x[1])) + 38 * Times(x[4], x[8])
         + 76 * (Times(x[3], x[9]) + Times(x[5], x[7]))
  }

  function SqrColumn3(x: seq<int64>): (r: int64)
    requires |x| == 10 && Wide(Of(x))
    ensures r as int == MulColumns(Of(x), Of(x)).c3
    ensures ColumnFits(MulColumns(Of(x), Of(x)).c3)
  {
    hide Mul;
    2 * (Times(x[0], x[3]) + Times(x[1], x[2])) + 38 * (Times(x[4], x[9]) + Times(x[5], x[8])
         + Times(x[6], x[7]))
  }

  function SqrColumn4(x: seq<int64>): (r: int64)
    requires |x| == 10 && Wide(Of(x))
    ensures r as int == MulColumns(Of(x), Of(x)).c4
    ensures ColumnFits(MulColumns(Of(x), Of(x)).c4)
  {
    hide Mul;
    Times(x[2], x[2]) + 2 * Times(x[0], x[4]) + 38 * (Times(x[6], x[8]) + Times(x[7], x[7]))
         + 4 * Times(x[1], x[3]) + 76 * Times(x[5], x[9])
  }

  function SqrColumn5(x: seq<int64>): (r: int64)
    requires |x| == 10 && Wide(Of(x))
    ensures r as int == MulColumns(Of(x), Of(x)).c5
    ensures ColumnFits(MulColumns(Of(x), Of(x)).c5)
  {
    hide Mul;
    2 * (Times(x[0], x[5]) + Times(x[1], x[4]) + Times(x[2], x[3])) + 38 * (Times(x[6], x[9])
         + Times(x[7], x[8]))
  }

  function SqrColumn6(x: seq<int64>): (r: int64)
    requires |x| == 10 && Wide(Of(x))
    ensures r as int == MulColumns(Of(x), Of(x)).c6
    ensures ColumnFits(MulColumns(Of(x), Of(x)).c6)
  {
    hide Mul;
    19 * Times(x[8], x[8]) + 2 * (Times(x[0], x[6]) + Times(x[2], x[4]) + Times(x[3], x[3]))
         + 4 * Times(x[1], x[5]) + 76 * Times(x[7], x[9])
  }

  function SqrColumn7(x: seq<int64>): (r: int64)
    requires |x| == 10 && Wide(Of(x))
    ensures r as int == MulColumns(Of(x), Of(x)).c7
    ensures ColumnFits(MulColumns(Of(x), Of(x)).c7)
  {
    hide Mul;
    2 * (Times(x[0], x[7]) + Times(x[1], x[6]) + Times(x[2], x[5]) + Times(x[3], x[4])) + 38 * Times(x[8], x[9])
  }

  function SqrColumn8(x: seq<int64>): (r: int64)
    requires |x| == 10 && Wide(Of(x))
    ensures r as int == MulColumns(Of(x), Of(x)).c8
    ensures ColumnFits(MulColumns(Of(x), Of(x)).c8)
  {
    hide Mul;
    Times(x[4], x[4]) + 2 * (Times(x[0], x[8]) + Times(x[2], x[6])) + 38 * Times(x[9], x[9])
         + 4 * (Times(x[1], x[7]) + Times(x[3], x[5]))
  }

  function SqrColumn9(x: seq<int64>): (r: int64)
    requires |x| == 10 && Wide(Of(x))
    ensures r as int == MulColumns(Of(x), Of(x)).c9
    ensures ColumnFits(MulColumns(Of(x), Of(x)).c9)
  {
    hide Mul;
    2 * (Times(x[0], x[9]) + Times(x[1], x[8]) + Times(x[2], x[7]) + Times(x[3], x[6]) + Times(x[4], x[5]))
  }

  lemma ProductMeans(x: seq<int64>, y: seq<int64>)
    requires |x| == |y| == 10 && Wide(Of(x)) && Wide(Of(y))
    ensures Reduced(Product(Of(x), Of(y))) && Number(Product(Of(x), Of(y))) < 2 * P
    ensures Cong(Number(Product(Of(x), Of(y))), Number(Of(x)) * Number(Of(y)), P)
  {
    ProductNumber(Of(x), Of(y));
    hide Carry, MulColumns, Reduced, Wide, ColumnFits;
    var c8, c9, c0 := MulColumn8(x, y), MulColumn9(x, y), MulColumn0(0, x, y);
    var c1, c2, c3 := MulColumn1(x, y), MulColumn2(x, y), MulColumn3(x, y);
    var c4, c5, c6, c7 := MulColumn4(x, y), MulColumn5(x, y), MulColumn6(x, y), MulColumn7(x, y);
    CarryReduced(MulColumns(Of(x), Of(y)));
    BelowTwiceP(Product(Of(x), Of(y)));
  }

  method MulLimbs(xy: array<int64>, x: array<int64>, y: array<int64>)
    requires xy.Length == x.Length == y.Length == 10 && xy != x && xy != y
    requires Wide(Of(x[..])) && Wide(Of(y[..]))
    modifies xy
    ensures Of(xy[..]) == Product(Of(x[..]), Of(y[..]))
  {
    hide MulColumns, Wide, High26, High25, Low26, Low25, Shift26, Shift25, Mask26, Mask25;
    hide MulColumn0, MulColumn1, MulColumn2, MulColumn3, MulColumn4, MulColumn5, MulColumn6, MulColumn7, MulColumn8,
        MulColumn9;
    var t := MulColumn8(x[..], y[..]);
    xy[8] := Mask26(t);
    t := Shift26(t) + MulColumn9(x[..], y[..]);
    xy[9] := Mask25(t);
    t := MulColumn0(Shift25(t), x[..], y[..]);
    xy[0] := Mask26(t);
    t := Shift26(t) + MulColumn1(x[..], y[..]);
    xy[1] := Mask25(t);
    t := Shift25(t) + MulColumn2(x[..], y[..]);
    xy[2] := Mask26(t);
    t := Shift26(t) + MulColumn3(x[..], y[..]);
    xy[3] := Mask25(t);
    t := Shift25(t) + MulColumn4(x[..], y[..]);
    xy[4] := Mask26(t);
    t := Shift26(t) + MulColumn5(x[..], y[..]);
    xy[5] := Mask25(t);
    t := Shift25(t) + MulColumn6(x[..], y[..]);
    xy[6] := Mask26(t);
    t := Shift26(t) + MulColumn7(x[..], y[..]);
    xy[7] := Mask25(t);
    t := Shift25(t) + xy[8];
    xy[8] := Mask26(t);
    xy[9] := xy[9] + Shift26(t);
  }

  method SqrLimbs(x2: array<int64>, x: array<int64>)
    requires x2.Length == x.Length == 10 && x2 != x
    requires Wide(Of(x[..]))
    modifies x2
    ensures Of(x2[..]) == Product(Of(x[..]), Of(x[..]))
  {
    hide MulColumns, Wide, High26, High25, Low26, Low25, Shift26, Shift25, Mask26, Mask25;
    hide SqrColumn0, SqrColumn1, SqrColumn2, SqrColumn3, SqrColumn4, SqrColumn5, SqrColumn6, SqrColumn7, SqrColumn8,
        SqrColumn9;
    var t := SqrColumn8(x[..]);
    x2[8] := Mask26(t);
    t := Shift26(t) + SqrColumn9(x[..]);
    x2[9] := Mask25(t);
    t := SqrColumn0(Shift25(t), x[..]);
    x2[0] := Mask26(t);
    t := Shift26(t) + SqrColumn1(x[..]);
    x2[1] := Mask25(t);
    t := Shift25(t) + SqrColumn2(x[..]);
    x2[2] := Mask26(t);
    t := Shift26(t) + SqrColumn3(x[..]);
    x2[3] := Mask25(t);
    t := Shift25(t) + SqrColumn4(x[..]);
    x2[4] := Mask26(t);
    t := Shift26(t) + SqrColumn5(x[..]);
    x2[5] := Mask25(t);
    t := Shift25(t) + SqrColumn6(x[..]);
    x2[6] := Mask26(t);
    t := Shift26(t) + SqrColumn7(x[..]);
    x2[7] := Mask25(t);
    t := Shift25(t) + x2[8];
    x2[8] := Mask26(t);
    x2[9] := x2[9] + Shift26(t);
  }

  // ---------- the product is the product ----------

  ghost function Scaled(a: int, y: Ten): Ten
  {
    Ten(Mul(a, y.c0), Mul(a, y.c1), Mul(a, y.c2), Mul(a, y.c3), Mul(a, y.c4),
        Mul(a, y.c5), Mul(a, y.c6), Mul(a, y.c7), Mul(a, y.c8), Mul(a, y.c9))
  }

  lemma NumberScales(a: int, y: Ten)
    ensures Number(Scaled(a, y)) == a * Number(y)
  {
  }

  /** The share of limbs 0 to 3 of x in the columns. */
  ghost function LowColumns(x: Ten, y: Ten): Ten
  {
    Ten(Mul(x.c0, y.c0) + 38 * Mul(x.c1, y.c9) + 19 * Mul(x.c2, y.c8) + 38 * Mul(x.c3, y.c7),
        Mul(x.c0, y.c1) + Mul(x.c1, y.c0) + 19 * Mul(x.c2, y.c9) + 19 * Mul(x.c3, y.c8),
        Mul(x.c0, y.c2) + 2 * Mul(x.c1, y.c1) + Mul(x.c2, y.c0) + 38 * Mul(x.c3, y.c9),
        Mul(x.c0, y.c3) + Mul(x.c1, y.c2) + Mul(x.c2, y.c1) + Mul(x.c3, y.c0),
        Mul(x.c0, y.c4) + 2 * Mul(x.c1, y.c3) + Mul(x.c2, y.c2) + 2 * Mul(x.c3, y.c1),
        Mul(x.c0, y.c5) + Mul(x.c1, y.c4) + Mul(x.c2, y.c3) + Mul(x.c3, y.c2),
        Mul(x.c0, y.c6) + 2 * Mul(x.c1, y.c5) + Mul(x.c2, y.c4) + 2 * Mul(x.c3, y.c3),
        Mul(x.c0, y.c7) + Mul(x.c1, y.c6) + Mul(x.c2, y.c5) + Mul(x.c3, y.c4),
        Mul(x.c0, y.c8) + 2 * Mul(x.c1, y.c7) + Mul(x.c2, y.c6) + 2 * Mul(x.c3, y.c5),
        Mul(x.c0, y.c9) + Mul(x.c1, y.c8) + Mul(x.c2, y.c7) + Mul(x.c3, y.c6))
  }

  /** The multiple of p that folding 2^255 to 19 takes away from them. */
  ghost function LowFolded(x: Ten, y: Ten): int
  {
    2 * Mul(x.c1, y.c9) + Mul(x.c2, y.c8) + 0x4000000 * Mul(x.c2, y.c9) + 2 * Mul(x.c3, y.c7)
    + 0x4000000 * Mul(x.c3, y.c8) + 0x10000000000000 * Mul(x.c3, y.c9)
  }

  lemma LowRows(x: Ten, y: Ten)
    ensures Number(Scaled(x.c0, y)) + 0x4000000 * Number(Scaled(x.c1, y))
           + 0x8000000000000 * Number(Scaled(x.c2, y)) + 0x20000000000000000000 * Number(Scaled(x.c3, y))
         == Number(LowColumns(x, y)) + P * LowFolded(x, y)
  {
    hide Mul;
  }

  /** The share of limbs 4 to 6 of x in the columns. */
  ghost function MiddleColumns(x: Ten, y: Ten): Ten
  {
    Ten(19 * Mul(x.c4, y.c6) + 38 * Mul(x.c5, y.c5) + 19 * Mul(x.c6, y.c4),
        19 * Mul(x.c4, y.c7) + 19 * Mul(x.c5, y.c6) + 19 * Mul(x.c6, y.c5),
        19 * Mul(x.c4, y.c8) + 38 * Mul(x.c5, y.c7) + 19 * Mul(x.c6, y.c6),
        19 * Mul(x.c4, y.c9) + 19 * Mul(x.c5, y.c8) + 19 * Mul(x.c6, y.c7),
        Mul(x.c4, y.c0) + 38 * Mul(x.c5, y.c9) + 19 * Mul(x.c6, y.c8),
        Mul(x.c4, y.c1) + Mul(x.c5, y.c0) + 19 * Mul(x.c6, y.c9),
        Mul(x.c4, y.c2) + 2 * Mul(x.c5, y.c1) + Mul(x.c6, y.c0),
        Mul(x.c4, y.c3) + Mul(x.c5, y.c2) + Mul(x.c6, y.c1),
        Mul(x.c4, y.c4) + 2 * Mul(x.c5, y.c3) + Mul(x.c6, y.c2),
        Mul(x.c4, y.c5) + Mul(x.c5, y.c4) + Mul(x.c6, y.c3))
  }

  /** The multiple of p that folding 2^255 to 19 takes away from them. */
  ghost function MiddleFolded(x: Ten, y: Ten): int
  {
    Mul(x.c4, y.c6) + 0x4000000 * Mul(x.c4, y.c7) + 0x8000000000000 * Mul(x.c4, y.c8)
    + 0x20000000000000000000 * Mul(x.c4, y.c9) + 2 * Mul(x.c5, y.c5) + 0x4000000 * Mul(x.c5, y.c6)
    + 0x10000000000000 * Mul(x.c5, y.c7) + 0x20000000000000000000 * Mul(x.c5, y.c8)
    + 0x80000000000000000000000000 * Mul(x.c5, y.c9) + Mul(x.c6, y.c4) + 0x4000000 * Mul(x.c6, y.c5)
    + 0x8000000000000 * Mul(x.c6, y.c6) + 0x20000000000000000000 * Mul(x.c6, y.c7)
    + 0x40000000000000000000000000 * Mul(x.c6, y.c8) + 0x100000000000000000000000000000000 * Mul(x.c6, y.c9)
  }

  lemma MiddleRows(x: Ten, y: Ten)
    ensures 0x40000000000000000000000000 * Number(Scaled(x.c4, y))
           + 0x100000000000000000000000000000000 * Number(Scaled(x.c5, y))
           + 0x200000000000000000000000000000000000000 * Number(Scaled(x.c6, y))
         == Number(MiddleColumns(x, y)) + P * MiddleFolded(x, y)
  {
    hide Mul;
  }

  /** The share of limbs 7 to 8 of x in the columns. */
  ghost function HighColumns(x: Ten, y: Ten): Ten
  {
    Ten(38 * Mul(x.c7, y.c3) + 19 * Mul(x.c8, y.c2),
        19 * Mul(x.c7, y.c4) + 19 * Mul(x.c8, y.c3),
        38 * Mul(x.c7, y.c5) + 19 * Mul(x.c8, y.c4),
        19 * Mul(x.c7, y.c6) + 19 * Mul(x.c8, y.c5),
        38 * Mul(x.c7, y.c7) + 19 * Mul(x.c8, y.c6),
        19 * Mul(x.c7, y.c8) + 19 * Mul(x.c8, y.c7),
        38 * Mul(x.c7, y.c9) + 19 * Mul(x.c8, y.c8),
        Mul(x.c7, y.c0) + 19 * Mul(x.c8, y.c9),
        2 * Mul(x.c7, y.c1) + Mul(x.c8, y.c0),
        Mul(x.c7, y.c2) + Mul(x.c8, y.c1))
  }

  /** The multiple of p that folding 2^255 to 19 takes away from them. */
  ghost function HighFolded(x: Ten, y: Ten): int
  {
    2 * Mul(x.c7, y.c3) + 0x4000000 * Mul(x.c7, y.c4) + 0x10000000000000 * Mul(x.c7, y.c5)
    + 0x20000000000000000000 * Mul(x.c7, y.c6) + 0x80000000000000000000000000 * Mul(x.c7, y.c7)
    + 0x100000000000000000000000000000000 * Mul(x.c7, y.c8)
    + 0x400000000000000000000000000000000000000 * Mul(x.c7, y.c9) + Mul(x.c8, y.c2)
    + 0x4000000 * Mul(x.c8, y.c3) + 0x8000000000000 * Mul(x.c8, y.c4) + 0x20000000000000000000 * Mul(x.c8, y.c5)
    + 0x40000000000000000000000000 * Mul(x.c8, y.c6) + 0x100000000000000000000000000000000 * Mul(x.c8, y.c7)
    + 0x200000000000000000000000000000000000000 * Mul(x.c8, y.c8)
    + 0x800000000000000000000000000000000000000000000 * Mul(x.c8, y.c9)
  }

  lemma HighRows(x: Ten, y: Ten)
    ensures 0x800000000000000000000000000000000000000000000 * Number(Scaled(x.c7, y))
           + 0x1000000000000000000000000000000000000000000000000000 * Number(Scaled(x.c8, y))
         == Number(HighColumns(x, y)) + P * HighFolded(x, y)
  {
    hide Mul;
  }

  /** The share of limb 9 of x in the columns. */
  ghost function TopColumns(x: Ten, y: Ten): Ten
  {
    Ten(38 * Mul(x.c9, y.c1),
        19 * Mul(x.c9, y.c2),
        38 * Mul(x.c9, y.c3),
        19 * Mul(x.c9, y.c4),
        38 * Mul(x.c9, y.c5),
        19 * Mul(x.c9, y.c6),
        38 * Mul(x.c9, y.c7),
        19 * Mul(x.c9, y.c8),
        38 * Mul(x.c9, y.c9),
        Mul(x.c9, y.c0))
  }

  /** The multiple of p that folding 2^255 to 19 takes away from them. */
  ghost function TopFolded(x: Ten, y: Ten): int
  {
    2 * Mul(x.c9, y.c1) + 0x4000000 * Mul(x.c9, y.c2) + 0x10000000000000 * Mul(x.c9, y.c3)
    + 0x20000000000000000000 * Mul(x.c9, y.c4) + 0x80000000000000000000000000 * Mul(x.c9, y.c5)
    + 0x100000000000000000000000000000000 * Mul(x.c9, y.c6)
    + 0x400000000000000000000000000000000000000 * Mul(x.c9, y.c7)
    + 0x800000000000000000000000000000000000000000000 * Mul(x.c9, y.c8)
    + 0x2000000000000000000000000000000000000000000000000000 * Mul(x.c9, y.c9)
  }

  lemma TopRows(x: Ten, y: Ten)
    ensures 0x4000000000000000000000000000000000000000000000000000000000 * Number(Scaled(x.c9, y))
         == Number(TopColumns(x, y)) + P * TopFolded(x, y)
  {
    hide Mul;
  }

  /** All hundred partial products, row by row. */
  ghost function Rows(x: Ten, y: Ten): Ten
  {
    Ten(Number(Scaled(x.c0, y)), Number(Scaled(x.c1, y)), Number(Scaled(x.c2, y)), Number(Scaled(x.c3, y)),
        Number(Scaled(x.c4, y)), Number(Scaled(x.c5, y)), Number(Scaled(x.c6, y)), Number(Scaled(x.c7, y)),
        Number(Scaled(x.c8, y)), Number(Scaled(x.c9, y)))
  }

  /** Gathering the partial products by column changes their sum by a multiple of p. */
  lemma ColumnsAreRows(x: Ten, y: Ten)
    ensures Number(Rows(x, y)) == Number(MulColumns(x, y)) + P * (LowFolded(x, y) + MiddleFolded(x, y)
             + HighFolded(x, y) + TopFolded(x, y))
  {
    ColumnsSplit(x, y);
    hide Mul, Scaled, MulColumns, LowColumns, MiddleColumns, HighColumns, TopColumns;
    hide LowFolded, MiddleFolded, HighFolded, TopFolded;
    LowRows(x, y);
    MiddleRows(x, y);
    HighRows(x, y);
    TopRows(x, y);
    var high := Plus(HighColumns(x, y), TopColumns(x, y));
    NumberAdds(HighColumns(x, y), TopColumns(x, y));
    NumberAdds(MiddleColumns(x, y), high);
    NumberAdds(LowColumns(x, y), Plus(MiddleColumns(x, y), high));
  }

  ghost function Plus(u: Ten, v: Ten): Ten
  {
    Ten(u.c0 + v.c0, u.c1 + v.c1, u.c2 + v.c2, u.c3 + v.c3, u.c4 + v.c4,
        u.c5 + v.c5, u.c6 + v.c6, u.c7 + v.c7, u.c8 + v.c8, u.c9 + v.c9)
  }

  ghost function Minus(u: Ten, v: Ten): Ten
  {
    Ten(u.c0 - v.c0, u.c1 - v.c1, u.c2 - v.c2, u.c3 - v.c3, u.c4 - v.c4,
        u.c5 - v.c5, u.c6 - v.c6, u.c7 - v.c7, u.c8 - v.c8, u.c9 - v.c9)
  }

  lemma NumberAdds(u: Ten, v: Ten)
    ensures Number(Plus(u, v)) == Number(u) + Number(v)
  {
  }

  lemma ColumnsSplit(x: Ten, y: Ten)
    ensures MulColumns(x, y)
         == Plus(LowColumns(x, y), Plus(MiddleColumns(x, y), Plus(HighColumns(x, y), TopColumns(x, y))))
  {
    hide Mul;
  }

  /** Limb products represent products modulo p. */
  lemma ProductNumber(x: Ten, y: Ten)
    ensures Cong(Number(Product(x, y)), Number(x) * Number(y), P)
  {
    hide Mul, MulColumns, LowFolded, MiddleFolded, HighFolded, TopFolded, Carry, WrapAround, Cong;
    CarryNumber(MulColumns(x, y));
    ColumnsAreRows(x, y);
    RowsNumber(x, y);
    hide Number;
    var k := LowFolded(x, y) + MiddleFolded(x, y) + HighFolded(x, y) + TopFolded(x, y) + WrapAround(MulColumns(x, y));
    assert Number(Product(x, y)) == Number(x) * Number(y) + (-k) * P;
    CongIntro(Number(Product(x, y)), Number(x) * Number(y), -k, P);
  }

  lemma RowsNumber(x: Ten, y: Ten)
    ensures Number(Rows(x, y)) == Number(x) * Number(y)
  {
    var n := Number(y);
    assert Rows(x, y) == Scaled(n, x) by {
      hide Number;
      forall a: int ensures Number(Scaled(a, y)) == Mul(n, a) {
        NumberScales(a, y);
      }
      hide Mul;
    }
    NumberScales(n, x);
  }

  // ---------- small multiples, sums and differences ----------

  function TimesSmall(a: int64, b: int64): (r: int64)
    requires Narrow(a as int) && -0x10_0000 <= b <= 0x10_0000
    ensures r as int == Mul(b as int, a as int)
    ensures -0x8000_0000_0000 <= r <= 0x8000_0000_0000
  {
    SmallBound(a as int, b as int);
    a * b
  }

  lemma SmallBound(a: int, b: int)
    requires Narrow(a) && -0x10_0000 <= b <= 0x10_0000
    ensures -0x8000_0000_0000 <= a * b <= 0x8000_0000_0000
  {
    if a >= 0 {
      MulLe(b, 0x10_0000, a);
      MulLe(-0x10_0000, b, a);
    } else {
      MulLe(b, 0x10_0000, -a);
      MulLe(-0x10_0000, b, -a);
    }
  }

  ghost function SmallProduct(a: int, x: Ten): Ten
  {
    Carry(Scaled(a, x))
  }

  lemma SmallProductMeans(x: seq<int64>, y: int64)
    requires |x| == 10 && Wide(Of(x)) && -0x10_0000 <= y <= 0x10_0000
    ensures Reduced(SmallProduct(y as int, Of(x)))
    ensures Cong(Number(SmallProduct(y as int, Of(x))), y as int * Number(Of(x)), P)
  {
    var c := Scaled(y as int, Of(x));
    assert ColumnsFit(c) by {
      hide Mul;
      forall i | 0 <= i < 10 ensures Narrow(x[i] as int) && ColumnFits(Mul(y as int, x[i] as int)) {
        var r := TimesSmall(x[i], y);
      }
    }
    CarryReduced(c);
    CarryNumber(c);
    NumberScales(y as int, Of(x));
    hide Number, Carry, Scaled;
    CongIntro(Number(Carry(c)), Number(c), -WrapAround(c), P);
  }

  lemma SmallColumns(x: seq<int64>, y: int64)
    requires |x| == 10 && Wide(Of(x)) && -0x10_0000 <= y <= 0x10_0000
    ensures forall i :: 0 <= i < 10 ==> Narrow(x[i] as int)
    ensures TimesSmall(x[0], y) as int == Scaled(y as int, Of(x)).c0
    ensures TimesSmall(x[1], y) as int == Scaled(y as int, Of(x)).c1
    ensures TimesSmall(x[2], y) as int == Scaled(y as int, Of(x)).c2
    ensures TimesSmall(x[3], y) as int == Scaled(y as int, Of(x)).c3
    ensures TimesSmall(x[4], y) as int == Scaled(y as int, Of(x)).c4
    ensures TimesSmall(x[5], y) as int == Scaled(y as int, Of(x)).c5
    ensures TimesSmall(x[6], y) as int == Scaled(y as int, Of(x)).c6
    ensures TimesSmall(x[7], y) as int == Scaled(y as int, Of(x)).c7
    ensures TimesSmall(x[8], y) as int == Scaled(y as int, Of(x)).c8
    ensures TimesSmall(x[9], y) as int == Scaled(y as int, Of(x)).c9
    ensures ColumnsFit(Scaled(y as int, Of(x)))
  {
    hide Mul;
    forall i | 0 <= i < 10 ensures Narrow(x[i] as int) && ColumnFits(Mul(y as int, x[i] as int)) {
      var r := TimesSmall(x[i], y);
    }
  }

  // the output may be an input

  method MulSmall(xy: array<int64>, x: array<int64>, y: int64)
    requires xy.Length == x.Length == 10
    requires Wide(Of(x[..])) && -0x10_0000 <= y <= 0x10_0000
    modifies xy
    ensures Of(xy[..]) == SmallProduct(y as int, old(Of(x[..])))
  {
    hide Scaled, Wide, High26, High25, Low26, Low25, Shift26, Shift25, Mask26, Mask25, TimesSmall;
    hide Narrow, Mul, ColumnFits;
    ghost var u := x[..];
    SmallColumns(u, y);
    var t := TimesSmall(x[8], y);
    xy[8] := Mask26(t);
    t := Shift26(t) + TimesSmall(x[9], y);
    xy[9] := Mask25(t);
    t := 19 * Shift25(t) + TimesSmall(x[0], y);
    xy[0] := Mask26(t);
    t := Shift26(t) + TimesSmall(x[1], y);
    xy[1] := Mask25(t);
    t := Shift25(t) + TimesSmall(x[2], y);
    xy[2] := Mask26(t);
    t := Shift26(t) + TimesSmall(x[3], y);
    xy[3] := Mask25(t);
    t := Shift25(t) + TimesSmall(x[4], y);
    xy[4] := Mask26(t);
    t := Shift26(t) + TimesSmall(x[5], y);
    xy[5] := Mask25(t);
    t := Shift25(t) + TimesSmall(x[6], y);
    xy[6] := Mask26(t);
    t := Shift26(t) + TimesSmall(x[7], y);
    xy[7] := Mask25(t);
    t := Shift25(t) + xy[8];
    xy[8] := Mask26(t);
    xy[9] := xy[9] + Shift26(t);
  }

  method Add(xy: array<int64>, x: array<int64>, y: array<int64>)
    requires xy.Length == x.Length == y.Length == 10
    requires Reduced(Of(x[..])) && Reduced(Of(y[..]))
    modifies xy
    ensures Of(xy[..]) == Plus(old(Of(x[..])), old(Of(y[..])))
  {
    xy[0] := x[0] + y[0];
    xy[1] := x[1] + y[1];
    xy[2] := x[2] + y[2];
    xy[3] := x[3] + y[3];
    xy[4] := x[4] + y[4];
    xy[5] := x[5] + y[5];
    xy[6] := x[6] + y[6];
    xy[7] := x[7] + y[7];
    xy[8] := x[8] + y[8];
    xy[9] := x[9] + y[9];
  }

  method Sub(xy: array<int64>, x: array<int64>, y: array<int64>)
    requires xy.Length == x.Length == y.Length == 10
    requires Reduced(Of(x[..])) && Reduced(Of(y[..]))
    modifies xy
    ensures Of(xy[..]) == Minus(old(Of(x[..])), old(Of(y[..])))
  {
    xy[0] := x[0] - y[0];
    xy[1] := x[1] - y[1];
    xy[2] := x[2] - y[2];
    xy[3] := x[3] - y[3];
    xy[4] := x[4] - y[4];
    xy[5] := x[5] - y[5];
    xy[6] := x[6] - y[6];
    xy[7] := x[7] - y[7];
    xy[8] := x[8] - y[8];
    xy[9] := x[9] - y[9];
  }

  lemma SumMeans(u: Ten, v: Ten)
    requires Reduced(u) && Reduced(v)
    ensures Wide(Plus(u, v)) && Wide(Minus(u, v))
    ensures Number(Plus(u, v)) == Number(u) + Number(v)
    ensures Number(Minus(u, v)) == Number(u) - Number(v)
  {
  }

  method Cpy(out: array<int64>, src: array<int64>)
    requires out.Length == src.Length == 10
    modifies out
    ensures out[..] == old(src[..])
  {
    out[0] := src[0];
    out[1] := src[1];
    out[2] := src[2];
    out[3] := src[3];
    out[4] := src[4];
    out[5] := src[5];
    out[6] := src[6];
    out[7] := src[7];
    out[8] := src[8];
    out[9] := src[9];
  }

  method Set(out: array<int64>, src: int64)
    requires out.Length == 10
    modifies out
    ensures out[..] == [src, 0, 0, 0, 0, 0, 0, 0, 0, 0] && Num(out) == src as int
    ensures 0 <= src < 0x400_0000 ==> Reduced(Of(out[..]))
  {
    out[0] := src;
    out[1] := 0;
    out[2] := 0;
    out[3] := 0;
    out[4] := 0;
    out[5] := 0;
    out[6] := 0;
    out[7] := 0;
    out[8] := 0;
    out[9] := 0;
  }
}
