/** Field elements as 32-byte strings: unpacking, packing and the canonical-form test. */
module FieldBytes {
  import opened Modular
  import opened LittleEndian
  import opened Limbs
  import opened MachineWords

  // ---------- byte strings as 32-bit words ----------

  const TWO_256 := 0x10000000000000000000000000000000000000000000000000000000000000000

  /** The weight of the top limb, 2^230. */
  const TOP_WEIGHT := 0x4000000000000000000000000000000000000000000000000000000000

  ghost function Word(s: seq<byte>, k: nat): int
    requires 4 * k + 4 <= |s|
  {
    s[4 * k] as int + 0x100 * (s[4 * k + 1] as int) + 0x1_0000 * (s[4 * k + 2] as int) + 0x100_0000 * (s[4 * k
        + 3] as int)
  }

  lemma ValueWord(s: seq<byte>, k: nat)
    requires 4 * k + 4 <= |s|
    ensures Value(s[..4 * k + 4]) == Value(s[..4 * k]) + Radix(4 * k) * Word(s, k)
    ensures Radix(4 * k + 4) == 0x1_0000_0000 * Radix(4 * k)
  {
    hide Value, Radix;
    var n := 4 * k;
    ValueTake(s, n);
    ValueTake(s, n + 1);
    ValueTake(s, n + 2);
    ValueTake(s, n + 3);
    RadixStep(n);
    RadixStep(n + 1);
    RadixStep(n + 2);
    RadixStep(n + 3);
    WordAlgebra(Radix(n), s[n], s[n + 1], s[n + 2], s[n + 3], Radix(n + 1), Radix(n + 2), Radix(n + 3));
  }

  lemma WordAlgebra(r: int, a: int, b: int, c: int, d: int, r1: int, r2: int, r3: int)
    requires r1 == 0x100 * r && r2 == 0x1_0000 * r && r3 == 0x100_0000 * r
    ensures a * r + b * r1 + c * r2 + d * r3 == r * (a + 0x100 * b + 0x1_0000 * c + 0x100_0000 * d)
  {
  }

  /** The number in 32 bytes, word by word. */
  lemma ValueWords(s: seq<byte>)
    requires |s| == 32
    ensures Value(s) == WordSum(Word(s, 0), Word(s, 1), Word(s, 2), Word(s, 3), Word(s, 4), Word(s, 5), Word(s, 6),
             Word(s, 7))
  {
    hide Value, Radix, Word;
    ValueZeros(s[..0]);
    RadixAtZero();
    ValueWord(s, 0);
    ValueWord(s, 1);
    ValueWord(s, 2);
    ValueWord(s, 3);
    ValueWord(s, 4);
    ValueWord(s, 5);
    ValueWord(s, 6);
    ValueWord(s, 7);
    assert s[..32] == s;
  }

  lemma RadixAtZero()
    ensures Radix(0) == 1
  {
  }

  ghost function WordSum(a: int, b: int, c: int, d: int, e: int, f: int, g: int, h: int): int
  {
    a + 0x1_0000_0000 * b + 0x10000000000000000 * c + 0x1000000000000000000000000 * d +
    0x100000000000000000000000000000000 * e + 0x10000000000000000000000000000000000000000 * f +
    0x1000000000000000000000000000000000000000000000000 * g
        + 0x100000000000000000000000000000000000000000000000000000000 * h
  }

  // ---------- unpack ----------

  /** The limbs cut out of 32 bytes; all bit groups are disjoint, so OR is a sum. */
  ghost function Unpacked(m: seq<byte>): Ten
    requires |m| == 32
  {
    Ten((m[0] as int) + (m[1] as int) * 0x100 + (m[2] as int) * 0x1_0000 + (m[3] as int) % 4 * 0x100_0000,
        (m[3] as int) / 4 + (m[4] as int) * 0x40 + (m[5] as int) * 0x4000 + (m[6] as int) % 8 * 0x40_0000,
        (m[6] as int) / 8 + (m[7] as int) * 0x20 + (m[8] as int) * 0x2000 + (m[9] as int) % 32 * 0x20_0000,
        (m[9] as int) / 32 + (m[10] as int) * 0x8 + (m[11] as int) * 0x800 + (m[12] as int) % 64 * 0x8_0000,
        (m[12] as int) / 64 + (m[13] as int) * 0x4 + (m[14] as int) * 0x400 + (m[15] as int) * 0x4_0000,
        (m[16] as int) + (m[17] as int) * 0x100 + (m[18] as int) * 0x1_0000 + (m[19] as int) % 2 * 0x100_0000,
        (m[19] as int) / 2 + (m[20] as int) * 0x80 + (m[21] as int) * 0x8000 + (m[22] as int) % 8 * 0x80_0000,
        (m[22] as int) / 8 + (m[23] as int) * 0x20 + (m[24] as int) * 0x2000 + (m[25] as int) % 16 * 0x20_0000,
        (m[25] as int) / 16 + (m[26] as int) * 0x10 + (m[27] as int) * 0x1000 + (m[28] as int) % 64 * 0x10_0000,
        (m[28] as int) / 64 + (m[29] as int) * 0x4 + (m[30] as int) * 0x400 + (m[31] as int) * 0x4_0000)
  }

  lemma UnpackedValue(m: seq<byte>)
    requires |m| == 32
    ensures Number(Unpacked(m)) == Value(m)
  {
    ValueWords(m);
    LowHalf(m);
    HighHalf(m);
    hide Value, Word, Unpacked;
  }

  lemma LowHalf(m: seq<byte>)
    requires |m| == 32
    ensures Unpacked(m).c0 + 0x4000000 * Unpacked(m).c1 + 0x8000000000000 * Unpacked(m).c2
           + 0x20000000000000000000 * Unpacked(m).c3 + 0x40000000000000000000000000 * Unpacked(m).c4
         == Word(m, 0) + 0x100000000 * Word(m, 1) + 0x10000000000000000 * Word(m, 2)
           + 0x1000000000000000000000000 * Word(m, 3)
  {
  }

  lemma HighHalf(m: seq<byte>)
    requires |m| == 32
    ensures Unpacked(m).c5 + 0x2000000 * Unpacked(m).c6 + 0x8000000000000 * Unpacked(m).c7
           + 0x10000000000000000000 * Unpacked(m).c8 + 0x40000000000000000000000000 * Unpacked(m).c9
         == Word(m, 4) + 0x100000000 * Word(m, 5) + 0x10000000000000000 * Word(m, 6)
           + 0x1000000000000000000000000 * Word(m, 7)
  {
  }

  lemma UnpackedReduced(m: seq<byte>)
    requires |m| == 32
    ensures Reduced(Unpacked(m)) && Unpacked(m).c9 >= 0
  {
  }

  method Unpack(x: array<int64>, m: array<byte>)
    requires x.Length == 10 && m.Length == 32
    modifies x
    ensures Of(x[..]) == Unpacked(m[..])
  {
    x[0] := (m[0] as int64) + (m[1] as int64) * 0x100 + (m[2] as int64) * 0x1_0000 + (m[3] as int64) % 4 * 0x100_0000;
    x[1] := (m[3] as int64) / 4 + (m[4] as int64) * 0x40 + (m[5] as int64) * 0x4000 + (m[6] as int64) % 8 * 0x40_0000;
    x[2] := (m[6] as int64) / 8 + (m[7] as int64) * 0x20 + (m[8] as int64) * 0x2000 + (m[9] as int64) % 32 * 0x20_0000;
    x[3] := (m[9] as int64) / 32 + (m[10] as int64) * 0x8 + (m[11] as int64) * 0x800 + (m[12] as int64) % 64 * 0x8_0000;
    x[4] := (m[12] as int64) / 64 + (m[13] as int64) * 0x4 + (m[14] as int64) * 0x400 + (m[15] as int64) * 0x4_0000;
    x[5] := (m[16] as int64) + (m[17] as int64) * 0x100 + (m[18] as int64) * 0x1_0000
        + (m[19] as int64) % 2 * 0x100_0000;
    x[6] := (m[19] as int64) / 2 + (m[20] as int64) * 0x80 + (m[21] as int64) * 0x8000
        + (m[22] as int64) % 8 * 0x80_0000;
    x[7] := (m[22] as int64) / 8 + (m[23] as int64) * 0x20 + (m[24] as int64) * 0x2000
        + (m[25] as int64) % 16 * 0x20_0000;
    x[8] := (m[25] as int64) / 16 + (m[26] as int64) * 0x10 + (m[27] as int64) * 0x1000
        + (m[28] as int64) % 64 * 0x10_0000;
    x[9] := (m[28] as int64) / 64 + (m[29] as int64) * 0x4 + (m[30] as int64) * 0x400 + (m[31] as int64) * 0x4_0000;
  }

  // ---------- overflow test ----------

  /** Bitwise AND of two's complement integers of any width. */
  function And(a: int, b: int): int
    decreases if a < 0 then -a else a
  {
    if a == 0 || b == 0 then 0
    else if a == -1 then b
    else if b == -1 then a
    else (a % 2) * (b % 2) + 2 * And(a / 2, b / 2)
  }

  ghost function Ones(k: nat): int
  {
    if k == 0 then 0 else 1 + 2 * Ones(k - 1)
  }

  /** Within k bits, only all-ones AND all-ones gives all ones. */
  lemma {:induction false} AndOnes(a: int, b: int, k: nat)
    requires 0 <= a <= Ones(k)
    ensures 0 <= And(a, b) <= Ones(k)
    ensures And(a, b) == Ones(k) <==> a == Ones(k) && b % (Ones(k) + 1) == Ones(k)
  {
    if k > 0 {
      var o := Ones(k - 1);
      LowOnes(b, o);
      if a == 0 || b == 0 {
        assert 0 % (2 * o + 2) == 0;
      } else if b == -1 {
        RemainderUnique(-1, 2 * o + 1, -1, 2 * o + 2);
      } else {
        AndOnes(a / 2, b / 2, k - 1);
        assert And(a, b) == (a % 2) * (b % 2) + 2 * And(a / 2, b / 2);
        hide And, Ones;
        BitProduct(a % 2, b % 2);
      }
    }
  }

  lemma BitProduct(x: int, y: int)
    requires 0 <= x <= 1 && 0 <= y <= 1
    ensures 0 <= x * y <= 1 && (x * y == 1 <==> x == 1 && y == 1)
  {
  }

  lemma LowOnes(b: int, o: int)
    requires o >= 0
    ensures b % (2 * o + 2) == 2 * o + 1 <==> b % 2 == 1 && (b / 2) % (o + 1) == o
  {
    var q, r := (b / 2) / (o + 1), (b / 2) % (o + 1);
    var m := 2 * (o + 1);
    assert b / 2 == q * (o + 1) + r;
    assert b == q * m + (2 * r + b % 2) by {
      assert q * m == 2 * (q * (o + 1));
    }
    RemainderUnique(b, 2 * r + b % 2, q, m);
  }

  predicate IsOverflow(v: Ten)
  {
    || (v.c0 > 0x3FF_FFFF - 19
        && And(And(And(And(v.c1, v.c3), v.c5), v.c7), v.c9) == 0x1FF_FFFF
        && And(And(And(v.c2, v.c4), v.c6), v.c8) == 0x3FF_FFFF)
    || v.c9 > 0x1FF_FFFF
  }

  lemma OnesLiterals()
    ensures Ones(25) == 0x1FF_FFFF && Ones(26) == 0x3FF_FFFF
  {
    assert Ones(5) == 31;
    assert Ones(10) == 0x3FF;
    assert Ones(15) == 0x7FFF;
    assert Ones(20) == 0xF_FFFF;
    assert Ones(25) == 0x1FF_FFFF;
  }

  /** For limbs in range, the test finds the numbers from p up, and by accident the nineteen just below 0. */
  lemma OverflowMeans(v: Ten)
    requires Reduced(v)
    ensures IsOverflow(v) <==> Number(v) >= P || -19 <= Number(v) < 0
  {
    hide Number, And;
    AndOdd(v.c1, v.c3, v.c5, v.c7, v.c9);
    AndEven(v.c2, v.c4, v.c6, v.c8);
    OverflowRange(v);
  }

  lemma AndOdd(a: int, b: int, c: int, d: int, e: int)
    requires 0 <= a < 0x200_0000 && 0 <= b < 0x200_0000 && 0 <= c < 0x200_0000 && 0 <= d < 0x200_0000
    requires -0x1000 <= e < 0x400_0000
    ensures And(And(And(And(a, b), c), d), e) == 0x1FF_FFFF
       <==> a == b == c == d == 0x1FF_FFFF && (e == 0x1FF_FFFF || e == 0x3FF_FFFF || e == -1)
  {
    OnesLiterals();
    hide And, Ones;
    AndOnes(a, b, 25);
    AndOnes(And(a, b), c, 25);
    AndOnes(And(And(a, b), c), d, 25);
    AndOnes(And(And(And(a, b), c), d), e, 25);
  }

  lemma AndEven(a: int, b: int, c: int, d: int)
    requires 0 <= a < 0x400_0000 && 0 <= b < 0x400_0000 && 0 <= c < 0x400_0000 && 0 <= d < 0x400_0000
    ensures And(And(And(a, b), c), d) == 0x3FF_FFFF <==> a == b == c == d == 0x3FF_FFFF
  {
    OnesLiterals();
    hide And, Ones;
    AndOnes(a, b, 26);
    AndOnes(And(a, b), c, 26);
    AndOnes(And(And(a, b), c), d, 26);
  }

  ghost predicate Full(v: Ten)
  {
    && v.c0 > 0x3FF_FFFF - 19 && v.c1 == v.c3 == v.c5 == v.c7 == 0x1FF_FFFF
    && v.c2 == v.c4 == v.c6 == v.c8 == 0x3FF_FFFF
  }

  lemma OverflowRange(v: Ten)
    requires Reduced(v)
    ensures Number(v) >= P <==> (Full(v) && v.c9 == 0x1FF_FFFF) || v.c9 > 0x1FF_FFFF
    ensures -19 <= Number(v) < 0 <==> Full(v) && v.c9 == -1
  {
    LowLimbs(v);
    hide Number, Full;
  }

  /** The nine lower limbs stay below 2^230, and come within nineteen of it only when all are full. */
  lemma LowLimbs(v: Ten)
    requires Reduced(v)
    ensures 0 <= Number(v) - TOP_WEIGHT * v.c9 < TOP_WEIGHT
    ensures Number(v) - TOP_WEIGHT * v.c9 >= TOP_WEIGHT - 19 <==> Full(v)
  {
  }

  // ---------- pack ----------

  /** How many times p is taken away: once for an overflow, minus once for a negative top limb. */
  ghost function Excess(v: Ten): int
  {
    (if IsOverflow(v) then 1 else 0) - (if v.c9 < 0 then 1 else 0)
  }

  /** The 256-bit number that packing writes. */
  ghost function Packed(v: Ten): int
  {
    (Number(v) - Excess(v) * P) % TWO_256
  }

  /** The four byte stores that each round of packing makes. */
  method StoreWord(m: array<byte>, k: nat, t: int64)
    requires 4 * k + 4 <= m.Length
    modifies m
    ensures Word(m[..], k) == Low32(t as int)
    ensures forall j: nat :: j != k && 4 * j + 4 <= m.Length ==> Word(m[..], j) == old(Word(m[..], j))
  {
    m[4 * k] := (t % 0x100) as int;
    m[4 * k + 1] := (t / 0x100 % 0x100) as int;
    m[4 * k + 2] := (t / 0x1_0000 % 0x100) as int;
    m[4 * k + 3] := (t / 0x100_0000 % 0x100) as int;
    FourBytes(t as int);
  }

  ghost function Low32(t: int): int { t % 0x1_0000_0000 }
  ghost function High32(t: int): int { t / 0x1_0000_0000 }

  lemma FourBytes(t: int)
    ensures t % 0x100 + 0x100 * (t / 0x100 % 0x100) + 0x1_0000 * (t / 0x1_0000 % 0x100)
             + 0x100_0000 * (t / 0x100_0000 % 0x100)
         == t % 0x1_0000_0000
  {
    assert t / 0x1_0000 == t / 0x100 / 0x100;
    assert t / 0x100_0000 == t / 0x1_0000 / 0x100;
    assert t / 0x1_0000_0000 == t / 0x100_0000 / 0x100;
  }

  function Shift32(t: int64): (r: int64)
    ensures r as int == High32(t as int) && -0x8000_0000 <= r <= 0x8000_0000
  {
    t / 0x1_0000_0000
  }

  method Pack(x: array<int64>, m: array<byte>)
    requires x.Length == 10 && m.Length == 32
    requires Reduced(Of(x[..]))
    modifies m
    ensures Value(m[..]) == Packed(Of(x[..]))
  {
    hide IsOverflow, Value, Radix, Word, Packed, Low32, High32, Shift32;
    ghost var v := Of(x[..]);
    var ld: int64 := 0;
    if IsOverflow(Of(x[..])) {
      ld := 1;
    }
    if x[9] < 0 {
      ld := ld - 1;
    }
    assert ld as int == Excess(v) && -1 <= ld <= 1;
    hide Excess;
    var ud: int64 := -0x200_0000 * ld;
    var t0: int64 := 19 * ld + x[0] + x[1] * 0x400_0000;
    StoreWord(m, 0, t0);
    var t1: int64 := Shift32(t0) + x[2] * 0x8_0000;
    StoreWord(m, 1, t1);
    var t2: int64 := Shift32(t1) + x[3] * 0x2000;
    StoreWord(m, 2, t2);
    var t3: int64 := Shift32(t2) + x[4] * 0x40;
    StoreWord(m, 3, t3);
    var t4: int64 := Shift32(t3) + x[5] + x[6] * 0x200_0000;
    StoreWord(m, 4, t4);
    var t5: int64 := Shift32(t4) + x[7] * 0x8_0000;
    StoreWord(m, 5, t5);
    var t6: int64 := Shift32(t5) + x[8] * 0x1000;
    StoreWord(m, 6, t6);
    var t7: int64 := Shift32(t6) + (x[9] + ud) * 0x40;
    StoreWord(m, 7, t7);
    ValueWords(m[..]);
    PackedWords(v, t0 as int, t1 as int, t2 as int, t3 as int, t4 as int, t5 as int, t6 as int, t7 as int);
    ValueBound(m[..]);
    RadixLiteral();
    PackedUnique(v, Value(m[..]), High32(t7 as int));
  }

  /** The carry chain of packing loses nothing but a multiple of 2^256. */
  lemma PackedWords(v: Ten, t0: int, t1: int, t2: int, t3: int, t4: int, t5: int, t6: int, t7: int)
    requires t0 == 19 * Excess(v) + v.c0 + v.c1 * 0x400_0000
    requires t1 == High32(t0) + v.c2 * 0x8_0000
    requires t2 == High32(t1) + v.c3 * 0x2000
    requires t3 == High32(t2) + v.c4 * 0x40
    requires t4 == High32(t3) + v.c5 + v.c6 * 0x200_0000
    requires t5 == High32(t4) + v.c7 * 0x8_0000
    requires t6 == High32(t5) + v.c8 * 0x1000
    requires t7 == High32(t6) + (v.c9 - 0x200_0000 * Excess(v)) * 0x40
    ensures WordSum(Low32(t0), Low32(t1), Low32(t2), Low32(t3), Low32(t4), Low32(t5), Low32(t6), Low32(t7))
         == Number(v) - Excess(v) * P - TWO_256 * High32(t7)
  {
    hide Excess;
  }

  lemma RadixLiteral()
    ensures Radix(32) == TWO_256
  {
    assert Radix(8) == 0x1_0000_0000_0000_0000;
    RadixAdd(8, 8);
    RadixAdd(16, 16);
  }

  lemma PackedUnique(v: Ten, value: int, k: int)
    requires value == Number(v) - Excess(v) * P - TWO_256 * k && 0 <= value < TWO_256
    ensures value == Packed(v)
  {
    hide Number, Excess;
    RemainderUnique(Number(v) - Excess(v) * P, value, k, TWO_256);
  }

  // ---------- canonical forms ----------

  /**
   Packing writes the residue below p for every reduced input but two kinds: a
   number from 2p up, from which p is taken away only once, and one where the
   overflow test and the sign test both fire and cancel.
   */
  lemma PackCanonicalIff(v: Ten)
    requires Reduced(v)
    ensures Packed(v) == Number(v) % P <==> Number(v) < 2 * P && !(IsOverflow(v) && v.c9 < 0)
  {
    OverflowMeans(v);
    NumberRange(v);
    hide Number, IsOverflow, Reduced;
    PackedOf(Number(v), if IsOverflow(v) then 1 else 0, if v.c9 < 0 then 1 else 0, Excess(v), Packed(v));
  }

  /** Taking p away (overflows - negatives) times, in 256 bits. */
  lemma PackedOf(n: int, overflows: int, negatives: int, excess: int, packed: int)
    requires -P < n < TWO_256
    requires negatives == (if n < 0 then 1 else 0) && overflows == if n >= P || -19 <= n < 0 then 1 else 0
    requires excess == overflows - negatives && packed == (n - excess * P) % TWO_256
    ensures packed == n % P <==> n < 2 * P && !(overflows == 1 && negatives == 1)
  {
    if n < -19 {
      RemainderUnique(n, n + P, -1, P);
      RemainderUnique(n + P, n + P, 0, TWO_256);
    } else if n < 0 {
      RemainderUnique(n, n + P, -1, P);
      RemainderUnique(n, n + TWO_256, -1, TWO_256);
    } else if n < P {
      RemainderUnique(n, n, 0, P);
      RemainderUnique(n, n, 0, TWO_256);
    } else if n < 2 * P {
      RemainderUnique(n, n - P, 1, P);
      RemainderUnique(n - P, n - P, 0, TWO_256);
    } else {
      RemainderUnique(n, n - 2 * P, 2, P);
      RemainderUnique(n - P, n - P, 0, TWO_256);
    }
  }

  /** The number -19: both corrections fire, and what is packed is not its residue. */
  lemma PackCancels()
    ensures var v := Ten(0x3FF_FFFF - 18, 0x1FF_FFFF, 0x3FF_FFFF, 0x1FF_FFFF, 0x3FF_FFFF, 0x1FF_FFFF, 0x3FF_FFFF,
                         0x1FF_FFFF, 0x3FF_FFFF, -1);
            Reduced(v) && Number(v) == -19 && Packed(v) != Number(v) % P
  {
    var v := Ten(0x3FF_FFFF - 18, 0x1FF_FFFF, 0x3FF_FFFF, 0x1FF_FFFF, 0x3FF_FFFF, 0x1FF_FFFF, 0x3FF_FFFF,
                 0x1FF_FFFF, 0x3FF_FFFF, -1);
    OverflowMeans(v);
    PackCanonicalIff(v);
  }

  /** The number 2p: one correction leaves p, and neither the packing nor the sign is that of the residue 0. */
  lemma TwicePNotCanonical()
    ensures var v := Ten(0x3FF_FFFF - 37, 0x1FF_FFFF, 0x3FF_FFFF, 0x1FF_FFFF, 0x3FF_FFFF, 0x1FF_FFFF, 0x3FF_FFFF,
                         0x1FF_FFFF, 0x3FF_FFFF, 0x3FF_FFFF);
            Reduced(v) && Number(v) == 2 * P && Packed(v) != Number(v) % P && SignBit(v) != Number(v) % P % 2
  {
    var v := Ten(0x3FF_FFFF - 37, 0x1FF_FFFF, 0x3FF_FFFF, 0x1FF_FFFF, 0x3FF_FFFF, 0x1FF_FFFF, 0x3FF_FFFF,
                 0x1FF_FFFF, 0x3FF_FFFF, 0x3FF_FFFF);
    PackCanonicalIff(v);
    SignBitIff(v);
  }

  // ---------- sign ----------

  /** The lowest bit, flipped where the number is not its own residue. */
  ghost function SignBit(v: Ten): int
  {
    ((if IsOverflow(v) || v.c9 < 0 then 1 else 0) + v.c0 % 2) % 2
  }

  method IsNegative(x: array<int64>) returns (negative: int)
    requires x.Length == 10
    ensures negative == SignBit(Of(x[..]))
  {
    hide IsOverflow;
    var tmp := 0;
    if IsOverflow(Ten(x[0] as int, x[1] as int, x[2] as int, x[3] as int, x[4] as int,
                      x[5] as int, x[6] as int, x[7] as int, x[8] as int, x[9] as int)) || x[9] < 0 {
      tmp := 1;
    }
    negative := (tmp + (x[0] as int) % 2) % 2;
  }

  /** The sign is the parity of the residue below p, except for numbers from 2p up, which are taken down only once. */
  lemma SignBitIff(v: Ten)
    requires Reduced(v)
    ensures SignBit(v) == Number(v) % P % 2 <==> Number(v) < 2 * P
  {
    OverflowMeans(v);
    NumberRange(v);
    NumberParity(v);
    hide Number, IsOverflow, Reduced;
    SignOf(Number(v), v.c0 % 2, if IsOverflow(v) || v.c9 < 0 then 1 else 0);
  }

  lemma SignOf(n: int, parity: int, flips: int)
    requires -P < n < 3 * P && parity == n % 2 && flips == if n < 0 || n >= P then 1 else 0
    ensures (flips + parity) % 2 == n % P % 2 <==> n < 2 * P
  {
    Flip(n, P);
    if n < 0 {
      RemainderUnique(n, n + P, -1, P);
    } else if n < P {
      RemainderUnique(n, n, 0, P);
    } else if n < 2 * P {
      RemainderUnique(n, n - P, 1, P);
    } else {
      RemainderUnique(n, n - 2 * P, 2, P);
    }
  }

  lemma NumberParity(v: Ten)
    ensures Number(v) % 2 == v.c0 % 2
  {
    var half := 0x2000000 * v.c1 + 0x4000000000000 * v.c2 + 0x10000000000000000000 * v.c3
             + 0x20000000000000000000000000 * v.c4 + 0x80000000000000000000000000000000 * v.c5
                 + 0x100000000000000000000000000000000000000 * v.c6
             + 0x400000000000000000000000000000000000000000000 * v.c7
                 + 0x800000000000000000000000000000000000000000000000000 * v.c8
                     + 0x2000000000000000000000000000000000000000000000000000000000 * v.c9;
    assert Number(v) == v.c0 + 2 * half;
    hide Number;
    EvenRest(Number(v), v.c0, half);
  }

  lemma EvenRest(n: int, c: int, half: int)
    requires n == c + 2 * half
    ensures n % 2 == c % 2
  {
  }

  /** Adding an odd number once flips the parity. */
  lemma Flip(n: int, p: int)
    requires p % 2 == 1
    ensures (n + p) % 2 == (1 + n % 2) % 2 && (n - p) % 2 == (1 + n % 2) % 2 && (n - 2 * p) % 2 == n % 2
  {
    var a, r, b := n / 2, n % 2, p / 2;
    assert n == 2 * a + r && p == 2 * b + 1;
    EvenRest(n + p, 1 + r, a + b);
    EvenRest(n - p, 1 + r, a - b - 1);
    EvenRest(n - 2 * p, n, -p);
  }

  lemma NumberRange(v: Ten)
    requires Reduced(v)
    ensures -P < Number(v) < TWO_256
    ensures v.c9 < 0 <==> Number(v) < 0
  {
  }

  /** Unpacking and packing gives the input back exactly when it was below p. */
  lemma RepackIff(m: seq<byte>)
    requires |m| == 32
    ensures Packed(Unpacked(m)) == Value(m) <==> Value(m) < P
  {
    var v := Unpacked(m);
    UnpackedValue(m);
    UnpackedReduced(m);
    OverflowMeans(v);
    ValueBound(m);
    RadixLiteral();
    hide Number, IsOverflow, Unpacked, Value, Radix, Reduced;
    RepackOf(Value(m), Excess(v), Packed(v));
  }

  lemma RepackOf(n: int, excess: int, packed: int)
    requires 0 <= n < TWO_256 && excess == (if n >= P then 1 else 0) && packed == (n - excess * P) % TWO_256
    ensures packed == n <==> n < P
  {
    if n < P {
      RemainderUnique(n, n, 0, TWO_256);
    } else {
      RemainderUnique(n - P, n - P, 0, TWO_256);
    }
  }

  /** Exactly the 32-byte strings whose number is below p. */
  method IsCanonicalPublicKey(publicKey: array<byte>) returns (canonical: bool)
    ensures canonical <==> publicKey.Length == 32 && Value(publicKey[..]) < P
  {
    hide Value, Packed, Unpacked, Reduced;
    if publicKey.Length != 32 {
      return false;
    }
    var unpacked := new int64[10](_ => 0);
    Unpack(unpacked, publicKey);
    UnpackedReduced(publicKey[..]);
    var copy := new byte[32](_ => 0);
    Pack(unpacked, copy);
    RepackIff(publicKey[..]);
    canonical := true;
    for i := 0 to 32
      invariant canonical && forall j :: 0 <= j < i ==> copy[j] == publicKey[j]
    {
      if copy[i] != publicKey[i] {
        assert copy[..][i] != publicKey[..][i];
        if Value(copy[..]) == Value(publicKey[..]) {
          ValueInjective(copy[..], publicKey[..]);
        }
        return false;
      }
    }
    assert copy[..] == publicKey[..];
  }
}
