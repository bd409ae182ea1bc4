/**
 Inversion by a fixed power: the addition chain for x^(2^255 - 21), and for
 x^(2^252 - 3) when it assists a square root.
 */
module Inverse {
  import opened Modular
  import opened Powers
  import opened Limbs
  import opened MachineWords
  import opened Field

  /** The exponent 2^(k + n) - 2^n of the chain: k one bits above n zero bits. */
  ghost function Ones(k: nat, n: nat): (e: int)
    ensures e >= 0
  {
    MulLe(0, Pow2(k) - 1, Pow2(n));
    (Pow2(k) - 1) * Pow2(n)
  }

  lemma OnesDouble(k: nat, n: nat)
    ensures Ones(k, n + 1) == Ones(k, n) + Ones(k, n)
  {
    assert Pow2(n + 1) == 2 * Pow2(n);
    hide Pow2;
    Double(Pow2(k) - 1, Pow2(n), Pow2(n + 1));
  }

  lemma Double(a: int, b: int, c: int)
    requires c == 2 * b
    ensures a * c == a * b + a * b
  {
  }

  /** n ones below k ones shifted by n make k + n ones. */
  lemma OnesJoin(k: nat, n: nat)
    ensures Ones(k, n) + Ones(n, 0) == Ones(k + n, 0)
  {
    Pow2Add(k, n);
    Distribute(Pow2(n), Pow2(k), 1);
  }

  ghost predicate IsPower(a: array<int64>, base: int, e: int)
    reads a
  {
    a.Length == 10 && e >= 0 && InRange(a) && Is(a, Pow(base, e))
  }

  method PowMul(r: array<int64>, a: array<int64>, b: array<int64>, ghost base: int, ghost i: int, ghost j: int)
    requires r.Length == 10 && r != a && r != b
    requires IsPower(a, base, i) && IsPower(b, base, j)
    modifies r
    ensures IsPower(r, base, i + j) && Clean(r)
  {
    PowAdd(base, i, j);
    hide Pow, InRange, Is, Clean;
    FieldMul(r, a, b, Pow(base, i), Pow(base, j));
    CleanInRange(r);
  }

  method PowSqr(r: array<int64>, a: array<int64>, ghost base: int, ghost i: int)
    requires r.Length == 10 && r != a
    requires IsPower(a, base, i)
    modifies r
    ensures IsPower(r, base, i + i) && Clean(r)
  {
    PowAdd(base, i, i);
    hide Pow, InRange, Is, Clean;
    FieldSqr(r, a, Pow(base, i));
    CleanInRange(r);
  }

  /** Two squarings, back into the same limbs: the body of every loop of the chain. */
  method SqrTwice(t: array<int64>, s: array<int64>, ghost base: int, ghost k: nat, ghost n: nat)
    requires t.Length == s.Length == 10 && t != s && IsPower(s, base, Ones(k, n))
    modifies t, s
    ensures IsPower(s, base, Ones(k, n + 2)) && Clean(s)
  {
    hide IsPower, Ones, Pow2, Clean;
    PowSqr(t, s, base, Ones(k, n));
    OnesDouble(k, n);
    PowSqr(s, t, base, Ones(k, n + 1));
    OnesDouble(k, n + 1);
  }

  /** Exponents in closed form, for the last steps. */
  lemma FinalExponents()
    ensures 1 + Ones(250, 2) == RecipExponent(true)
    ensures Ones(250, 5) + 11 == RecipExponent(false)
  {
    Pow2Add(250, 2);
    Pow2Add(250, 5);
    assert Pow2(2) == 4 && Pow2(5) == 32;
    hide Pow2;
  }

  ghost predicate Apart(t0: array<int64>, t1: array<int64>, t2: array<int64>, t3: array<int64>, t4: array<int64>)
  {
    && t0.Length == t1.Length == t2.Length == t3.Length == t4.Length == 10
    && t0 != t1 && t0 != t2 && t0 != t3 && t0 != t4 && t1 != t2 && t1 != t3 && t1 != t4 && t2 != t3 && t2 != t4
          && t3 != t4
  }

  /** A loop of the chain: the shift goes up by two per round. */
  method ShiftUp(t: array<int64>, s: array<int64>, ghost b: int, ghost k: nat, first: nat, rounds: nat)
    requires t.Length == s.Length == 10 && t != s && first <= rounds && IsPower(s, b, Ones(k, 2 * first))
    modifies t, s
    ensures IsPower(s, b, Ones(k, 2 * rounds))
  {
    hide IsPower, Ones, Clean;
    for i := first to rounds
      invariant IsPower(s, b, Ones(k, 2 * i))
    {
      SqrTwice(t, s, b, k, 2 * i);
    }
  }

  /** Up to x^11 in t0 and x^(2^10 - 1) in t2. */
  method ChainStart(x: array<int64>, t0: array<int64>, t1: array<int64>, t2: array<int64>, t3: array<int64>,
      ghost b: int)
    requires Apart(x, t0, t1, t2, t3) && IsPower(x, b, 1)
    modifies t0, t1, t2, t3
    ensures IsPower(t0, b, 11) && IsPower(t2, b, Ones(10, 0))
  {
    OnesBase();
    hide IsPower, Ones, Clean;
    PowSqr(t1, x, b, 1);
    PowSqr(t2, t1, b, 2);
    PowSqr(t0, t2, b, 4);
    PowMul(t2, t0, x, b, 8, 1);
    PowMul(t0, t2, t1, b, 9, 2);
    PowSqr(t1, t0, b, 11);
    PowMul(t3, t1, t2, b, 22, 9);
    PowSqr(t1, t3, b, Ones(5, 0));
    OnesDouble(5, 0);
    PowSqr(t2, t1, b, Ones(5, 1));
    OnesDouble(5, 1);
    PowSqr(t1, t2, b, Ones(5, 2));
    OnesDouble(5, 2);
    PowSqr(t2, t1, b, Ones(5, 3));
    OnesDouble(5, 3);
    PowSqr(t1, t2, b, Ones(5, 4));
    OnesDouble(5, 4);
    PowMul(t2, t1, t3, b, Ones(5, 5), Ones(5, 0));
    OnesJoin(5, 5);
  }

  /** From x^(2^10 - 1) in t2 to x^(2^50 - 1) in t1. */
  method ChainMiddle(t0: array<int64>, t1: array<int64>, t2: array<int64>, t3: array<int64>, t4: array<int64>,
      ghost b: int)
    requires Apart(t0, t1, t2, t3, t4) && IsPower(t2, b, Ones(10, 0))
    modifies t1, t2, t3, t4
    ensures IsPower(t1, b, Ones(50, 0))
  {
    hide IsPower, Ones, Clean;
    PowSqr(t1, t2, b, Ones(10, 0));
    OnesDouble(10, 0);
    PowSqr(t3, t1, b, Ones(10, 1));
    OnesDouble(10, 1);
    ShiftUp(t1, t3, b, 10, 1, 5);
    PowMul(t1, t3, t2, b, Ones(10, 10), Ones(10, 0));
    OnesJoin(10, 10);
    PowSqr(t3, t1, b, Ones(20, 0));
    OnesDouble(20, 0);
    PowSqr(t4, t3, b, Ones(20, 1));
    OnesDouble(20, 1);
    ShiftUp(t3, t4, b, 20, 1, 10);
    PowMul(t3, t4, t1, b, Ones(20, 20), Ones(20, 0));
    OnesJoin(20, 20);
    ShiftUp(t1, t3, b, 40, 0, 5);
    PowMul(t1, t3, t2, b, Ones(40, 10), Ones(10, 0));
    OnesJoin(40, 10);
  }

  /** From x^(2^50 - 1) in t1 to x^(2^252 - 4) in t2. */
  method ChainEnd(t0: array<int64>, t1: array<int64>, t2: array<int64>, t3: array<int64>, t4: array<int64>,
      ghost b: int)
    requires Apart(t0, t1, t2, t3, t4) && IsPower(t1, b, Ones(50, 0))
    modifies t1, t2, t3, t4
    ensures IsPower(t2, b, Ones(250, 2))
  {
    hide IsPower, Ones, Clean;
    PowSqr(t2, t1, b, Ones(50, 0));
    OnesDouble(50, 0);
    PowSqr(t3, t2, b, Ones(50, 1));
    OnesDouble(50, 1);
    ShiftUp(t2, t3, b, 50, 1, 25);
    PowMul(t2, t3, t1, b, Ones(50, 50), Ones(50, 0));
    OnesJoin(50, 50);
    PowSqr(t3, t2, b, Ones(100, 0));
    OnesDouble(100, 0);
    PowSqr(t4, t3, b, Ones(100, 1));
    OnesDouble(100, 1);
    ShiftUp(t3, t4, b, 100, 1, 50);
    PowMul(t3, t4, t2, b, Ones(100, 100), Ones(100, 0));
    OnesJoin(100, 100);
    ShiftUp(t4, t3, b, 200, 0, 25);
    PowMul(t2, t3, t1, b, Ones(200, 50), Ones(50, 0));
    OnesJoin(200, 50);
    PowSqr(t1, t2, b, Ones(250, 0));
    OnesDouble(250, 0);
    PowSqr(t2, t1, b, Ones(250, 1));
    OnesDouble(250, 1);
  }

  method ChainInverse(y: array<int64>, t0: array<int64>, t1: array<int64>, t2: array<int64>, ghost b: int)
    requires y.Length == t0.Length == t1.Length == t2.Length == 10
    requires y != t0 && y != t1 && t1 != t2 && t0 != t1 && t0 != t2
    requires IsPower(t0, b, 11) && IsPower(t2, b, Ones(250, 2))
    modifies y, t1, t2
    ensures IsPower(y, b, Ones(250, 5) + 11) && Clean(y)
  {
    hide IsPower, Ones, Clean;
    PowSqr(t1, t2, b, Ones(250, 2));
    OnesDouble(250, 2);
    PowSqr(t2, t1, b, Ones(250, 3));
    OnesDouble(250, 3);
    PowSqr(t1, t2, b, Ones(250, 4));
    OnesDouble(250, 4);
    PowMul(y, t1, t0, b, Ones(250, 5), 11);
  }

  method RecipChain(y: array<int64>, x: array<int64>, sqrtassist: bool, t0: array<int64>, t1: array<int64>,
                    t2: array<int64>, t3: array<int64>, t4: array<int64>, ghost b: int)
    requires Apart(t0, t1, t2, t3, t4) && Apart(x, t0, t1, t2, t3) && x != t4
    requires y.Length == 10 && y != x && y != t0 && y != t1 && y != t2
    requires IsPower(x, b, 1)
    modifies y, t0, t1, t2, t3, t4
    ensures IsPower(y, b, RecipExponent(sqrtassist)) && Clean(y)
  {
    FinalExponents();
    hide IsPower, Ones, Clean, RecipExponent;
    ChainStart(x, t0, t1, t2, t3, b);
    ChainMiddle(t0, t1, t2, t3, t4, b);
    ChainEnd(t0, t1, t2, t3, t4, b);
    if sqrtassist {
      PowMul(y, x, t2, b, 1, Ones(250, 2));
    } else {
      ChainInverse(y, t0, t1, t2, b);
    }
  }

  /** y := x^(2^255 - 21), which is x^(p - 2), or x^(2^252 - 3) on request. */
  method Recip(y: array<int64>, x: array<int64>, sqrtassist: bool)
    requires y.Length == x.Length == 10 && y != x && InRange(x)
    modifies y
    ensures Clean(y)
    ensures Is(y, Pow(old(Num(x)), RecipExponent(sqrtassist)))
  {
    ghost var b := Num(x);
    PowOne(x);
    hide IsPower, Ones, Pow, Pow2, Clean, InRange, Num, RecipExponent;
    var t0 := new int64[10](_ => 0);
    var t1 := new int64[10](_ => 0);
    var t2 := new int64[10](_ => 0);
    var t3 := new int64[10](_ => 0);
    var t4 := new int64[10](_ => 0);
    RecipChain(y, x, sqrtassist, t0, t1, t2, t3, t4, b);
    PowerIs(y, b, RecipExponent(sqrtassist));
  }

  ghost function RecipExponent(sqrtassist: bool): (e: int)
    ensures e >= 0
  {
    OnesBase();
    if sqrtassist then Pow2(252) - 3 else Pow2(255) - 21
  }

  lemma PowOne(x: array<int64>)
    requires InRange(x)
    ensures IsPower(x, Num(x), 1)
  {
    assert Pow(Num(x), 1) == Num(x) * Pow(Num(x), 0) == Num(x);
    CongRefl(Num(x), P);
  }

  lemma OnesBase()
    ensures Ones(5, 0) == 31
    ensures Pow2(255) > 21 && Pow2(252) > 3
  {
    assert Pow2(5) == 32;
    Pow2Add(5, 250);
    Pow2Add(5, 247);
  }

  lemma PowerIs(y: array<int64>, b: int, e: int)
    requires IsPower(y, b, e)
    ensures e >= 0 && Is(y, Pow(b, e))
  {
  }
}
