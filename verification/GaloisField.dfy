/** The field of 32 symbols behind the address code, with multiplication by logarithm tables. */
module GaloisField {
  import opened Modular

  /** A symbol: five bits, so that addition is exclusive or. */
  type Sym = bv5

  /** Powers of the generator: GEXP[i] is alpha^i. */
  const GEXP: seq<Sym> := [1, 2, 4, 8, 16, 5, 10, 20, 13, 26, 17, 7, 14, 28, 29, 31,
    27, 19, 3, 6, 12, 24, 21, 15, 30, 25, 23, 11, 22, 9, 18, 1]

  /** Logarithms to base alpha; the entry at 0 is never used. */
  const GLOG: seq<int> := [0, 0, 1, 18, 2, 5, 19, 11, 3, 29, 6, 27, 20, 8, 12, 23, 4, 10, 30, 17,
    7, 22, 28, 26, 21, 25, 9, 16, 13, 14, 24, 15]

  function Plus(x: Sym, y: Sym): Sym
  {
    x ^ y
  }

  function Log(x: Sym): (i: int)
    ensures 0 <= i < 31
  {
    LogInRange(x as int);
    GLOG[x as int]
  }

  /** alpha^i. */
  function Exp(i: int): Sym
    requires 0 <= i < 32
  {
    GEXP[i]
  }

  function Gmult(x: Sym, y: Sym): Sym
  {
    if x == 0 || y == 0 then 0 else Exp((Log(x) + Log(y)) % 31)
  }

  // ---------- the tables ----------

  /** Multiplication by alpha, a root of x^5 + x^2 + 1. */
  function Alpha(v: Sym): Sym
  {
    (v << 1) ^ (if v & 16 == 0 then 0 else 5)
  }

  lemma LogInRange(i: int)
    requires 0 <= i < 32
    ensures 0 <= GLOG[i] < 31
  {
    assert i == 0 || i == 1 || i == 2 || i == 3 || i == 4 || i == 5 || i == 6 || i == 7 || i == 8 || i == 9
        || i == 10 || i == 11 || i == 12 || i == 13 || i == 14 || i == 15 || i == 16 || i == 17 || i == 18
        || i == 19 || i == 20 || i == 21 || i == 22 || i == 23 || i == 24 || i == 25 || i == 26 || i == 27
        || i == 28 || i == 29 || i == 30 || i == 31;
  }

  lemma ExpStep(i: int)
    requires 0 <= i < 31
    ensures Exp(i) != 0 && Exp(i + 1) == Alpha(Exp(i))
  {
    assert i == 0 || i == 1 || i == 2 || i == 3 || i == 4 || i == 5 || i == 6 || i == 7 || i == 8 || i == 9
        || i == 10 || i == 11 || i == 12 || i == 13 || i == 14 || i == 15 || i == 16 || i == 17 || i == 18
        || i == 19 || i == 20 || i == 21 || i == 22 || i == 23 || i == 24 || i == 25 || i == 26 || i == 27
        || i == 28 || i == 29 || i == 30;
  }

  lemma LogExp(i: int)
    requires 0 <= i < 31
    ensures Log(Exp(i)) == i
  {
    hide Log;
    assert i == 0 || i == 1 || i == 2 || i == 3 || i == 4 || i == 5 || i == 6 || i == 7 || i == 8 || i == 9
        || i == 10 || i == 11 || i == 12 || i == 13 || i == 14 || i == 15 || i == 16 || i == 17 || i == 18
        || i == 19 || i == 20 || i == 21 || i == 22 || i == 23 || i == 24 || i == 25 || i == 26 || i == 27
        || i == 28 || i == 29 || i == 30;
    LogIs(GEXP[i]);
  }

  lemma LogIs(x: Sym)
    ensures Log(x) == GLOG[x as int]
  {
  }

  lemma ExpLog(x: Sym)
    requires x != 0
    ensures Exp(Log(x)) == x
  {
    var i := x as int;
    assert i == 1 || i == 2 || i == 3 || i == 4 || i == 5 || i == 6 || i == 7 || i == 8 || i == 9 || i == 10
        || i == 11 || i == 12 || i == 13 || i == 14 || i == 15 || i == 16 || i == 17 || i == 18 || i == 19
        || i == 20 || i == 21 || i == 22 || i == 23 || i == 24 || i == 25 || i == 26 || i == 27 || i == 28
        || i == 29 || i == 30 || i == 31;
  }

  lemma ExpEnds()
    ensures Exp(0) == 1 && Exp(31) == 1
  {
  }

  // ---------- multiplication is multiplication ----------

  /** alpha^j times v. */
  ghost function AlphaPow(j: nat, v: Sym): Sym
  {
    if j == 0 then v else Alpha(AlphaPow(j - 1, v))
  }

  lemma {:induction false} AlphaPowPlus(j: nat, a: Sym, b: Sym)
    ensures AlphaPow(j, a ^ b) == AlphaPow(j, a) ^ AlphaPow(j, b)
  {
    if j > 0 {
      AlphaPowPlus(j - 1, a, b);
    }
  }

  lemma {:induction false} AlphaPowAdd(i: nat, j: nat, v: Sym)
    ensures AlphaPow(i + j, v) == AlphaPow(i, AlphaPow(j, v))
  {
    if i > 0 {
      AlphaPowAdd(i - 1, j, v);
    }
  }

  lemma {:induction false} ExpIsPow(i: nat)
    requires i <= 31
    ensures Exp(i) == AlphaPow(i, 1)
  {
    hide Exp, Log;
    ExpEnds();
    if i > 0 {
      ExpIsPow(i - 1);
      ExpStep(i - 1);
    }
  }

  lemma {:induction false} ExpWraps(n: nat)
    ensures Exp(n % 31) == AlphaPow(n, 1)
    decreases n
  {
    hide Exp, Log;
    if n < 31 {
      ExpIsPow(n);
    } else {
      ExpWraps(n - 31);
      AlphaPowAdd(n - 31, 31, 1);
      ExpIsPow(31);
      ExpEnds();
      assert n % 31 == (n - 31) % 31;
    }
  }

  lemma {:induction false} AlphaPowZero(j: nat)
    ensures AlphaPow(j, 0) == 0
  {
    if j > 0 {
      AlphaPowZero(j - 1);
    }
  }

  lemma MultIsPow(x: Sym, y: Sym)
    requires y != 0
    ensures Gmult(x, y) == AlphaPow(Log(y), x)
  {
    hide Exp, Log;
    if x == 0 {
      AlphaPowZero(Log(y));
    } else {
      ExpWraps(Log(x) + Log(y));
      ExpLog(x);
      ExpIsPow(Log(x));
      AlphaPowAdd(Log(y), Log(x), 1);
    }
  }

  lemma MultComm(x: Sym, y: Sym)
    ensures Gmult(x, y) == Gmult(y, x)
  {
    hide Exp, Log;
  }

  lemma MultPlus(a: Sym, b: Sym, y: Sym)
    ensures Gmult(Plus(a, b), y) == Plus(Gmult(a, y), Gmult(b, y))
    ensures Gmult(y, Plus(a, b)) == Plus(Gmult(y, a), Gmult(y, b))
  {
    hide Exp, Log;
    if y != 0 {
      MultIsPow(a, y);
      MultIsPow(b, y);
      MultIsPow(a ^ b, y);
      AlphaPowPlus(Log(y), a, b);
    }
    MultComm(a, y);
    MultComm(b, y);
    MultComm(a ^ b, y);
  }

  lemma PlusZero(a: Sym, b: Sym)
    ensures Plus(a, b) == 0 <==> a == b
    ensures Plus(a, 0) == a && Plus(0, b) == b
    ensures Plus(a, b) == Plus(b, a)
  {
  }

  lemma PlusRegroup(a: Sym, b: Sym, c: Sym, d: Sym)
    ensures Plus(Plus(a, b), Plus(c, d)) == Plus(Plus(a, c), Plus(b, d))
  {
  }

  lemma MultNonZero(x: Sym, y: Sym)
    ensures Gmult(x, y) == 0 <==> x == 0 || y == 0
  {
    hide Exp, Log;
    if x != 0 && y != 0 {
      ExpStep((Log(x) + Log(y)) % 31);
    }
  }

  /** Reducing a summand first does not matter. */
  lemma Mod31(a: nat, b: nat)
    ensures (a % 31 + b) % 31 == (a + b) % 31
  {
    var q, r := (a % 31 + b) / 31, (a % 31 + b) % 31;
    RemainderUnique(a + b, r, a / 31 + q, 31);
  }

  lemma MultAssoc(x: Sym, y: Sym, z: Sym)
    ensures Gmult(Gmult(x, y), z) == Gmult(x, Gmult(y, z))
  {
    hide Exp, Log;
    MultNonZero(x, y);
    MultNonZero(y, z);
    if x != 0 && y != 0 && z != 0 {
      var i, j, k := Log(x), Log(y), Log(z);
      LogExp((i + j) % 31);
      LogExp((j + k) % 31);
      Mod31(i + j, k);
      Mod31(j + k, i);
      ProductLogs(Gmult(x, y), z, (i + j) % 31, k);
      ProductLogs(x, Gmult(y, z), i, (j + k) % 31);
    }
  }

  lemma ProductLogs(x: Sym, y: Sym, i: int, j: int)
    requires x != 0 && y != 0 && Log(x) == i && Log(y) == j
    ensures Gmult(x, y) == Exp((j + i) % 31)
  {
    hide Exp, Log;
  }

  lemma ExpAdd(m: nat, n: nat)
    ensures Exp((m + n) % 31) == Gmult(Exp(m % 31), Exp(n % 31))
  {
    hide Exp, Log;
    ExpStep(m % 31);
    ExpStep(n % 31);
    LogExp(m % 31);
    LogExp(n % 31);
    ProductLogs(Exp(m % 31), Exp(n % 31), m % 31, n % 31);
    Mod31(n, m % 31);
    Mod31(m, n);
  }

  lemma MultOne(x: Sym)
    ensures Gmult(x, 1) == x && Gmult(1, x) == x
  {
    hide Exp, Log;
    ExpEnds();
    LogExp(0);
    if x != 0 {
      ExpLog(x);
    }
  }
}
