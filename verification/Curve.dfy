/**
 What the ladder's formulas mean: the tangent and the chord of the curve
 y^2 = x^3 + 486662 x^2 + x, and the multiples the ladder runs through.
 */
module Curve {
  import opened Modular
  import opened Powers
  import opened Inverse
  import opened FieldBytes
  import opened Limbs
  import opened Ladder

  const COEFFICIENT := 486662

  /** The right-hand side of the curve's equation. */
  ghost function Cubic(x: int): int
  {
    x * x * x + COEFFICIENT * (x * x) + x
  }

  ghost predicate OnCurve(x: int, y: int)
  {
    Cong(y * y, Cubic(x), P)
  }

  /** The base point's ordinate squared is the constant that key generation subtracts. */
  lemma BasePoint()
    ensures Cubic(9) == 39420360
  {
  }

  /** The modulus is the prime the curve is named after. */
  lemma PrimeIs()
    ensures P == Pow2(255) - 19
  {
    hide Pow2;
    FiveBits();
    Pow2Add(5, 5); Pow2Add(5, 10); Pow2Add(15, 15);
    Pow2Add(30, 30); Pow2Add(60, 60); Pow2Add(120, 120); Pow2Add(240, 15);
  }

  lemma FiveBits()
    ensures Pow2(5) == 32
  {
  }

  // ---------- the formulas in projective coordinates ----------

  lemma DoublingLaw(x: int, z: int)
    ensures DoubleX(x + z, x - z) == (x * x - z * z) * (x * x - z * z)
    ensures DoubleZ(x + z, x - z) == 4 * (x * z) * (x * x + COEFFICIENT * (x * z) + z * z)
  {
    var s, p := x * x + z * z, x * z;
    assert (x + z) * (x + z) == s + 2 * p && (x - z) * (x - z) == s - 2 * p;
    assert (s + 2 * p) * (s - 2 * p) == s * s - 4 * (p * p);
    SquareOfDifference(x * x, z * z, p);
    assert (s + 2 * p + 121665 * (4 * p)) * (4 * p) == 4 * p * (s + COEFFICIENT * p);
  }

  lemma SquareOfDifference(a: int, b: int, p: int)
    requires p * p == a * b
    ensures (a + b) * (a + b) - 4 * (p * p) == (a - b) * (a - b)
  {
  }

  lemma AdditionLaw(x2: int, z2: int, x3: int, z3: int, u: int)
    ensures var m, n := x2 * x3 - z2 * z3, x2 * z3 - z2 * x3;
            AddX(x2 + z2, x2 - z2, x3 + z3, x3 - z3) == 4 * (m * m)
            && AddZ(x2 + z2, x2 - z2, x3 + z3, x3 - z3, u) == 4 * u * (n * n)
  {
    var m, n := x2 * x3 - z2 * z3, x2 * z3 - z2 * x3;
    var da, cb := (x3 - z3) * (x2 + z2), (x3 + z3) * (x2 - z2);
    assert da + cb == 2 * m && da - cb == -2 * n;
    assert (2 * m) * (2 * m) == 4 * (m * m);
    assert (-2 * n) * (-2 * n) * u == 4 * u * (n * n);
  }

  // ---------- the formulas on points of the curve ----------

  /** Modulo any p, doubling a point of the curve follows the tangent, whose slope is (3x^2 + 2 * 486662 x + 1) / 2y. */
  lemma TangentLaw(x: int, y: int, p: int)
    requires p > 0 && Cong(y * y, Cubic(x), p)
    ensures var (m, dd) := (3 * (x * x) + 2 * COEFFICIENT * x + 1, (2 * y) * (2 * y));
            Cong(DoubleZ(x + 1, x - 1), dd, p) && Cong(DoubleX(x + 1, x - 1), m * m - (COEFFICIENT + 2 * x) * dd, p)
  {
    hide DoubleX, DoubleZ, Cong;
    var m, f := 3 * (x * x) + 2 * COEFFICIENT * x + 1, Cubic(x);
    DoublingLaw(x, 1);
    assert DoubleZ(x + 1, x - 1) == 4 * f;
    TangentIdentity(x);
    assert DoubleX(x + 1, x - 1) == m * m - (COEFFICIENT + 2 * x) * (4 * f);
    assert (2 * y) * (2 * y) == 4 * (y * y);
    CongRefl(4, p);
    CongMul(4, 4, y * y, f, p);
    CongFlip(4 * (y * y), 4 * f, p);
    CongRefl(COEFFICIENT + 2 * x, p);
    CongMul(COEFFICIENT + 2 * x, COEFFICIENT + 2 * x, 4 * f, 4 * (y * y), p);
    CongRefl(m * m, p);
    CongSub(m * m, m * m, (COEFFICIENT + 2 * x) * (4 * f), (COEFFICIENT + 2 * x) * (4 * (y * y)), p);
  }

  lemma CongFlip(a: int, b: int, m: int)
    requires m > 0 && Cong(a, b, m)
    ensures Cong(b, a, m)
  {
  }

  lemma TangentIdentity(x: int)
    ensures var m := 3 * (x * x) + 2 * COEFFICIENT * x + 1;
            m * m - (COEFFICIENT + 2 * x) * (4 * Cubic(x)) == (x * x - 1) * (x * x - 1)
  {
    var q := x * x;
    assert Cubic(x) == x * q + COEFFICIENT * q + x;
    assert x * Cubic(x) == q * q + COEFFICIENT * (x * q) + q by {
      assert x * (x * q) == q * q;
    }
  }

  /**
   The numerators, over (x2 - x1)^2, of the abscissas of the sum and the
   difference of two points: squared slope of the chord, less the coefficient
   and both abscissas.
   */
  ghost function ChordX(x1: int, y1: int, x2: int, y2: int): int
  {
    (y2 - y1) * (y2 - y1) - (COEFFICIENT + x1 + x2) * ((x2 - x1) * (x2 - x1))
  }

  /** Adding two points of the curve, given the abscissa u of their difference, follows the chord. */
  lemma ChordLaw(x1: int, y1: int, x2: int, y2: int, u: int)
    requires OnCurve(x1, y1) && OnCurve(x2, y2)
    requires Cong(u * ((x2 - x1) * (x2 - x1)), ChordX(x1, -y1, x2, y2), P)
    ensures Cong(AddX(x1 + 1, x1 - 1, x2 + 1, x2 - 1) * ((x2 - x1) * (x2 - x1)),
                 ChordX(x1, y1, x2, y2) * AddZ(x1 + 1, x1 - 1, x2 + 1, x2 - 1, u), P)
  {
    hide AddX, AddZ, Cong, ChordX;
    var sum, diff, dd, m := ChordX(x1, y1, x2, y2), ChordX(x1, -y1, x2, y2), (x2 - x1) * (x2 - x1), x1 * x2 - 1;
    AdditionLaw(x1, 1, x2, 1, u);
    assert (x1 - x2) * (x1 - x2) == dd;
    ChordProduct(x1, y1, x2, y2);
    CongRefl(4 * sum, P);
    CongMul(4 * sum, 4 * sum, u * dd, diff, P);
    CongRefl(4, P);
    CongMul(4, 4, sum * diff, (m * m) * dd, P);
    assert (4 * sum) * (u * dd) == sum * (4 * u * dd) && (4 * sum) * diff == 4 * (sum * diff);
    assert 4 * ((m * m) * dd) == 4 * (m * m) * dd;
    CongTrans(sum * (4 * u * dd), 4 * (sum * diff), 4 * (m * m) * dd, P);
    CongFlip(sum * (4 * u * dd), 4 * (m * m) * dd, P);
  }

  /** Sum and difference of two points: their abscissas multiply to (x1 x2 - 1)^2 / (x1 - x2)^2. */
  lemma ChordProduct(x1: int, y1: int, x2: int, y2: int)
    requires OnCurve(x1, y1) && OnCurve(x2, y2)
    ensures var (dd, m) := ((x2 - x1) * (x2 - x1), x1 * x2 - 1);
            Cong(ChordX(x1, y1, x2, y2) * ChordX(x1, -y1, x2, y2), (m * m) * dd, P)
  {
    hide Cong, Cubic;
    var a, b, f1, f2 := y1 * y1, y2 * y2, Cubic(x1), Cubic(x2);
    var c := (COEFFICIENT + x1 + x2) * ((x2 - x1) * (x2 - x1));
    var t, t' := a + b - c, f1 + f2 - c;
    assert ChordX(x1, y1, x2, y2) == t - 2 * (y1 * y2) && ChordX(x1, -y1, x2, y2) == t + 2 * (y1 * y2);
    DifferenceOfSquares(t, y1, y2);
    CongAdd(a, f1, b, f2, P);
    CongRefl(c, P);
    CongSub(a + b, f1 + f2, c, c, P);
    CongMul(t, t', t, t', P);
    CongMul(a, f1, b, f2, P);
    CongRefl(4, P);
    CongMul(4, 4, a * b, f1 * f2, P);
    CongSub(t * t, t' * t', 4 * (a * b), 4 * (f1 * f2), P);
    ChordIdentity(x1, x2);
  }

  lemma DifferenceOfSquares(t: int, y1: int, y2: int)
    ensures (t - 2 * (y1 * y2)) * (t + 2 * (y1 * y2)) == t * t - 4 * ((y1 * y1) * (y2 * y2))
  {
    var w := y1 * y2;
    assert w * w == (y1 * y1) * (y2 * y2);
  }

  lemma ChordIdentity(x1: int, x2: int)
    ensures var (dd, m) := ((x2 - x1) * (x2 - x1), x1 * x2 - 1);
            var t := Cubic(x1) + Cubic(x2) - (COEFFICIENT + x1 + x2) * dd;
            t * t - 4 * (Cubic(x1) * Cubic(x2)) == (m * m) * dd
  {
    hide Cubic;
    var s, p, dd := x1 + x2, x1 * x2, (x2 - x1) * (x2 - x1);
    var ss, r, ps := s * s, p * p, p * s;
    Discriminant(x1, x2);
    CubicSum(x1, x2);
    CubicProduct(x1, x2, s, p);
    SquareOfSum(2 * COEFFICIENT * p, s * (p + 1));
    CrossTerm(p, s);
    SquareTerm(p, s);
    Multiply(p, r, ps, ss, s);
    RightSide(p, ss, dd);
    var t := Cubic(x1) + Cubic(x2) - (COEFFICIENT + s) * dd;
    LinearCombination(t * t, p, r, ps, ss, p * r, p * ps, p * ss, r * ss);
  }

  lemma Discriminant(x1: int, x2: int)
    ensures (x2 - x1) * (x2 - x1) == (x1 + x2) * (x1 + x2) - 4 * (x1 * x2)
    ensures x1 * x1 + x2 * x2 == (x1 + x2) * (x1 + x2) - 2 * (x1 * x2)
  {
  }

  lemma CubicSum(x1: int, x2: int)
    ensures var (s, p) := (x1 + x2, x1 * x2);
            Cubic(x1) + Cubic(x2) - (COEFFICIENT + s) * ((x2 - x1) * (x2 - x1)) == 2 * COEFFICIENT * p + s * (p + 1)
  {
    var a, b, p, dd := x1 * x1, x2 * x2, x1 * x2, (x2 - x1) * (x2 - x1);
    assert dd == a - 2 * p + b;
    Substitute(x1, dd, a + b, -2 * p);
    Substitute(x2, dd, a + b, -2 * p);
    Substitute(x1, a + b, a, b);
    Substitute(x2, a + b, a, b);
    CubicTerms(x1, x2, dd);
  }

  lemma CubicTerms(x1: int, x2: int, dd: int)
    ensures (COEFFICIENT + x1 + x2) * dd == COEFFICIENT * dd + x1 * dd + x2 * dd
    ensures x1 * (x2 * x2) == (x1 * x2) * x2 && x2 * (x1 * x1) == (x1 * x2) * x1
    ensures x1 * (-2 * (x1 * x2)) == -2 * ((x1 * x2) * x1) && x2 * (-2 * (x1 * x2)) == -2 * ((x1 * x2) * x2)
    ensures (x1 + x2) * (x1 * x2 + 1) == (x1 * x2) * x1 + (x1 * x2) * x2 + x1 + x2
    ensures x1 * x1 * x1 == x1 * (x1 * x1) && x2 * x2 * x2 == x2 * (x2 * x2)
  {
  }

  lemma CubicProduct(x1: int, x2: int, s: int, p: int)
    requires s == x1 + x2 && p == x1 * x2
    ensures Cubic(x1) * Cubic(x2)
         == p * (p * p + COEFFICIENT * (p * s) + (s * s - 2 * p) + COEFFICIENT * COEFFICIENT * p + COEFFICIENT * s + 1)
  {
    var q1, q2 := x1 * x1 + COEFFICIENT * x1 + 1, x2 * x2 + COEFFICIENT * x2 + 1;
    assert Cubic(x1) == x1 * q1 && Cubic(x2) == x2 * q2;
    assert (x1 * q1) * (x2 * q2) == (x1 * x2) * (q1 * q2);
    QuadraticProduct(x1, x2, s, p);
  }

  lemma QuadraticProduct(x1: int, x2: int, s: int, p: int)
    requires s == x1 + x2 && p == x1 * x2
    ensures (x1 * x1 + COEFFICIENT * x1 + 1) * (x2 * x2 + COEFFICIENT * x2 + 1)
         == p * p + COEFFICIENT * (p * s) + (s * s - 2 * p) + COEFFICIENT * COEFFICIENT * p + COEFFICIENT * s + 1
  {
    var a, b := x1 * x1, x2 * x2;
    assert a * b == p * p && a * x2 == p * x1 && x1 * b == p * x2;
    assert p * s == p * x1 + p * x2;
    Discriminant(x1, x2);
  }

  lemma SquareOfSum(a: int, b: int)
    ensures (a + b) * (a + b) == a * a + 2 * (a * b) + b * b
  {
  }

  lemma CrossTerm(p: int, s: int)
    ensures (2 * COEFFICIENT * p) * (s * (p + 1)) == 2 * COEFFICIENT * (p * (p * s) + p * s)
    ensures (2 * COEFFICIENT * p) * (2 * COEFFICIENT * p) == 4 * COEFFICIENT * COEFFICIENT * (p * p)
  {
    assert p * (s * (p + 1)) == p * (p * s) + p * s;
  }

  lemma SquareTerm(p: int, s: int)
    ensures (s * (p + 1)) * (s * (p + 1)) == (p * p) * (s * s) + 2 * (p * (s * s)) + s * s
  {
    var w, ss := p + 1, s * s;
    Exchange(s, w, s, w);
    assert w * w == p * p + 2 * p + 1;
    assert ss * (p * p + 2 * p + 1) == ss * (p * p) + ss * (2 * p) + ss;
  }

  lemma Multiply(p: int, r: int, ps: int, ss: int, s: int)
    requires r == p * p && ps == p * s
    ensures p * (r + COEFFICIENT * ps + (ss - 2 * p) + COEFFICIENT * COEFFICIENT * p + COEFFICIENT * s + 1)
         == p * r + COEFFICIENT * (p * ps) + p * ss - 2 * r + COEFFICIENT * COEFFICIENT * r + COEFFICIENT * ps + p
  {
  }

  lemma RightSide(p: int, ss: int, dd: int)
    requires dd == ss - 4 * p
    ensures ((p - 1) * (p - 1)) * dd == (p * p) * ss - 4 * (p * (p * p)) - 2 * (p * ss) + 8 * (p * p) + ss - 4 * p
  {
    var q := p * p - 2 * p + 1;
    assert (p - 1) * (p - 1) == q;
    assert q * dd == q * ss - 4 * (q * p);
    assert q * ss == (p * p) * ss - 2 * (p * ss) + ss && q * p == p * (p * p) - 2 * (p * p) + p;
  }

  lemma LinearCombination(tt: int, p: int, r: int, ps: int, ss: int, pr: int, pps: int, pss: int, rss: int)
    requires tt == 4 * COEFFICIENT * COEFFICIENT * r + 2 * (2 * COEFFICIENT * (pps + ps)) + (rss + 2 * pss + ss)
    ensures tt - 4 * (pr + COEFFICIENT * pps + pss - 2 * r + COEFFICIENT * COEFFICIENT * r + COEFFICIENT * ps + p)
         == rss - 4 * pr - 2 * pss + 8 * r + ss - 4 * p
  {
  }

  // ---------- multiples of a point ----------

  /** A point's abscissa as a quotient of two residues. */
  datatype Point = Point(x: int, z: int)

  ghost function Doubled(p: Point): Point
  {
    Point(((p.x * p.x - p.z * p.z) * (p.x * p.x - p.z * p.z)) % P,
          (4 * (p.x * p.z) * (p.x * p.x + COEFFICIENT * (p.x * p.z) + p.z * p.z)) % P)
  }

  ghost function AddedX(p: Point, q: Point): int
  {
    var m := p.x * q.x - p.z * q.z;
    4 * (m * m)
  }

  ghost function AddedZ(p: Point, q: Point, u: int): int
  {
    var n := p.x * q.z - p.z * q.x;
    4 * u * (n * n)
  }

  /** The sum of two points whose difference has abscissa u. */
  ghost function Added(p: Point, q: Point, u: int): Point
  {
    Point(AddedX(p, q) % P, AddedZ(p, q, u) % P)
  }

  /** The n-th multiple of the point with abscissa u, written as r halvings of n make it. */
  ghost function Times(u: int, n: nat, r: nat): Point
    decreases r
  {
    if r == 0 then if n == 0 then Point(1, 0) else Point(u % P, 1)
    else if n % 2 == 0 then Doubled(Times(u, n / 2, r - 1))
    else Added(Times(u, n / 2, r - 1), Times(u, n / 2 + 1, r - 1), u)
  }

  ghost predicate Holds(s: State, p: Point, q: Point)
  {
    var r := CSwap(s.swap, s);
    r.x2 == p.x && r.z2 == p.z && r.x3 == q.x && r.z3 == q.z
  }

  /** The ladder's state holds the n-th multiple and the next. */
  ghost predicate Neighbours(s: State, u: int, n: nat, r: nat)
  {
    Holds(s, Times(u, n, r), Times(u, n + 1, r))
  }

  lemma AddedCommutes(p: Point, q: Point, u: int)
    ensures AddedX(p, q) == AddedX(q, p) && AddedZ(p, q, u) == AddedZ(q, p, u)
  {
    var m, n := p.x * q.x - p.z * q.z, p.x * q.z - p.z * q.x;
    assert q.x * p.x - q.z * p.z == m && q.x * p.z - q.z * p.x == -n;
    assert (-n) * (-n) == n * n;
  }

  lemma RoundIs(u: int, s: State)
    ensures var r := Round(u, s);
            Point(r.x2, r.z2) == Doubled(Point(s.x2, s.z2)) && r.swap == s.swap
            && Point(r.x3, r.z3) == Added(Point(s.x2, s.z2), Point(s.x3, s.z3), u)
  {
    hide DoubleX, DoubleZ, AddX, AddZ;
    DoublingLaw(s.x2, s.z2);
    AdditionLaw(s.x2, s.z2, s.x3, s.z3, u);
  }

  /** What bits 255 down to t say: k halved t times. */
  ghost function Top(k: nat, t: nat): nat
  {
    if t == 0 then k else Top(k, t - 1) / 2
  }

  lemma {:induction false} TopIs(k: nat, t: nat)
    ensures Top(k, t) == k / Pow2(t)
  {
    hide Pow2;
    if t == 0 {
      NoHalving(k);
    } else {
      TopIs(k, t - 1);
      HalfOf(k, t - 1);
    }
  }

  lemma NoHalving(k: nat)
    ensures k / Pow2(0) == k
  {
  }

  /** After bits 255 down to t the ladder holds the multiples by what those bits say, and by one more. */
  lemma {:induction false} LadderHolds(u: int, k: nat, t: nat, n: nat, r: nat)
    requires k < Pow2(256) && t + r == 256 && n == Top(k, t)
    ensures Neighbours(RfcLadder(u, k, t), u, n, r)
    decreases r
  {
    hide DoubleX, DoubleZ, AddX, AddZ, Times, Doubled, AddedX, AddedZ, Round, Bit, Pow2, Top;
    if r == 0 {
      TopStart(k);
      Start(u, n);
    } else {
      var h, bit := Top(k, t + 1), Bit(k, t);
      LadderHolds(u, k, t + 1, h, r - 1);
      TopBit(k, t);
      var s, p, q := RfcLadder(u, k, t + 1), Times(u, h, r - 1), Times(u, h + 1, r - 1);
      var (a, b) := if bit then (q, p) else (p, q);
      RoundIs(u, State(a.x, a.z, b.x, b.z, s.swap));
      AddedCommutes(p, q, u);
      NextTimes(u, h, r - 1);
    }
  }

  lemma TopStart(k: nat)
    requires k < Pow2(256)
    ensures Top(k, 256) == 0
  {
    hide Pow2, Top;
    TopIs(k, 256);
    RemainderUnique(k, k, 0, Pow2(256));
  }

  lemma Start(u: int, n: int)
    requires n == 0
    ensures Holds(State(1, 0, u % P, 1, false), Times(u, n, 0), Times(u, n + 1, 0))
  {
  }

  lemma HalfOf(k: nat, t: nat)
    ensures k / Pow2(t) == 2 * (k / Pow2(t + 1)) + if Bit(k, t) then 1 else 0
  {
    hide Pow2;
    var m, q, r := Pow2(t), k / Pow2(t), k % Pow2(t);
    DoublePow(t);
    assert k == q * m + r;
    var h, b := q / 2, q % 2;
    assert k == h * (2 * m) + (b * m + r);
    MulLe(b, 1, m);
    RemainderUnique(k, b * m + r, h, 2 * m);
  }

  lemma TopBit(k: nat, t: nat)
    ensures Top(k, t) == 2 * Top(k, t + 1) + if Bit(k, t) then 1 else 0
  {
    hide Pow2, Top, Bit;
    TopIs(k, t);
    TopIs(k, t + 1);
    HalfOf(k, t);
  }

  lemma DoublePow(t: nat)
    ensures Pow2(t + 1) == 2 * Pow2(t)
  {
  }

  lemma NextTimes(u: int, n: nat, r: nat)
    ensures Times(u, 2 * n, r + 1) == Doubled(Times(u, n, r))
    ensures Times(u, 2 * n + 1, r + 1) == Added(Times(u, n, r), Times(u, n + 1, r), u)
    ensures Times(u, 2 * n + 2, r + 1) == Doubled(Times(u, n + 1, r))
  {
    hide Doubled, Added;
    assert (2 * n + 1) / 2 == n && (2 * n + 2) / 2 == n + 1;
  }

  /** The ladder's result is the abscissa of the k-th multiple. */
  lemma ResidueIsMultiple(u: int, k: nat)
    requires k < Pow2(256)
    ensures LadderResidue(u, k) == (Times(u, k, 256).x * Pow(Times(u, k, 256).z, RecipExponent(false))) % P
  {
    hide RfcLadder, Times, Pow, RecipExponent;
    assert Top(k, 0) == k;
    LadderHolds(u, k, 0, k, 256);
  }

  // ---------- leading zeros ----------

  /** Two ways to write one abscissa. */
  ghost predicate Same(p: Point, q: Point)
  {
    Cong(p.x * q.z, q.x * p.z, P)
  }

  ghost function DoubledX(x: int, z: int): int
  {
    (x * x - z * z) * (x * x - z * z)
  }

  ghost function DoubledZ(x: int, z: int): int
  {
    4 * (x * z) * (x * x + COEFFICIENT * (x * z) + z * z)
  }

  lemma SameDoubled(p: Point, q: Point)
    requires Same(p, q)
    ensures Same(Doubled(p), Doubled(q))
  {
    hide Cong, DoubledX, DoubledZ;
    var k := CongElim(p.x * q.z, q.x * p.z, P);
    var h := DoubledDifference(p.x, p.z, q.x, q.z, k * P);
    assert h * (k * P) == (h * k) * P;
    CongIntro(DoubledX(p.x, p.z) * DoubledZ(q.x, q.z), DoubledX(q.x, q.z) * DoubledZ(p.x, p.z), h * k, P);
    DoubledIs(p);
    DoubledIs(q);
    SameReduced(DoubledX(p.x, p.z), DoubledZ(p.x, p.z), DoubledX(q.x, q.z), DoubledZ(q.x, q.z));
  }

  lemma DoubledIs(p: Point)
    ensures Doubled(p) == Point(DoubledX(p.x, p.z) % P, DoubledZ(p.x, p.z) % P)
  {
  }

  lemma SameReduced(x: int, z: int, x': int, z': int)
    requires Cong(x * z', x' * z, P)
    ensures Same(Point(x % P, z % P), Point(x' % P, z' % P))
  {
    hide Cong;
    CongMod(x, P);
    CongMod(z, P);
    CongMod(x', P);
    CongMod(z', P);
    CongMul(x % P, x, z' % P, z', P);
    CongMul(x' % P, x', z % P, z, P);
    CongTrans(x % P * (z' % P), x * z', x' * z, P);
    CongFlip(x' % P * (z % P), x' * z, P);
    CongTrans(x % P * (z' % P), x' * z, x' % P * (z % P), P);
  }

  /** Doubling is homogeneous: what two ways to write a point differ by stays a factor. */
  lemma DoubledDifference(x: int, z: int, x': int, z': int, d: int) returns (h: int)
    requires x * z' == x' * z + d
    ensures DoubledX(x, z) * DoubledZ(x', z') == DoubledX(x', z') * DoubledZ(x, z) + h * d
  {
    var a, b, c, a', b', c' := x * x, x * z, z * z, x' * x', x' * z', z' * z';
    var g, e := x * x' + z * z', x * z' + x' * z;
    Products(x, z, x', z', d, e);
    var u, u', v, v' := (a - c) * b', (a' - c') * b, (a - c) * (a' + COEFFICIENT * b' + c'),
                        (a' - c') * (a + COEFFICIENT * b + c);
    assert u - u' == a * b' - a' * b - (c * b' - c' * b);
    assert g * d == (x * x') * d + (z * z') * d;
    assert u == u' + g * d;
    var w := COEFFICIENT * g + 2 * e;
    assert v - v' == COEFFICIENT * (u - u') + 2 * (a * c' - a' * c) by {
      Spread(a, b, c, a', b', c');
    }
    assert w * d == COEFFICIENT * (g * d) + 2 * (e * d);
    assert v == v' + w * d;
    ProductDifference(u, u', v, v', g, w, d);
    h := 4 * (g * v + u' * w);
    Regroup(a - c, b', a' + COEFFICIENT * b' + c');
    Regroup(a' - c', b, a + COEFFICIENT * b + c);
    assert 4 * ((g * v + u' * w) * d) == h * d;
  }

  lemma Products(x: int, z: int, x': int, z': int, d: int, e: int)
    requires x * z' == x' * z + d && e == x * z' + x' * z
    ensures (x * x) * (x' * z') - (x' * x') * (x * z) == (x * x') * d
    ensures (z * z) * (x' * z') - (z' * z') * (x * z) == -((z * z') * d)
    ensures (x * x) * (z' * z') - (x' * x') * (z * z) == e * d
  {
    var m, n := x * z', x' * z;
    Exchange(x, x, z', x');
    Exchange(x', x', z, x);
    Exchange(z, z, x', z');
    Exchange(z', z', x, z);
    Exchange(x, x, z', z');
    Exchange(x', x', z, z);
    Substitute(x * x', m, n, d);
    Substitute(z * z', m, n, d);
    SquareGap(m, n, d);
  }

  lemma SquareGap(m: int, n: int, d: int)
    requires m == n + d
    ensures m * m - n * n == (m + n) * d
  {
  }

  lemma Spread(a: int, b: int, c: int, a': int, b': int, c': int)
    ensures (a - c) * (a' + COEFFICIENT * b' + c') - (a' - c') * (a + COEFFICIENT * b + c)
         == COEFFICIENT * ((a - c) * b' - (a' - c') * b) + 2 * (a * c' - a' * c)
  {
  }

  lemma ProductDifference(u: int, u': int, v: int, v': int, g: int, w: int, d: int)
    requires u == u' + g * d && v == v' + w * d
    ensures u * v == u' * v' + (g * v + u' * w) * d
  {
    assert u * v == u' * v + (g * d) * v;
    assert u' * v == u' * v' + u' * (w * d);
    assert (g * d) * v == (g * v) * d && u' * (w * d) == (u' * w) * d;
  }

  lemma Regroup(s: int, t: int, r: int)
    ensures (s * s) * (4 * t * r) == 4 * ((s * t) * (s * r))
  {
    assert (s * t) * (s * r) == (s * s) * (t * r);
    assert (s * s) * (4 * t * r) == 4 * ((s * s) * (t * r));
  }

  /** Modulo any M, so is adding. */
  lemma SameAdded(p: Point, p': Point, q: Point, q': Point, u: int, M: int)
    requires M > 0 && Cong(p.x * p'.z, p'.x * p.z, M) && Cong(q.x * q'.z, q'.x * q.z, M)
    ensures Cong(AddedX(p, q) * AddedZ(p', q', u), AddedX(p', q') * AddedZ(p, q, u), M)
  {
    hide Cong;
    var k := CongElim(p.x * p'.z, p'.x * p.z, M);
    var l := CongElim(q.x * q'.z, q'.x * q.z, M);
    var m, n := p.x * q.x - p.z * q.z, p.x * q.z - p.z * q.x;
    var m', n' := p'.x * q'.x - p'.z * q'.z, p'.x * q'.z - p'.z * q'.x;
    AddedDifference(p.x, p.z, p'.x, p'.z, q.x, q.z, q'.x, q'.z, k * M, l * M);
    var f := k * (q.z * q'.z - q.x * q'.x) + l * (p.x * p'.x - p.z * p'.z);
    Factor(k, q.z * q'.z - q.x * q'.x, l, p.x * p'.x - p.z * p'.z, M);
    assert m * n' == m' * n + f * M;
    SquaresDifference(m, n, m', n', f * M);
    SixteenTimes(u, m * m, n' * n');
    SixteenTimes(u, m' * m', n * n);
    var h := 16 * u * ((m * n' + m' * n) * f);
    assert h * M == 16 * u * ((m * n' + m' * n) * (f * M)) by {
      SixteenFactor(u, m * n' + m' * n, f, M);
    }
    SixteenSum(u, (m * m) * (n' * n'), (m' * m') * (n * n), (m * n' + m' * n) * (f * M));
    CongIntro((4 * (m * m)) * (4 * u * (n' * n')), (4 * (m' * m')) * (4 * u * (n * n)), h, M);
  }

  lemma Factor(k: int, a: int, l: int, b: int, M: int)
    ensures (k * M) * a + (l * M) * b == (k * a + l * b) * M
  {
    assert (k * M) * a == (k * a) * M && (l * M) * b == (l * b) * M;
  }

  lemma SixteenTimes(u: int, a: int, b: int)
    ensures (4 * a) * (4 * u * b) == 16 * u * (a * b)
  {
  }

  lemma SixteenFactor(u: int, a: int, f: int, M: int)
    ensures (16 * u * (a * f)) * M == 16 * u * (a * (f * M))
  {
    assert (a * f) * M == a * (f * M);
    var w := a * f;
    assert (16 * u * w) * M == 16 * u * (w * M);
  }

  lemma SixteenSum(u: int, a: int, b: int, d: int)
    requires a == b + d
    ensures 16 * u * a == 16 * u * b + 16 * u * d
  {
  }

  lemma AddedDifference(x: int, z: int, x': int, z': int, v: int, w: int, v': int, w': int, d: int, e: int)
    requires x * z' == x' * z + d && v * w' == v' * w + e
    ensures (x * v - z * w) * (x' * w' - z' * v')
         == (x' * v' - z' * w') * (x * w - z * v) + d * (w * w' - v * v') + e * (x * x' - z * z')
  {
    Product(x * v, z * w, x' * w', z' * v');
    Product(x' * v', z' * w', x * w, z * v);
    Exchange(x, v, x', w');
    Exchange(x, v, z', v');
    Exchange(z, w, x', w');
    Exchange(z, w, z', v');
    Exchange(x', v', x, w);
    Exchange(x', v', z, v);
    Exchange(z', w', x, w);
    Exchange(z', w', z, v);
    Substitute(x * x', v * w', v' * w, e);
    Substitute(z * z', v * w', v' * w, e);
    Substitute(v * v', x * z', x' * z, d);
    Substitute(w * w', x * z', x' * z, d);
    assert d * (w * w' - v * v') == (w * w') * d - (v * v') * d;
    assert e * (x * x' - z * z') == (x * x') * e - (z * z') * e;
  }

  lemma Product(a: int, b: int, c: int, d: int)
    ensures (a - b) * (c - d) == a * c - a * d - b * c + b * d
  {
  }

  lemma Exchange(a: int, b: int, c: int, d: int)
    ensures (a * b) * (c * d) == (a * c) * (b * d)
  {
  }

  lemma Substitute(c: int, s: int, t: int, d: int)
    requires s == t + d
    ensures c * s == c * t + c * d
  {
  }

  lemma SquaresDifference(m: int, n: int, m': int, n': int, d: int)
    requires m * n' == m' * n + d
    ensures (m * m) * (n' * n') == (m' * m') * (n * n) + (m * n' + m' * n) * d
  {
    var s, t := m * n', m' * n;
    assert (m * m) * (n' * n') == s * s && (m' * m') * (n * n) == t * t;
    assert s * s - t * t == (s + t) * (s - t);
  }

  lemma SameStart(u: int, n: nat)
    requires n <= 1
    ensures Same(Times(u, n, 0), Times(u, n, 1))
  {
    hide Cong, Same, Added, Doubled;
    if n == 0 {
      FirstDouble();
      SameItself(Point(1, 0));
    } else {
      var v := u % P;
      FirstSum(v, u);
      CongMod(u, P);
      CongFlip(v, u, P);
      CongRefl(4 * v, P);
      CongMul(4 * v, 4 * v, u, v, P);
      assert v * (4 * u) == 4 * v * u && 4 * v * v == 4 * (v * v) * 1;
      SameReduced(v, 1, 4 * (v * v), 4 * u);
    }
  }

  lemma FirstDouble()
    ensures Doubled(Point(1, 0)) == Point(1, 0)
  {
  }

  lemma FirstSum(v: int, u: int)
    ensures Added(Point(1, 0), Point(v, 1), u) == Point((4 * (v * v)) % P, (4 * u) % P)
  {
  }

  lemma SameItself(p: Point)
    ensures Same(p, p)
  {
  }

  /** More leading zero bits write the same multiple differently. */
  lemma {:induction false} LeadingZeros(u: int, n: nat, r: nat)
    requires n <= Pow2(r)
    ensures Same(Times(u, n, r), Times(u, n, r + 1))
    decreases r
  {
    hide Doubled, AddedX, AddedZ, Cong;
    if r == 0 {
      SameStart(u, n);
    } else if n % 2 == 0 {
      LeadingZeros(u, n / 2, r - 1);
      SameDoubled(Times(u, n / 2, r - 1), Times(u, n / 2, r));
    } else {
      LeadingZeros(u, n / 2, r - 1);
      LeadingZeros(u, n / 2 + 1, r - 1);
      var h := n / 2;
      var (p, p', q, q') := (Times(u, h, r - 1), Times(u, h, r), Times(u, h + 1, r - 1), Times(u, h + 1, r));
      SameAdded(p, p', q, q', u, P);
      SameReduced(AddedX(p, q), AddedZ(p, q, u), AddedX(p', q'), AddedZ(p', q', u));
    }
  }
}
