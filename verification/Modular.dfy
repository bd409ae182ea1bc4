/** Congruences and greatest common divisors of integers. */
module Modular {

  ghost predicate Cong(a: int, b: int, m: int)
    requires m > 0
  {
    a % m == b % m
  }

  lemma MulLe(a: int, b: int, c: int)
    requires a <= b && c >= 0
    ensures a * c <= b * c
  {
  }

  lemma Distribute(a: int, b: int, c: int)
    ensures a * (b + c) == a * b + a * c
    ensures a * (b - c) == a * b - a * c
    ensures (b + c) * a == b * a + c * a
    ensures (b - c) * a == b * a - c * a
  {
  }

  lemma RemainderUnique(a: int, rem: int, k: int, m: int)
    requires 0 <= rem < m && a == rem + k * m
    ensures a % m == rem && a / m == k
  {
    var q, r := a / m, a % m;
    assert a == q * m + r;
    if q < k {
      MulLe(q + 1, k, m);
    } else if k < q {
      MulLe(k + 1, q, m);
    }
  }

  lemma CongIntro(a: int, b: int, k: int, m: int)
    requires m > 0 && a == b + k * m
    ensures Cong(a, b, m)
  {
    var q, r := b / m, b % m;
    assert b == q * m + r;
    Distribute(m, q, k);
    RemainderUnique(a, r, q + k, m);
  }

  lemma CongElim(a: int, b: int, m: int) returns (k: int)
    requires m > 0 && Cong(a, b, m)
    ensures a == b + k * m
  {
    k := a / m - b / m;
    assert a == (a / m) * m + a % m;
    assert b == (b / m) * m + b % m;
    Distribute(m, a / m, b / m);
  }

  lemma CongMod(a: int, m: int)
    requires m > 0
    ensures Cong(a % m, a, m)
  {
    assert a == (a / m) * m + a % m;
    CongIntro(a, a % m, a / m, m);
  }

  lemma CongTrans(a: int, b: int, c: int, m: int)
    requires m > 0 && Cong(a, b, m) && Cong(b, c, m)
    ensures Cong(a, c, m)
  {
  }

  lemma CongRefl(a: int, m: int)
    requires m > 0
    ensures Cong(a, a, m)
  {
  }

  lemma CongAdd(a: int, b: int, c: int, d: int, m: int)
    requires m > 0 && Cong(a, b, m) && Cong(c, d, m)
    ensures Cong(a + c, b + d, m)
  {
    var k := CongElim(a, b, m);
    var l := CongElim(c, d, m);
    Distribute(m, k, l);
    CongIntro(a + c, b + d, k + l, m);
  }

  lemma CongSub(a: int, b: int, c: int, d: int, m: int)
    requires m > 0 && Cong(a, b, m) && Cong(c, d, m)
    ensures Cong(a - c, b - d, m)
  {
    var k := CongElim(a, b, m);
    var l := CongElim(c, d, m);
    Distribute(m, k, l);
    CongIntro(a - c, b - d, k - l, m);
  }

  lemma CongMul(a: int, b: int, c: int, d: int, m: int)
    requires m > 0 && Cong(a, b, m) && Cong(c, d, m)
    ensures Cong(a * c, b * d, m)
  {
    var k := CongElim(a, b, m);
    var l := CongElim(c, d, m);
    assert a * c == b * c + (k * c) * m by {
      Distribute(c, b, k * m);
      assert (k * m) * c == (k * c) * m;
    }
    CongIntro(a * c, b * c, k * c, m);
    assert b * c == b * d + (b * l) * m by {
      Distribute(b, d, l * m);
      assert b * (l * m) == (b * l) * m;
    }
    CongIntro(b * c, b * d, b * l, m);
  }

  /** Two numbers closer than m that agree modulo m are equal. */
  lemma CongClose(a: int, b: int, m: int)
    requires m > 0 && Cong(a, b, m) && -m < a - b < m
    ensures a == b
  {
    var k := CongElim(a, b, m);
    if k >= 1 {
      MulLe(1, k, m);
    } else if k <= -1 {
      MulLe(k, -1, m);
    }
  }

  lemma CongDivisor(a: int, b: int, m: int, l: int)
    requires m > 0 && l > 0 && Cong(a, b, m * l)
    ensures Cong(a, b, m)
  {
    var k := CongElim(a, b, m * l);
    assert k * (m * l) == (k * l) * m;
    CongIntro(a, b, k * l, m);
  }

  // ---------- greatest common divisors ----------

  ghost function Gcd(a: nat, b: nat): nat
  {
    if a == 0 then b else Gcd(b % a, a)
  }

  ghost predicate Divides(d: int, n: int)
  {
    exists k :: Multiple(d, k) == n
  }

  ghost function Multiple(d: int, k: int): int
  {
    d * k
  }

  /** Gcd is a common divisor that every common divisor divides. */
  lemma {:induction false} GcdIsGreatest(a: nat, b: nat)
    ensures Divides(Gcd(a, b), a) && Divides(Gcd(a, b), b)
    ensures forall d :: Divides(d, a) && Divides(d, b) ==> Divides(d, Gcd(a, b))
    decreases a
  {
    if a == 0 {
      assert Multiple(b, 0) == 0 && Multiple(b, 1) == b;
    } else {
      var r, q := b % a, b / a;
      assert b == r + q * a;
      GcdIsGreatest(r, a);
      DividesSum(Gcd(r, a), r, a, q);
      forall d | Divides(d, a) && Divides(d, b) ensures Divides(d, Gcd(a, b)) {
        assert r == b + (-q) * a;
        DividesSum(d, b, a, -q);
      }
    }
  }

  lemma DividesSum(d: int, m: int, n: int, q: int)
    requires Divides(d, m) && Divides(d, n)
    ensures Divides(d, m + q * n)
  {
    var i :| Multiple(d, i) == m;
    var j :| Multiple(d, j) == n;
    calc {
      Multiple(d, i + q * j);
      d * i + d * (q * j);
      d * i + q * (d * j);
      m + q * n;
    }
  }
}
