/** Numbers written in a base, most significant digit first, and the division in place that converts them. */
module BaseConversion {
  import opened Modular
  import opened Powers

  ghost predicate Digits(s: seq<int>, base: int)
  {
    forall i :: 0 <= i < |s| ==> 0 <= s[i] < base
  }

  /** The number a digit sequence writes. */
  ghost function Number(s: seq<int>, base: int): int
  {
    if s == [] then 0 else Number(s[..|s| - 1], base) * base + s[|s| - 1]
  }

  lemma NoDigits(base: int)
    ensures Number([], base) == 0
  {
  }

  lemma NumberSnoc(s: seq<int>, d: int, base: int)
    ensures Number(s + [d], base) == Number(s, base) * base + d
  {
    assert (s + [d])[..|s|] == s;
  }

  lemma {:induction false} NumberCons(d: int, s: seq<int>, base: int)
    ensures Number([d] + s, base) == d * Pow(base, |s|) + Number(s, base)
  {
    if s == [] {
      assert [d] + s == [] + [d];
      NumberSnoc([], d, base);
    } else {
      var s', e := s[..|s| - 1], s[|s| - 1];
      assert [d] + s == ([d] + s') + [e];
      NumberCons(d, s', base);
      ConsStep(d, s', e, base);
    }
  }

  lemma ConsStep(d: int, s: seq<int>, e: int, base: int)
    requires Number([d] + s, base) == d * Pow(base, |s|) + Number(s, base)
    ensures Number(([d] + s) + [e], base) == d * Pow(base, |s| + 1) + Number(s + [e], base)
  {
    hide Number, Pow;
    NumberSnoc([d] + s, e, base);
    NumberSnoc(s, e, base);
    PowStep(base, |s|);
    Raise(Number([d] + s, base), d, Pow(base, |s|), Number(s, base), e, base,
          Number([d] + s + [e], base), Number(s + [e], base), Pow(base, |s| + 1));
  }

  lemma Raise(m: int, d: int, p: int, n: int, e: int, base: int, m': int, n': int, p': int)
    requires m == d * p + n && m' == m * base + e && n' == n * base + e && p' == p * base
    ensures m' == d * p' + n'
  {
    assert (d * p + n) * base == d * (p * base) + n * base;
  }

  lemma {:induction false} NumberBound(s: seq<int>, base: int)
    requires Digits(s, base) && 0 < base
    ensures 0 <= Number(s, base) < Pow(base, |s|)
  {
    if s != [] {
      var s' := s[..|s| - 1];
      NumberBound(s', base);
      BoundStep(Number(s', base), Pow(base, |s'|), s[|s| - 1], base);
    }
  }

  lemma BoundStep(n: int, p: int, d: int, base: int)
    requires 0 <= n < p && 0 <= d < base
    ensures 0 <= n * base + d < p * base
  {
    assert n * base <= (p - 1) * base;
  }

  lemma {:induction false} NumberZeros(n: nat, s: seq<int>, base: int)
    ensures Number(seq(n, i => 0) + s, base) == Number(s, base)
  {
    if n == 0 {
      assert seq(n, i => 0) + s == s;
    } else {
      var t := seq(n - 1, i => 0) + s;
      assert seq(n, i => 0) + s == [0] + t;
      NumberCons(0, t, base);
      NumberZeros(n - 1, s, base);
    }
  }

  ghost function Quotient(v: nat, base: int): (q: nat)
    requires 0 < base
  {
    v / base
  }

  ghost function Remainder(v: nat, base: int): (r: int)
    requires 0 < base
    ensures 0 <= r < base
  {
    v % base
  }

  lemma DivisionParts(v: nat, base: int)
    requires 0 < base
    ensures v == Quotient(v, base) * base + Remainder(v, base)
  {
  }

  lemma PartsUnique(v: nat, q: nat, r: int, base: int)
    requires 0 <= r < base && v == q * base + r
    ensures Quotient(v, base) == q && Remainder(v, base) == r
  {
    RemainderUnique(v, r, q, base);
  }

  lemma QuotientBelow(q: int, p: int, base: int, r: int)
    requires 0 <= r && q * base + r < p * base && 0 < base
    ensures q < p
  {
    if q >= p {
      MulLe(p, q, base);
    }
  }

  /** The n lowest digits of a number. */
  ghost function Written(v: nat, n: nat, base: int): (s: seq<int>)
    requires base > 0
    ensures |s| == n && Digits(s, base)
    decreases n
  {
    hide Quotient, Remainder;
    if n == 0 then [] else Written(Quotient(v, base), n - 1, base) + [Remainder(v, base)]
  }

  /** Reading a number and writing it give back the digits: they are unique. */
  lemma {:induction false} WrittenNumber(s: seq<int>, base: int)
    requires Digits(s, base) && 0 < base
    ensures 0 <= Number(s, base) && Written(Number(s, base), |s|, base) == s
  {
    hide Quotient, Remainder;
    NumberBound(s, base);
    if s != [] {
      var s', d := s[..|s| - 1], s[|s| - 1];
      NumberBound(s', base);
      WrittenNumber(s', base);
      PartsUnique(Number(s, base), Number(s', base), d, base);
      assert s' + [d] == s;
    }
  }

  lemma {:induction false} NumberWritten(v: nat, n: nat, base: int)
    requires 0 < base && v < Pow(base, n)
    ensures Number(Written(v, n, base), base) == v
  {
    hide Quotient, Remainder, Number;
    if n == 0 {
      NoDigits(base);
    } else {
      var q, r := Quotient(v, base), Remainder(v, base);
      DivisionParts(v, base);
      QuotientBelow(q, Pow(base, n - 1), base, r);
      NumberWritten(q, n - 1, base);
      NumberSnoc(Written(q, n - 1, base), r, base);
    }
  }

  lemma {:induction false} PowerMonotone(base: int, m: nat, n: nat)
    requires m <= n && 1 <= base
    ensures 1 <= Pow(base, m) <= Pow(base, n)
    decreases n
  {
    if m < n {
      PowerMonotone(base, m, n - 1);
      assert Pow(base, n - 1) <= Pow(base, n - 1) * base;
    } else if n > 0 {
      PowerMonotone(base, m - 1, n - 1);
      assert 1 <= Pow(base, n - 1) * base;
    }
  }

  // ---------- division in place ----------

  /**
   One pass of the conversion loop: the first length digits of the array, read
   as a number, are divided by the other base. The quotient's digits, without
   leading zeros, take their place and the remainder is the next digit.
   */
  method DivideInPlace(a: array<int>, length: nat, base: int, divisor: int) returns (newLength: nat, digit: int)
    requires 1 < base && 1 < divisor && length <= a.Length && Digits(a[..length], base)
    modifies a
    ensures newLength <= length && Digits(a[..newLength], base) && 0 <= digit < divisor
    ensures old(Number(a[..length], base)) == Number(a[..newLength], base) * divisor + digit
    ensures newLength > 0 ==> a[0] > 0
    ensures a[length..] == old(a[length..])
  {
    hide Number, Divided;
    ghost var was := a[..];
    newLength, digit := 0, 0;
    NoDivision(base, divisor);
    for i := 0 to length
      invariant newLength <= i && 0 <= digit < divisor
      invariant Digits(a[..newLength], base)
      invariant a[i..] == was[i..]
      invariant newLength > 0 ==> a[0] > 0
      invariant Divided(was[..i], a[..newLength], digit, base, divisor)
    {
      assert a[i] == a[i..][0] == was[i..][0] == was[i] == was[..length][i];
      ghost var quotient := a[..newLength];
      assert was[..i + 1] == was[..i] + [a[i]];
      assert a[i..][1..] == was[i..][1..];
      var next := digit * base + a[i];
      DivisionIdentity(next, divisor);
      DivideDigit(was[..i], quotient, digit, a[i], base, divisor, next, next / divisor, next % divisor);
      if next >= divisor {
        a[newLength], digit := next / divisor, next % divisor;
        newLength := newLength + 1;
        assert a[..newLength] == quotient + [next / divisor];
      } else {
        digit := next;
        if newLength > 0 {
          a[newLength] := 0;
          newLength := newLength + 1;
          assert a[..newLength] == quotient + [0];
        } else {
          assert quotient == [];
        }
      }
    }
    IsDivided(was[..length], a[..newLength], digit, base, divisor);
  }

  ghost predicate Divided(s: seq<int>, q: seq<int>, r: int, base: int, divisor: int)
  {
    Number(s, base) == Number(q, base) * divisor + r
  }

  lemma NoDivision(base: int, divisor: int)
    ensures Divided([], [], 0, base, divisor)
  {
  }

  lemma IsDivided(s: seq<int>, q: seq<int>, r: int, base: int, divisor: int)
    requires Divided(s, q, r, base, divisor)
    ensures Number(s, base) == Number(q, base) * divisor + r
  {
  }

  lemma DivisionIdentity(t: int, divisor: int)
    requires 0 < divisor
    ensures t == (t / divisor) * divisor + t % divisor && 0 <= t % divisor < divisor
  {
  }

  /** The next digit of the quotient and the next remainder. */
  lemma DivideDigit(s: seq<int>, q: seq<int>, r: int, d: int, base: int, divisor: int, t: int, g: int, h: int)
    requires Divided(s, q, r, base, divisor)
    requires 0 <= r < divisor && 0 <= d < base && 1 < divisor
    requires t == r * base + d && t == g * divisor + h && 0 <= h < divisor
    ensures 0 <= g < base && 0 <= t && (t >= divisor ==> g > 0)
    ensures Divided(s + [d], q + [g], h, base, divisor)
    ensures t < divisor ==> g == 0 && h == t
    ensures t < divisor && q == [] ==> Divided(s + [d], [], t, base, divisor)
  {
    hide Number;
    NumberSnoc(s, d, base);
    NumberSnoc(q, g, base);
    NoDigits(base);
    NextDigit(Number(s, base), Number(q, base), r, d, base, divisor, t, g, h);
  }

  lemma NextDigit(v: int, q: int, r: int, d: int, base: int, divisor: int, t: int, g: int, h: int)
    requires v == q * divisor + r && 0 <= r < divisor && 0 <= d < base && 1 < divisor
    requires t == r * base + d && t == g * divisor + h && 0 <= h < divisor
    ensures v * base + d == (q * base + g) * divisor + h
    ensures 0 <= g < base && 0 <= t && (t >= divisor ==> g > 0)
    ensures t < divisor ==> g == 0 && h == t
  {
    NextDigitBound(r, d, base, divisor);
    QuotientBelow(g, base, divisor, h);
    PositiveQuotient(t, g, h, divisor);
    NextDigitParts(v, q, r, d, base, divisor, t, g, h);
  }

  lemma NextDigitBound(r: int, d: int, base: int, divisor: int)
    requires 0 <= r < divisor && 0 <= d < base
    ensures 0 <= r * base + d < base * divisor
  {
    MulLe(r, divisor - 1, base);
    assert (divisor - 1) * base == base * divisor - base;
    MulLe(0, r, base);
  }

  lemma PositiveQuotient(t: int, g: int, h: int, divisor: int)
    requires 0 <= t && t == g * divisor + h && 0 <= h < divisor
    ensures 0 <= g && (t >= divisor ==> g > 0) && (t < divisor ==> g == 0)
  {
    if g <= 0 {
      MulLe(g, 0, divisor);
    }
    if g >= 1 {
      MulLe(1, g, divisor);
    }
    if g <= -1 {
      MulLe(g, -1, divisor);
    }
  }

  lemma NextDigitParts(v: int, q: int, r: int, d: int, base: int, divisor: int, t: int, g: int, h: int)
    requires v == q * divisor + r && t == r * base + d && t == g * divisor + h
    ensures v * base + d == (q * base + g) * divisor + h
  {
    assert v * base == q * divisor * base + r * base;
    assert (q * base + g) * divisor == q * divisor * base + g * divisor;
  }

  lemma {:induction false} LeadingPositive(s: seq<int>, base: int)
    requires Digits(s, base) && 1 < base && s != [] && s[0] > 0
    ensures Number(s, base) > 0
  {
    hide Number, Pow;
    assert s == [s[0]] + s[1..];
    NumberCons(s[0], s[1..], base);
    NumberBound(s[1..], base);
    PowerMonotone(base, 0, |s| - 1);
    MulLe(1, s[0], Pow(base, |s| - 1));
  }
}
