/**
 Arithmetic modulo the group order on 32-byte scalars: extended Euclid with
 truncated cofactors, the signature equation, and the canonical-form test.
 */
module Scalar {
  import opened LittleEndian
  import opened ByteBignum
  import opened Modular
  import opened Powers

  /** The order of the base point, least significant byte first. */
  const ORDER: seq<byte> := [
    237, 211, 245, 92, 26, 99, 18, 88, 214, 156, 247, 162, 222, 249, 222, 20,
    0, 0, 0, 0, 0, 0, 0, 0, 0, 0, 0, 0, 0, 0, 0, 16]

  lemma OrderBounds()
    ensures |ORDER| == 32
    ensures 16 * Radix(31) <= Value(ORDER) < 17 * Radix(31)
    ensures Radix(32) == 256 * Radix(31)
  {
    assert ORDER[..32] == ORDER;
    ValueTake(ORDER, 31);
    ValueBound(ORDER[..31]);
    RadixStep(31);
    hide Value, Radix;
  }

  /** The order is 2^252 + 27742317777372353535851937790883648493. */
  lemma OrderIs()
    ensures Value(ORDER) == Pow2(252) + 27742317777372353535851937790883648493
  {
    hide Value, Radix, Pow2;
    assert ORDER[..32] == ORDER;
    ValueTake(ORDER, 31);
    OrderMiddle();
    RadixPow(31);
    Pow2Add(4, 248);
    Sixteen();
  }

  lemma OrderMiddle()
    ensures Value(ORDER[..31]) == 27742317777372353535851937790883648493
  {
    hide Value;
    var s := ORDER[..31];
    ValueStrip(s, 16);
    assert s[..16] == ORDER[..16];
    OrderLow();
  }

  lemma OrderLow()
    ensures Value(ORDER[..16]) == 27742317777372353535851937790883648493
  {
    hide Value;
    ValueZeros(ORDER[..0]);
    ValueTake(ORDER, 0); ValueTake(ORDER, 1); ValueTake(ORDER, 2); ValueTake(ORDER, 3);
    ValueTake(ORDER, 4); ValueTake(ORDER, 5); ValueTake(ORDER, 6); ValueTake(ORDER, 7);
    ValueTake(ORDER, 8); ValueTake(ORDER, 9); ValueTake(ORDER, 10); ValueTake(ORDER, 11);
    ValueTake(ORDER, 12); ValueTake(ORDER, 13); ValueTake(ORDER, 14); ValueTake(ORDER, 15);
  }

  lemma Sixteen()
    ensures Pow2(4) == 16
  {
  }

  lemma {:induction false} RadixPow(n: nat)
    ensures Radix(n) == Pow2(8 * n)
  {
    if n > 0 {
      RadixPow(n - 1);
      assert 8 * n == 8 + 8 * (n - 1);
      Pow2Add(8, 8 * (n - 1));
    }
  }

  method OrderBytes() returns (order: array<byte>)
    ensures fresh(order) && order[..] == ORDER
  {
    order := new byte[32](i requires 0 <= i < 32 => ORDER[i]);
  }

  // ---------- significant bytes ----------

  method Numsize(x: array<byte>, n: nat) returns (k: nat)
    requires n <= x.Length
    ensures k <= n && (k > 0 ==> x[k - 1] != 0)
    ensures forall i :: k <= i < n ==> x[i] == 0
  {
    k := n;
    while k != 0
      invariant k <= n
      invariant forall i :: k <= i < n ==> x[i] == 0
    {
      if x[k - 1] != 0 {
        return;
      }
      k := k - 1;
    }
  }

  // ---------- two's complement ----------

  /** The 32 bytes of s read as a two's complement number. */
  ghost function Signed(s: seq<byte>): int
    requires |s| == 32
  {
    if s[31] >= 128 then Value(s) - Radix(32) else Value(s)
  }

  /** x holds g modulo 2^256. */
  ghost predicate Holds(x: seq<byte>, g: int)
    requires |x| == 32
  {
    Cong(Value(x), g, Radix(32))
  }

  lemma SignedIs(s: seq<byte>, g: int)
    requires |s| == 32 && Holds(s, g)
    requires -128 * Radix(31) <= g < 128 * Radix(31)
    ensures Signed(s) == g
  {
    hide Value, Radix, Cong;
    RadixStep(31);
    assert s[..32] == s;
    ValueTake(s, 31);
    ValueBound(s[..31]);
    if s[31] >= 128 {
      MulLe(128, s[31], Radix(31));
      MulLe(s[31], 255, Radix(31));
      assert Cong(Value(s) - Radix(32), g, Radix(32)) by {
        CongIntro(Value(s) - Radix(32), Value(s), -1, Radix(32));
        CongTrans(Value(s) - Radix(32), Value(s), g, Radix(32));
      }
      CongClose(Value(s) - Radix(32), g, Radix(32));
    } else {
      MulLe(s[31], 127, Radix(31));
      MulLe(0, s[31], Radix(31));
      CongClose(Value(s), g, Radix(32));
    }
  }

  // ---------- extended Euclid ----------

  /**
   The integers behind the byte strings: a == x * a0 + kx * b0 and
   b == y * a0 + ky * b0, with a determinant that bounds x and y.
   */
  ghost predicate Euclid(a0: nat, b0: nat, a: nat, b: nat, x: int, kx: int, y: int, ky: int, det: int)
  {
    && x * a0 + kx * b0 == a
    && y * a0 + ky * b0 == b
    && x * b - y * a == det
    && Gcd(a, b) == Gcd(a0, b0)
  }

  lemma EuclidFirst(a0: nat, b0: nat)
    ensures Euclid(a0, b0, a0, b0, 1, 0, 0, 1, b0)
  {
  }

  ghost predicate Quotient(b: int, a: int, q: int, rem: int)
  {
    b == q * a + rem && 0 <= rem < a
  }

  lemma QuotientShrinks(b: int, a: int, q: int, rem: int)
    requires Quotient(b, a, q, rem)
    ensures 0 <= rem < a
  {
  }

  /** Dividing b by a replaces the row of b, and swaps the roles of the rows. */
  lemma EuclidStep(a0: nat, b0: nat, a: nat, b: nat, x: int, kx: int, y: int, ky: int, det: int, q: int, b': nat)
    requires Euclid(a0, b0, a, b, x, kx, y, ky, det) && Quotient(b, a, q, b')
    ensures Euclid(a0, b0, b', a, y - q * x, ky - q * kx, x, kx, -det)
  {
    RemainderUnique(b, b', q, a);
    Row(a0, b0, x, kx, y, ky, q, a, b, b');
    Determinant(x, y, a, b, q, b');
  }

  lemma Row(a0: int, b0: int, x: int, kx: int, y: int, ky: int, q: int, a: int, b: int, b': int)
    requires x * a0 + kx * b0 == a && y * a0 + ky * b0 == b && b == q * a + b'
    ensures (y - q * x) * a0 + (ky - q * kx) * b0 == b'
  {
    Distribute(a0, y, q * x);
    Distribute(b0, ky, q * kx);
    Distribute(q, x * a0, kx * b0);
    assert (q * x) * a0 == q * (x * a0);
    assert (q * kx) * b0 == q * (kx * b0);
  }

  lemma Determinant(x: int, y: int, a: int, b: int, q: int, b': int)
    requires b == q * a + b'
    ensures x * b' - (y - q * x) * a == x * b - y * a
  {
    Distribute(a, y, q * x);
    Distribute(x, q * a, b');
    assert (q * x) * a == x * (q * a);
  }

  /** Opposite signs and a determinant of b0 keep both cofactors within b0. */
  lemma CofactorBounds(x: int, y: int, a: int, b: int, b0: int)
    requires x >= 0 >= y && a >= 1 && b >= 1 && x * b - y * a == b0
    ensures x <= b0 && -y <= b0
  {
    MulLe(1, b, x);
    MulLe(1, a, -y);
    assert (-y) * a == -(y * a);
  }

  /**
   One half of the loop body: divide b by a, and unless that leaves nothing,
   subtract quotient times x from y. Bytes 32 and up of y come out as garbage;
   the low 32 bytes are exact modulo 2^256.
   */
  method HalfStep(tmp: array<byte>, b: array<byte>, bn: nat, a: array<byte>, an: nat, y: array<byte>, x: array<byte>)
    returns (bn': nat, ghost q: int)
    requires 1 <= an <= bn <= 32 && 32 <= a.Length && 32 <= b.Length && 32 <= tmp.Length && a[an - 1] != 0
    requires 64 <= y.Length && 64 <= x.Length
    requires tmp != a && tmp != b && tmp != y && tmp != x && b != a && b != y && b != x && a != y && y != x
    modifies tmp, b, y
    ensures bn' <= an && (bn' > 0 ==> b[bn' - 1] != 0) && q >= 0
    ensures Quotient(old(Value(b[..bn])), Value(a[..an]), q, Value(b[..bn']))
    ensures bn' == 0 ==> y[..] == old(y[..])
    ensures bn' > 0 ==> Holds(y[..32], old(Value(y[..32])) - q * Value(x[..32]))
  {
    hide Value, Radix, Holds;
    ghost var av, xs, ys := a[..an], x[..32], y[..];
    var qn := bn - an + 1;
    DivMod(tmp, b, bn, a, an);
    assert a[..an] == av && x[..32] == xs && y[..] == ys;
    bn' := Numsize(b, bn);
    ghost var qs := tmp[..qn];
    q := Value(qs);
    ValueStrip(b[..an], bn');
    assert b[..an][..bn'] == b[..bn'];
    if bn' != 0 {
      ghost var bs := b[..bn'];
      Mula32(y, x, tmp, qn, -1);
      assert b[..bn'] == bs && a[..an] == av && x[..32] == xs;
      Truncated(ys, y[..], qn + 32, Value(xs), q);
    }
  }

  lemma Truncated(y: seq<byte>, y': seq<byte>, n: nat, xv: int, q: int)
    requires 32 <= n <= |y| == |y'|
    requires Value(y'[..n]) == (Value(y[..n]) + (-1) * (xv * q)) % Radix(n)
    ensures Holds(y'[..32], Value(y[..32]) - q * xv)
  {
    hide Value, Radix, Cong;
    var r, l := Radix(32), Radix(n - 32);
    RadixAdd(32, n - 32);
    var s := Value(y[..n]) + (-1) * (xv * q);
    CongMod(s, r * l);
    CongDivisor(Value(y'[..n]), s, r, l);
    LowBytes(y', n);
    LowBytes(y, n);
    CongShift(Value(y'[..32]), Value(y'[..n]), Value(y[..n]), Value(y[..32]), xv * q, r);
    assert q * xv == xv * q;
  }

  lemma CongShift(lo': int, all': int, all: int, lo: int, p: int, r: int)
    requires r > 0 && Cong(all', all + (-1) * p, r) && Cong(all', lo', r) && Cong(all, lo, r)
    ensures Cong(lo', lo - p, r)
  {
    CongSub(all, lo, p, p, r);
  }

  lemma LowBytes(s: seq<byte>, n: nat)
    requires 32 <= n <= |s|
    ensures Cong(Value(s[..n]), Value(s[..32]), Radix(32))
  {
    hide Value, Radix, Cong;
    ValueSplit(s[..n], 32);
    assert s[..n][..32] == s[..32];
    assert Radix(32) * Value(s[..n][32..]) == Value(s[..n][32..]) * Radix(32);
    CongIntro(Value(s[..n]), Value(s[..32]), Value(s[..n][32..]), Radix(32));
  }

  lemma HoldsStep(y: seq<byte>, y': seq<byte>, x: seq<byte>, gy: int, gx: int, q: int)
    requires |y| == |y'| == |x| == 32 && Holds(y, gy) && Holds(x, gx)
    requires Holds(y', Value(y) - q * Value(x))
    ensures Holds(y', gy - q * gx)
  {
    hide Value, Radix, Cong;
    var r := Radix(32);
    CongRefl(q, r);
    CongMul(q, q, Value(x), gx, r);
    CongSub(Value(y), gy, q * Value(x), q * gx, r);
    CongTrans(Value(y'), Value(y) - q * Value(x), gy - q * gx, r);
  }

  lemma EuclidEnd(a0: nat, b0: nat, a: nat, x: int, kx: int, y: int, ky: int, det: int)
    requires Euclid(a0, b0, 0, a, x, kx, y, ky, det)
    ensures y * a0 + ky * b0 == Gcd(a0, b0)
  {
  }

  lemma EuclidBounds(a0: nat, b0: nat, a: nat, b: nat, x: int, kx: int, y: int, ky: int)
    requires Euclid(a0, b0, a, b, x, kx, y, ky, b0) || Euclid(a0, b0, b, a, y, ky, x, kx, -(b0 as int))
    requires x >= 0 >= y && a >= 1 && b >= 1
    ensures x <= b0 && -y <= b0
  {
    assert x * b - y * a == b0;
    CofactorBounds(x, y, a, b, b0);
  }

  lemma SignsKept(x: int, y: int, q: int)
    requires x >= 0 >= y && q >= 0
    ensures y - q * x <= 0 && x - q * y >= 0
  {
    MulLe(0, x, q);
    MulLe(y, 0, q);
  }

  lemma PositiveValue(s: seq<byte>)
    requires s != [] && s[|s| - 1] != 0
    ensures Value(s) >= 1
  {
    LeadingByte(s);
  }

  lemma SmallValues(zero: seq<byte>, one: seq<byte>)
    requires |zero| == |one| == 32
    requires forall i :: 0 <= i < 32 ==> zero[i] == 0 && one[i] == (if i == 0 then 1 else 0)
    ensures Holds(zero, 0) && Holds(one, 1)
  {
    hide Value, Radix, Cong;
    ValueZeros(zero);
    ValueCons(one);
    ValueZeros(one[1..]);
    CongRefl(0, Radix(32));
    CongRefl(1, Radix(32));
  }

  lemma RadixGrows()
    ensures Radix(31) >= 1
  {
  }

  /**
   Extended Euclid. The returned array, read as two's complement, is a cofactor
   s with s * a congruent to gcd(a, b) modulo b, although every product was
   truncated to 32 bytes on the way.
   */
  method Egcd32(x: array<byte>, y: array<byte>, a: array<byte>, b: array<byte>) returns (s: array<byte>, ghost k: int)
    requires 64 <= x.Length && 64 <= y.Length && 32 <= a.Length && 32 <= b.Length
    requires x != y && x != a && x != b && y != a && y != b && a != b
    requires Value(b[..32]) < 128 * Radix(31)
    modifies x, y, a, b
    ensures s == x || s == y
    ensures Signed(s[..32]) * old(Value(a[..32])) + k * old(Value(b[..32]))
         == Gcd(old(Value(a[..32])), old(Value(b[..32])))
    ensures -old(Value(b[..32])) <= Signed(s[..32])
    ensures Signed(s[..32]) <= old(Value(b[..32])) || Signed(s[..32]) == 1
  {
    hide Value, Radix, Euclid, Holds, Signed, Quotient;
    ghost var a0, b0 := Value(a[..32]), Value(b[..32]);
    ghost var as0, bs0 := a[..32], b[..32];
    RadixGrows();
    var bn := 32;
    for i := 0 to 32
      invariant forall j :: 0 <= j < i ==> x[j] == 0 && y[j] == 0
      invariant a[..32] == as0 && b[..32] == bs0
    {
      x[i] := 0;
      y[i] := 0;
    }
    x[0] := 1;
    SmallValues(y[..32], x[..32]);
    assert a[..32] == as0 && b[..32] == bs0;
    var an := Numsize(a, 32);
    ValueStrip(a[..32], an);
    assert a[..32][..an] == a[..an];
    if an == 0 {
      SignedIs(y[..32], 0);
      NoValue(a[..an]);
      k := 1;
      return y, k;
    }
    var tmp := new byte[32](_ => 0);
    ghost var gx, kx, gy, ky := 1, 0, 0, 1;
    EuclidFirst(a0, b0);
    assert b[..bn] == b[..32];
    while true
      invariant 1 <= an <= bn <= 32 && a[an - 1] != 0
      invariant Euclid(a0, b0, Value(a[..an]), Value(b[..bn]), gx, kx, gy, ky, b0)
      invariant Holds(x[..32], gx) && Holds(y[..32], gy)
      invariant gx >= 0 >= gy && (gx <= b0 || gx == 1) && -gy <= b0
      decreases Value(a[..an])
    {
      ghost var q, q', bv';
      ghost var av, bv, xs, ys := Value(a[..an]), Value(b[..bn]), x[..32], y[..32];
      bn, q := HalfStep(tmp, b, bn, a, an, y, x);
      EuclidStep(a0, b0, av, bv, gx, kx, gy, ky, b0, q, Value(b[..bn]));
      if bn == 0 {
        NoValue(b[..bn]);
        EuclidEnd(a0, b0, av, gy - q * gx, ky - q * kx, gx, kx, -b0);
        SignedIs(x[..32], gx);
        k := kx;
        return x, k;
      }
      HoldsStep(ys, y[..32], xs, gy, gx, q);
      SignsKept(gx, gy, q);
      gy, ky := gy - q * gx, ky - q * kx;
      PositiveValue(a[..an]);
      PositiveValue(b[..bn]);
      EuclidBounds(a0, b0, av, Value(b[..bn]), gx, kx, gy, ky);

      q', bv', bv, ys := q, bv, Value(b[..bn]), y[..32];
      an, q := HalfStep(tmp, a, an, b, bn, x, y);
      EuclidStep(a0, b0, bv, av, gy, ky, gx, kx, -b0, q, Value(a[..an]));
      if an == 0 {
        NoValue(a[..an]);
        EuclidEnd(a0, b0, bv, gx - q * gy, kx - q * ky, gy, ky, b0);
        SignedIs(y[..32], gy);
        k := ky;
        return y, k;
      }
      HoldsStep(xs, x[..32], ys, gx, gy, q);
      SignsKept(gx, gy, q);
      gx, kx := gx - q * gy, kx - q * ky;
      PositiveValue(a[..an]);
      EuclidBounds(a0, b0, Value(a[..an]), bv, gx, kx, gy, ky);
      QuotientShrinks(av, bv, q, Value(a[..an]));
      QuotientShrinks(bv', av, q', bv);
    }
  }

  lemma NoValue(s: seq<byte>)
    requires s == []
    ensures Value(s) == 0
  {
  }

  // ---------- the reciprocal of a scalar ----------

  /**
   Replaces s by a number in [0, L] that inverts it modulo the order L whenever
   the two are coprime: a negative cofactor is brought up by one order.
   */
  method InvertScalar(s: array<byte>) returns (ghost k: int)
    requires s.Length == 32
    modifies s
    ensures Value(s[..]) * old(Value(s[..])) + k * Value(ORDER) == Gcd(old(Value(s[..])), Value(ORDER))
    ensures Value(s[..]) <= Value(ORDER)
  {
    hide Value, Radix, Signed, Accumulated;
    OrderBounds();
    RadixGrows();
    ghost var s0 := Value(s[..]);
    assert s[..32] == s[..];
    var tmp2 := new byte[64](_ => 0);
    var tmp3 := new byte[64](_ => 0);
    var order := OrderBytes();
    assert order[..32] == ORDER;
    var e;
    e, k := Egcd32(tmp2, tmp3, s, order);
    ghost var es := e[..32];
    for i := 0 to 32
      invariant e[..32] == es && s[..i] == es[..i]
    {
      s[i] := e[i];
    }
    assert s[..] == es;
    if s[31] >= 128 {
      order := OrderBytes();
      var c := MulaSmall(s, s, 0, order, 32, 1);
      assert order[..32] == ORDER && s[0..0 + 32] == s[..] && es[0..0 + 32] == es;
      BringUp(es, s[..], c, s0, k);
      k := k - s0;
    } else {
      SignedPlain(es);
    }
  }

  lemma SignedPlain(s: seq<byte>)
    requires |s| == 32 && s[31] < 128
    ensures Signed(s) == Value(s)
  {
  }

  lemma BringUp(es: seq<byte>, s: seq<byte>, c: int, s0: int, k: int)
    requires |es| == |s| == 32 && es[31] >= 128 && Accumulated(es, 1, ORDER, s, c)
    requires -Value(ORDER) <= Signed(es)
    ensures Value(s) == Signed(es) + Value(ORDER) && Value(s) <= Value(ORDER)
    ensures Signed(es) * s0 + k * Value(ORDER) == Value(s) * s0 + (k - s0) * Value(ORDER)
  {
    OrderBounds();
    ValueBound(es);
    ValueBound(s);
    hide Value, Radix;
    var l, g, r := Value(ORDER), Signed(es), Radix(32);
    assert Value(s) - (g + l) == (1 - c) * r by { Distribute(r, 1, c); }
    CongIntro(Value(s), g + l, 1 - c, r);
    CongClose(Value(s), g + l, r);
    Distribute(s0, g, l);
    Distribute(l, k, s0);
  }

  // ---------- the signature equation ----------

  /** The number in the low bytes of r, reduced modulo the order. */
  method ReduceScalar(q: array<byte>, r: array<byte>, size: nat)
    requires 32 <= size <= r.Length && size - 31 <= q.Length && q != r
    modifies q, r
    ensures Value(r[..32]) == old(Value(r[..size])) % Value(ORDER)
  {
    hide Value, Radix;
    var order := OrderBytes();
    assert order[..32] == ORDER;
    ghost var before := Value(r[..size]);
    DivMod(q, r, size, order, 32);
    assert order[..32] == ORDER;
    RemainderOf(before, Value(q[..size - 31]), Value(r[..32]));
  }

  /** v := x - h + L for x and h below L: positive, so nothing is lost. */
  method SubtractScalars(v: array<byte>, x: array<byte>, h: array<byte>)
    requires v.Length == x.Length == h.Length == 32 && v != x && v != h
    requires Value(x[..32]) < Value(ORDER) && Value(h[..32]) < Value(ORDER)
    modifies v
    ensures Value(v[..32]) == Value(x[..32]) - Value(h[..32]) + Value(ORDER)
  {
    hide Value, Radix, Accumulated;
    ghost var xs, hs := x[..32], h[..32];
    assert x[0..0 + 32] == xs;
    var c := MulaSmall(v, x, 0, h, 32, -1);
    ghost var v1 := v[0..0 + 32];
    var order := OrderBytes();
    var c' := MulaSmall(v, v, 0, order, 32, 1);
    assert order[..32] == ORDER && x[..32] == xs && h[..32] == hs;
    assert v[0..0 + 32] == v[..32];
    Difference(xs, hs, v1, c, v[..32], c');
  }

  /** v := (x - h) * s modulo the order; true exactly when that is not zero. */
  method Sign(v: array<byte>, h: array<byte>, x: array<byte>, s: array<byte>) returns (nonZero: bool)
    requires v.Length == h.Length == x.Length == s.Length == 32 && v != s
    modifies v
    ensures Value(v[..32])
         == (old(Value(x[..32]) % Value(ORDER) - Value(h[..32]) % Value(ORDER)) * Value(s[..32])) % Value(ORDER)
    ensures nonZero <==> Value(v[..32]) != 0
  {
    OrderBounds();
    RadixGrows();
    hide Value, Radix, Accumulated;
    ghost var hs, xs, ss := h[..32], x[..32], s[..32];
    var h1 := new byte[32](i requires 0 <= i < 32 reads h => h[i]);
    var x1 := new byte[32](i requires 0 <= i < 32 reads x => x[i]);
    assert h1[..32] == hs && x1[..32] == xs;
    var tmp3 := new byte[32](_ => 0);
    var tmp1 := new byte[64](_ => 0);
    var tmp2 := new byte[64](_ => 0);

    ReduceScalar(tmp3, h1, 32);
    assert x1[..32] == xs;
    ghost var hr := h1[..32];
    ReduceScalar(tmp3, x1, 32);
    assert h1[..32] == hr;
    ghost var xr := x1[..32];

    SubtractScalars(v, x1, h1);
    assert x1[..32] == xr && h1[..32] == hr && s[..32] == ss;
    ghost var vs, zeros := v[..32], tmp1[..64];
    ValueZeros(zeros);
    Mula32(tmp1, v, s, 32, 1);
    NoOverflow(tmp1[..64], vs, ss);
    ReduceScalar(tmp2, tmp1, 64);
    DropOrder(Value(xr) - Value(hr), Value(ss), Value(ORDER));

    nonZero := CopyOut(v, tmp1);
  }

  method CopyOut(v: array<byte>, t: array<byte>) returns (nonZero: bool)
    requires 32 <= v.Length && 32 <= t.Length && v != t
    modifies v
    ensures v[..32] == t[..32]
    ensures nonZero <==> Value(v[..32]) != 0
  {
    hide Value;
    nonZero := false;
    for i := 0 to 32
      invariant forall j :: 0 <= j < i ==> v[j] == t[j]
      invariant nonZero <==> exists j :: 0 <= j < i && t[j] != 0
    {
      v[i] := t[i];
      // the OR of the bytes is zero as long as every byte is
      if t[i] != 0 {
        nonZero := true;
      }
    }
    ZeroTest(v[..32]);
  }

  lemma RemainderOf(a: int, q: int, rem: int)
    requires a == q * Value(ORDER) + rem && 0 <= rem < Value(ORDER)
    ensures rem == a % Value(ORDER)
  {
    RemainderUnique(a, rem, q, Value(ORDER));
  }

  lemma Difference(x: seq<byte>, h: seq<byte>, v1: seq<byte>, c: int, v: seq<byte>, c': int)
    requires |x| == |h| == |v1| == |v| == 32 && Value(x) < Value(ORDER) && Value(h) < Value(ORDER)
    requires Accumulated(x, -1, h, v1, c) && Accumulated(v1, 1, ORDER, v, c')
    ensures Value(v) == Value(x) - Value(h) + Value(ORDER)
  {
    OrderBounds();
    ValueBound(v);
    hide Value, Radix;
    DifferenceAlgebra(Value(x), Value(h), Value(ORDER), Value(v1), c, Value(v), c', Radix(32));
  }

  lemma DifferenceAlgebra(x: int, h: int, l: int, v1: int, c: int, v: int, c': int, r: int)
    requires v1 + c * r == x + (-1) * h && v + c' * r == v1 + 1 * l
    requires 0 <= v < r && 0 <= x < l && 0 <= h < l && 2 * l <= r
    ensures v == x - h + l
  {
    var d, e := x - h + l, c + c';
    Distribute(r, c, c');
    assert v == d + (-e) * r;
    CongIntro(v, d, -e, r);
    CongClose(v, d, r);
  }

  lemma NoOverflow(p: seq<byte>, v: seq<byte>, s: seq<byte>)
    requires |p| == 64 && |v| == |s| == 32 && Value(p) == (0 + 1 * (Value(v) * Value(s))) % Radix(32 + 32)
    ensures Value(p) == Value(v) * Value(s)
  {
    ValueBound(v);
    ValueBound(s);
    RadixAdd(32, 32);
    hide Value, Radix;
    ProductBound(Value(v), Value(s), Radix(32), Radix(64));
  }

  lemma ProductBound(v: int, s: int, r: int, r2: int)
    requires 0 <= v < r && 0 <= s < r && r2 == r * r
    ensures (0 + 1 * (v * s)) % r2 == v * s
  {
    var p := v * s;
    MulLe(v, r, s);
    MulLe(s, r - 1, r);
    assert 0 <= p by { MulLe(0, v, s); }
    assert p <= r * s == s * r <= (r - 1) * r < r2;
    RemainderUnique(p, p, 0, r2);
  }

  lemma DropOrder(d: int, s: int, l: int)
    requires l > 0
    ensures ((d + l) * s) % l == (d * s) % l
  {
    Distribute(s, d, l);
    assert l * s == s * l;
    CongIntro((d + l) * s, d * s, s, l);
  }

  lemma ZeroTest(s: seq<byte>)
    ensures (exists j :: 0 <= j < |s| && s[j] != 0) <==> Value(s) != 0
  {
    if Value(s) == 0 {
      ValueZeroMeansZeros(s);
    } else if forall j :: 0 <= j < |s| ==> s[j] == 0 {
      ValueZeros(s);
    }
  }

  // ---------- canonical signatures ----------

  /** Exactly the strings whose first 32 bytes are below the order. */
  method IsCanonicalSignature(v: array<byte>) returns (canonical: bool)
    requires 32 <= v.Length
    ensures canonical <==> Value(v[..32]) < Value(ORDER)
  {
    hide Value, Radix;
    OrderBounds();
    RadixGrows();
    ghost var vs := v[..32];
    var copy := new byte[32](i requires 0 <= i < 32 reads v => v[i]);
    assert copy[..32] == vs;
    var tmp := new byte[32](_ => 0);
    ReduceScalar(tmp, copy, 32);
    assert v[..32] == vs;
    ReducedIff(Value(vs), Value(ORDER));
    canonical := true;
    for i := 0 to 32
      invariant canonical && forall j :: 0 <= j < i ==> v[j] == copy[j]
    {
      if v[i] != copy[i] {
        assert v[..32][i] != copy[..32][i];
        if Value(v[..32]) == Value(copy[..32]) {
          ValueInjective(v[..32], copy[..32]);
        }
        return false;
      }
    }
    assert v[..32] == copy[..32];
  }

  lemma ReducedIff(a: nat, l: nat)
    requires l > 0
    ensures a % l == a <==> a < l
  {
    if a < l {
      RemainderUnique(a, a, 0, l);
    }
  }
}
