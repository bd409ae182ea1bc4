/**
 The byte-array routines of the signature code: multiply-accumulate by one
 small factor, multiply-accumulate of whole numbers, and long division, all in
 place and all in radix 256.
 */
module ByteBignum {
  import opened LittleEndian
  import opened Modular

  // ---------- p := q + z * x on n bytes, starting at byte m ----------

  /** p with the carry v on top is exactly q + z * x. */
  ghost predicate Accumulated(q: seq<byte>, z: int, x: seq<byte>, p: seq<byte>, v: int)
  {
    Value(p) + v * Radix(|p|) == Value(q) + z * Value(x)
  }

  /**
   The carry that leaves the top byte always lies between 0 and z, so for the
   multipliers used here every intermediate fits a machine word.
   */
  method MulaSmall(p: array<byte>, q: array<byte>, m: nat, x: array<byte>, n: nat, z: int) returns (v: int)
    requires m + n <= p.Length && m + n <= q.Length && n <= x.Length
    requires p != x
    modifies p
    ensures Accumulated(old(q[m..m + n]), z, x[..n], p[m..m + n], v)
    ensures p[..m] == old(p[..m]) && p[m + n..] == old(p[m + n..])
    ensures if z >= 0 then 0 <= v <= z else z <= v <= 0
  {
    hide Accumulated;
    ghost var q0 := q[..];
    v := 0;
    CarryStart(p[m..m], q[m..m], x[..0], z);
    for i := 0 to n
      invariant Accumulated(q0[m..m + i], z, x[..i], p[m..m + i], v)
      invariant forall j :: 0 <= j < p.Length && !(m <= j < m + i) ==> p[j] == old(p[j])
      invariant forall j :: m + i <= j < m + n ==> q[j] == q0[j]
      invariant if z >= 0 then 0 <= v <= z else z <= v <= 0
    {
      ghost var done, carry := p[m..m + i], v;
      CarryBounds(v, q[i + m], x[i], z);
      v := v + q[i + m] + z * x[i];
      p[i + m] := v % 256;
      v := v / 256;
      CarryStep(done, carry, q0[m..m + i], q0[m + i], x[..i], x[i], z, p[m + i], v);
      assert p[m..m + (i + 1)] == done + [p[m + i]];
      assert q0[m..m + (i + 1)] == q0[m..m + i] + [q0[m + i]];
      assert x[..i + 1] == x[..i] + [x[i]];
    }
  }

  lemma CarryStart(p: seq<byte>, q: seq<byte>, x: seq<byte>, z: int)
    requires |p| == |q| == |x| == 0
    ensures Accumulated(q, z, x, p, 0)
  {
  }

  lemma CarryBounds(carry: int, q: byte, x: byte, z: int)
    requires if z >= 0 then 0 <= carry <= z else z <= carry <= 0
    ensures if z >= 0 then 0 <= (carry + q + z * x) / 256 <= z else z <= (carry + q + z * x) / 256 <= 0
  {
    var s := carry + q + z * x;
    if z >= 0 {
      assert 0 <= z * x <= z * 255 by { MulLe(x, 255, z); }
      DivBounds(s, 0, z);
    } else {
      assert z * 255 <= z * x <= 0 by { MulLe(x, 255, -z); }
      DivBounds(s, z, 0);
    }
  }

  lemma DivBounds(s: int, lo: int, hi: int)
    requires 256 * lo <= s <= 256 * hi + 255
    ensures lo <= s / 256 <= hi
  {
  }

  lemma CarryStep(done: seq<byte>, carry: int, qs: seq<byte>, q: byte, xs: seq<byte>, x: byte, z: int, digit: byte,
      up: int)
    requires |done| == |qs| == |xs|
    requires Accumulated(qs, z, xs, done, carry)
    requires carry + q + z * x == 256 * up + digit
    ensures Accumulated(qs + [q], z, xs + [x], done + [digit], up)
  {
    ValueSnoc(done, digit);
    ValueSnoc(qs, q);
    ValueSnoc(xs, x);
    CarryAlgebra(Value(done), carry, Value(qs), z, Value(xs), Radix(|done|), q, x, digit, up,
                 Value(qs + [q]), Value(xs + [x]), Radix(|done| + 1));
  }

  lemma CarryAlgebra(before: int, carry: int, qv: int, z: int, xv: int, r: nat, q: int, x: int, digit: int, up: int,
                     qv': int, xv': int, r': int)
    requires before + carry * r == qv + z * xv
    requires carry + q + z * x == 256 * up + digit
    requires qv' == qv + q * r && xv' == xv + x * r && r' == 256 * r
    ensures before + digit * r + up * r' == qv' + z * xv'
  {
    calc {
      before + digit * r + up * r';
      before + (256 * up + digit) * r;
      before + (carry + q + z * x) * r;
      before + carry * r + q * r + (z * x) * r;
      (qv + q * r) + z * xv + (z * x) * r;
      { assert (z * x) * r == z * (x * r); }
      (qv + q * r) + z * xv + z * (x * r);
      qv' + z * xv';
    }
  }

  // ---------- p := p + z * x * y, x of 32 bytes, y of t bytes ----------

  /** The carry out of byte t + 31 is dropped, so the sum is exact modulo 256^(t + 32). */
  method Mula32(p: array<byte>, x: array<byte>, y: array<byte>, t: nat, z: int)
    requires t + 32 <= p.Length && 32 <= x.Length && t <= y.Length
    requires p != x && p != y
    modifies p
    ensures Value(p[..t + 32]) == (old(Value(p[..t + 32])) + z * (Value(x[..32]) * Value(y[..t]))) % Radix(t + 32)
    ensures forall j :: t + 32 <= j < p.Length ==> p[j] == old(p[j])
  {
    hide Value, Radix, Accumulated, RowsDone;
    ghost var p0, xs, ys := p[..], x[..32], y[..t];
    RowsStart(p0, xs, ys, z);
    var n := 31;
    var w := 0;
    var i := 0;
    while i < t
      invariant 0 <= i <= t
      invariant RowsDone(p[..], p0, xs, ys, z, i, w)
    {
      ghost var before, w0 := p[..], w;
      var zy := z * y[i];
      assert p[i..i + n] == before[i..i + n];
      var c := MulaSmall(p, p, i, x, n, zy);
      assert x[..n] == xs[..31] && x[n] == xs[31] && y[i] == ys[i];
      ghost var middle := p[..];
      assert middle[i..i + n] == p[i..i + n] && middle[..i] == before[..i];
      w := w + c + p[i + n] + zy * x[n];
      p[i + n] := w % 256;
      w := w / 256;
      RowStep(before, middle, p[..], p0, xs, ys, z, i, w0, c, w);
      i := i + 1;
    }
    ghost var before := p[..];
    p[i + n] := (w + p[i + n]) % 256;
    LastByte(before, p[..], p0, xs, ys, z, t, w);
    forall j | t + 32 <= j < p.Length ensures p[j] == p0[j] {
      assert p[j] == p[..][t + 32..][j - (t + 32)];
    }
  }

  /** Rows 0 .. i-1 have been added; w is the carry waiting at byte i + 31. */
  ghost predicate RowsDone(p: seq<byte>, p0: seq<byte>, xs: seq<byte>, ys: seq<byte>, z: int, i: nat, w: int)
  {
    && |p| == |p0| && i + 32 <= |p| && |xs| == 32 && i <= |ys|
    && p[i + 31..] == p0[i + 31..]
    && Value(p[..i + 31]) + w * Radix(i + 31) == Value(p0[..i + 31]) + z * (Value(xs) * Value(ys[..i]))
  }

  lemma RowsStart(p0: seq<byte>, xs: seq<byte>, ys: seq<byte>, z: int)
    requires 32 <= |p0| && |xs| == 32
    ensures RowsDone(p0, p0, xs, ys, z, 0, 0)
  {
    assert ys[..0] == [];
    EmptyProduct(z, Value(xs));
    hide Value, Radix;
  }

  lemma EmptyProduct(z: int, x: int)
    ensures z * (x * Value([])) == 0
  {
  }

  lemma RowStep(p: seq<byte>, middle: seq<byte>, p': seq<byte>, p0: seq<byte>, xs: seq<byte>, ys: seq<byte>,
                z: int, i: nat, w: int, c: int, w': int)
    requires RowsDone(p, p0, xs, ys, z, i, w) && i < |ys| && i + 33 <= |p|
    requires |middle| == |p| && middle[..i] == p[..i] && middle[i + 31..] == p[i + 31..]
    requires Accumulated(p[i..i + 31], z * ys[i], xs[..31], middle[i..i + 31], c)
    requires 0 <= w + c + p[i + 31] + (z * ys[i]) * xs[31] - 256 * w' < 256
    requires p' == middle[i + 31 := w + c + p[i + 31] + (z * ys[i]) * xs[31] - 256 * w']
    ensures RowsDone(p', p0, xs, ys, z, i + 1, w')
  {
    hide Value, Radix;
    RadixStep(i + 31);
    var low, mid, digit := p[..i], middle[i..i + 31], p'[i + 31];
    ValueSplit(p[..i + 31], i);
    assert p[..i + 31][..i] == low && p[..i + 31][i..] == p[i..i + 31];
    assert p'[..i + 32] == (low + mid) + [digit];
    ValueSnoc(low + mid, digit);
    ValueConcat(low, mid);
    assert p0[i + 31] == p[i + 31];
    assert p0[..i + 32] == p0[..i + 31] + [p0[i + 31]];
    ValueSnoc(p0[..i + 31], p0[i + 31]);
    assert ys[..i + 1] == ys[..i] + [ys[i]];
    ValueSnoc(ys[..i], ys[i]);
    assert xs == xs[..31] + [xs[31]];
    ValueSnoc(xs[..31], xs[31]);
    RadixAdd(i, 31);
    RowAlgebra(Radix(i), Radix(31), Value(low), Value(p[i..i + 31]), Value(mid), w, c, p[i + 31], xs[31],
        Value(xs[..31]),
               Value(xs), z, ys[i], z * ys[i], Value(ys[..i]), digit, w', Value(p0[..i + 31]), Radix(i + 31),
               Value(ys[..i + 1]), Value(p[..i + 31]), Radix(i + 32));
  }

  lemma LastByte(p: seq<byte>, p': seq<byte>, p0: seq<byte>, xs: seq<byte>, ys: seq<byte>, z: int, t: nat, w: int)
    requires RowsDone(p, p0, xs, ys, z, t, w) && |ys| == t
    requires |p'| == |p| && p'[..t + 31] == p[..t + 31] && p'[t + 32..] == p[t + 32..]
    requires p'[t + 31] == (w + p[t + 31]) % 256
    ensures Value(p'[..t + 32]) == (Value(p0[..t + 32]) + z * (Value(xs) * Value(ys))) % Radix(t + 32)
    ensures p'[t + 32..] == p0[t + 32..]
  {
    hide Value, Radix;
    assert ys[..t] == ys;
    assert p[t + 31] == p[t + 31..][0] == p0[t + 31..][0] == p0[t + 31];
    assert p'[t + 32..] == p[t + 31..][1..] == p0[t + 31..][1..];
    hide RowsDone;
    RadixStep(t + 31);
    ValueTake(p', t + 31);
    ValueTake(p0, t + 31);
    ValueBound(p'[..t + 32]);
    TopByte(Value(p'[..t + 31]), w, p0[t + 31], Radix(t + 31), Value(p0[..t + 31]), z * (Value(xs) * Value(ys)),
            p'[t + 31], Radix(t + 32), Value(p'[..t + 32]), Value(p0[..t + 32]));
  }

  lemma RowAlgebra(ri: int, rn: int, low: int, oldMid: int, newMid: int, w0: int, c: int, pt: int, xt: int, xLow: int,
                x: int, z: int, yi: int, zy: int, yLow: int, digit: int, w1: int, base: int, r: int, y': int,
                    pv: int, r': int)
    requires r == ri * rn && r' == 256 * r && y' == yLow + yi * ri && zy == z * yi
    requires pv == low + ri * oldMid && pv + w0 * r == base + z * (x * yLow)
    requires newMid + c * rn == oldMid + zy * xLow
    requires x == xLow + xt * rn
    requires w0 + c + pt + zy * xt == 256 * w1 + digit
    ensures low + ri * newMid + digit * r + w1 * r' == base + pt * r + z * (x * y')
  {
    calc {
      low + ri * newMid + digit * r + w1 * r';
      { assert w1 * r' == (256 * w1) * r; }
      low + ri * newMid + digit * r + (256 * w1) * r;
      { Distribute(r, digit, 256 * w1); }
      low + ri * newMid + (w0 + c + pt + zy * xt) * r;
      { Distribute(r, w0 + c + pt, zy * xt); Distribute(r, w0 + c, pt); Distribute(r, w0, c); }
      low + ri * newMid + w0 * r + c * r + pt * r + (zy * xt) * r;
      { assert c * r == ri * (c * rn); Distribute(ri, newMid, c * rn); }
      low + ri * (newMid + c * rn) + w0 * r + pt * r + (zy * xt) * r;
      { Distribute(ri, oldMid, zy * xLow); }
      low + ri * oldMid + w0 * r + pt * r + ri * (zy * xLow) + (zy * xt) * r;
      base + z * (x * yLow) + pt * r + ri * (zy * xLow) + (zy * xt) * r;
      { Gather(ri, rn, zy, xLow, xt); }
      base + z * (x * yLow) + pt * r + (ri * zy) * x;
      { assert (ri * zy) * x == z * (x * (yi * ri)) by { Shuffle(ri, z, yi, x); } }
      base + pt * r + (z * (x * yLow) + z * (x * (yi * ri)));
      { Distribute(x, yLow, yi * ri); Distribute(z, x * yLow, x * (yi * ri)); }
      base + pt * r + z * (x * y');
    }
  }

  lemma Gather(ri: int, rn: int, zy: int, xLow: int, xt: int)
    ensures ri * (zy * xLow) + (zy * xt) * (ri * rn) == (ri * zy) * (xLow + xt * rn)
  {
    var a := ri * zy;
    assert ri * (zy * xLow) == a * xLow;
    calc {
      (zy * xt) * (ri * rn);
      ((zy * xt) * ri) * rn;
      { assert (zy * xt) * ri == a * xt; }
      (a * xt) * rn;
      a * (xt * rn);
    }
    Distribute(a, xLow, xt * rn);
  }

  lemma Shuffle(ri: int, z: int, yi: int, x: int)
    ensures (ri * (z * yi)) * x == z * (x * (yi * ri))
  {
    assert ri * (z * yi) == z * (yi * ri);
    assert (z * (yi * ri)) * x == z * ((yi * ri) * x);
  }

  lemma TopByte(low: int, w: int, pt: int, r: int, base: int, product: int, digit: int, r': int, v: int, v0: int)
    requires r' == 256 * r && low + w * r == base + product
    requires digit == (w + pt) % 256 && v == low + digit * r && v0 == base + pt * r
    requires 0 <= v < r'
    ensures v == (v0 + product) % r'
  {
    var up := (w + pt) / 256;
    assert up * r' == (256 * up) * r;
    Distribute(r, w, pt);
    Distribute(r, 256 * up, digit);
    RemainderUnique(v0 + product, v, up, r');
  }

  // ---------- schoolbook division in place ----------

  /**
   Euclidean division of the n-byte number in r by the t-byte number in d. The
   quotient lands in q, the remainder in the low t bytes of r, zeros above it.
   */
  method DivMod(q: array<byte>, r: array<byte>, size: nat, d: array<byte>, t: nat)
    requires 1 <= t <= size <= r.Length && t <= d.Length && size - t + 1 <= q.Length
    requires d[t - 1] != 0
    requires q != r && q != d && r != d
    modifies q, r
    ensures old(Value(r[..size])) == Value(q[..size - t + 1]) * Value(d[..t]) + Value(r[..t])
    ensures Value(r[..t]) < Value(d[..t])
    ensures forall j :: t <= j < size ==> r[j] == 0
    ensures forall j :: size <= j < r.Length ==> r[j] == old(r[j])
    ensures forall j :: size - t + 1 <= j < q.Length ==> q[j] == old(q[j])
  {
    hide Value, Radix, Accumulated, Dividing, Window, Rest, TakesDigit, IsEstimate, Leaves;
    ghost var r0, q0, ds := r[..], q[..], d[..t];
    DivideStart(r0, q0, ds, size);
    var rn := 0;
    var dt: int := (d[t - 1] as int) * 256;
    if t > 1 {
      dt := dt + d[t - 2];
    }
    var n := size - 1;
    while n >= t - 1
      invariant t - 2 <= n < size
      invariant Dividing(r[..], q[..], r0, q0, ds, size, n - t + 2, rn)
    {
      ghost var rb, qb, j, top := r[..], q[..], n - t + 1, rn;
      DividingRest(rb, qb, r0, q0, ds, size, j + 1, rn);
      var z := EstimateDigit(r, n, rn, dt, ds);
      rn := SubtractDigit(r, n - t + 1, d, t, rn, z);
      q[n - t + 1] := z + rn;
      ghost var result := r[j..j + t];
      rn := r[n];
      r[n] := 0;
      assert r[..][..j] == rb[..j] && r[..][j + t..] == rb[j + t..];
      assert r[..][j..j + t - 1] == result[..t - 1];
      DivideStep(rb, qb, r[..], q[..], r0, q0, ds, size, j, top, rn, result, q[j]);
      n := n - 1;
    }
    ghost var rb := r[..];
    DividingRest(rb, q[..], r0, q0, ds, size, 0, rn);
    r[t - 1] := rn;
    DivideEnd(rb, r[..], q[..], r0, q0, ds, size, rn);
  }

  /** The quotient of the top two bytes and what was carried over by the two leading divisor bytes. */
  method EstimateDigit(r: array<byte>, n: nat, rn: byte, dt: int, ghost ds: seq<byte>) returns (z: int)
    requires 1 <= |ds| <= n + 1 <= r.Length && ds[|ds| - 1] != 0
    requires dt == (ds[|ds| - 1] as int) * 256 + (if |ds| > 1 then ds[|ds| - 2] as int else 0)
    requires Rest(r[..], n + 2 - |ds|, |ds|, rn) < Value(ds)
    ensures IsEstimate(Window(r[n + 1 - |ds|..n + 1], rn), Value(ds), z)
  {
    hide Value, Window, Rest, IsEstimate;
    z := rn as int * 0x1_0000 + (r[n] as int) * 256;
    if n > 0 {
      z := z + r[n - 1];
    }
    z := z / dt;
    var j := n + 1 - |ds|;
    Estimate(r[..], ds, j, rn, dt, z);
    assert r[j..n + 1] == r[..][j..n + 1];
  }

  /**
   One quotient digit: take z times the divisor out of the window, and put it
   back once if that went below zero. The digit is z plus the returned 0 or -1.
   */
  method SubtractDigit(r: array<byte>, j: nat, d: array<byte>, t: nat, top: int, z: int) returns (rn: int)
    requires 1 <= t && j + t <= r.Length && t <= d.Length && r != d
    requires IsEstimate(Window(r[j..j + t], top), Value(d[..t]), z)
    modifies r
    ensures -1 <= rn <= 0 && 0 <= z + rn <= 255
    ensures TakesDigit(old(Window(r[j..j + t], top)), Value(r[j..j + t]), z + rn, Value(d[..t]))
    ensures r[..j] == old(r[..j]) && r[j + t..] == old(r[j + t..])
  {
    hide Value, Radix, Accumulated, Window, TakesDigit, IsEstimate, Leaves;
    ghost var window, ds := r[j..j + t], d[..t];
    var v := MulaSmall(r, r, j, d, t, -z);
    assert d[..t] == ds;
    rn := top + v;
    ghost var middle := r[j..j + t];
    Corrected(window, middle, ds, top, z, v);
    v := MulaSmall(r, r, j, d, t, -rn);
    assert d[..t] == ds;
    Settled(window, middle, r[j..j + t], ds, top, z, rn, v);
  }

  /** What is left to divide: t - 1 bytes of r from byte j on, below the byte rn. */
  ghost function Rest(r: seq<byte>, j: nat, t: nat, rn: byte): nat
    requires 1 <= t && j + t - 1 <= |r|
  {
    Value(r[j..j + t - 1]) + rn * Radix(t - 1)
  }

  /** Quotient bytes j and up are final; below them r is still the dividend. */
  ghost predicate Dividing(r: seq<byte>, q: seq<byte>, r0: seq<byte>, q0: seq<byte>, ds: seq<byte>, size: nat,
      j: nat, rn: int)
  {
    && DividingFrame(r, q, r0, q0, ds, size, j, rn)
    && DividingValue(r, q, r0, ds, size, j, rn)
  }

  ghost predicate DividingFrame(r: seq<byte>, q: seq<byte>, r0: seq<byte>, q0: seq<byte>, ds: seq<byte>, size: nat,
      j: nat, rn: int)
  {
    var t := |ds|;
    && 1 <= t <= size <= |r| == |r0| && size - t + 1 <= |q| == |q0| && ds[t - 1] != 0
    && j <= size - t + 1 && 0 <= rn < 256
    && r[..j] == r0[..j] && r[size..] == r0[size..] && q[size - t + 1..] == q0[size - t + 1..]
    && (forall i :: j + t - 1 <= i < size ==> r[i] == 0)
  }

  /** The rest is below the divisor, and dividend = quotient * divisor + rest so far. */
  ghost predicate DividingValue(r: seq<byte>, q: seq<byte>, r0: seq<byte>, ds: seq<byte>, size: nat, j: nat, rn: byte)
    requires 1 <= |ds| <= size <= |r| == |r0| && j <= size - |ds| + 1 <= |q|
  {
    DivisionSoFar(Value(r0[..size]), Value(r0[..j]), Radix(j), Rest(r, j, |ds|, rn), Value(ds),
        Value(q[j..size - |ds| + 1]))
  }

  ghost predicate DivisionSoFar(all: int, low: int, r: int, rest: int, d: int, qs: int)
  {
    rest < d && all == low + r * (rest + d * qs)
  }

  lemma DividingRest(r: seq<byte>, q: seq<byte>, r0: seq<byte>, q0: seq<byte>, ds: seq<byte>, size: nat, j: nat,
      rn: int)
    requires Dividing(r, q, r0, q0, ds, size, j, rn)
    ensures 0 <= rn < 256 && j + |ds| - 1 <= |r| && Rest(r, j, |ds|, rn) < Value(ds)
  {
    hide Value, Radix;
  }

  /** Taking the given quotient digit from w leaves res. */
  ghost predicate TakesDigit(w: int, res: int, digit: int, d: int)
  {
    res < d && w == res + digit * d
  }

  lemma DivideStart(r0: seq<byte>, q0: seq<byte>, ds: seq<byte>, size: nat)
    requires 1 <= |ds| <= size <= |r0| && size - |ds| + 1 <= |q0| && ds[|ds| - 1] != 0
    ensures Dividing(r0, q0, r0, q0, ds, size, size - |ds| + 1, 0)
  {
    var t, j := |ds|, size - |ds| + 1;
    LeadingByte(ds);
    ValueBound(r0[j..size]);
    ValueSplit(r0[..size], j);
    assert r0[..size][..j] == r0[..j] && r0[..size][j..] == r0[j..size];
    assert q0[j..j] == [];
    assert Rest(r0, j, t, 0) == Value(r0[j..size]);
    assert Value(q0[j..j]) == 0;
    hide Value, Radix, Rest;
    assert Value(ds) * 0 == 0;
  }

  lemma LeadingByte(s: seq<byte>)
    requires s != [] && s[|s| - 1] != 0
    ensures Radix(|s| - 1) <= Value(s)
  {
    var n := |s| - 1;
    MulLe(1, s[n], Radix(n));
  }

  /** The window that the next quotient byte is taken from. */
  ghost function Window(w: seq<byte>, top: int): int
  {
    Value(w) + top * Radix(|w|)
  }

  lemma WindowIsNext(r: seq<byte>, j: nat, t: nat, rn: byte)
    requires 1 <= t && j + t <= |r|
    ensures Window(r[j..j + t], rn) == r[j] as int + 256 * Rest(r, j + 1, t, rn)
  {
    hide Value, Radix;
    ValueCons(r[j..j + t]);
    assert r[j..j + t][1..] == r[j + 1..j + t];
    RadixStep(t - 1);
    assert rn * Radix(t) == 256 * (rn * Radix(t - 1)) by { Reassociate(rn, Radix(t - 1), Radix(t)); }
  }

  lemma Reassociate(a: int, r: int, r': int)
    requires r' == 256 * r
    ensures a * r' == 256 * (a * r)
  {
  }

  /** The two-byte estimate is the true quotient byte or one more. */
  lemma Estimate(r: seq<byte>, ds: seq<byte>, j: nat, rn: byte, dt: int, z: int)
    requires 1 <= |ds| && j + |ds| <= |r| && ds[|ds| - 1] != 0
    requires Rest(r, j + 1, |ds|, rn) < Value(ds)
    requires dt == (ds[|ds| - 1] as int) * 256 + (if |ds| > 1 then ds[|ds| - 2] as int else 0)
    requires var n := j + |ds| - 1;
             z == ((rn as int) * 0x1_0000 + (r[n] as int) * 256 + (if n > 0 then r[n - 1] as int else 0)) / dt
    ensures IsEstimate(Window(r[j..j + |ds|], rn), Value(ds), z)
  {
    hide Value, Radix, IsEstimate, Window, Rest;
    var t, n, w := |ds|, j + |ds| - 1, r[j..j + |ds|];
    var d := Value(ds);
    WindowIsNext(r, j, t, rn);
    assert 0 <= Window(w, rn) < 256 * d;
    if t == 1 {
      OneByteWindow(w, ds, rn);
      EstimateNarrow(Window(w, rn), d, dt, if n > 0 then r[n - 1] else 0, z);
    } else {
      WideWindow(w, rn);
      ValueTopTwo(ds);
      ValueBound(w[..t - 2]);
      ValueBound(ds[..t - 2]);
      var u := (rn as int) * 0x1_0000 + (r[n] as int) * 256 + (r[n - 1] as int);
      EstimateWide(Value(w[..t - 2]), Radix(t - 2), u, Value(ds[..t - 2]), dt, Window(w, rn), d, z);
    }
  }

  lemma OneByteWindow(w: seq<byte>, ds: seq<byte>, rn: byte)
    requires |w| == |ds| == 1
    ensures Window(w, rn) == w[0] as int + 256 * (rn as int) && Value(ds) == ds[0]
  {
    assert Radix(1) == 256 * Radix(0) == 256;
    assert w[..0] == [] && ds[..0] == [];
    assert Value([]) == 0;
  }

  lemma WideWindow(w: seq<byte>, rn: byte)
    requires |w| >= 2
    ensures var t := |w|;
            Window(w, rn) == Value(w[..t - 2]) + Radix(t - 2) * ((rn as int) * 0x1_0000 + (w[t - 1] as int) * 256
                + w[t - 2] as int)
  {
    hide Value, Radix;
    var t := |w|;
    ValueTopTwo(w);
    RadixStep(t - 1);
    RadixStep(t - 2);
    JoinTop(Radix(t - 2), Radix(t), rn, w[t - 2] as int + 256 * (w[t - 1] as int));
  }

  ghost predicate IsEstimate(w: int, d: int, z: int) {
    0 <= w < 256 * d && 0 <= z <= 256 && -d <= w - z * d < d
  }

  lemma RadixZero()
    ensures Radix(0) == 1
  {
  }

  lemma JoinTop(r: int, r2: int, rn: int, two: int)
    requires r2 == 0x1_0000 * r
    ensures r * two + rn * r2 == r * (rn * 0x1_0000 + two)
  {
    assert rn * r2 == r * (rn * 0x1_0000);
    Distribute(r, rn * 0x1_0000, two);
  }

  lemma EstimateNarrow(w: int, d: int, dt: int, noise: byte, z: int)
    requires 0 < d < 256 && dt == 256 * d && 0 <= w < 256 * d && z == (256 * w + noise) / dt
    ensures IsEstimate(w, d, z)
  {
    var k := w / d;
    assert w == k * d + w % d;
    assert (256 * w + noise) - k * dt == 256 * (w % d) + noise by { Reassociate(k, d, dt); }
    RemainderUnique(256 * w + noise, 256 * (w % d) + noise, k, dt);
    SmallQuotient(w, d, k);
  }

  lemma SmallQuotient(w: int, d: int, k: int)
    requires 0 < d && 0 <= w - k * d < d && 0 <= w < 256 * d
    ensures 0 <= k < 256
  {
    if k < 0 {
      MulLe(k, -1, d);
    } else if k >= 256 {
      MulLe(256, k, d);
    }
  }

  lemma EstimateWide(lo: nat, b: nat, u: nat, dlo: nat, dt: nat, w: int, d: int, z: int)
    requires lo < b && dlo < b && dt >= 256 && w == lo + b * u && d == dlo + b * dt && 0 <= w < 256 * d && z == u / dt
    ensures IsEstimate(w, d, z)
  {
    hide IsEstimate;
    EstimateAtMost256(lo, b, u, dlo, dt, w, d, z);
    // z * d == e + f * b
    var e, f := z * dlo, z * dt;
    SplitProduct(z, dlo, b, dt, d);
    LowPart(z, dlo, b, dt, d);
    HighPart(f, u, b, dt);
    IsEstimateIntro(w, d, z, z * d);
  }

  lemma SplitProduct(z: int, dlo: int, b: int, dt: int, d: int)
    requires d == dlo + b * dt
    ensures z * d == z * dlo + (z * dt) * b
  {
    Distribute(z, dlo, b * dt);
    assert z * (b * dt) == (z * dt) * b;
  }

  lemma LowPart(z: int, dlo: nat, b: nat, dt: nat, d: int)
    requires 0 <= z <= 256 <= dt && dlo < b && d == dlo + b * dt
    ensures 0 <= z * dlo <= d
  {
    MulLe(dlo, b, z);
    MulLe(z, 256, b);
    MulLe(256, dt, b);
  }

  lemma HighPart(f: int, u: int, b: nat, dt: int)
    requires f <= u < f + dt
    ensures f * b <= b * u && b * u + b <= f * b + b * dt
  {
    MulLe(f, u, b);
    MulLe(u + 1, f + dt, b);
    Distribute(b, f, dt);
    Distribute(b, u, 1);
  }

  lemma IsEstimateIntro(w: int, d: int, z: int, zd: int)
    requires zd == z * d && 0 <= w < 256 * d && 0 <= z <= 256 && -d <= w - zd < d
    ensures IsEstimate(w, d, z)
  {
  }

  lemma EstimateAtMost256(lo: nat, b: nat, u: nat, dlo: nat, dt: nat, w: int, d: int, z: int)
    requires lo < b && dlo < b && dt >= 256 && w == lo + b * u && d == dlo + b * dt && w < 256 * d && z == u / dt
    ensures 0 <= z <= 256
  {
    assert z * dt <= u;
    assert (257 * dt) * b == 257 * (b * dt);
    MulLe(256, dt, b);
    if z > 256 {
      MulLe(257, z, dt);
      MulLe(257 * dt, u, b);
    }
  }

  /** Subtracting z times the divisor leaves the bytes in middle, and c above them. */
  ghost predicate Leaves(window: seq<byte>, top: int, ds: seq<byte>, z: int, middle: seq<byte>, c: int)
  {
    Value(middle) == Window(window, top) - z * Value(ds) - c * Radix(|ds|)
  }

  lemma Corrected(window: seq<byte>, middle: seq<byte>, ds: seq<byte>, top: int, z: int, v: int)
    requires |window| == |middle| == |ds|
    requires Accumulated(window, -z, ds, middle, v)
    requires IsEstimate(Window(window, top), Value(ds), z)
    ensures -1 <= top + v <= 0 && 0 <= z + (top + v) <= 255
    ensures Leaves(window, top, ds, z, middle, top + v)
  {
    hide Value, Radix;
    var w, d, r, m, c := Window(window, top), Value(ds), Radix(|ds|), Value(middle), top + v;
    ValueBound(middle);
    ValueBound(ds);
    assert (-z) * d == -(z * d);
    Distribute(r, top, v);
    var zd := z * d;
    assert m + c * r == w - zd;
    CarryIsSmall(m, c, r, w - zd, d);
    assert (z + c) * d == zd + c * d by { Distribute(d, z, c); }
    SmallQuotient(w, d, z + c);
  }

  lemma SettledAlgebra(w: int, d: int, r: int, m: int, s: int, z: int, c: int, v': int)
    requires 0 <= m < r && 0 <= s < r && 0 <= d < r && -d <= w - z * d < d
    requires m == w - z * d - c * r && s + v' * r == m + (-c) * d
    ensures TakesDigit(w, s, z + c, d)
  {
    var e := c + v';
    CarryIsSmall(m, c, r, w - z * d, d);
    Distribute(d, z, c);
    Distribute(r, c, v');
    var x := w - (z + c) * d;
    assert s + e * r == x by { assert (-c) * d == -(c * d); }
    CarryIsSmall(s, e, r, x, d);
  }

  /** A value in [-d, d), written with one digit block below r, has top digit 0 or -1. */
  lemma CarryIsSmall(m: int, c: int, r: int, x: int, d: int)
    requires 0 <= m < r && d < r && m + c * r == x && -d <= x < d
    ensures c == 0 || c == -1
    ensures 0 <= x - c * d < d
  {
    if c >= 1 {
      MulLe(1, c, r);
    } else if c <= -2 {
      MulLe(c, -2, r);
    }
  }

  lemma Settled(window: seq<byte>, middle: seq<byte>, result: seq<byte>, ds: seq<byte>, top: int, z: int, c: int,
      v': int)
    requires |window| == |middle| == |result| == |ds|
    requires IsEstimate(Window(window, top), Value(ds), z) && -1 <= c <= 0
    requires Leaves(window, top, ds, z, middle, c)
    requires Accumulated(middle, -c, ds, result, v')
    ensures TakesDigit(Window(window, top), Value(result), z + c, Value(ds))
  {
    hide Value, Radix;
    ValueBound(middle);
    ValueBound(result);
    ValueBound(ds);
    SettledAlgebra(Window(window, top), Value(ds), Radix(|ds|), Value(middle), Value(result), z, c, v');
  }

  lemma DivideStep(r: seq<byte>, q: seq<byte>, r': seq<byte>, q': seq<byte>, r0: seq<byte>, q0: seq<byte>,
                   ds: seq<byte>, size: nat, j: nat, top: int, rn: int, result: seq<byte>, digit: byte)
    requires Dividing(r, q, r0, q0, ds, size, j + 1, top)
    requires |r'| == |r| && |result| == |ds| && q' == q[j := digit]
    requires r'[..j] == r[..j] && r'[j + |ds|..] == r[j + |ds|..]
    requires r'[j..j + |ds| - 1] == result[..|ds| - 1] && r'[j + |ds| - 1] == 0 && rn == result[|ds| - 1]
    requires TakesDigit(Window(r[j..j + |ds|], top), Value(result), digit, Value(ds))
    ensures Dividing(r', q', r0, q0, ds, size, j, rn)
  {
    FrameStep(r, q, r', q', r0, q0, ds, size, j, top, rn, result, digit);
    FrameSizes(r, q, r0, q0, ds, size, j + 1, top);
    FrameSizes(r', q', r0, q0, ds, size, j, rn);
    hide DividingFrame, DividingValue;
    ValuePart(r, q, r', q', r0, ds, size, j, top, result, digit);
  }

  lemma ValuePart(r: seq<byte>, q: seq<byte>, r': seq<byte>, q': seq<byte>, r0: seq<byte>,
                  ds: seq<byte>, size: nat, j: nat, top: byte, result: seq<byte>, digit: byte)
    requires 1 <= |ds| <= size <= |r| == |r0| == |r'| && j + 1 <= size - |ds| + 1 <= |q| && r[j] == r0[j]
    requires DividingValue(r, q, r0, ds, size, j + 1, top)
    requires q' == q[j := digit] && |result| == |ds| && r'[j..j + |ds| - 1] == result[..|ds| - 1]
    requires TakesDigit(Window(r[j..j + |ds|], top), Value(result), digit, Value(ds))
    ensures DividingValue(r', q', r0, ds, size, j, result[|ds| - 1])
  {
    hide Value, Radix, Rest, Window, DivisionSoFar, TakesDigit, DividingValue;
    RestOfResult(r', j, result);
    QuotientGrows(q, q', j, size - |ds| + 1, digit);
    ValueStep(r, q, r0, ds, size, j, top, Value(result), digit, Value(q'[j..size - |ds| + 1]));
    ValueIntro(r', q', r0, ds, size, j, result[|ds| - 1]);
  }

  lemma ValueIntro(r: seq<byte>, q: seq<byte>, r0: seq<byte>, ds: seq<byte>, size: nat, j: nat, rn: byte)
    requires 1 <= |ds| <= size <= |r| == |r0| && j <= size - |ds| + 1 <= |q|
    requires DivisionSoFar(Value(r0[..size]), Value(r0[..j]), Radix(j), Rest(r, j, |ds|, rn), Value(ds),
             Value(q[j..size - |ds| + 1]))
    ensures DividingValue(r, q, r0, ds, size, j, rn)
  {
  }

  lemma ValueStep(r: seq<byte>, q: seq<byte>, r0: seq<byte>, ds: seq<byte>, size: nat, j: nat, top: byte,
                  res: int, digit: byte, qs: int)
    requires 1 <= |ds| <= size <= |r| == |r0| && j + 1 <= size - |ds| + 1 <= |q| && r[j] == r0[j]
    requires DividingValue(r, q, r0, ds, size, j + 1, top)
    requires TakesDigit(Window(r[j..j + |ds|], top), res, digit, Value(ds))
    requires qs == digit as int + 256 * Value(q[j + 1..size - |ds| + 1])
    ensures DivisionSoFar(Value(r0[..size]), Value(r0[..j]), Radix(j), res, Value(ds), qs)
  {
    hide Value, Radix, Rest, Window, DivisionSoFar, TakesDigit;
    WindowIsNext(r, j, |ds|, top);
    ValueTake(r0, j);
    RadixStep(j);
    DivideAlgebra(Value(r0[..j]), Radix(j), r0[j], Rest(r, j + 1, |ds|, top), Value(ds),
                  Value(q[j + 1..size - |ds| + 1]), res, digit, Value(r0[..j + 1]), Radix(j + 1), qs,
                      Value(r0[..size]));
  }

  lemma FrameSizes(r: seq<byte>, q: seq<byte>, r0: seq<byte>, q0: seq<byte>, ds: seq<byte>, size: nat, j: nat, rn: int)
    requires DividingFrame(r, q, r0, q0, ds, size, j, rn)
    ensures 1 <= |ds| <= size <= |r| == |r0| && j <= size - |ds| + 1 <= |q| && 0 <= rn < 256
  {
  }

  lemma QuotientGrows(q: seq<byte>, q': seq<byte>, j: nat, m: nat, digit: byte)
    requires j < m <= |q| && q' == q[j := digit]
    ensures Value(q'[j..m]) == digit as int + 256 * Value(q[j + 1..m])
  {
    hide Value, Radix;
    ValueCons(q'[j..m]);
    assert q'[j..m][1..] == q[j + 1..m];
  }

  lemma FrameStep(r: seq<byte>, q: seq<byte>, r': seq<byte>, q': seq<byte>, r0: seq<byte>, q0: seq<byte>,
                  ds: seq<byte>, size: nat, j: nat, top: int, rn: int, result: seq<byte>, digit: byte)
    requires DividingFrame(r, q, r0, q0, ds, size, j + 1, top)
    requires |r'| == |r| && |result| == |ds| && q' == q[j := digit]
    requires r'[..j] == r[..j] && r'[j + |ds|..] == r[j + |ds|..]
    requires r'[j..j + |ds| - 1] == result[..|ds| - 1] && r'[j + |ds| - 1] == 0 && rn == result[|ds| - 1]
    ensures DividingFrame(r', q', r0, q0, ds, size, j, rn)
    ensures r[j] == r0[j]
  {
    var t := |ds|;
    assert r[j] == r[..j + 1][j] == r0[..j + 1][j];
    assert r'[..j] == r0[..j] by { assert r[..j] == r[..j + 1][..j] == r0[..j + 1][..j]; }
    assert r'[size..] == r0[size..] by { assert r'[size..] == r'[j + t..][size - j - t..]; }
    forall i | j + t - 1 <= i < size ensures r'[i] == 0 {
      if i > j + t - 1 {
        assert r'[i] == r'[j + t..][i - j - t] == r[i];
      }
    }
  }

  lemma RestOfResult(r: seq<byte>, j: nat, result: seq<byte>)
    requires result != [] && j + |result| <= |r| && r[j..j + |result| - 1] == result[..|result| - 1]
    ensures Rest(r, j, |result|, result[|result| - 1]) == Value(result)
  {
    hide Value, Radix;
    var t := |result|;
    ValueTake(result, t - 1);
    assert result[..t] == result;
  }

  lemma DivideAlgebra(low: int, r: int, digit0: int, rest: int, d: int, qs: int, res: int, digit: int,
                      low': int, r': int, q': int, all: int)
    requires low' == low + digit0 * r && r' == 256 * r && q' == digit + 256 * qs
    requires TakesDigit(digit0 + 256 * rest, res, digit, d)
    requires DivisionSoFar(all, low', r', rest, d, qs)
    ensures DivisionSoFar(all, low, r, res, d, q')
  {
    calc {
      low' + r' * (rest + d * qs);
      low + digit0 * r + r * (256 * (rest + d * qs));
      { Distribute(r, digit0, 256 * (rest + d * qs)); }
      low + r * (digit0 + 256 * rest + 256 * (d * qs));
      low + r * (res + (digit * d + 256 * (d * qs)));
      { assert 256 * (d * qs) == d * (256 * qs); Distribute(d, digit, 256 * qs); }
      low + r * (res + d * q');
    }
  }

  lemma DivideEnd(r: seq<byte>, r': seq<byte>, q: seq<byte>, r0: seq<byte>, q0: seq<byte>, ds: seq<byte>, size: nat,
      rn: int)
    requires Dividing(r, q, r0, q0, ds, size, 0, rn)
    requires r' == r[|ds| - 1 := rn]
    ensures Value(r0[..size]) == Value(q[..size - |ds| + 1]) * Value(ds) + Value(r'[..|ds|])
    ensures Value(r'[..|ds|]) < Value(ds)
    ensures forall j :: |ds| <= j < size ==> r'[j] == 0
    ensures r'[size..] == r0[size..] && q[size - |ds| + 1..] == q0[size - |ds| + 1..]
  {
    hide Value, Radix, Rest, DivisionSoFar, DividingValue;
    EndValue(r, r', q, r0, ds, size, rn);
  }

  lemma EndValue(r: seq<byte>, r': seq<byte>, q: seq<byte>, r0: seq<byte>, ds: seq<byte>, size: nat, rn: byte)
    requires 1 <= |ds| <= size <= |r| == |r0| && size - |ds| + 1 <= |q|
    requires DividingValue(r, q, r0, ds, size, 0, rn)
    requires r' == r[|ds| - 1 := rn]
    ensures Value(r0[..size]) == Value(q[..size - |ds| + 1]) * Value(ds) + Value(r'[..|ds|])
    ensures Value(r'[..|ds|]) < Value(ds)
  {
    hide Value, Radix, Rest, DivisionSoFar;
    var t := |ds|;
    RestAtZero(r, r', t, rn);
    ValueZeros(r0[..0]);
    RadixZero();
    assert q[0..size - t + 1] == q[..size - t + 1];
    EndAlgebra(Value(r0[..size]), Value(r'[..t]), Value(ds), Value(q[..size - t + 1]));
  }

  lemma EndAlgebra(all: int, rest: int, d: int, qs: int)
    requires DivisionSoFar(all, 0, 1, rest, d, qs)
    ensures rest < d && all == qs * d + rest
  {
  }

  lemma RestAtZero(r: seq<byte>, r': seq<byte>, t: nat, rn: byte)
    requires 1 <= t <= |r| && r' == r[t - 1 := rn]
    ensures Rest(r, 0, t, rn) == Value(r'[..t])
  {
    hide Value, Radix;
    ValueTake(r', t - 1);
    assert r'[..t - 1] == r[0..t - 1];
  }
}
