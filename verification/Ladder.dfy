/**
 The Montgomery ladder on limbs, against the x-only ladder of section 5 of
 RFC 7748 on residues modulo p.
 */
module Ladder {
  import opened Modular
  import opened Powers
  import opened LittleEndian
  import opened Limbs
  import opened MachineWords
  import opened Field
  import opened FieldBytes
  import opened Inverse

  const A24: int := 121665

  // ---------- the reference ladder ----------

  datatype State = State(x2: int, z2: int, x3: int, z3: int, swap: bool)

  /** Exchanges the two points if asked to. */
  ghost function CSwap(c: bool, s: State): State
  {
    if c then State(s.x3, s.z3, s.x2, s.z2, s.swap) else s
  }

  // the formulas of section 5 of RFC 7748, in A = x2 + z2, B = x2 - z2, C = x3 + z3, D = x3 - z3

  ghost function DoubleX(a: int, b: int): int
  {
    var aa, bb := a * a, b * b;
    aa * bb
  }

  ghost function DoubleZ(a: int, b: int): int
  {
    var aa, bb := a * a, b * b;
    var e := aa - bb;
    (aa + A24 * e) * e
  }

  ghost function AddX(a: int, b: int, c: int, d: int): int
  {
    var da, cb := d * a, c * b;
    (da + cb) * (da + cb)
  }

  ghost function AddZ(a: int, b: int, c: int, d: int, u: int): int
  {
    var da, cb := d * a, c * b;
    ((da - cb) * (da - cb)) * u
  }

  /** One ladder round on residues: point 2 is doubled, point 3 becomes the sum. */
  ghost function Round(u: int, s: State): State
  {
    var a, b, c, d := s.x2 + s.z2, s.x2 - s.z2, s.x3 + s.z3, s.x3 - s.z3;
    State(DoubleX(a, b) % P, DoubleZ(a, b) % P, AddX(a, b, c, d) % P, AddZ(a, b, c, d, u) % P, s.swap)
  }

  ghost function RfcStep(u: int, s: State, bit: bool): State
  {
    Round(u, CSwap(s.swap != bit, s)).(swap := bit)
  }

  ghost predicate Bit(k: int, t: nat)
  {
    (k / Pow2(t)) % 2 == 1
  }

  /** After bits 255 down to t of the scalar. */
  ghost function RfcLadder(u: int, k: int, t: nat): State
    decreases 256 - t
  {
    if t >= 256 then State(1, 0, u % P, 1, false) else RfcStep(u, RfcLadder(u, k, t + 1), Bit(k, t))
  }

  /**
   The result of the ladder in section 5 of RFC 7748 for these numbers as they
   are: that section's X25519 first clamps the scalar and clears the top bit of
   the coordinate, which the code leaves to its callers.
   */
  ghost function LadderResidue(u: int, k: int): int
  {
    var r := RfcLadder(u, k, 0);
    var s := CSwap(r.swap, r);
    (s.x2 * Pow(s.z2, RecipExponent(false))) % P
  }

  // ---------- one round on limbs ----------

  method MontPrep(t1: array<int64>, t2: array<int64>, ax: array<int64>, az: array<int64>, ghost x: int, ghost z: int)
    requires t1.Length == t2.Length == 10 && t1 != t2 && t1 != ax && t1 != az && t2 != ax && t2 != az
    requires Clean(ax) && Is(ax, x) && Clean(az) && Is(az, z)
    modifies t1, t2
    ensures InRange(t1) && Is(t1, x + z) && InRange(t2) && Is(t2, x - z)
  {
    hide Clean, InRange, Is;
    FieldAdd(t1, ax, az, x, z);
    FieldSub(t2, ax, az, x, z);
  }

  method MontAdd(t1: array<int64>, t2: array<int64>, t3: array<int64>, t4: array<int64>,
                 ax: array<int64>, az: array<int64>, dx: array<int64>,
                 ghost c: int, ghost d: int, ghost a: int, ghost b: int, ghost u: int)
    requires Apart(t1, t2, t3, t4, ax) && Apart(t1, t2, t3, t4, az) && Apart(t1, t2, ax, az, dx)
    requires InRange(t1) && Is(t1, c) && InRange(t2) && Is(t2, d)
    requires InRange(t3) && Is(t3, a) && InRange(t4) && Is(t4, b)
    requires InRange(dx) && Is(dx, u)
    modifies t1, t2, ax, az
    ensures Clean(ax) && Is(ax, AddX(a, b, c, d))
    ensures Clean(az) && Is(az, AddZ(a, b, c, d, u))
  {
    ghost var da, cb := d * a, c * b;
    hide Clean, InRange, Is;
    FieldMul(ax, t2, t3, d, a);
    FieldMul(az, t1, t4, c, b);
    FieldAdd(t1, ax, az, da, cb);
    FieldSub(t2, ax, az, da, cb);
    FieldSqr(ax, t1, da + cb);
    FieldSqr(t1, t2, da - cb);
    CleanInRange(t1);
    FieldMul(az, t1, dx, (da - cb) * (da - cb), u);
  }

  method MontDbl(t1: array<int64>, t2: array<int64>, t3: array<int64>, t4: array<int64>, bx: array<int64>,
      bz: array<int64>,
                 ghost a: int, ghost b: int)
    requires Apart(t1, t2, t3, t4, bx) && Apart(t1, t2, t3, t4, bz) && bx != bz
    requires InRange(t3) && Is(t3, a) && InRange(t4) && Is(t4, b)
    modifies t1, t2, bx, bz
    ensures Clean(bx) && Is(bx, DoubleX(a, b))
    ensures Clean(bz) && Is(bz, DoubleZ(a, b))
  {
    ghost var aa, bb := a * a, b * b;
    hide Clean, InRange, Is;
    FieldSqr(t1, t3, a);
    FieldSqr(t2, t4, b);
    CleanInRange(t1);
    CleanInRange(t2);
    FieldMul(bx, t1, t2, aa, bb);
    FieldSub(t2, t1, t2, aa, bb);
    FieldMulSmall(bz, t2, 121665, aa - bb);
    FieldAdd(t1, t1, bz, aa, A24 * (aa - bb));
    FieldMul(bz, t1, t2, aa + A24 * (aa - bb), aa - bb);
  }

  /** The four arrays hold the coordinates of a state, point 2 in (bx, bz), point 3 in (ax, az). */
  ghost predicate Holds(s: State, bx: array<int64>, bz: array<int64>, ax: array<int64>, az: array<int64>)
    reads bx, bz, ax, az
  {
    && Clean(bx) && Clean(bz) && Clean(ax) && Clean(az)
    && Is(bx, s.x2) && Is(bz, s.z2) && Is(ax, s.x3) && Is(az, s.z3)
  }

  method LimbRound(t1: array<int64>, t2: array<int64>, t3: array<int64>, t4: array<int64>,
                   ax: array<int64>, az: array<int64>, bx: array<int64>, bz: array<int64>, dx: array<int64>,
                   ghost s: State, ghost u: int)
    requires Apart(t1, t2, t3, t4, ax) && Apart(t1, t2, t3, t4, az) && Apart(t1, t2, t3, t4, bx) && Apart(t1, t2, t3,
             t4, bz)
    requires Apart(t1, t2, t3, t4, dx) && Apart(ax, az, bx, bz, dx)
    requires Holds(s, bx, bz, ax, az) && InRange(dx) && Is(dx, u)
    modifies t1, t2, t3, t4, ax, az, bx, bz
    ensures Holds(Round(u, s), bx, bz, ax, az)
  {
    hide Clean, InRange, Is, DoubleX, DoubleZ, AddX, AddZ;
    ghost var a, b, c, d := s.x2 + s.z2, s.x2 - s.z2, s.x3 + s.z3, s.x3 - s.z3;
    MontPrep(t1, t2, ax, az, s.x3, s.z3);
    MontPrep(t3, t4, bx, bz, s.x2, s.z2);
    MontAdd(t1, t2, t3, t4, ax, az, dx, c, d, a, b, u);
    MontDbl(t1, t2, t3, t4, bx, bz, a, b);
    RoundHolds(u, s, bx, bz, ax, az);
  }

  lemma RoundHolds(u: int, s: State, bx: array<int64>, bz: array<int64>, ax: array<int64>, az: array<int64>)
    requires bx.Length == bz.Length == ax.Length == az.Length == 10
    requires Clean(bx) && Clean(bz) && Clean(ax) && Clean(az)
    requires Is(bx, DoubleX(s.x2 + s.z2, s.x2 - s.z2)) && Is(bz, DoubleZ(s.x2 + s.z2, s.x2 - s.z2))
    requires Is(ax, AddX(s.x2 + s.z2, s.x2 - s.z2, s.x3 + s.z3, s.x3 - s.z3))
    requires Is(az, AddZ(s.x2 + s.z2, s.x2 - s.z2, s.x3 + s.z3, s.x3 - s.z3, u))
    ensures Holds(Round(u, s), bx, bz, ax, az)
  {
    hide Is, Clean, DoubleX, DoubleZ, AddX, AddZ;
    var a, b, c, d := s.x2 + s.z2, s.x2 - s.z2, s.x3 + s.z3, s.x3 - s.z3;
    Residue(bx, DoubleX(a, b));
    Residue(bz, DoubleZ(a, b));
    Residue(ax, AddX(a, b, c, d));
    Residue(az, AddZ(a, b, c, d, u));
  }

  lemma Residue(a: array<int64>, n: int)
    requires a.Length == 10 && Is(a, n)
    ensures Is(a, n % P)
  {
    CongMod(n, P);
  }

  // ---------- scalar bits ----------

  function Shr(b: int, j: nat): int
    decreases j
  {
    if j == 0 then b else Shr(b / 2, j - 1)
  }

  lemma {:induction false} ShrIs(b: int, j: nat)
    ensures Shr(b, j) == b / Pow2(j)
    decreases j
  {
    if j > 0 {
      ShrIs(b / 2, j - 1);
      DivDiv(b, 2, Pow2(j - 1));
    }
  }

  lemma DivDiv(a: int, m: int, n: int)
    requires m > 0 && n > 0
    ensures m * n > 0 && (a / m) / n == a / (m * n)
  {
    MulLe(1, m, n);
    var q, r := a / m, a % m;
    var s, t := q / n, q % n;
    assert a == q * m + r && q == s * n + t;
    assert a == s * (m * n) + (t * m + r) by {
      assert (s * n + t) * m == s * (m * n) + t * m by { Distribute(m, s * n, t); assert (s * n) * m == s * (m * n); }
    }
    MulLe(t, n - 1, m);
    assert (n - 1) * m == m * n - m by { Distribute(m, n, 1); }
    MulLe(0, t, m);
    RemainderUnique(a, t * m + r, s, m * n);
  }

  lemma {:induction false} RadixIsPow2(i: nat)
    ensures Radix(i) == Pow2(8 * i)
  {
    if i > 0 {
      RadixIsPow2(i - 1);
      Pow2Add(8, 8 * (i - 1));
      assert Pow2(8) == 256;
    }
  }

  /** Bit 8 i + j of a little-endian number is bit j of byte i. */
  lemma BitOfByte(s: seq<byte>, i: nat, j: nat)
    requires i < |s| && j < 8
    ensures Bit(Value(s), 8 * i + j) <==> Shr(s[i] as int, j) % 2 == 1
  {
    hide Value, Radix, Pow2, Shr;
    ValueSplit(s, i);
    ValueBound(s[..i]);
    ValueCons(s[i..]);
    var hi := Value(s[i..][1..]);
    var w := s[i] as int + 256 * hi;
    assert Value(s) == w * Radix(i) + Value(s[..i]);
    RemainderUnique(Value(s), Value(s[..i]), w, Radix(i));
    RadixIsPow2(i);
    Pow2Add(8 * i, j);
    DivDiv(Value(s), Pow2(8 * i), Pow2(j));
    Pow2Add(j + 1, 7 - j);
    Pow2Add(j, 1);
    Pow2Small();
    ByteShift(s[i] as int, hi, Pow2(j), Pow2(7 - j));
    ShrIs(s[i] as int, j);
  }

  lemma Pow2Small()
    ensures Pow2(8) == 256 && Pow2(1) == 2
  {
  }

  lemma ByteShift(b: int, hi: int, p: int, c: int)
    requires p > 0 && 256 == (p * 2) * c
    ensures ((b + 256 * hi) / p) % 2 == (b / p) % 2
  {
    var q, r := b / p, b % p;
    var e := c * hi;
    assert 256 * hi == (2 * e) * p by { assert ((p * 2) * c) * hi == (2 * (c * hi)) * p; }
    assert b + 256 * hi == (q + 2 * e) * p + r by { Distribute(p, q, 2 * e); }
    RemainderUnique(b + 256 * hi, r, q + 2 * e, p);
  }

  // ---------- the ladder ----------

  /** Slot 0 holds point 2 and slot 1 point 3, or the other way round while a swap is pending. */
  ghost predicate Slots(s: State, x0: array<int64>, z0: array<int64>, x1: array<int64>, z1: array<int64>)
    reads x0, z0, x1, z1
  {
    if s.swap then Holds(s, x1, z1, x0, z0) else Holds(s, x0, z0, x1, z1)
  }

  method LadderStep(t1: array<int64>, t2: array<int64>, t3: array<int64>, t4: array<int64>,
                    x0: array<int64>, z0: array<int64>, x1: array<int64>, z1: array<int64>, dx: array<int64>,
                    bit: bool, ghost s: State, ghost u: int)
    requires Apart(t1, t2, t3, t4, x0) && Apart(t1, t2, t3, t4, z0) && Apart(t1, t2, t3, t4, x1) && Apart(t1, t2, t3,
             t4, z1)
    requires Apart(t1, t2, t3, t4, dx) && Apart(x0, z0, x1, z1, dx)
    requires Slots(s, x0, z0, x1, z1) && InRange(dx) && Is(dx, u)
    modifies t1, t2, t3, t4, x0, z0, x1, z1
    ensures Slots(RfcStep(u, s, bit), x0, z0, x1, z1)
  {
    hide Clean, InRange, Is, Round;
    // bit1 indexes the point that is doubled, bit0 the one that becomes the sum
    var ax, az, bx, bz := x1, z1, x0, z0;
    if bit {
      ax, az, bx, bz := x0, z0, x1, z1;
    }
    LimbRound(t1, t2, t3, t4, ax, az, bx, bz, dx, CSwap(s.swap != bit, s), u);
  }

  /** The 256 rounds, from the top bit of the scalar down. */
  method Rounds(x0: array<int64>, z0: array<int64>, x1: array<int64>, z1: array<int64>, dx: array<int64>,
      k: array<byte>, ghost u: int)
    requires k.Length == 32 && Apart(x0, z0, x1, z1, dx)
    requires Slots(RfcLadder(u, Value(k[..]), 256), x0, z0, x1, z1) && InRange(dx) && Is(dx, u)
    modifies x0, z0, x1, z1
    ensures Slots(RfcLadder(u, Value(k[..]), 0), x0, z0, x1, z1)
  {
    hide Slots, InRange, Is, RfcLadder, RfcStep, Value, Bit, Shr;
    var t1 := new int64[10](_ => 0);
    var t2 := new int64[10](_ => 0);
    var t3 := new int64[10](_ => 0);
    var t4 := new int64[10](_ => 0);
    var i := 32;
    while i > 0
      invariant 0 <= i <= 32
      invariant Slots(RfcLadder(u, Value(k[..]), 8 * i), x0, z0, x1, z1) && InRange(dx) && Is(dx, u)
    {
      i := i - 1;
      var j := 8;
      while j > 0
        invariant 0 <= j <= 8
        invariant Slots(RfcLadder(u, Value(k[..]), 8 * i + j), x0, z0, x1, z1) && InRange(dx) && Is(dx, u)
      {
        j := j - 1;
        var bit := Shr(k[i] as int, j) % 2 == 1;
        BitOfByte(k[..], i, j);
        LadderUnfold(u, Value(k[..]), 8 * i + j);
        LadderStep(t1, t2, t3, t4, x0, z0, x1, z1, dx, bit, RfcLadder(u, Value(k[..]), 8 * i + j + 1), u);
      }
    }
  }

  lemma LadderUnfold(u: int, k: int, t: nat)
    requires t < 256
    ensures RfcLadder(u, k, t) == RfcStep(u, RfcLadder(u, k, t + 1), Bit(k, t))
  {
  }

  /** The number of the base point's u-coordinate; all 256 bits of a given base count. */
  ghost function BaseOf(Gx: array?<byte>): int
    requires Gx != null ==> Gx.Length == 32
    reads Gx
  {
    if Gx == null then 9 else Value(Gx[..])
  }

  lemma {:induction false} CongPow(a: int, b: int, e: nat)
    requires Cong(a, b, P)
    ensures Cong(Pow(a, e), Pow(b, e), P)
  {
    if e > 0 {
      CongPow(a, b, e - 1);
      CongMul(a, b, Pow(a, e - 1), Pow(b, e - 1), P);
    }
  }

  lemma LadderInit(u: int, k: int, x0: array<int64>, z0: array<int64>, x1: array<int64>, z1: array<int64>)
    requires Clean(x0) && Clean(z0) && Clean(x1) && Clean(z1)
    requires Num(x0) == 1 && Num(z0) == 0 && Num(x1) == u && Num(z1) == 1
    ensures Slots(RfcLadder(u, k, 256), x0, z0, x1, z1)
  {
    CongRefl(u, P);
    Residue(x1, u);
    hide Clean, Number;
  }

  lemma LadderResult(s: State, x0: array<int64>, z0: array<int64>, x1: array<int64>, z1: array<int64>)
    requires Slots(s, x0, z0, x1, z1)
    ensures Clean(x0) && Clean(z0) && Is(x0, CSwap(s.swap, s).x2) && Is(z0, CSwap(s.swap, s).z2)
  {
    hide Is, Clean;
  }

  /** Px := m / n, with 1 / n as the power n^(p - 2). */
  method Quotient(Px: array<byte>, x: array<int64>, z: array<int64>, ghost m: int, ghost n: int) returns (ghost v: Ten)
    requires Px.Length == 32 && Clean(x) && Is(x, m) && Clean(z) && Is(z, n)
    modifies Px
    ensures Reduced(v) && Number(v) < 2 * P
    ensures Cong(Number(v), m * Pow(n, RecipExponent(false)), P)
    ensures Value(Px[..]) == Packed(v)
  {
    hide Value, Packed, Reduced, Wide, Number, Cong, Pow, RecipExponent, Product;
    ghost var zn, e := Num(z), RecipExponent(false);
    var t1 := new int64[10](_ => 0);
    var dx := new int64[10](_ => 0);
    CleanInRange(z);
    CleanInRange(x);
    Recip(t1, z, false);
    CleanInRange(t1);
    ghost var xs, ts := x[..], t1[..];
    MulLimbs(dx, x, t1);
    v := Of(dx[..]);
    ProductMeans(xs, ts);
    CongPow(zn, n, e);
    CongTrans(Number(Of(ts)), Pow(zn, e), Pow(n, e), P);
    CongMul(Number(Of(xs)), m, Number(Of(ts)), Pow(n, e), P);
    CongTrans(Number(v), Number(Of(xs)) * Number(Of(ts)), m * Pow(n, e), P);
    Pack(dx, Px);
  }

  method LoadBase(dx: array<int64>, Gx: array?<byte>)
    requires dx.Length == 10 && (Gx != null ==> Gx.Length == 32)
    modifies dx
    ensures Clean(dx) && Num(dx) == BaseOf(Gx)
  {
    hide Value, Reduced, Number, Unpacked;
    if Gx != null {
      Unpack(dx, Gx);
      UnpackedReduced(Gx[..]);
      UnpackedValue(Gx[..]);
    } else {
      Set(dx, 9);
    }
  }

  /** x/z slots for 0G and 1G. */
  method InitSlots(x0: array<int64>, z0: array<int64>, x1: array<int64>, z1: array<int64>, dx: array<int64>,
      ghost k: int)
    requires Apart(x0, z0, x1, z1, dx) && Clean(dx)
    modifies x0, z0, x1, z1
    ensures Slots(RfcLadder(Num(dx), k, 256), x0, z0, x1, z1)
  {
    hide Reduced, Number, Slots, RfcLadder;
    Set(x0, 1);
    Set(z0, 0);
    Cpy(x1, dx);
    Set(z1, 1);
    LadderInit(Num(dx), k, x0, z0, x1, z1);
  }

  method RunLadder(Px: array<byte>, k: array<byte>, dx: array<int64>, x0: array<int64>, z0: array<int64>,
                   x1: array<int64>, z1: array<int64>, ghost u: int) returns (ghost v: Ten)
    requires Px.Length == k.Length == 32 && Apart(x0, z0, x1, z1, dx)
    requires Clean(dx) && Num(dx) == u
    modifies Px, x0, z0, x1, z1
    ensures Reduced(v) && Number(v) < 2 * P && Cong(Number(v), LadderResidue(u, old(Value(k[..]))), P)
    ensures Value(Px[..]) == Packed(v)
  {
    ghost var kv := Value(k[..]);
    hide Value, Packed, Number, Slots, RfcLadder, Cong, Pow, RecipExponent, CSwap, Clean, InRange, Reduced;
    InitSlots(x0, z0, x1, z1, dx, kv);
    CleanInRange(dx);
    CongRefl(u, P);
    Rounds(x0, z0, x1, z1, dx, k, u);
    ghost var r := RfcLadder(u, kv, 0);
    LadderResult(r, x0, z0, x1, z1);
    ghost var m, n := CSwap(r.swap, r).x2, CSwap(r.swap, r).z2;
    v := Quotient(Px, x0, z0, m, n);
    CongMod(m * Pow(n, RecipExponent(false)), P);
    CongTrans(Number(v), m * Pow(n, RecipExponent(false)), LadderResidue(u, kv), P);
  }

  /**
   Px := k times the base, as the bytes packed from limbs v of the right residue.
   Except where the two tests of packing cancel, that is the residue below p.
   */
  method Core(Px: array<byte>, k: array<byte>, Gx: array?<byte>) returns (ghost v: Ten)
    requires Px.Length == k.Length == 32 && (Gx != null ==> Gx.Length == 32)
    modifies Px
    ensures Reduced(v) && Number(v) < 2 * P
    ensures Cong(Number(v), LadderResidue(old(BaseOf(Gx)), old(Value(k[..]))), P)
    ensures Value(Px[..]) == Packed(v)
    ensures !(IsOverflow(v) && v.c9 < 0) ==> Value(Px[..]) == LadderResidue(old(BaseOf(Gx)), old(Value(k[..])))
  {
    hide Value, Packed, Number, Cong, LadderResidue, IsOverflow, Clean, Reduced;
    ghost var u, kv := BaseOf(Gx), Value(k[..]);
    var dx := new int64[10](_ => 0);
    LoadBase(dx, Gx);
    var x0 := new int64[10](_ => 0);
    var z0 := new int64[10](_ => 0);
    var x1 := new int64[10](_ => 0);
    var z1 := new int64[10](_ => 0);
    v := RunLadder(Px, k, dx, x0, z0, x1, z1, u);
    Canonical(v, u, kv);
  }

  lemma Canonical(v: Ten, u: int, k: int)
    requires Reduced(v) && Number(v) < 2 * P && Cong(Number(v), LadderResidue(u, k), P)
    ensures !(IsOverflow(v) && v.c9 < 0) ==> Packed(v) == LadderResidue(u, k)
  {
    PackCanonicalIff(v);
    var r := RfcLadder(u, k, 0);
    assert 0 <= LadderResidue(u, k) < P;
    RemainderUnique(LadderResidue(u, k), LadderResidue(u, k), 0, P);
    hide Number, Packed, IsOverflow, Reduced, LadderResidue;
  }
}
