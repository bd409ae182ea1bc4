/**
 Limb operations seen as operations modulo p: each states only that its output
 is reduced and which residue it represents.
 */
module Field {
  import opened Modular
  import opened Limbs
  import opened MachineWords

  ghost predicate InRange(a: array<int64>)
    reads a
  {
    a.Length == 10 && Wide(Of(a[..]))
  }

  ghost predicate Clean(a: array<int64>)
    reads a
  {
    a.Length == 10 && Reduced(Of(a[..]))
  }

  /** The limbs of a represent n modulo p. */
  ghost predicate Is(a: array<int64>, n: int)
    requires a.Length == 10
    reads a
  {
    Cong(Num(a), n, P)
  }

  lemma CleanInRange(a: array<int64>)
    requires Clean(a)
    ensures InRange(a)
  {
  }

  method FieldMul(xy: array<int64>, x: array<int64>, y: array<int64>, ghost m: int, ghost n: int)
    requires xy.Length == 10 && xy != x && xy != y
    requires InRange(x) && Is(x, m) && InRange(y) && Is(y, n)
    modifies xy
    ensures Clean(xy) && Is(xy, m * n)
  {
    hide Wide, Reduced, Number, Product, Cong;
    ghost var xs, ys := x[..], y[..];
    MulLimbs(xy, x, y);
    ProductMeans(xs, ys);
    CongMul(Number(Of(xs)), m, Number(Of(ys)), n, P);
    CongTrans(Num(xy), Number(Of(xs)) * Number(Of(ys)), m * n, P);
  }

  method FieldSqr(x2: array<int64>, x: array<int64>, ghost m: int)
    requires x2.Length == 10 && x2 != x
    requires InRange(x) && Is(x, m)
    modifies x2
    ensures Clean(x2) && Is(x2, m * m)
  {
    hide Wide, Reduced, Number, Product, Cong;
    ghost var xs := x[..];
    SqrLimbs(x2, x);
    ProductMeans(xs, xs);
    CongMul(Number(Of(xs)), m, Number(Of(xs)), m, P);
    CongTrans(Num(x2), Number(Of(xs)) * Number(Of(xs)), m * m, P);
  }

  method FieldMulSmall(xy: array<int64>, x: array<int64>, y: int64, ghost m: int)
    requires xy.Length == 10 && -0x10_0000 <= y <= 0x10_0000
    requires InRange(x) && Is(x, m)
    modifies xy
    ensures Clean(xy) && Is(xy, (y as int) * m)
  {
    hide Wide, Reduced, Number, SmallProduct, Cong;
    ghost var xs := x[..];
    MulSmall(xy, x, y);
    SmallProductMeans(xs, y);
    CongRefl(y as int, P);
    CongMul(y as int, y as int, Number(Of(xs)), m, P);
    CongTrans(Num(xy), (y as int) * Number(Of(xs)), (y as int) * m, P);
  }

  method FieldAdd(xy: array<int64>, x: array<int64>, y: array<int64>, ghost m: int, ghost n: int)
    requires xy.Length == 10 && Clean(x) && Is(x, m) && Clean(y) && Is(y, n)
    modifies xy
    ensures InRange(xy) && Is(xy, m + n)
  {
    hide Wide, Reduced, Number, Plus, Cong;
    ghost var u, v := Of(x[..]), Of(y[..]);
    Add(xy, x, y);
    SumMeans(u, v);
    CongAdd(Number(u), m, Number(v), n, P);
  }

  method FieldSub(xy: array<int64>, x: array<int64>, y: array<int64>, ghost m: int, ghost n: int)
    requires xy.Length == 10 && Clean(x) && Is(x, m) && Clean(y) && Is(y, n)
    modifies xy
    ensures InRange(xy) && Is(xy, m - n)
  {
    hide Wide, Reduced, Number, Minus, Cong;
    ghost var u, v := Of(x[..]), Of(y[..]);
    Sub(xy, x, y);
    SumMeans(u, v);
    CongSub(Number(u), m, Number(v), n, P);
  }
}
