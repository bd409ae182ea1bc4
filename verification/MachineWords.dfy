/** Machine integers: ranges in which nothing overflows, and wrapping around where something may. */
module MachineWords {
  import opened Modular

  newtype uint32 = x: int | 0 <= x < 0x1_0000_0000
  newtype uint64 = x: int | 0 <= x < 0x1_0000_0000_0000_0000
  newtype int64 = x: int | -0x8000_0000_0000_0000 <= x < 0x8000_0000_0000_0000

  /** The value from -half up to half that differs from x by a multiple of 2 half. */
  function Wrap(x: int, half: int): (w: int)
    requires half > 0
    ensures -half <= w < half
  {
    (x + half) % (2 * half) - half
  }

  lemma WrapFits(x: int, half: int)
    requires half > 0 && -half <= x < 3 * half
    ensures Wrap(x, half) == if x < half then x else x - 2 * half
  {
    if x < half {
      RemainderUnique(x + half, x + half, 0, 2 * half);
    } else {
      RemainderUnique(x + half, x - half, 1, 2 * half);
    }
  }

  lemma WrapCong(x: int, half: int)
    requires half > 0
    ensures Cong(Wrap(x, half), x, 2 * half)
  {
    var m := 2 * half;
    var q, r := (x + half) / m, (x + half) % m;
    assert x + half == q * m + r;
    assert r - half == x + (-q) * m;
    CongIntro(r - half, x, -q, m);
  }
}
