/** The shift register that appends four parity symbols, and why its output passes the validity test. */
module RsParity {
  import opened GaloisField
  import opened RsCode

  /** The contents of the four cells. */
  datatype Register = Register(p0: Sym, p1: Sym, p2: Sym, p3: Sym)

  /** One step: c enters at the top, and the feedback is spread by the generator 17 + 9x + 6x^2 + 30x^3 + x^4. */
  function Clock(r: Register, c: Sym): Register
  {
    var fb := Plus(c, r.p3);
    Register(Gmult(17, fb), Plus(r.p0, Gmult(9, fb)), Plus(r.p1, Gmult(6, fb)), Plus(r.p2, Gmult(30, fb)))
  }

  /** The register after the data symbols from position i up have entered, the topmost first. */
  function Cells(data: seq<Sym>, i: nat): Register
    requires |data| == 13 && i <= 13
    decreases 13 - i
  {
    if i == 13 then Register(0, 0, 0, 0) else Clock(Cells(data, i + 1), data[i])
  }

  /** The data followed by its parity. */
  function Systematic(data: seq<Sym>): (w: Word)
    requires |data| == 13
  {
    var r := Cells(data, 0);
    data + [r.p0, r.p1, r.p2, r.p3]
  }

  // ---------- the parity loop ----------

  method Feed(p: array<Sym>, c: Sym)
    requires p.Length == 4
    modifies p
    ensures Register(p[0], p[1], p[2], p[3]) == Clock(old(Register(p[0], p[1], p[2], p[3])), c)
  {
    hide Gmult, Exp, Log;
    var fb := Plus(c, p[3]);
    p[3] := Plus(p[2], Gmult(30, fb));
    p[2] := Plus(p[1], Gmult(6, fb));
    p[1] := Plus(p[0], Gmult(9, fb));
    p[0] := Gmult(17, fb);
  }

  method AppendParity(codeword: array<Sym>)
    requires codeword.Length == 17
    modifies codeword
    ensures codeword[..] == Systematic(old(codeword[..13]))
  {
    hide Gmult, Exp, Log, Clock, Plus;
    ghost var data := codeword[..13];
    var p := new Sym[4](_ => 0);
    var i := 12;
    while i >= 0
      invariant -1 <= i <= 12
      invariant codeword[..13] == data
      invariant Register(p[0], p[1], p[2], p[3]) == Cells(data, i + 1)
    {
      assert codeword[i] == codeword[..13][i];
      Feed(p, codeword[i]);
      i := i - 1;
    }
    forall k | 13 <= k < 17 {
      codeword[k] := p[k - 13];
    }
    assert codeword[..13] == data;
    assert codeword[..] == codeword[..13] + [p[0], p[1], p[2], p[3]];
  }

  // ---------- powers of one root ----------

  /** x times alpha^j. */
  ghost function Times(x: Sym, j: nat): Sym
  {
    Gmult(x, Exp(j % 31))
  }

  lemma TimesPlus(a: Sym, b: Sym, j: nat)
    ensures Times(Plus(a, b), j) == Plus(Times(a, j), Times(b, j))
  {
    hide Gmult, Exp, Log, Plus;
    MultPlus(a, b, Exp(j % 31));
  }

  lemma TimesAdd(x: Sym, i: nat, j: nat)
    ensures Times(Times(x, i), j) == Times(x, i + j)
  {
    hide Gmult, Exp, Log;
    MultAssoc(x, Exp(i % 31), Exp(j % 31));
    ExpAdd(i, j);
  }

  lemma TimesNone(x: Sym)
    ensures Times(x, 0) == x && Times(x, 31) == x && Times(x, 62) == x && Times(x, 93) == x && Times(x, 124) == x
  {
    hide Gmult, Exp, Log;
    ExpEnds();
    MultOne(x);
  }

  lemma TimesZero(j: nat)
    ensures Times(0, j) == 0
  {
  }

  lemma TimesTable(x: Sym, j: nat)
    requires x != 0 && j < 31
    ensures Times(x, j) == Exp((GLOG[x as int] + j) % 31)
  {
    hide Gmult, Exp, Log;
    ExpStep(j);
    LogExp(j);
    LogIs(x);
    ProductLogs(x, Exp(j), Log(x), j);
  }

  lemma SmallPowers()
    ensures Exp(0) == 1 && Exp(1) == 2 && Exp(2) == 4 && Exp(4) == 16
  {
  }

  lemma MiddlePowers()
    ensures Exp(5) == 5 && Exp(8) == 13 && Exp(12) == 14 && Exp(16) == 27
  {
  }

  lemma LargePowers()
    ensures Exp(21) == 24 && Exp(23) == 15 && Exp(25) == 25 && Exp(27) == 11
  {
  }

  lemma TopPowers()
    ensures Exp(30) == 18
  {
  }

  lemma RootTable(r: nat)
    requires 1 <= r <= 4
    ensures Plus(Plus(17, Exp((29 + r) % 31)), Plus(Exp((19 + 2 * r) % 31), Exp((24 + 3 * r) % 31))) == Exp(4 * r)
  {
    hide Exp;
    SmallPowers();
    MiddlePowers();
    LargePowers();
    TopPowers();
    if r == 1 {
    } else if r == 2 {
    } else if r == 3 {
    } else {
      assert r == 4;
    }
  }

  /** alpha, alpha^2, alpha^3 and alpha^4 are roots of the generator. */
  lemma Roots(r: nat)
    requires 1 <= r <= 4
    ensures Plus(Plus(17, Times(9, r)), Plus(Times(6, 2 * r), Times(30, 3 * r))) == Exp(4 * r)
  {
    hide Gmult, Exp, Log, Plus, Times;
    TimesTable(9, r);
    TimesTable(6, 2 * r);
    TimesTable(30, 3 * r);
    RootTable(r);
  }

  /** The feedback, spread by the generator, is the feedback times x^4 at each root. */
  lemma Spread(fb: Sym, r: nat)
    requires 1 <= r <= 4
    ensures Plus(Plus(Gmult(17, fb), Times(Gmult(9, fb), r)),
                 Plus(Times(Gmult(6, fb), 2 * r), Times(Gmult(30, fb), 3 * r)))
         == Times(fb, 4 * r)
  {
    hide Gmult, Exp, Log, Plus, Times;
    SpreadTerm(9, fb, r);
    SpreadTerm(6, fb, 2 * r);
    SpreadTerm(30, fb, 3 * r);
    MultPlus(17, Times(9, r), fb);
    MultPlus(Times(6, 2 * r), Times(30, 3 * r), fb);
    MultPlus(Plus(17, Times(9, r)), Plus(Times(6, 2 * r), Times(30, 3 * r)), fb);
    Roots(r);
    TimesExp(fb, 4 * r);
  }

  lemma SpreadTerm(g: Sym, fb: Sym, j: nat)
    ensures Times(Gmult(g, fb), j) == Gmult(Times(g, j), fb)
  {
    hide Gmult, Exp, Log;
    MultComm(g, fb);
    MultAssoc(fb, g, Exp(j % 31));
    MultComm(fb, Gmult(g, Exp(j % 31)));
  }

  lemma TimesExp(fb: Sym, j: nat)
    requires j < 31
    ensures Times(fb, j) == Gmult(Exp(j), fb)
  {
    hide Gmult, Exp, Log;
    MultComm(fb, Exp(j));
  }

  // ---------- the register at a root ----------

  /** The register read as a polynomial, evaluated at alpha^r. */
  ghost function At(p: Register, r: nat): Sym
  {
    Plus(Plus(p.p0, Times(p.p1, r)), Plus(Times(p.p2, 2 * r), Times(p.p3, 3 * r)))
  }

  /** One step multiplies the polynomial by x and adds c x^4, as seen from each root. */
  lemma ClockAt(p: Register, c: Sym, r: nat)
    requires 1 <= r <= 4
    ensures At(Clock(p, c), r) == Plus(Times(At(p, r), r), Times(c, 4 * r))
  {
    hide Gmult, Exp, Log, Plus, Times;
    var fb := Plus(c, p.p3);
    TimesPlus(p.p0, Gmult(9, fb), r);
    TimesPlus(p.p1, Gmult(6, fb), 2 * r);
    TimesPlus(p.p2, Gmult(30, fb), 3 * r);
    ShiftAt(p, r);
    Spread(fb, r);
    TimesPlus(c, p.p3, 4 * r);
    Gather(Times(p.p0, r), Times(p.p1, 2 * r), Times(p.p2, 3 * r), Times(p.p3, 4 * r), Times(c, 4 * r),
           Gmult(17, fb), Times(Gmult(9, fb), r), Times(Gmult(6, fb), 2 * r), Times(Gmult(30, fb), 3 * r));
  }

  lemma ShiftAt(p: Register, r: nat)
    ensures Times(At(p, r), r)
         == Plus(Plus(Times(p.p0, r), Times(p.p1, 2 * r)), Plus(Times(p.p2, 3 * r), Times(p.p3, 4 * r)))
  {
    hide Gmult, Exp, Log, Plus, Times;
    TimesAdd(p.p1, r, r);
    TimesAdd(p.p2, 2 * r, r);
    TimesAdd(p.p3, 3 * r, r);
    TimesPlus(p.p0, Times(p.p1, r), r);
    TimesPlus(Times(p.p2, 2 * r), Times(p.p3, 3 * r), r);
    TimesPlus(Plus(p.p0, Times(p.p1, r)), Plus(Times(p.p2, 2 * r), Times(p.p3, 3 * r)), r);
  }

  lemma Gather(a: Sym, b: Sym, c: Sym, d: Sym, e: Sym, s: Sym, t: Sym, u: Sym, v: Sym)
    requires Plus(Plus(s, t), Plus(u, v)) == Plus(e, d)
    ensures Plus(Plus(s, Plus(a, t)), Plus(Plus(b, u), Plus(c, v))) == Plus(Plus(Plus(a, b), Plus(c, d)), e)
  {
  }

  /** The data from position i up, as a polynomial at alpha^r, the parity's four places below it. */
  ghost function Tail(data: seq<Sym>, r: nat, i: nat): Sym
    requires |data| == 13 && i <= 13
    decreases 13 - i
  {
    if i == 13 then 0 else Plus(Times(Tail(data, r, i + 1), r), Times(data[i], 4 * r))
  }

  lemma {:induction false} CellsAt(data: seq<Sym>, r: nat, i: nat)
    requires |data| == 13 && i <= 13 && 1 <= r <= 4
    ensures At(Cells(data, i), r) == Tail(data, r, i)
    decreases 13 - i
  {
    hide Gmult, Exp, Log, Plus, Times, Clock, At;
    if i == 13 {
      EmptyAt(r);
    } else {
      CellsAt(data, r, i + 1);
      ClockAt(Cells(data, i + 1), data[i], r);
    }
  }

  lemma EmptyAt(r: nat)
    ensures At(Register(0, 0, 0, 0), r) == 0
  {
    TimesZero(r);
    TimesZero(2 * r);
    TimesZero(3 * r);
  }

  // ---------- the syndromes of a systematic word ----------

  lemma PowerSumTimes(w: Word, r: nat, m: nat)
    requires m < 17
    ensures PowerSum(w, r, m + 1) == Plus(PowerSum(w, r, m), Times(w[m], r * Place(m)))
  {
    hide Gmult, Exp, Log, Plus;
  }

  /** The data's part of a power sum, moved up by four places, splits at every position. */
  lemma {:induction false} DataSum(w: Word, data: seq<Sym>, r: nat, i: nat)
    requires |data| == 13 && w[..13] == data && i <= 13
    ensures Plus(Times(PowerSum(w, r, i), 4 * r), Times(Tail(data, r, i), r * i))
         == Times(PowerSum(w, r, 13), 4 * r)
    decreases 13 - i
  {
    hide Gmult, Exp, Log, Plus, Times, PowerSum;
    if i == 13 {
      TimesZero(r * 13);
      PlusZero(Times(PowerSum(w, r, 13), 4 * r), 0);
    } else {
      DataSum(w, data, r, i + 1);
      PowerSumTimes(w, r, i);
      assert w[i] == w[..13][i] == data[i];
      assert r * (i + 1) == r + r * i && Place(i) == i;
      MoveTerm(PowerSum(w, r, i), Tail(data, r, i + 1), data[i], r, r * i);
    }
  }

  lemma MoveTerm(s: Sym, t: Sym, c: Sym, r: nat, n: nat)
    ensures Plus(Times(s, 4 * r), Times(Plus(Times(t, r), Times(c, 4 * r)), n))
         == Plus(Times(Plus(s, Times(c, n)), 4 * r), Times(t, r + n))
  {
    hide Gmult, Exp, Log, Plus, Times;
    TimesPlus(Times(t, r), Times(c, 4 * r), n);
    TimesAdd(t, r, n);
    TimesAdd(c, 4 * r, n);
    TimesPlus(s, Times(c, n), 4 * r);
    TimesAdd(c, n, 4 * r);
    Swap(Times(s, 4 * r), Times(t, r + n), Times(c, n + 4 * r));
  }

  lemma Swap(a: Sym, b: Sym, c: Sym)
    ensures Plus(a, Plus(b, c)) == Plus(Plus(a, c), b)
  {
  }

  /** The four parity places together are the register's polynomial, 27 places up. */
  lemma ParitySum(w: Word, p: Register, r: nat)
    requires w[13..] == [p.p0, p.p1, p.p2, p.p3]
    ensures PowerSum(w, r, 17) == Plus(PowerSum(w, r, 13), Times(At(p, r), 27 * r))
  {
    hide Gmult, Exp, Log, Plus, Times, PowerSum;
    assert w[13] == w[13..][0] && w[14] == w[13..][1] && w[15] == w[13..][2] && w[16] == w[13..][3];
    PowerSumTimes(w, r, 13);
    PowerSumTimes(w, r, 14);
    PowerSumTimes(w, r, 15);
    PowerSumTimes(w, r, 16);
    assert r * 27 == 27 * r && r * 28 == r + 27 * r && r * 29 == 2 * r + 27 * r && r * 30 == 3 * r + 27 * r;
    LiftAt(p, r, 27 * r);
    Chain(PowerSum(w, r, 13), Times(p.p0, 27 * r), Times(p.p1, r + 27 * r), Times(p.p2, 2 * r + 27 * r),
          Times(p.p3, 3 * r + 27 * r));
  }

  lemma LiftAt(p: Register, r: nat, n: nat)
    ensures Times(At(p, r), n)
         == Plus(Plus(Times(p.p0, n), Times(p.p1, r + n)), Plus(Times(p.p2, 2 * r + n), Times(p.p3, 3 * r + n)))
  {
    hide Gmult, Exp, Log, Plus, Times;
    TimesAdd(p.p1, r, n);
    TimesAdd(p.p2, 2 * r, n);
    TimesAdd(p.p3, 3 * r, n);
    TimesPlus(p.p0, Times(p.p1, r), n);
    TimesPlus(Times(p.p2, 2 * r), Times(p.p3, 3 * r), n);
    TimesPlus(Plus(p.p0, Times(p.p1, r)), Plus(Times(p.p2, 2 * r), Times(p.p3, 3 * r)), n);
  }

  lemma Chain(s: Sym, a: Sym, b: Sym, c: Sym, d: Sym)
    ensures Plus(Plus(Plus(Plus(s, a), b), c), d) == Plus(s, Plus(Plus(a, b), Plus(c, d)))
  {
  }

  /** What the register appends makes every syndrome vanish. */
  lemma SystematicValid(data: seq<Sym>)
    requires |data| == 13
    ensures Valid(Systematic(data))
  {
    hide Gmult, Exp, Log, Plus, Times, PowerSum, Cells, At, Tail;
    var w := Systematic(data);
    forall r | 1 <= r <= 4 ensures Syndrome(w, r) == 0 {
      assert w[..13] == data;
      SystematicSyndrome(w, data, Cells(data, 0), r);
    }
  }

  lemma SystematicSyndrome(w: Word, data: seq<Sym>, p: Register, r: nat)
    requires |data| == 13 && 1 <= r <= 4 && w[..13] == data && p == Cells(data, 0)
    requires w[13..] == [p.p0, p.p1, p.p2, p.p3]
    ensures Syndrome(w, r) == 0
  {
    hide Gmult, Exp, Log, Plus, Times, PowerSum, Cells, At, Tail;
    var s := PowerSum(w, r, 13);
    ParitySum(w, p, r);
    CellsAt(data, r, 0);
    DataSum(w, data, r, 0);
    NoPowerSum(w, r);
    TimesZero(4 * r);
    TimesNone(Tail(data, r, 0));
    PlusZero(0, Tail(data, r, 0));
    assert At(p, r) == Times(s, 4 * r);
    TimesAdd(s, 4 * r, 27 * r);
    TimesNone(s);
    PlusZero(s, s);
  }

  /** A codeword is determined by its data: the parity leaves no choice. */
  lemma DataDetermines(w: Word)
    requires Valid(w)
    ensures w == Systematic(w[..13])
  {
    hide Cells, SyndromesVanish;
    var v := Systematic(w[..13]);
    SystematicValid(w[..13]);
    if v != w {
      MinimumDistance(v, w);
      var d := Differences(v, w);
      assert d <= {13, 14, 15, 16} by {
        assert forall p :: 0 <= p < 13 ==> v[p] == w[..13][p] == w[p];
      }
      SubsetSize(d, {13, 14, 15, 16});
    }
  }

  lemma {:induction false} SubsetSize<T>(a: set<T>, b: set<T>)
    requires a <= b
    ensures |a| <= |b|
  {
    if a != {} {
      var x :| x in a;
      SubsetSize(a - {x}, b - {x});
    }
  }
}
