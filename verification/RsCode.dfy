/**
 The Reed-Solomon code of 17 symbols: 13 of data at the powers 0 to 12 of the
 locator, 4 of parity at the powers 27 to 30.
 */
module RsCode {
  import opened GaloisField

  const CODEWORD_LEN := 17
  const DATA_LEN := 13

  type Word = w: seq<Sym> | |w| == 17 witness [0, 0, 0, 0, 0, 0, 0, 0, 0, 0, 0, 0, 0, 0, 0, 0, 0]

  /** The power of the locator that a position stands at; 13 to 26 are the shortened ones. */
  function Place(pos: nat): (j: nat)
    requires pos < 17
    ensures j < 31
  {
    if pos < 13 then pos else pos + 14
  }

  /** The i-th power of the locator of a position. */
  function Locator(pos: nat, i: nat): Sym
    requires pos < 17
  {
    Exp((i * Place(pos)) % 31)
  }

  /** The i-th power sum over the first m positions. */
  ghost function PowerSum(w: Word, i: nat, m: nat): Sym
    requires m <= 17
  {
    if m == 0 then 0 else Plus(PowerSum(w, i, m - 1), Gmult(w[m - 1], Locator(m - 1, i)))
  }

  lemma PowerSumStep(w: Word, i: nat, m: nat)
    requires 0 < m <= 17
    ensures PowerSum(w, i, m) == Plus(PowerSum(w, i, m - 1), Gmult(w[m - 1], Locator(m - 1, i)))
  {
  }

  ghost function Syndrome(w: Word, i: nat): Sym
  {
    PowerSum(w, i, 17)
  }

  ghost predicate SyndromesVanish(w: Word, n: nat)
  {
    forall i :: 1 <= i <= n ==> Syndrome(w, i) == 0
  }

  /** The word is a codeword: its first four syndromes vanish. */
  ghost predicate Valid(w: Word)
  {
    SyndromesVanish(w, 4)
  }

  // ---------- the validity test ----------

  method IsCodewordValid(codeword: Word) returns (ok: bool)
    ensures ok <==> Valid(codeword)
  {
    hide Gmult, Exp, PowerSum;
    var sum: Sym := 0;
    var i := 1;
    while i < 5
      invariant 1 <= i <= 5
      invariant sum == 0 <==> SyndromesVanish(codeword, i - 1)
    {
      var t: Sym := 0;
      var j := 0;
      NoPowerSum(codeword, i);
      while j < 31
        invariant 0 <= j <= 31
        invariant t == PowerSum(codeword, i, Reached(j))
      {
        if j > 12 && j < 27 {
          j := j + 1;
          continue;
        }
        var pos := j;
        if j > 26 {
          pos := pos - 14;
        }
        PowerSumStep(codeword, i, pos + 1);
        assert Place(pos) == j && Locator(pos, i) == Exp((i * j) % 31);
        assert Reached(j) == pos && Reached(j + 1) == pos + 1;
        assert t == PowerSum(codeword, i, pos);
        t := t ^ Gmult(codeword[pos], Exp((i * j) % 31));
        assert t == PowerSum(codeword, i, pos + 1);
        j := j + 1;
      }
      assert t == Syndrome(codeword, i);
      assert SyndromesVanish(codeword, i) <==> SyndromesVanish(codeword, i - 1) && t == 0;
      OrZero(sum, t);
      sum := sum | t;
      i := i + 1;
    }
    ok := sum == 0;
  }

  /** The number of positions that stand below power j. */
  ghost function Reached(j: nat): (m: nat)
    requires j <= 31
    ensures m <= 17
  {
    if j <= 13 then j else if j < 27 then 13 else j - 14
  }

  lemma NoPowerSum(w: Word, i: nat)
    ensures PowerSum(w, i, 0) == 0
  {
  }

  lemma OrZero(a: Sym, b: Sym)
    ensures a | b == 0 <==> a == 0 && b == 0
  {
  }

  // ---------- minimum distance ----------

  ghost function Support(w: Word): set<nat>
  {
    set p: nat | p < 17 && w[p] != 0
  }

  ghost function Sum(v: Word, w: Word): Word
  {
    seq(17, i requires 0 <= i < 17 => Plus(v[i], w[i]))
  }

  lemma {:induction false} PowerSumAdds(v: Word, w: Word, i: nat, m: nat)
    requires m <= 17
    ensures PowerSum(Sum(v, w), i, m) == Plus(PowerSum(v, i, m), PowerSum(w, i, m))
  {
    hide Plus, Gmult, Locator;
    if m == 0 {
      PlusZero(0, 0);
    } else {
      PowerSumAdds(v, w, i, m - 1);
      MultPlus(v[m - 1], w[m - 1], Locator(m - 1, i));
      PlusRegroup(PowerSum(v, i, m - 1), PowerSum(w, i, m - 1),
                  Gmult(v[m - 1], Locator(m - 1, i)), Gmult(w[m - 1], Locator(m - 1, i)));
    }
  }

  /** Every symbol times the difference of its locator from that of position k. */
  ghost function Eliminate(w: Word, k: nat): Word
    requires k < 17
  {
    seq(17, p requires 0 <= p < 17 => Gmult(w[p], Plus(Locator(p, 1), Locator(k, 1))))
  }

  lemma LocatorStep(p: nat, i: nat)
    requires p < 17
    ensures Locator(p, i + 1) == Gmult(Locator(p, 1), Locator(p, i))
  {
    hide Plus, Gmult, Exp;
    assert (i + 1) * Place(p) == Place(p) + i * Place(p);
    ExpAdd(Place(p), i * Place(p));
  }

  lemma {:induction false} PowerSumEliminates(w: Word, k: nat, i: nat, m: nat)
    requires k < 17 && m <= 17
    ensures PowerSum(Eliminate(w, k), i, m) == Plus(PowerSum(w, i + 1, m), Gmult(Locator(k, 1), PowerSum(w, i, m)))
  {
    hide Plus, Gmult, Locator, Exp, Log, PowerSum, Eliminate;
    if m == 0 {
      NoPowerSum(w, i);
      NoPowerSum(w, i + 1);
      NoPowerSum(Eliminate(w, k), i);
      MultNonZero(Locator(k, 1), 0);
      PlusZero(0, 0);
    } else {
      PowerSumEliminates(w, k, i, m - 1);
      PowerSumEliminatesStep(w, k, i, m - 1);
    }
  }

  lemma PowerSumEliminatesStep(w: Word, k: nat, i: nat, p: nat)
    requires k < 17 && p < 17
    requires PowerSum(Eliminate(w, k), i, p) == Plus(PowerSum(w, i + 1, p), Gmult(Locator(k, 1), PowerSum(w, i, p)))
    ensures PowerSum(Eliminate(w, k), i, p + 1)
         == Plus(PowerSum(w, i + 1, p + 1), Gmult(Locator(k, 1), PowerSum(w, i, p + 1)))
  {
    hide Plus, Gmult, Locator, Exp, Log, PowerSum, Eliminate;
    EliminatedTerm(w, k, i, p);
    PowerSumStep(w, i, p + 1);
    PowerSumStep(w, i + 1, p + 1);
    TermJoins(PowerSum(Eliminate(w, k), i, p), PowerSum(Eliminate(w, k), i, p + 1),
              PowerSum(w, i + 1, p), PowerSum(w, i + 1, p + 1), Gmult(w[p], Locator(p, i + 1)),
              PowerSum(w, i, p), PowerSum(w, i, p + 1), Gmult(w[p], Locator(p, i)), Locator(k, 1));
  }

  lemma EliminatedTerm(w: Word, k: nat, i: nat, p: nat)
    requires k < 17 && p < 17
    ensures PowerSum(Eliminate(w, k), i, p + 1) ==
           Plus(PowerSum(Eliminate(w, k), i, p),
                Plus(Gmult(w[p], Locator(p, i + 1)), Gmult(Locator(k, 1), Gmult(w[p], Locator(p, i)))))
  {
    hide Plus, Gmult, Locator, Exp, Log, PowerSum, Eliminate;
    PowerSumStep(Eliminate(w, k), i, p + 1);
    EliminateAt(w, k, p);
    TermEliminates(w[p], p, k, i);
  }

  lemma EliminateAt(w: Word, k: nat, p: nat)
    requires k < 17 && p < 17
    ensures Eliminate(w, k)[p] == Gmult(w[p], Plus(Locator(p, 1), Locator(k, 1)))
  {
  }

  lemma TermJoins(e: Sym, e': Sym, u: Sym, u': Sym, s: Sym, v: Sym, v': Sym, t: Sym, b: Sym)
    requires e == Plus(u, Gmult(b, v)) && e' == Plus(e, Plus(s, Gmult(b, t))) && u' == Plus(u, s) && v' == Plus(v, t)
    ensures e' == Plus(u', Gmult(b, v'))
  {
    hide Plus, Gmult, Exp, Log;
    MultPlus(v, t, b);
    PlusRegroup(u, Gmult(b, v), s, Gmult(b, t));
  }

  lemma TermEliminates(x: Sym, p: nat, k: nat, i: nat)
    requires p < 17 && k < 17
    ensures Gmult(Gmult(x, Plus(Locator(p, 1), Locator(k, 1))), Locator(p, i))
         == Plus(Gmult(x, Locator(p, i + 1)), Gmult(Locator(k, 1), Gmult(x, Locator(p, i))))
  {
    hide Plus, Gmult, Locator, Exp, Log;
    LocatorStep(p, i);
    SpreadDifference(x, Locator(p, 1), Locator(k, 1), Locator(p, i));
  }

  lemma SpreadDifference(x: Sym, a: Sym, b: Sym, l: Sym)
    ensures Gmult(Gmult(x, Plus(a, b)), l) == Plus(Gmult(x, Gmult(a, l)), Gmult(b, Gmult(x, l)))
  {
    hide Plus, Gmult, Exp, Log;
    calc {
      Gmult(Gmult(x, Plus(a, b)), l);
      { MultPlus(a, b, x); }
      Gmult(Plus(Gmult(x, a), Gmult(x, b)), l);
      { MultPlus(Gmult(x, a), Gmult(x, b), l); }
      Plus(Gmult(Gmult(x, a), l), Gmult(Gmult(x, b), l));
      { MultAssoc(x, a, l); MultComm(x, b); MultAssoc(b, x, l); }
      Plus(Gmult(x, Gmult(a, l)), Gmult(b, Gmult(x, l)));
    }
  }

  lemma LocatorsDiffer(p: nat, k: nat)
    requires p < 17 && k < 17 && p != k
    ensures Plus(Locator(p, 1), Locator(k, 1)) != 0
  {
    hide Exp, Log;
    LogExp(Place(p));
    LogExp(Place(k));
    PlusZero(Locator(p, 1), Locator(k, 1));
  }

  lemma EliminateSupport(w: Word, k: nat)
    requires k in Support(w)
    ensures Support(Eliminate(w, k)) == Support(w) - {k}
  {
    hide Plus, Gmult, Locator;
    forall p: nat | p < 17 ensures Eliminate(w, k)[p] != 0 <==> w[p] != 0 && p != k {
      MultNonZero(w[p], Plus(Locator(p, 1), Locator(k, 1)));
      PlusZero(Locator(p, 1), Locator(k, 1));
      if p != k {
        LocatorsDiffer(p, k);
      }
    }
  }

  /** A word with a single symbol has a nonzero first power sum. */
  lemma {:induction false} SingleSum(w: Word, k: nat, m: nat)
    requires k < 17 && m <= 17 && Support(w) == {k}
    ensures PowerSum(w, 1, m) == if k < m then Gmult(w[k], Locator(k, 1)) else 0
  {
    hide Plus, Gmult, Locator;
    if m > 0 {
      SingleSum(w, k, m - 1);
      MultNonZero(w[m - 1], Locator(m - 1, 1));
      assert m - 1 != k ==> (m - 1) !in Support(w);
      PlusZero(PowerSum(w, 1, m - 1), 0);
      PlusZero(0, Gmult(w[m - 1], Locator(m - 1, 1)));
    }
  }

  /**
   A word of weight at most n whose first n syndromes vanish is zero. Each step
   multiplies one nonzero position away, at the price of one syndrome.
   */
  lemma {:induction false} NoLightWord(w: Word, n: nat)
    requires |Support(w)| <= n
    requires SyndromesVanish(w, n)
    ensures Support(w) == {}
    decreases n
  {
    hide Plus, Gmult, Locator, Exp, Log, PowerSum;
    if Support(w) != {} {
      var k :| k in Support(w);
      var w' := Eliminate(w, k);
      assert Syndrome(w, 1) == 0;
      EliminateSupport(w, k);
      assert |Support(w')| == |Support(w)| - 1;
      forall i | 1 <= i <= n - 1 ensures Syndrome(w', i) == 0 {
        PowerSumEliminates(w, k, i, 17);
        PlusZero(0, 0);
        assert Syndrome(w, i) == 0 && Syndrome(w, i + 1) == 0;
        MultNonZero(Locator(k, 1), 0);
      }
      NoLightWord(w', n - 1);
      assert Support(w) == {k};
      SingleSum(w, k, 17);
      MultNonZero(w[k], Locator(k, 1));
      LocatorNonZero(k);
    }
  }

  lemma LocatorNonZero(k: nat)
    requires k < 17
    ensures Locator(k, 1) != 0
  {
    ExpStep(Place(k));
  }

  /** Positions at which two words differ. */
  ghost function Differences(v: Word, w: Word): set<nat>
  {
    set p: nat | p < 17 && v[p] != w[p]
  }

  /** Two different codewords differ in at least five positions. */
  lemma MinimumDistance(v: Word, w: Word)
    requires Valid(v) && Valid(w) && v != w
    ensures |Differences(v, w)| >= 5
  {
    hide Plus, Gmult, Locator, PowerSum;
    var e := Sum(v, w);
    assert Support(e) == Differences(v, w) by {
      forall p: nat | p < 17 ensures e[p] != 0 <==> v[p] != w[p] {
        PlusZero(v[p], w[p]);
      }
    }
    forall i | 1 <= i <= 4 ensures Syndrome(e, i) == 0 {
      PowerSumAdds(v, w, i, 17);
      PlusZero(Syndrome(v, i), Syndrome(w, i));
    }
    if |Differences(v, w)| <= 4 {
      NoLightWord(e, 4);
      forall p: nat | p < 17 ensures v[p] == w[p] {
        assert p !in Differences(v, w);
      }
    }
  }

  /** Replacing one to four symbols of a codeword is always noticed. */
  lemma FewErrorsDetected(v: Word, w: Word)
    requires Valid(v) && 1 <= |Differences(v, w)| <= 4
    ensures !Valid(w)
  {
    if Valid(w) {
      var p :| p in Differences(v, w);
      MinimumDistance(v, w);
    }
  }
}
