/** A compression followed word by word: every word that its 48 steps write. */
module ShabalTrace {
  import opened ShabalKernels

  // ---------- following the words through the steps ----------

  /** The words of A and B in the order the steps write them: step k writes words 12 + k and 16 + k. */
  datatype Trace = Trace(a: seq<Word>, b: seq<Word>)

  type FullTrace = t: Trace | |t.a| == 60 && |t.b| == 64 witness Trace(seq(60, _ => 0), seq(64, _ => 0))

  predicate StepAt(t: FullTrace, c: Block, m: Block, k: nat)
    requires k < 48
  {
    && t.a[12 + k] == WordA(t.a[k], t.a[k + 11], t.b[k + 13], t.b[k + 9], t.b[k + 6], c[(56 - k) % 16], m[k % 16])
    && t.b[16 + k] == WordB(t.b[k], t.a[12 + k])
  }

  /** The words of A and B written up to step k, those before the first step included. */
  ghost function Written(w: Regs, m: Block, k: nat): (t: Trace)
    requires k <= 48
    ensures |t.a| == 12 + k && |t.b| == 16 + k
  {
    if k == 0 then Trace(w.a, w.b)
    else
      var t, s := Written(w, m, k - 1), k - 1;
      var a := WordA(t.a[s], t.a[s + 11], t.b[s + 13], t.b[s + 9], t.b[s + 6], w.c[(56 - s) % 16], m[s % 16]);
      Trace(t.a + [a], t.b + [WordB(t.b[s], a)])
  }

  lemma {:induction false} WrittenSteps(w: Regs, m: Block, n: nat, k: nat)
    requires n <= k <= 48
    ensures Written(w, m, n).a <= Written(w, m, k).a && Written(w, m, n).b <= Written(w, m, k).b
    decreases k
  {
    hide WordA, WordB;
    if n < k {
      WrittenSteps(w, m, n, k - 1);
    }
  }

  lemma WrittenStep(w: Regs, m: Block, k: nat)
    requires k < 48
    ensures StepAt(Written(w, m, 48), w.c, m, k)
  {
    hide WordA, WordB;
    WrittenSteps(w, m, k + 1, 48);
    WrittenSteps(w, m, k, 48);
  }

  /** The registers before step k are the last words written. */
  ghost predicate Follows(w: Regs, t: FullTrace, k: nat)
    requires k <= 48
  {
    && (forall i :: 0 <= i < 12 ==> w.a[i] == t.a[k + (i + 48 - k) % 12])
    && (forall i :: 0 <= i < 16 ==> w.b[i] == t.b[k + (i + 48 - k) % 16])
  }

  lemma {:induction false} TraceFollows(w: Regs, m: Block, t: FullTrace, k: nat)
    requires k <= 48 && Follows(w, t, 0) && forall j :: 0 <= j < k ==> StepAt(t, w.c, m, j)
    ensures Follows(Permuted(w, m, k), t, k)
  {
    hide StepAt, Stepped, Follows;
    if k > 0 {
      TraceFollows(w, m, t, k - 1);
      StepFollows(Permuted(w, m, k - 1), m, t, k - 1);
    }
  }

  lemma StepFollows(w: Regs, m: Block, t: FullTrace, k: nat)
    requires k < 48 && Follows(w, t, k) && StepAt(t, w.c, m, k)
    ensures Follows(Stepped(w, m, Regular(k)), t, k + 1)
  {
    hide WordA, WordB;
    Offsets(k);
    var r := Stepped(w, m, Regular(k));
    forall i | 0 <= i < 12 ensures r.a[i] == t.a[k + 1 + (i + 47 - k) % 12] {
      OffsetShrinks(i, k, 12);
    }
    forall i | 0 <= i < 16 ensures r.b[i] == t.b[k + 1 + (i + 47 - k) % 16] {
      OffsetShrinks(i, k, 16);
    }
  }

  lemma Offsets(k: nat)
    requires k < 48
    ensures (k % 12 + 48 - k) % 12 == 0 && ((k + 11) % 12 + 48 - k) % 12 == 11
    ensures (k % 16 + 48 - k) % 16 == 0 && ((k + 13) % 16 + 48 - k) % 16 == 13
    ensures ((k + 9) % 16 + 48 - k) % 16 == 9 && ((k + 6) % 16 + 48 - k) % 16 == 6
  {
    Offset(k, 0, 12);
    Offset(k, 11, 12);
    Offset(k, 0, 16);
    Offset(k, 13, 16);
    Offset(k, 9, 16);
    Offset(k, 6, 16);
  }

  lemma Offset(k: nat, d: nat, n: nat)
    requires (n == 12 || n == 16) && d < n && k < 48
    ensures ((k + d) % n + 48 - k) % n == d
  {
  }

  lemma OffsetShrinks(i: nat, k: nat, n: nat)
    requires (n == 12 || n == 16) && i < n && k < 48
    ensures k + 1 + (i + 47 - k) % n == if i == k % n then k + n else k + (i + 48 - k) % n
  {
    if n == 12 {
      Shrinks12(i, k);
    } else {
      Shrinks16(i, k);
    }
  }

  lemma Shrinks12(i: nat, k: nat)
    requires i < 12 && k < 48
    ensures 1 + (i + 47 - k) % 12 == if i == k % 12 then 12 else (i + 48 - k) % 12
  {
  }

  lemma Shrinks16(i: nat, k: nat)
    requires i < 16 && k < 48
    ensures 1 + (i + 47 - k) % 16 == if i == k % 16 then 16 else (i + 48 - k) % 16
  {
  }

  // ---------- whole blocks ----------

  /** The words a trace begins with, for a state, a block counter and a block. */
  ghost predicate Begins(t: FullTrace, w: Regs, lo: Word, hi: Word, m: Block)
  {
    && t.a[0] == Xor(w.a[0], lo) && t.a[1] == Xor(w.a[1], hi)
    && (forall i :: 2 <= i < 12 ==> t.a[i] == w.a[i])
    && (forall i :: 0 <= i < 16 ==> t.b[i] == Rot17(Plus(w.b[i], m[i])))
  }

  /** The registers after a block, in terms of the last words written. */
  ghost predicate Ends(t: FullTrace, c: Block, m: Block, r: Regs)
  {
    && (forall i :: 0 <= i < 12 ==>
          r.a[i] == Plus(Plus(Plus(t.a[48 + i], c[(i + 11) % 16]), c[(i + 15) % 16]), c[(i + 3) % 16]))
    && r.b == Without(c, m) && (forall j :: 0 <= j < 16 ==> r.c[j] == t.b[48 + j])
  }

  ghost predicate EarlySteps(t: FullTrace, c: Block, m: Block)
  {
    && StepAt(t, c, m, 0) && StepAt(t, c, m, 1) && StepAt(t, c, m, 2) && StepAt(t, c, m, 3)
    && StepAt(t, c, m, 4) && StepAt(t, c, m, 5) && StepAt(t, c, m, 6) && StepAt(t, c, m, 7)
    && StepAt(t, c, m, 8) && StepAt(t, c, m, 9) && StepAt(t, c, m, 10) && StepAt(t, c, m, 11)
    && StepAt(t, c, m, 12) && StepAt(t, c, m, 13) && StepAt(t, c, m, 14) && StepAt(t, c, m, 15)
    && StepAt(t, c, m, 16) && StepAt(t, c, m, 17) && StepAt(t, c, m, 18) && StepAt(t, c, m, 19)
    && StepAt(t, c, m, 20) && StepAt(t, c, m, 21) && StepAt(t, c, m, 22) && StepAt(t, c, m, 23)
  }

  ghost predicate LateSteps(t: FullTrace, c: Block, m: Block)
  {
    && StepAt(t, c, m, 24) && StepAt(t, c, m, 25) && StepAt(t, c, m, 26) && StepAt(t, c, m, 27)
    && StepAt(t, c, m, 28) && StepAt(t, c, m, 29) && StepAt(t, c, m, 30) && StepAt(t, c, m, 31)
    && StepAt(t, c, m, 32) && StepAt(t, c, m, 33) && StepAt(t, c, m, 34) && StepAt(t, c, m, 35)
    && StepAt(t, c, m, 36) && StepAt(t, c, m, 37) && StepAt(t, c, m, 38) && StepAt(t, c, m, 39)
    && StepAt(t, c, m, 40) && StepAt(t, c, m, 41) && StepAt(t, c, m, 42) && StepAt(t, c, m, 43)
    && StepAt(t, c, m, 44) && StepAt(t, c, m, 45) && StepAt(t, c, m, 46) && StepAt(t, c, m, 47)
  }

  /** All steps, one by one. */
  ghost predicate Steps(t: FullTrace, c: Block, m: Block)
  {
    EarlySteps(t, c, m) && LateSteps(t, c, m)
  }

  lemma AllSteps(t: FullTrace, c: Block, m: Block)
    requires forall k :: 0 <= k < 48 ==> StepAt(t, c, m, k)
    ensures Steps(t, c, m)
  {
    hide StepAt;
  }

  /** Following a state through a whole block, by the words written on the way. */
  lemma CompressedIs(w: Regs, lo: Word, hi: Word, m: Block) returns (t: FullTrace)
    ensures Steps(t, w.c, m)
    ensures Begins(t, w, lo, hi, m) && Ends(t, w.c, m, Compressed(w, lo, hi, m))
  {
    hide StepAt, WordA, WordB, Xor, Plus, Minus, Rot17, Ends, Begins, Steps;
    var v := Loaded(w, lo, hi, m);
    t := Written(v, m, 48);
    forall k | 0 <= k < 48 ensures StepAt(t, w.c, m, k) {
      WrittenStep(v, m, k);
    }
    WrittenSteps(v, m, 0, 48);
    TraceStarts(w, lo, hi, m, t);
    TraceFollows(v, m, t, 48);
    AllSteps(t, w.c, m);
    TraceEnds(Permuted(v, m, 48), m, t);
  }

  lemma TraceStarts(w: Regs, lo: Word, hi: Word, m: Block, t: FullTrace)
    requires Loaded(w, lo, hi, m).a <= t.a && Loaded(w, lo, hi, m).b <= t.b
    ensures Follows(Loaded(w, lo, hi, m), t, 0) && Begins(t, w, lo, hi, m)
  {
    hide Xor, Plus, Rot17;
  }

  lemma TraceEnds(w: Regs, m: Block, t: FullTrace)
    requires Follows(w, t, 48)
    ensures Ends(t, w.c, m, Swapped(Summed(w), m))
  {
    hide Plus, Minus, Without, Sums;
    var r := Swapped(Summed(w), m);
    forall i | 0 <= i < 12
      ensures r.a[i] == Plus(Plus(Plus(t.a[48 + i], w.c[(i + 11) % 16]), w.c[(i + 15) % 16]), w.c[(i + 3) % 16])
    {
      SumsAt(w.a, w.c, i);
      assert w.a[i] == t.a[48 + (i + 48 - 48) % 12];
    }
    forall j | 0 <= j < 16 ensures r.c[j] == t.b[48 + j] {
      assert w.b[j] == t.b[48 + (j + 48 - 48) % 16];
    }
  }
}
