/**
 The compression of one Shabal block in three forms: the permutation as index
 arithmetic, the unrolled vector code seen from one lane, and the unrolled
 single-lane code. All three are one function.
 */
module ShabalKernels {
  type Word = bv32

  datatype Words = Words(a: seq<Word>, b: seq<Word>, c: seq<Word>)

  type Regs = w: Words | |w.a| == 12 && |w.b| == 16 && |w.c| == 16
    witness Words(seq(12, _ => 0), seq(16, _ => 0), seq(16, _ => 0))

  type Block = m: seq<Word> | |m| == 16 witness seq(16, _ => 0)

  /** The registers one step works on: A twice, B four times, C and the message once. */
  datatype Step = Step(a0: nat, a1: nat, b0: nat, b1: nat, b2: nat, b3: nat, c: nat, m: nat) {
    predicate Fits()
    {
      a0 < 12 && a1 < 12 && b0 < 16 && b1 < 16 && b2 < 16 && b3 < 16 && c < 16 && m < 16
    }
  }

  // ---------- the permutation as index arithmetic ----------

  function WordA(a0: Word, a1: Word, b1: Word, b2: Word, b3: Word, c: Word, m: Word): Word
  {
    ((a0 ^ (((a1 << 15) | (a1 >> 17)) * 5) ^ c) * 3) ^ b1 ^ (b2 & !b3) ^ m
  }

  function WordB(b0: Word, a: Word): Word
  {
    !((b0 << 1) | (b0 >> 31)) ^ a
  }

  /** Step k of 48: A cycles with period 12, B and the message with 16, and C runs backwards. */
  function Regular(k: nat): (s: Step)
    requires k < 48
    ensures s.Fits()
  {
    Step(k % 12, (k + 11) % 12, k % 16, (k + 13) % 16, (k + 9) % 16, (k + 6) % 16, (56 - k) % 16, k % 16)
  }

  function Permuted(w: Regs, m: Block, k: nat): (r: Regs)
    requires k <= 48
    ensures r.c == w.c
  {
    if k == 0 then w else Stepped(Permuted(w, m, k - 1), m, Regular(k - 1))
  }

  function Stepped(w: Regs, m: Block, s: Step): (r: Regs)
    requires s.Fits()
    ensures r.c == w.c
  {
    var a := WordA(w.a[s.a0], w.a[s.a1], w.b[s.b1], w.b[s.b2], w.b[s.b3], w.c[s.c], m[s.m]);
    Words(w.a[s.a0 := a], w.b[s.b0 := WordB(w.b[s.b0], a)], w.c)
  }

  function Plus(x: Word, y: Word): Word
  {
    x + y
  }

  function Minus(x: Word, y: Word): Word
  {
    x - y
  }

  function Xor(x: Word, y: Word): Word
  {
    x ^ y
  }

  function Rot17(x: Word): Word
  {
    (x << 17) | (x >> 15)
  }

  /** The block comes in through B, the block counter through A. */
  function Loaded(w: Regs, lo: Word, hi: Word, m: Block): Regs
  {
    var b := seq(16, j requires 0 <= j < 16 => Rot17(Plus(w.b[j], m[j])));
    Words(w.a[0 := Xor(w.a[0], lo)][1 := Xor(w.a[1], hi)], b, w.c)
  }

  function Summed(w: Regs): (r: Regs)
    ensures r.b == w.b && r.c == w.c
  {
    w.(a := Sums(w.a, w.c))
  }

  function Sums(a: seq<Word>, c: Block): (r: seq<Word>)
    requires |a| == 12
    ensures |r| == 12
  {
    seq(12, i requires 0 <= i < 12 => Plus(Plus(Plus(a[i], c[(i + 11) % 16]), c[(i + 15) % 16]), c[(i + 3) % 16]))
  }

  /** B and C change places, C without the block. */
  function Swapped(w: Regs, m: Block): Regs
  {
    Words(w.a, Without(w.c, m), w.b)
  }

  function Without(c: Block, m: Block): Block
  {
    seq(16, j requires 0 <= j < 16 => Minus(c[j], m[j]))
  }

  function Compressed(w: Regs, lo: Word, hi: Word, m: Block): Regs
  {
    Swapped(Summed(Permuted(Loaded(w, lo, hi, m), m, 48)), m)
  }

  // ---------- the unrolled steps ----------

  /** The steps as both unrolled codes list them, sixteen a round. */
  const ROUND_0: seq<Step> := [
    Step(0x0, 0xB, 0x0, 0xD, 0x9, 0x6, 0x8, 0x0), Step(0x1, 0x0, 0x1, 0xE, 0xA, 0x7, 0x7, 0x1),
    Step(0x2, 0x1, 0x2, 0xF, 0xB, 0x8, 0x6, 0x2), Step(0x3, 0x2, 0x3, 0x0, 0xC, 0x9, 0x5, 0x3),
    Step(0x4, 0x3, 0x4, 0x1, 0xD, 0xA, 0x4, 0x4), Step(0x5, 0x4, 0x5, 0x2, 0xE, 0xB, 0x3, 0x5),
    Step(0x6, 0x5, 0x6, 0x3, 0xF, 0xC, 0x2, 0x6), Step(0x7, 0x6, 0x7, 0x4, 0x0, 0xD, 0x1, 0x7),
    Step(0x8, 0x7, 0x8, 0x5, 0x1, 0xE, 0x0, 0x8), Step(0x9, 0x8, 0x9, 0x6, 0x2, 0xF, 0xF, 0x9),
    Step(0xA, 0x9, 0xA, 0x7, 0x3, 0x0, 0xE, 0xA), Step(0xB, 0xA, 0xB, 0x8, 0x4, 0x1, 0xD, 0xB),
    Step(0x0, 0xB, 0xC, 0x9, 0x5, 0x2, 0xC, 0xC), Step(0x1, 0x0, 0xD, 0xA, 0x6, 0x3, 0xB, 0xD),
    Step(0x2, 0x1, 0xE, 0xB, 0x7, 0x4, 0xA, 0xE), Step(0x3, 0x2, 0xF, 0xC, 0x8, 0x5, 0x9, 0xF)
  ]

  const ROUND_1: seq<Step> := [
    Step(0x4, 0x3, 0x0, 0xD, 0x9, 0x6, 0x8, 0x0), Step(0x5, 0x4, 0x1, 0xE, 0xA, 0x7, 0x7, 0x1),
    Step(0x6, 0x5, 0x2, 0xF, 0xB, 0x8, 0x6, 0x2), Step(0x7, 0x6, 0x3, 0x0, 0xC, 0x9, 0x5, 0x3),
    Step(0x8, 0x7, 0x4, 0x1, 0xD, 0xA, 0x4, 0x4), Step(0x9, 0x8, 0x5, 0x2, 0xE, 0xB, 0x3, 0x5),
    Step(0xA, 0x9, 0x6, 0x3, 0xF, 0xC, 0x2, 0x6), Step(0xB, 0xA, 0x7, 0x4, 0x0, 0xD, 0x1, 0x7),
    Step(0x0, 0xB, 0x8, 0x5, 0x1, 0xE, 0x0, 0x8), Step(0x1, 0x0, 0x9, 0x6, 0x2, 0xF, 0xF, 0x9),
    Step(0x2, 0x1, 0xA, 0x7, 0x3, 0x0, 0xE, 0xA), Step(0x3, 0x2, 0xB, 0x8, 0x4, 0x1, 0xD, 0xB),
    Step(0x4, 0x3, 0xC, 0x9, 0x5, 0x2, 0xC, 0xC), Step(0x5, 0x4, 0xD, 0xA, 0x6, 0x3, 0xB, 0xD),
    Step(0x6, 0x5, 0xE, 0xB, 0x7, 0x4, 0xA, 0xE), Step(0x7, 0x6, 0xF, 0xC, 0x8, 0x5, 0x9, 0xF)
  ]

  const ROUND_2: seq<Step> := [
    Step(0x8, 0x7, 0x0, 0xD, 0x9, 0x6, 0x8, 0x0), Step(0x9, 0x8, 0x1, 0xE, 0xA, 0x7, 0x7, 0x1),
    Step(0xA, 0x9, 0x2, 0xF, 0xB, 0x8, 0x6, 0x2), Step(0xB, 0xA, 0x3, 0x0, 0xC, 0x9, 0x5, 0x3),
    Step(0x0, 0xB, 0x4, 0x1, 0xD, 0xA, 0x4, 0x4), Step(0x1, 0x0, 0x5, 0x2, 0xE, 0xB, 0x3, 0x5),
    Step(0x2, 0x1, 0x6, 0x3, 0xF, 0xC, 0x2, 0x6), Step(0x3, 0x2, 0x7, 0x4, 0x0, 0xD, 0x1, 0x7),
    Step(0x4, 0x3, 0x8, 0x5, 0x1, 0xE, 0x0, 0x8), Step(0x5, 0x4, 0x9, 0x6, 0x2, 0xF, 0xF, 0x9),
    Step(0x6, 0x5, 0xA, 0x7, 0x3, 0x0, 0xE, 0xA), Step(0x7, 0x6, 0xB, 0x8, 0x4, 0x1, 0xD, 0xB),
    Step(0x8, 0x7, 0xC, 0x9, 0x5, 0x2, 0xC, 0xC), Step(0x9, 0x8, 0xD, 0xA, 0x6, 0x3, 0xB, 0xD),
    Step(0xA, 0x9, 0xE, 0xB, 0x7, 0x4, 0xA, 0xE), Step(0xB, 0xA, 0xF, 0xC, 0x8, 0x5, 0x9, 0xF)
  ]

  const STEPS: seq<Step> := ROUND_0 + ROUND_1 + ROUND_2

  /** The vector code's sums: which word of A takes which word of C, twelve a round. */
  const SUMS_0: seq<(nat, nat)> := [
    (0xB, 0x6), (0xA, 0x5), (0x9, 0x4), (0x8, 0x3), (0x7, 0x2), (0x6, 0x1),
    (0x5, 0x0), (0x4, 0xF), (0x3, 0xE), (0x2, 0xD), (0x1, 0xC), (0x0, 0xB)
  ]

  const SUMS_1: seq<(nat, nat)> := [
    (0xB, 0xA), (0xA, 0x9), (0x9, 0x8), (0x8, 0x7), (0x7, 0x6), (0x6, 0x5),
    (0x5, 0x4), (0x4, 0x3), (0x3, 0x2), (0x2, 0x1), (0x1, 0x0), (0x0, 0xF)
  ]

  const SUMS_2: seq<(nat, nat)> := [
    (0xB, 0xE), (0xA, 0xD), (0x9, 0xC), (0x8, 0xB), (0x7, 0xA), (0x6, 0x9),
    (0x5, 0x8), (0x4, 0x7), (0x3, 0x6), (0x2, 0x5), (0x1, 0x4), (0x0, 0x3)
  ]

  const PP_SUMS: seq<(nat, nat)> := SUMS_0 + SUMS_1 + SUMS_2

  // ---------- the vector code, one lane of it ----------

  /** The words one use of the macro computes. */
  function VectorA(a0: Word, a1: Word, b1: Word, b2: Word, b3: Word, c: Word, m: Word): Word
  {
    MixedVector(TwoAndOne(XorThree(a0, FourAndOne(Rot15(a1)), c)), b1, b2, b3, m)
  }

  function Rot15(x: Word): Word
  {
    (x << 15) | (x >> 17)
  }

  function FourAndOne(x: Word): Word
  {
    (x << 2) + x
  }

  function TwoAndOne(x: Word): Word
  {
    (x << 1) + x
  }

  function XorThree(x: Word, y: Word, z: Word): Word
  {
    x ^ y ^ z
  }

  function MixedVector(x: Word, b1: Word, b2: Word, b3: Word, m: Word): Word
  {
    (x ^ b1) ^ ((!b3 & b2) ^ m)
  }

  function VectorB(b0: Word, a: Word): Word
  {
    ((b0 << 1) | (b0 >> 31)) ^ (a ^ 0xFFFF_FFFF)
  }

  function PP(w: Regs, m: Block, s: Step): Regs
    requires s.Fits()
  {
    var a := VectorA(w.a[s.a0], w.a[s.a1], w.b[s.b1], w.b[s.b2], w.b[s.b3], w.c[s.c], m[s.m]);
    Words(w.a[s.a0 := a], w.b[s.b0 := VectorB(w.b[s.b0], a)], w.c)
  }

  function RunPP(w: Regs, m: Block, steps: seq<Step>): Regs
    requires forall s :: s in steps ==> s.Fits()
  {
    if steps == [] then w else PP(RunPP(w, m, steps[..|steps| - 1]), m, steps[|steps| - 1])
  }

  function RunSums(w: Regs, sums: seq<(nat, nat)>): (r: Regs)
    requires forall p :: p in sums ==> p.0 < 12 && p.1 < 16
    ensures r.b == w.b && r.c == w.c
  {
    if sums == [] then w
    else
      var v, p := RunSums(w, sums[..|sums| - 1]), sums[|sums| - 1];
      v.(a := v.a[p.0 := Plus(v.a[p.0], v.c[p.1])])
  }

  /** Adds the block, mixes in the counter, then rotates. */
  function LoadVector(w: Regs, lo: Word, hi: Word, m: Block): Regs
  {
    var b := seq(16, j requires 0 <= j < 16 => Plus(w.b[j], m[j]));
    var a := w.a[0 := Xor(w.a[0], lo)];
    Words(a[1 := Xor(a[1], hi)], seq(16, j requires 0 <= j < 16 => Rot17(b[j])), w.c)
  }

  function VectorCompress(w: Regs, lo: Word, hi: Word, m: Block): Regs
  {
    StepsFit();
    Swapped(RunSums(RunPP(LoadVector(w, lo, hi, m), m, STEPS), PP_SUMS), m)
  }

  // ---------- the single-lane code ----------

  /** Per word of A, the three words of C added to it. */
  const GO_SUMS: seq<(nat, nat, nat, nat)> := [
    (0xB, 0x6, 0xA, 0xE), (0xA, 0x5, 0x9, 0xD), (0x9, 0x4, 0x8, 0xC), (0x8, 0x3, 0x7, 0xB),
    (0x7, 0x2, 0x6, 0xA), (0x6, 0x1, 0x5, 0x9), (0x5, 0x0, 0x4, 0x8), (0x4, 0xF, 0x3, 0x7),
    (0x3, 0xE, 0x2, 0x6), (0x2, 0xD, 0x1, 0x5), (0x1, 0xC, 0x0, 0x4), (0x0, 0xB, 0xF, 0x3)
  ]

  function RunGo(w: Regs, m: Block, steps: seq<Step>): Regs
    requires forall s :: s in steps ==> s.Fits()
  {
    if steps == [] then w else Stepped(RunGo(w, m, steps[..|steps| - 1]), m, steps[|steps| - 1])
  }

  function RunGoSums(w: Regs, sums: seq<(nat, nat, nat, nat)>): (r: Regs)
    requires forall p :: p in sums ==> p.0 < 12 && p.1 < 16 && p.2 < 16 && p.3 < 16
    ensures r.b == w.b && r.c == w.c
  {
    if sums == [] then w
    else
      var v, p := RunGoSums(w, sums[..|sums| - 1]), sums[|sums| - 1];
      v.(a := v.a[p.0 := Plus(v.a[p.0], Plus(Plus(v.c[p.1], v.c[p.2]), v.c[p.3]))])
  }

  /** Adds and rotates each word, then mixes in the counter. */
  function LoadGo(w: Regs, lo: Word, hi: Word, m: Block): Regs
  {
    var b := seq(16, j requires 0 <= j < 16 => Rot17(Plus(w.b[j], m[j])));
    var a := w.a[0 := Xor(w.a[0], lo)];
    Words(a[1 := Xor(a[1], hi)], b, w.c)
  }

  function GoCompress(w: Regs, lo: Word, hi: Word, m: Block): Regs
  {
    StepsFit();
    Swapped(RunGoSums(RunGo(LoadGo(w, lo, hi, m), m, STEPS), GO_SUMS), m)
  }

  // ---------- they are one function ----------

  /** Every unrolled step names the registers that the index arithmetic gives. */
  lemma StepsRegular()
    ensures |STEPS| == 48 && forall k :: 0 <= k < 48 ==> STEPS[k] == Regular(k)
  {
    RoundsRegular();
    forall k | 0 <= k < 48 ensures STEPS[k] == Regular(k) {
      assert STEPS[k] == if k < 16 then ROUND_0[k] else if k < 32 then ROUND_1[k - 16] else ROUND_2[k - 32];
    }
  }

  lemma RoundsRegular()
    ensures |ROUND_0| == |ROUND_1| == |ROUND_2| == 16
    ensures forall k :: 0 <= k < 16 ==> ROUND_0[k] == Regular(k)
    ensures forall k :: 0 <= k < 16 ==> ROUND_1[k] == Regular(16 + k)
    ensures forall k :: 0 <= k < 16 ==> ROUND_2[k] == Regular(32 + k)
  {
    Round0();
    Round1();
    Round2();
  }

  lemma Round0()
    ensures forall k :: 0 <= k < 16 ==> ROUND_0[k] == Regular(k)
  {
    assert ROUND_0 == [Regular(0), Regular(1), Regular(2), Regular(3),
      Regular(4), Regular(5), Regular(6), Regular(7),
      Regular(8), Regular(9), Regular(10), Regular(11),
      Regular(12), Regular(13), Regular(14), Regular(15)];
  }

  lemma Round1()
    ensures forall k :: 0 <= k < 16 ==> ROUND_1[k] == Regular(16 + k)
  {
    assert ROUND_1 == [Regular(16), Regular(17), Regular(18), Regular(19),
      Regular(20), Regular(21), Regular(22), Regular(23),
      Regular(24), Regular(25), Regular(26), Regular(27),
      Regular(28), Regular(29), Regular(30), Regular(31)];
  }

  lemma Round2()
    ensures forall k :: 0 <= k < 16 ==> ROUND_2[k] == Regular(32 + k)
  {
    assert ROUND_2 == [Regular(32), Regular(33), Regular(34), Regular(35),
      Regular(36), Regular(37), Regular(38), Regular(39),
      Regular(40), Regular(41), Regular(42), Regular(43),
      Regular(44), Regular(45), Regular(46), Regular(47)];
  }

  /** The vector code adds in three rounds of twelve words, the single-lane code three words at once. */
  lemma SumsRegular()
    ensures |PP_SUMS| == 36 && forall j :: 0 <= j < 36 ==> PP_SUMS[j] == ((35 - j) % 12, (54 - j) % 16)
    ensures |GO_SUMS| == 12
    ensures forall j :: 0 <= j < 12 ==> GO_SUMS[j] == (11 - j, (22 - j) % 16, (26 - j) % 16, (14 - j) % 16)
  {
    SumRoundsRegular();
    forall j | 0 <= j < 36 ensures PP_SUMS[j] == ((35 - j) % 12, (54 - j) % 16) {
      assert PP_SUMS[j] == if j < 12 then SUMS_0[j] else if j < 24 then SUMS_1[j - 12] else SUMS_2[j - 24];
    }
  }

  lemma SumRoundsRegular()
    ensures |SUMS_0| == |SUMS_1| == |SUMS_2| == 12
    ensures forall j :: 0 <= j < 12 ==> SUMS_0[j] == ((35 - j) % 12, (54 - j) % 16)
    ensures forall j :: 0 <= j < 12 ==> SUMS_1[j] == ((23 - j) % 12, (42 - j) % 16)
    ensures forall j :: 0 <= j < 12 ==> SUMS_2[j] == ((11 - j) % 12, (30 - j) % 16)
  {
  }

  lemma StepsFit()
    ensures forall s :: s in STEPS ==> s.Fits()
    ensures forall p :: p in PP_SUMS ==> p.0 < 12 && p.1 < 16
    ensures forall p :: p in GO_SUMS ==> p.0 < 12 && p.1 < 16 && p.2 < 16 && p.3 < 16
  {
    StepsRegular();
    SumsRegular();
  }

  /** The macro's shifts and sums are the multiplications by five and three, and its last mask the complement. */
  lemma PPIsStep(w: Regs, m: Block, s: Step)
    requires s.Fits()
    ensures PP(w, m, s) == Stepped(w, m, s)
  {
    hide VectorA, VectorB, WordA, WordB;
    VectorWords(w.a[s.a0], w.a[s.a1], w.b[s.b1], w.b[s.b2], w.b[s.b3], w.c[s.c], m[s.m]);
    VectorComplement(w.b[s.b0], VectorA(w.a[s.a0], w.a[s.a1], w.b[s.b1], w.b[s.b2], w.b[s.b3], w.c[s.c], m[s.m]));
  }

  lemma VectorWords(a0: Word, a1: Word, b1: Word, b2: Word, b3: Word, c: Word, m: Word)
    ensures VectorA(a0, a1, b1, b2, b3, c, m) == WordA(a0, a1, b1, b2, b3, c, m)
  {
    hide WordA, Five, Three, FourAndOne, TwoAndOne, Rot15, XorThree, Mixed, MixedVector;
    WordInParts(a0, a1, b1, b2, b3, c, m);
    Multiples(Rot15(a1));
    var u := XorThree(a0, Five(Rot15(a1)), c);
    Multiples(u);
    MixedSame(Three(u), b1, b2, b3, m);
  }

  // The parts of the single-lane expression, so that each fact about words is about one operation.

  function Five(x: Word): Word
  {
    x * 5
  }

  function Three(x: Word): Word
  {
    x * 3
  }

  function Mixed(x: Word, b1: Word, b2: Word, b3: Word, m: Word): Word
  {
    x ^ b1 ^ (b2 & !b3) ^ m
  }

  lemma MixedSame(x: Word, b1: Word, b2: Word, b3: Word, m: Word)
    ensures MixedVector(x, b1, b2, b3, m) == Mixed(x, b1, b2, b3, m)
  {
  }

  lemma Multiples(x: Word)
    ensures FourAndOne(x) == Five(x) && TwoAndOne(x) == Three(x)
  {
  }

  lemma FivePart(x: Word)
    ensures Five(Rot15(x)) == ((x << 15) | (x >> 17)) * 5
  {
    assert Rot15(x) == (x << 15) | (x >> 17);
  }

  lemma XorThreeIs(a0: Word, y: Word, z: Word, c: Word)
    requires y == z
    ensures XorThree(a0, y, c) == a0 ^ z ^ c
  {
  }

  lemma ThreeIs(y: Word, z: Word)
    requires y == z
    ensures Three(y) == z * 3
  {
  }

  lemma MixedIs(y: Word, z: Word, b1: Word, b2: Word, b3: Word, m: Word)
    requires y == z
    ensures Mixed(y, b1, b2, b3, m) == z ^ b1 ^ (b2 & !b3) ^ m
  {
  }

  lemma WordIs(a0: Word, a1: Word, b1: Word, b2: Word, b3: Word, c: Word, m: Word)
    ensures WordA(a0, a1, b1, b2, b3, c, m) == ((a0 ^ (((a1 << 15) | (a1 >> 17)) * 5) ^ c) * 3) ^ b1 ^ (b2 & !b3) ^ m
  {
  }

  lemma XorThreePart(a0: Word, x: Word, c: Word)
    ensures XorThree(a0, Five(Rot15(x)), c) == a0 ^ (((x << 15) | (x >> 17)) * 5) ^ c
  {
    hide Five, Rot15, XorThree;
    FivePart(x);
    XorThreeIs(a0, Five(Rot15(x)), ((x << 15) | (x >> 17)) * 5, c);
  }

  lemma ThreePart(a0: Word, x: Word, c: Word)
    ensures Three(XorThree(a0, Five(Rot15(x)), c)) == (a0 ^ (((x << 15) | (x >> 17)) * 5) ^ c) * 3
  {
    hide Five, Rot15, XorThree, Three;
    XorThreePart(a0, x, c);
    ThreeIs(XorThree(a0, Five(Rot15(x)), c), a0 ^ (((x << 15) | (x >> 17)) * 5) ^ c);
  }

  lemma WordInParts(a0: Word, a1: Word, b1: Word, b2: Word, b3: Word, c: Word, m: Word)
    ensures WordA(a0, a1, b1, b2, b3, c, m) == Mixed(Three(XorThree(a0, Five(Rot15(a1)), c)), b1, b2, b3, m)
  {
    hide WordA, Five, Rot15, XorThree, Three, Mixed;
    ThreePart(a0, a1, c);
    WordIs(a0, a1, b1, b2, b3, c, m);
    MixedIs(Three(XorThree(a0, Five(Rot15(a1)), c)), (a0 ^ (((a1 << 15) | (a1 >> 17)) * 5) ^ c) * 3, b1, b2, b3, m);
  }

  lemma VectorComplement(b0: Word, a: Word)
    ensures VectorB(b0, a) == WordB(b0, a)
  {
  }

  lemma {:induction false} RunPPIs(w: Regs, m: Block, k: nat)
    requires k <= 48 && |STEPS| == 48 && forall s :: s in STEPS ==> s.Fits()
    ensures RunPP(w, m, STEPS[..k]) == Permuted(w, m, k)
  {
    hide PP, Stepped, Regular;
    if k > 0 {
      RunPPIs(w, m, k - 1);
      StepsRegular();
      assert STEPS[..k][..k - 1] == STEPS[..k - 1];
      PPIsStep(Permuted(w, m, k - 1), m, Regular(k - 1));
    }
  }

  lemma {:induction false} RunGoIs(w: Regs, m: Block, k: nat)
    requires k <= 48 && |STEPS| == 48 && forall s :: s in STEPS ==> s.Fits()
    ensures RunGo(w, m, STEPS[..k]) == Permuted(w, m, k)
  {
    hide Stepped, Regular;
    if k > 0 {
      RunGoIs(w, m, k - 1);
      StepsRegular();
      assert STEPS[..k][..k - 1] == STEPS[..k - 1];
    }
  }

  /** Word i of A after the first j of the vector code's sums. */
  ghost function Partial(w: Regs, i: nat, j: nat): Word
    requires i < 12
  {
    var x := if j > 11 - i then Plus(w.a[i], w.c[(i + 11) % 16]) else w.a[i];
    var y := if j > 23 - i then Plus(x, w.c[(i + 15) % 16]) else x;
    if j > 35 - i then Plus(y, w.c[(i + 3) % 16]) else y
  }

  lemma PartialStep(w: Regs, i: nat, j: nat)
    requires i < 12 && j < 36
    ensures Partial(w, i, j + 1)
         == if i == (35 - j) % 12 then Plus(Partial(w, i, j), w.c[(54 - j) % 16]) else Partial(w, i, j)
  {
    hide Plus;
    Countdown(i, j);
  }

  lemma Countdown(i: nat, j: nat)
    requires i < 12 && j < 36
    ensures i == (35 - j) % 12 <==> j == 11 - i || j == 23 - i || j == 35 - i
    ensures j == 11 - i ==> (54 - j) % 16 == (i + 11) % 16
    ensures j == 23 - i ==> (54 - j) % 16 == (i + 15) % 16
    ensures j == 35 - i ==> (54 - j) % 16 == (i + 3) % 16
  {
    assert (35 - j) % 12 == if j < 12 then 11 - j else if j < 24 then 23 - j else 35 - j;
  }

  lemma {:induction false} RunSumsIs(w: Regs, j: nat)
    requires j <= 36 && |PP_SUMS| == 36 && forall p :: p in PP_SUMS ==> p.0 < 12 && p.1 < 16
    ensures forall i :: 0 <= i < 12 ==> RunSums(w, PP_SUMS[..j]).a[i] == Partial(w, i, j)
  {
    hide Partial, Plus, PP_SUMS;
    if j == 0 {
      NoSums(w);
    } else {
      RunSumsIs(w, j - 1);
      SumsRegular();
      assert PP_SUMS[..j][..j - 1] == PP_SUMS[..j - 1];
      forall i | 0 <= i < 12 ensures RunSums(w, PP_SUMS[..j]).a[i] == Partial(w, i, j) {
        PartialStep(w, i, j - 1);
      }
    }
  }

  lemma NoSums(w: Regs)
    ensures forall i :: 0 <= i < 12 ==> Partial(w, i, 0) == w.a[i]
  {
  }

  lemma {:induction false} RunGoSumsIs(w: Regs, j: nat)
    requires j <= 12 && |GO_SUMS| == 12
    requires forall p :: p in GO_SUMS ==> p.0 < 12 && p.1 < 16 && p.2 < 16 && p.3 < 16
    ensures forall i :: 0 <= i < 12 ==> RunGoSums(w, GO_SUMS[..j]).a[i] == if i < 12 - j then w.a[i] else Summed(w).a[i]
  {
    hide Summed, Plus, GO_SUMS;
    if j > 0 {
      RunGoSumsIs(w, j - 1);
      SumsRegular();
      assert GO_SUMS[..j][..j - 1] == GO_SUMS[..j - 1];
      SummedAt(w, 12 - j);
    }
  }

  lemma SummedAt(w: Regs, i: nat)
    requires i < 12
    ensures Summed(w).a[i] == Plus(w.a[i], Plus(Plus(w.c[(i + 11) % 16], w.c[(i + 15) % 16]), w.c[(i + 3) % 16]))
  {
    hide Plus;
    AddThree(w.a[i], w.c[(i + 11) % 16], w.c[(i + 15) % 16], w.c[(i + 3) % 16]);
  }

  lemma AddThree(x: Word, p: Word, q: Word, r: Word)
    ensures Plus(x, Plus(Plus(p, q), r)) == Plus(Plus(Plus(x, p), q), r)
  {
    hide Plus;
    AddTwo(x, Plus(p, q), r);
    AddTwo(x, p, q);
  }

  lemma AddTwo(x: Word, p: Word, q: Word)
    ensures Plus(x, Plus(p, q)) == Plus(Plus(x, p), q)
  {
    hide Plus;
    PlusRight(x, p, q);
    PlusLeft(x, p, q);
  }

  lemma PlusRight(x: Word, p: Word, q: Word)
    ensures Plus(x, Plus(p, q)) == x + (p + q)
  {
    assert Plus(p, q) == p + q;
  }

  lemma PlusLeft(x: Word, p: Word, q: Word)
    ensures Plus(Plus(x, p), q) == (x + p) + q
  {
    assert Plus(x, p) == x + p;
  }

  lemma LoadsAgree(w: Regs, lo: Word, hi: Word, m: Block)
    ensures LoadVector(w, lo, hi, m) == LoadGo(w, lo, hi, m) == Loaded(w, lo, hi, m)
  {
    hide Rot17, Plus, Xor;
  }

  lemma SumsAt(a: seq<Word>, c: Block, i: nat)
    requires |a| == 12 && i < 12
    ensures Sums(a, c)[i] == Plus(Plus(Plus(a[i], c[(i + 11) % 16]), c[(i + 15) % 16]), c[(i + 3) % 16])
  {
    hide Plus;
  }

  lemma SumsAgree(w: Regs)
    requires forall p :: p in PP_SUMS ==> p.0 < 12 && p.1 < 16
    requires forall p :: p in GO_SUMS ==> p.0 < 12 && p.1 < 16 && p.2 < 16 && p.3 < 16
    ensures RunSums(w, PP_SUMS) == RunGoSums(w, GO_SUMS) == Summed(w)
  {
    hide PP_SUMS, GO_SUMS, Plus, Sums;
    SumsRegular();
    RunSumsIs(w, 36);
    RunGoSumsIs(w, 12);
    assert PP_SUMS[..36] == PP_SUMS && GO_SUMS[..12] == GO_SUMS;
    forall i | 0 <= i < 12 ensures Partial(w, i, 36) == Summed(w).a[i] {
      SumsAt(w.a, w.c, i);
    }
  }

  /** On every state, counter and block, the vector code and the single-lane code compute the permutation. */
  lemma KernelsAgree(w: Regs, lo: Word, hi: Word, m: Block)
    ensures VectorCompress(w, lo, hi, m) == GoCompress(w, lo, hi, m) == Compressed(w, lo, hi, m)
  {
    hide LoadVector, LoadGo, Loaded, RunPP, RunGo, RunSums, RunGoSums, Summed, Permuted, Swapped;
    hide STEPS, PP_SUMS, GO_SUMS;
    StepsFit();
    StepsRegular();
    LoadsAgree(w, lo, hi, m);
    var v := Loaded(w, lo, hi, m);
    assert STEPS[..48] == STEPS;
    RunPPIs(v, m, 48);
    RunGoIs(v, m, 48);
    SumsAgree(Permuted(v, m, 48));
  }
}
