/**
 What each instruction means: one step on an instruction as it is written down,
 for every state. The operation codes are the numbers an assembler emits.
 */
module AtLaws {
  import opened LittleEndian
  import opened MachineWords
  import opened Modular
  import opened Powers
  import opened AtMachine
  import opened AtAssembler
  import opened Encoding

  const TWO_64 := 0x1_0000_0000_0000_0000
  const GREATEST: Word := 0x7fff_ffff_ffff_ffff
  const LEAST: Word := -0x8000_0000_0000_0000

  /** The instruction at the program counter is this one, written down with these operands. */
  ghost predicate Next<R>(code: Code, s: State<R>, op: int, w: Operands)
  {
    && op != 0x7f && ShapeOf(op) != NoSuch
    && 0 <= s.pc && s.pc + Length(ShapeOf(op)) <= 512 && code[s.pc] as int == op
    && Usable(ShapeOf(op), w, s.pc) && Lies(code, s.pc + 1, Assembled(ShapeOf(op), w))
  }

  lemma StepIs<R>(code: Code, ext: Oracle<R>, s: State<R>, op: int, w: Operands)
    requires Next(code, s, op, w)
    ensures Step(code, ext, s) == Settle(Perform(s, ext, op, w))
  {
    hide Perform, Settle, SkipNops;
    FetchAssembled(code, s.pc, ShapeOf(op), w);
  }

  /** A signed number of n bytes at a place of the code. */
  ghost predicate Written(code: Code, at: int, n: nat, x: int)
  {
    0 <= at && at + n <= 512 && Value(code[at..at + n]) == x % Radix(n)
  }

  lemma SignedWritten(code: Code, at: nat, x: int, n: nat)
    requires Lies(code, at, SignedBytes(x, n))
    ensures Written(code, at, n, x)
  {
    BytesModulo(x % Radix(n), n);
    RemainderUnique(x % Radix(n), x % Radix(n), 0, Radix(n));
  }

  /**
   Where the operands stand. Addresses come first, four bytes each, then the
   value or the branch offset; an external function's number of two bytes comes
   before its addresses.
   */
  lemma OperandsLie<R>(code: Code, s: State<R>, op: int, w: Operands)
    requires Next(code, s, op, w)
    ensures op < 0x32 && op !in {0x13, 0x28, 0x29, 0x2a, 0x30} ==> Written(code, s.pc + 1, 4, w.a1)
    ensures op == 0x01 ==> Written(code, s.pc + 5, 8, w.val)
    ensures op in {0x1b, 0x1e} ==> Written(code, s.pc + 5, 1, w.off)
    ensures op == 0x02 || 0x06 <= op <= 0x0c || 0x0e <= op <= 0x0f ==> Written(code, s.pc + 5, 4, w.a2)
    ensures 0x14 <= op <= 0x18 || 0x1f <= op <= 0x24 ==> Written(code, s.pc + 5, 4, w.a2)
    ensures op in {0x0f, 0x15} ==> Written(code, s.pc + 9, 4, w.a3)
    ensures 0x1f <= op <= 0x24 ==> Written(code, s.pc + 9, 1, w.off)
    ensures 0x32 <= op <= 0x37 ==> Written(code, s.pc + 1, 2, w.fun)
    ensures 0x33 <= op <= 0x37 ==> Written(code, s.pc + 3, 4, w.a1)
    ensures op in {0x34, 0x36, 0x37} ==> Written(code, s.pc + 7, 4, w.a2)
    ensures op == 0x37 ==> Written(code, s.pc + 11, 4, w.a3)
  {
    hide Lies, Written, Assembled;
    ShapeLies(code, s.pc + 1, ShapeOf(op), w);
  }

  /** The operands of a shape from a place on. */
  lemma ShapeLies(code: Code, p: nat, sh: Shape, w: Operands)
    requires sh != NoSuch && Lies(code, p, Assembled(sh, w))
    ensures sh in {Addr, AddrVal, Addrs, Addrs3, AddrOff, AddrsOff} ==> Written(code, p, 4, w.a1)
    ensures sh in {Addrs, Addrs3, AddrsOff} ==> Written(code, p + 4, 4, w.a2)
    ensures sh == Addrs3 ==> Written(code, p + 8, 4, w.a3)
    ensures sh == AddrVal ==> Written(code, p + 4, 8, w.val)
    ensures sh == AddrOff ==> Written(code, p + 4, 1, w.off)
    ensures sh == AddrsOff ==> Written(code, p + 8, 1, w.off)
    ensures sh in {Fun, FunAddr, FunAddrs, FunAddrs3} ==> Written(code, p, 2, w.fun)
    ensures sh in {FunAddr, FunAddrs, FunAddrs3} ==> Written(code, p + 2, 4, w.a1)
    ensures sh in {FunAddrs, FunAddrs3} ==> Written(code, p + 6, 4, w.a2)
    ensures sh == FunAddrs3 ==> Written(code, p + 10, 4, w.a3)
  {
    hide SignedBytes, Lies, Written;
    var a, b, c := SignedBytes(w.a1, 4), SignedBytes(w.a2, 4), SignedBytes(w.a3, 4);
    match sh
    case Bare =>
    case Addr => SignedWritten(code, p, w.a1, 4);
    case Fun => SignedWritten(code, p, w.fun, 2);
    case AddrVal => PairLies(code, p, w.a1, 4, w.val, 8);
    case Addrs => PairLies(code, p, w.a1, 4, w.a2, 4);
    case AddrOff => PairLies(code, p, w.a1, 4, w.off, 1);
    case FunAddr => PairLies(code, p, w.fun, 2, w.a1, 4);
    case Addrs3 =>
      LiesSplit(code, p, a + b, c);
      PairLies(code, p, w.a1, 4, w.a2, 4);
      SignedWritten(code, p + 8, w.a3, 4);
    case AddrsOff =>
      LiesSplit(code, p, a + b, SignedBytes(w.off, 1));
      PairLies(code, p, w.a1, 4, w.a2, 4);
      SignedWritten(code, p + 8, w.off, 1);
    case FunAddrs =>
      LiesSplit(code, p, SignedBytes(w.fun, 2) + a, b);
      PairLies(code, p, w.fun, 2, w.a1, 4);
      SignedWritten(code, p + 6, w.a2, 4);
    case FunAddrs3 =>
      LiesSplit(code, p, SignedBytes(w.fun, 2) + a + b, c);
      LiesSplit(code, p, SignedBytes(w.fun, 2) + a, b);
      PairLies(code, p, w.fun, 2, w.a1, 4);
      SignedWritten(code, p + 6, w.a2, 4);
      SignedWritten(code, p + 10, w.a3, 4);
  }

  lemma PairLies(code: Code, p: nat, x: int, m: nat, y: int, n: nat)
    requires Lies(code, p, SignedBytes(x, m) + SignedBytes(y, n))
    ensures Written(code, p, m, x) && Written(code, p + m, n, y)
  {
    hide SignedBytes, Lies, Written;
    LiesSplit(code, p, SignedBytes(x, m), SignedBytes(y, n));
    SignedWritten(code, p, x, m);
    SignedWritten(code, p + m, y, n);
  }

  // ---------- what can come of a step ----------

  ghost function Ticked<R>(s: State<R>): State<R>
  {
    s.(steps := Wrap32(s.steps + 1))
  }

  /** The step moves on by n bytes and changes one word of memory, nothing else. */
  ghost predicate Stores<R>(s: State<R>, e: Effect<R>, addr: int, v: Word, n: int)
  {
    InData(addr) && e == Effect(Ticked(s).(pc := s.pc + n, mem := s.mem[addr := v]), Code(n))
  }

  /** The step goes to another place and changes nothing else. */
  ghost predicate JumpsTo<R>(s: State<R>, e: Effect<R>, pc: int, n: int)
  {
    e == Effect(Ticked(s).(pc := pc), Code(n))
  }

  /** The step changes nothing: it goes on at the error address, if there is one, and otherwise ends the run. */
  ghost predicate Overflows<R>(s: State<R>, e: Effect<R>)
  {
    if s.pce != 0 then JumpsTo(s, e, s.pce, OK) else e == Effect(s, Code(OVERFLOW))
  }

  /** Bit k in two's complement. */
  ghost predicate BitOf(x: int, k: nat)
  {
    x / Pow2(k) % 2 == 1
  }

  lemma AssignStores<R>(s: State<R>, addr: int, v: Word, n: nat)
    requires InData(addr)
    ensures Stores(s, Settle(Assign(s, addr, v, n)), addr, v, n)
  {
    hide Wrap32;
  }

  lemma OneWordStep<R>(code: Code, ext: Oracle<R>, s: State<R>, op: int, w: Operands)
    requires Next(code, s, op, w) && op in {0x01, 0x03, 0x04, 0x05, 0x0d}
    ensures InData(w.a1) && Step(code, ext, s) == Settle(OneWord(s, op, w))
  {
    hide Step, Settle, OneWord, Lies, Assembled;
    StepIs(code, ext, s, op, w);
  }

  lemma TwoWordsStep<R>(code: Code, ext: Oracle<R>, s: State<R>, op: int, w: Operands)
    requires Next(code, s, op, w)
    requires op in {0x02, 0x06, 0x07, 0x08, 0x09, 0x0a, 0x0b, 0x0c, 0x16, 0x17, 0x18}
    ensures InData(w.a1) && InData(w.a2) && Step(code, ext, s) == Settle(TwoWords(s, op, w))
  {
    hide Step, Settle, TwoWords, Lies, Assembled;
    StepIs(code, ext, s, op, w);
  }

  // ---------- one word ----------

  lemma SetAndClear<R>(code: Code, ext: Oracle<R>, s: State<R>, op: int, w: Operands)
    requires Next(code, s, op, w)
    ensures op == 0x01 ==> Stores(s, Step(code, ext, s), w.a1, w.val, 13)
    ensures op == 0x03 ==> Stores(s, Step(code, ext, s), w.a1, 0, 5)
  {
    hide Next, Step, Settle, Assign, Stores;
    if op in {0x01, 0x03} {
      OneWordStep(code, ext, s, op, w);
      AssignStores(s, w.a1, if op == 0x01 then w.val else 0, if op == 0x01 then 13 else 5);
    }
  }

  /** Counting up and down by one, around the ends of the range. */
  lemma CountUpAndDown<R>(code: Code, ext: Oracle<R>, s: State<R>, op: int, w: Operands)
    requires Next(code, s, op, w) && op in {0x04, 0x05}
    ensures var (e, x) := (Step(code, ext, s), s.mem[w.a1]);
            Stores(s, e, w.a1, if op == 0x04 then if x == GREATEST then LEAST else x + 1
                               else if x == LEAST then GREATEST else x - 1, 5)
  {
    hide Next, Step, Settle, Assign, Stores, Wrap64;
    OneWordStep(code, ext, s, op, w);
    var x := s.mem[w.a1];
    Neighbours(x);
    AssignStores(s, w.a1, if op == 0x04 then Wrap64(x as int + 1) else Wrap64(x as int - 1), 5);
  }

  lemma Neighbours(x: Word)
    ensures Wrap64(x + 1) == (if x == GREATEST then LEAST else x + 1)
    ensures Wrap64(x - 1) == if x == LEAST then GREATEST else x - 1
  {
    hide Wrap;
    WrapFits(x + 1, 0x8000_0000_0000_0000);
    if x == LEAST {
      WrapIs(x - 1, 0x8000_0000_0000_0000, GREATEST);
    } else {
      WrapFits(x - 1, 0x8000_0000_0000_0000);
    }
  }

  /** The representative in the range is the wrapped value. */
  lemma WrapIs(x: int, half: int, w: int)
    requires half > 0 && -half <= w < half && Cong(w, x, 2 * half)
    ensures Wrap(x, half) == w
  {
    hide Wrap, Cong;
    WrapCong(x, half);
    CongTurn(w, x, 2 * half);
    CongTrans(Wrap(x, half), x, w, 2 * half);
    CongClose(Wrap(x, half), w, 2 * half);
  }

  lemma CongTurn(a: int, b: int, m: int)
    requires m > 0 && Cong(a, b, m)
    ensures Cong(b, a, m)
  {
  }

  /** Counting up and then down, or down and then up, restores the memory. */
  lemma UpThenDown<R>(code: Code, ext: Oracle<R>, s: State<R>, op: int, w: Operands)
    requires Next(code, s, op, w) && op in {0x04, 0x05}
    requires Next(code, Step(code, ext, s).s, 0x09 - op, w)
    ensures Step(code, ext, Step(code, ext, s).s).s.mem == s.mem
  {
    hide Step, Next;
    CountUpAndDown(code, ext, s, op, w);
    CountUpAndDown(code, ext, Step(code, ext, s).s, 0x09 - op, w);
  }

  /** Every bit is complemented. */
  lemma Complement<R>(code: Code, ext: Oracle<R>, s: State<R>, w: Operands)
    requires Next(code, s, 0x0d, w)
    ensures var (e, v) := (Step(code, ext, s), Step(code, ext, s).s.mem[w.a1]);
            Stores(s, e, w.a1, v, 5) && forall k :: 0 <= k < 64 ==> (BitOf(v, k) <==> !BitOf(s.mem[w.a1], k))
  {
    hide Next, Step, Settle, Assign, BitOf;
    OneWordStep(code, ext, s, 0x0d, w);
    AssignStores(s, w.a1, -1 - s.mem[w.a1], 5);
    forall k | 0 <= k < 64 ensures BitOf(-1 - s.mem[w.a1] as int, k) <==> !BitOf(s.mem[w.a1], k) {
      ComplementBit(s.mem[w.a1], k);
    }
  }

  lemma ComplementBit(x: int, k: nat)
    ensures BitOf(-1 - x, k) <==> !BitOf(x, k)
  {
    hide Pow2;
    var m, q, r := Pow2(k), x / Pow2(k), x % Pow2(k);
    assert x == q * m + r;
    assert -1 - x == (-1 - q) * m + (m - 1 - r);
    Quotient(-1 - x, m, -1 - q, m - 1 - r);
  }

  lemma Quotient(x: int, m: int, q: int, r: int)
    requires m > 0 && x == q * m + r && 0 <= r < m
    ensures x / m == q
  {
    var p := x / m;
    assert x == p * m + x % m;
    if p < q {
      MulLe(p + 1, q, m);
    } else if p > q {
      MulLe(q + 1, p, m);
    }
  }

  // ---------- two words ----------

  /** Sums and differences, modulo 2^64; setting adds, too. */
  lemma Arithmetic<R>(code: Code, ext: Oracle<R>, s: State<R>, op: int, w: Operands)
    requires Next(code, s, op, w) && op in {0x02, 0x06, 0x07}
    ensures var (x, y) := (s.mem[w.a1], s.mem[w.a2]);
            var v := Step(code, ext, s).s.mem[w.a1];
            && Stores(s, Step(code, ext, s), w.a1, v, 9)
            && (op in {0x02, 0x06} ==> Cong(v, x as int + y as int, TWO_64))
            && (op == 0x07 ==> Cong(v as int + y as int, x, TWO_64))
  {
    hide Next, Step, Settle, Assign, Wrap64, Cong, Bitwise;
    TwoWordsStep(code, ext, s, op, w);
    var x, y := s.mem[w.a1] as int, s.mem[w.a2] as int;
    AssignStores(s, w.a1, Combine(op, x, y), 9);
    Wraps(x + y);
    Wraps(x - y);
    CongRefl(y, TWO_64);
    CongAdd(Wrap64(x - y), x - y, y, y, TWO_64);
  }

  /** Products, modulo 2^64. */
  lemma Multiplication<R>(code: Code, ext: Oracle<R>, s: State<R>, w: Operands, x: int, y: int)
    requires Next(code, s, 0x08, w) && x == s.mem[w.a1] as int && y == s.mem[w.a2] as int
    ensures var v := Step(code, ext, s).s.mem[w.a1];
            Stores(s, Step(code, ext, s), w.a1, v, 9) && Cong(v, x * y, TWO_64)
  {
    hide Next, Step, Settle, Assign, Wrap64, Cong, Bitwise;
    TwoWordsStep(code, ext, s, 0x08, w);
    AssignStores(s, w.a1, Wrap64(x * y), 9);
    Wraps(x * y);
  }

  lemma Wraps(x: int)
    ensures Cong(Wrap64(x), x, TWO_64)
  {
    WrapCong(x, 0x8000_0000_0000_0000);
  }

  /** Or, and, exclusive or: of every pair of bits. */
  lemma BitByBit<R>(code: Code, ext: Oracle<R>, s: State<R>, op: int, w: Operands)
    requires Next(code, s, op, w) && op in {0x0a, 0x0b, 0x0c}
    ensures var (x, y) := (s.mem[w.a1], s.mem[w.a2]);
            var v := Step(code, ext, s).s.mem[w.a1];
            Stores(s, Step(code, ext, s), w.a1, v, 9)
            && forall k :: 0 <= k < 64 ==>
                 (op == 0x0a ==> (BitOf(v, k) <==> BitOf(x, k) || BitOf(y, k)))
                 && (op == 0x0b ==> (BitOf(v, k) <==> BitOf(x, k) && BitOf(y, k)))
                 && (op == 0x0c ==> (BitOf(v, k) <==> BitOf(x, k) != BitOf(y, k)))
  {
    hide Next, Step, Settle, Assign, Wrap64, BitOf, Bitwise;
    TwoWordsStep(code, ext, s, op, w);
    var x, y := s.mem[w.a1], s.mem[w.a2];
    var b := Bitwise(op, x, y, 64);
    AssignStores(s, w.a1, Wrap64(b), 9);
    BitwiseFits(op, x, y, 64);
    forall k | 0 <= k < 64 ensures BitOf(Wrap64(b), k) <==> JoinBits(op, BitOf(x, k), BitOf(y, k)) {
      WrappedBit(b, k);
      BitwiseBit(op, x, y, 64, k);
    }
  }

  lemma {:induction false} BitwiseFits(op: int, x: int, y: int, n: nat)
    ensures Bitwise(op, x, y, n) < Pow2(n)
    decreases n
  {
    if n > 0 {
      BitwiseFits(op, x / 2, y / 2, n - 1);
    }
  }

  lemma {:induction false} BitwiseBit(op: int, x: int, y: int, n: nat, k: nat)
    requires k < n
    ensures BitOf(Bitwise(op, x, y, n), k) <==> JoinBits(op, BitOf(x, k), BitOf(y, k))
    decreases n
  {
    hide JoinBits, BitOf;
    var b := Bitwise(op, x, y, n);
    if k == 0 {
      LowestBit(b);
      LowestBit(x);
      LowestBit(y);
    } else {
      BitwiseBit(op, x / 2, y / 2, n - 1, k - 1);
      HigherBit(b, k);
      HigherBit(x, k);
      HigherBit(y, k);
    }
  }

  lemma LowestBit(x: int)
    ensures BitOf(x, 0) <==> x % 2 == 1
  {
  }

  lemma HigherBit(x: int, k: nat)
    requires k > 0
    ensures BitOf(x, k) <==> BitOf(x / 2, k - 1)
  {
    var m, h := Pow2(k - 1), x / 2;
    assert x == 2 * h + x % 2;
    assert h == (h / m) * m + h % m;
    assert Pow2(k) == 2 * m;
    assert x == (h / m) * (2 * m) + (2 * (h % m) + x % 2);
    Quotient(x, 2 * m, h / m, 2 * (h % m) + x % 2);
  }

  /** Wrapping keeps the low bits. */
  lemma WrappedBit(b: nat, k: nat)
    requires k < 64 && b < Pow2(64)
    ensures BitOf(Wrap64(b), k) <==> BitOf(b, k)
  {
    hide Wrap, Pow2;
    TwoTo64();
    WrapFits(b, 0x8000_0000_0000_0000);
    if b >= 0x8000_0000_0000_0000 {
      var m, j := Pow2(k), Pow2(63 - k);
      Pow2Add(k, 64 - k);
      Twice(63 - k);
      LowBits(b, m, j);
    }
  }

  lemma LowBits(b: int, m: int, j: int)
    requires m > 0 && m * (2 * j) == TWO_64
    ensures (b - TWO_64) / m % 2 == b / m % 2
  {
    var q := b / m;
    assert b == q * m + b % m;
    assert (q - 2 * j) * m == q * m - m * (2 * j);
    Quotient(b - TWO_64, m, q - 2 * j, b % m);
    RemainderUnique(q - 2 * j, q % 2, q / 2 - j, 2);
  }

  lemma TwoTo64()
    ensures Pow2(64) == TWO_64
  {
    assert Pow2(2) == 4;
    hide Pow2;
    Pow2Add(2, 2);
    Pow2Add(4, 4);
    Pow2Add(8, 8);
    Pow2Add(16, 16);
    Pow2Add(32, 32);
  }

  lemma Twice(n: nat)
    ensures Pow2(n + 1) == 2 * Pow2(n)
  {
  }

  /** Division truncates toward zero; by zero it is refused before anything moves. */
  lemma Division<R>(code: Code, ext: Oracle<R>, s: State<R>, w: Operands)
    requires Next(code, s, 0x09, w)
    ensures var (x, y) := (s.mem[w.a1], s.mem[w.a2]);
            var v := Step(code, ext, s).s.mem[w.a1];
            if y == 0 then Step(code, ext, s) == Effect(s, Code(INVALID_CODE))
            else
              && Stores(s, Step(code, ext, s), w.a1, v, 9)
              && (if x == LEAST && y == -1 then v == LEAST
                  else
                    var r := x as int - v as int * y as int;
                    Abs(r) < Abs(y) && (r == 0 || (r < 0 <==> x < 0)))
  {
    hide Next, Step, Assign, Quo, Rem, Abs;
    TwoWordsStep(code, ext, s, 0x09, w);
    var x, y := s.mem[w.a1], s.mem[w.a2];
    if y != 0 {
      AssignStores(s, w.a1, Quo(x, y), 9);
      QuoRemIff(x, y);
      if x == LEAST && y == -1 {
        LeastQuotient();
      }
    }
  }

  lemma LeastQuotient()
    ensures Quo(LEAST, -1) == LEAST
  {
  }

  /** The remainder belongs to some quotient and has the dividend's sign; a zero modulus panics. */
  lemma Remainder<R>(code: Code, ext: Oracle<R>, s: State<R>, w: Operands) returns (q: int)
    requires Next(code, s, 0x16, w)
    ensures var (x, y) := (s.mem[w.a2], s.mem[w.a1]);
            var v := Step(code, ext, s).s.mem[w.a2];
            if y == 0 then Step(code, ext, s) == Effect(s, Panic)
            else
              && Stores(s, Step(code, ext, s), w.a2, v, 9)
              && x as int == q * y as int + v as int && Abs(v) < Abs(y) && (v == 0 || (v < 0 <==> x < 0))
  {
    hide Next, Step, Assign, Quo, Rem, Abs;
    TwoWordsStep(code, ext, s, 0x16, w);
    var x, y := s.mem[w.a2], s.mem[w.a1];
    q := 0;
    if y != 0 {
      AssignStores(s, w.a2, Rem(x, y), 9);
      QuoRemIff(x, y);
      q := Quo(x, y);
      if x == LEAST && y == -1 {
        q := 0x8000_0000_0000_0000;
        LeastRemainder();
      }
    }
  }

  lemma LeastRemainder()
    ensures Rem(LEAST, -1) == 0
  {
  }

  /** Shifting left multiplies by a power of two modulo 2^64; shifting right divides, rounding down. */
  lemma Shifts<R>(code: Code, ext: Oracle<R>, s: State<R>, op: int, w: Operands)
    requires Next(code, s, op, w) && op in {0x17, 0x18}
    ensures var (x, n) := (s.mem[w.a2], s.mem[w.a1]);
            var v := Step(code, ext, s).s.mem[w.a2];
            && Stores(s, Step(code, ext, s), w.a2, v, 9)
            && (op == 0x17 ==> if 0 <= n < 64 then Cong(v, x as int * Pow2(n), TWO_64) else v == 0)
            && (op == 0x18 ==> if 0 <= n < 64 then v * Pow2(n) <= x as int < (v as int + 1) * Pow2(n)
                               else v == if x < 0 then -1 else 0)
  {
    hide Next, Step, Settle, Assign, Wrap64, Cong, Pow2;
    TwoWordsStep(code, ext, s, op, w);
    var x, n := s.mem[w.a2] as int, s.mem[w.a1];
    AssignStores(s, w.a2, if op == 0x17 then Shl(x, n) else Shr(x, n), 9);
    if 0 <= n < 64 {
      var m := Pow2(n);
      Wraps(x * m);
      ShiftedFits(x, m);
    }
  }

  lemma ShiftedFits(x: Word, m: int)
    requires m > 0
    ensures Wrap64(x / m) == x / m && (x / m) * m <= x < (x / m + 1) * m
  {
    hide Wrap;
    var q := x / m;
    assert x == q * m + x % m;
    if q >= 0 {
      MulLe(1, m, q);
    } else {
      MulLe(1, m, -q);
    }
    WrapFits(q, 0x8000_0000_0000_0000);
  }

  // ---------- addresses in memory ----------

  /** Reading or writing the word whose address is in memory; outside the data that overflows. */
  lemma Indirections<R>(code: Code, ext: Oracle<R>, s: State<R>, op: int, w: Operands)
    requires Next(code, s, op, w) && op in {0x0e, 0x14}
    ensures var (e, m) := (Step(code, ext, s), s.mem);
            && (op == 0x0e ==> if InData(m[w.a2]) then Stores(s, e, w.a1, m[m[w.a2]], 9) else Overflows(s, e))
            && (op == 0x14 ==> if InData(m[w.a1]) then Stores(s, e, m[w.a1], m[w.a2], 9) else Overflows(s, e))
  {
    hide Next, Step, Assign, Wrap32, Wrap64, Stores;
    IndirectStep(code, ext, s, op, w);
    var m := s.mem;
    if op == 0x0e && InData(m[w.a2]) {
      AssignStores(s, w.a1, m[m[w.a2]], 9);
    } else if op == 0x14 && InData(m[w.a1]) {
      AssignStores(s, m[w.a1], m[w.a2], 9);
    }
  }

  /** Reading the word whose address is the sum of two words. */
  lemma IndexedRead<R>(code: Code, ext: Oracle<R>, s: State<R>, w: Operands, x: Word, y: Word)
    requires Next(code, s, 0x0f, w) && x == s.mem[w.a2] && y == s.mem[w.a3]
    ensures var (e, a) := (Step(code, ext, s), Wrap64(x as int + y as int));
            if InData(a) then Stores(s, e, w.a1, s.mem[a], 13) else Overflows(s, e)
  {
    hide Next, Step, Assign, Wrap32, Wrap64, Stores;
    IndirectStep(code, ext, s, 0x0f, w);
    var a := Wrap64(x as int + y as int);
    if InData(a) {
      AssignStores(s, w.a1, s.mem[a], 13);
    }
  }

  /** Writing it. */
  lemma IndexedWrite<R>(code: Code, ext: Oracle<R>, s: State<R>, w: Operands, x: Word, y: Word)
    requires Next(code, s, 0x15, w) && x == s.mem[w.a1] && y == s.mem[w.a2]
    ensures var (e, a) := (Step(code, ext, s), Wrap64(x as int + y as int));
            if InData(a) then Stores(s, e, a, s.mem[w.a3], 13) else Overflows(s, e)
  {
    hide Next, Step, Assign, Wrap32, Wrap64, Stores;
    IndirectStep(code, ext, s, 0x15, w);
    var a := Wrap64(x as int + y as int);
    if InData(a) {
      AssignStores(s, a, s.mem[w.a3], 13);
    }
  }

  lemma IndirectStep<R>(code: Code, ext: Oracle<R>, s: State<R>, op: int, w: Operands)
    requires Next(code, s, op, w) && op in {0x0e, 0x0f, 0x14, 0x15}
    ensures InData(w.a1) && InData(w.a2) && (op in {0x0f, 0x15} ==> InData(w.a3))
    ensures Step(code, ext, s) == Settle(Indirect(s, op, w))
  {
    hide Step, Settle, Indirect, Lies, Assembled;
    StepIs(code, ext, s, op, w);
  }

  // ---------- stacks ----------

  /** Push and pop: the word that goes on or comes off the user stack, which overflows at 32 words and at none. */
  lemma UserWords<R>(code: Code, ext: Oracle<R>, s: State<R>, op: int, w: Operands)
    requires Next(code, s, op, w) && op in {0x10, 0x11} && |s.users| <= 32
    ensures var (e, t) := (Step(code, ext, s), Step(code, ext, s).s);
            && (op == 0x10 ==>
                  if |s.users| == 32 then Overflows(s, e)
                  else e == Effect(Ticked(s).(pc := s.pc + 5, users := t.users), Code(5))
                       && t.users == s.users + [s.mem[w.a1]])
            && (op == 0x11 ==>
                  if s.users == [] then Overflows(s, e)
                  else e == Effect(Ticked(s).(pc := s.pc + 5, users := t.users, mem := t.mem), Code(5))
                       && s.users == t.users + [t.mem[w.a1]] && t.mem == s.mem[w.a1 := t.mem[w.a1]])
  {
    hide Next, Step, Wrap, OneWord;
    StackStep(code, ext, s, op, w);
    if s.users != [] {
      assert s.users == s.users[..|s.users| - 1] + [s.users[|s.users| - 1]];
    }
  }

  /** Call and return: the address that goes on or comes off the call stack. */
  lemma CallWords<R>(code: Code, ext: Oracle<R>, s: State<R>, op: int, w: Operands)
    requires Next(code, s, op, w) && op in {0x12, 0x13} && |s.calls| <= 32
    ensures var (e, t) := (Step(code, ext, s), Step(code, ext, s).s);
            && (op == 0x12 && |s.calls| < 32 ==>
                  e == Effect(Ticked(s).(pc := w.a1, calls := t.calls), Code(5)) && t.calls == s.calls + [s.pc + 5])
            && (op == 0x13 ==>
                  if s.calls == [] then Overflows(s, e)
                  else e == Effect(Ticked(s).(pc := t.pc, calls := t.calls), Code(1))
                       && |t.calls| == |s.calls| - 1 && t.calls == s.calls[..|t.calls|]
                       && Cong(t.pc, s.calls[|t.calls|], 0x1_0000_0000))
  {
    hide Next, Step, Wrap, Cong, OneWord;
    StackStep(code, ext, s, op, w);
    WrapFits(s.pc + 5, 0x8000_0000_0000_0000);
    if s.calls != [] {
      WrapCong(s.calls[|s.calls| - 1], 0x8000_0000);
    }
  }

  lemma StackStep<R>(code: Code, ext: Oracle<R>, s: State<R>, op: int, w: Operands)
    requires Next(code, s, op, w) && op in {0x10, 0x11, 0x12, 0x13}
    ensures 0 <= s.pc < 512 && (op != 0x13 ==> InData(w.a1)) && Step(code, ext, s) == Settle(Stacks(s, op, w))
  {
    hide Step, Settle, Stacks, Lies, Assembled;
    StepIs(code, ext, s, op, w);
  }

  // ---------- jumps and branches ----------

  /** A branch is taken exactly under the relation it names, between the first word and the second, or zero. */
  lemma Branching<R>(code: Code, ext: Oracle<R>, s: State<R>, op: int, w: Operands)
    requires Next(code, s, op, w) && op in {0x1a, 0x1b, 0x1e, 0x1f, 0x20, 0x21, 0x22, 0x23, 0x24}
    ensures var e := Step(code, ext, s);
            if op == 0x1a then JumpsTo(s, e, w.a1, 5)
            else if op in {0x1b, 0x1e} then
              JumpsTo(s, e, if (s.mem[w.a1] == 0) == (op == 0x1b) then s.pc + w.off else s.pc + 6, 6)
            else
              var (x, y) := (s.mem[w.a1], s.mem[w.a2]);
              && (op == 0x1f ==> JumpsTo(s, e, if x > y then s.pc + w.off else s.pc + 10, 10))
              && (op == 0x20 ==> JumpsTo(s, e, if x < y then s.pc + w.off else s.pc + 10, 10))
              && (op == 0x21 ==> JumpsTo(s, e, if x < y then s.pc + 10 else s.pc + w.off, 10))
              && (op == 0x22 ==> JumpsTo(s, e, if x > y then s.pc + 10 else s.pc + w.off, 10))
              && (op == 0x23 ==> JumpsTo(s, e, if x == y then s.pc + w.off else s.pc + 10, 10))
              && (op == 0x24 ==> JumpsTo(s, e, if x == y then s.pc + 10 else s.pc + w.off, 10))
  {
    hide Next, Step, Wrap32;
    BranchStep(code, ext, s, op, w);
  }

  lemma BranchStep<R>(code: Code, ext: Oracle<R>, s: State<R>, op: int, w: Operands)
    requires Next(code, s, op, w) && op in {0x1a, 0x1b, 0x1e, 0x1f, 0x20, 0x21, 0x22, 0x23, 0x24}
    ensures InData(w.a1) && (op >= 0x1f ==> InData(w.a2)) && Step(code, ext, s) == Settle(Branches(s, op, w))
  {
    hide Step, Settle, Branches, Lies, Assembled;
    StepIs(code, ext, s, op, w);
  }

  // ---------- control ----------

  /** Sleeping only moves on; finishing and stopping happen at once or exactly on zero; the marks are set. */
  lemma Controlling<R>(code: Code, ext: Oracle<R>, s: State<R>, op: int, w: Operands)
    requires Next(code, s, op, w) && op in {0x25, 0x26, 0x27, 0x28, 0x29, 0x2a, 0x2b, 0x30}
    ensures var (e, t) := (Step(code, ext, s), Ticked(s));
            && (op == 0x25 ==> JumpsTo(s, e, s.pc + 5, 5))
            && (op == 0x2a ==> JumpsTo(s, e, s.pc + 1, 1))
            && (op == 0x26 ==> if s.mem[w.a1] != 0 then JumpsTo(s, e, s.pc + 5, 5)
                               else e == Effect(t.(pc := s.pcs, finished := true), Code(OK)))
            && (op == 0x27 ==> if s.mem[w.a1] != 0 then JumpsTo(s, e, s.pc + 5, 5)
                               else e == Effect(t.(stopped := true), Code(OK)))
            && (op == 0x28 ==> e == Effect(t.(pc := s.pcs, finished := true), Code(OK)))
            && (op == 0x29 ==> e == Effect(t.(pc := s.pcs, stopped := true), Code(OK)))
            && (op == 0x2b ==> e == Effect(s.(pce := w.a1), Code(UNEXPECTED)))
            && (op == 0x30 ==> e == Effect(t.(pc := s.pc + 1, pcs := s.pc + 1), Code(1)))
  {
    hide Next, Step, Wrap32;
    ControlStep(code, ext, s, op, w);
  }

  lemma ControlStep<R>(code: Code, ext: Oracle<R>, s: State<R>, op: int, w: Operands)
    requires Next(code, s, op, w) && op in {0x25, 0x26, 0x27, 0x28, 0x29, 0x2a, 0x2b, 0x30}
    ensures (op in {0x25, 0x26, 0x27, 0x2b} ==> InData(w.a1)) && Step(code, ext, s) == Settle(Control(s, op, w))
  {
    hide Step, Settle, Control, Lies, Assembled;
    StepIs(code, ext, s, op, w);
  }

  // ---------- external functions ----------

  /** The words an external call hands over, in the order of its operands. */
  ghost function Handed<R>(s: State<R>, op: int, w: Operands): seq<Word>
    requires op in {0x32, 0x33, 0x34, 0x35, 0x36, 0x37} && Usable(ShapeOf(op), w, s.pc)
  {
    match op
    case 0x33 => [s.mem[w.a1]]
    case 0x34 => [s.mem[w.a1], s.mem[w.a2]]
    case 0x36 => [s.mem[w.a2]]
    case 0x37 => [s.mem[w.a2], s.mem[w.a3]]
    case _ => []
  }

  /** The function is called by its number with those words; the last three calls store what it returns. */
  lemma Calling<R>(code: Code, ext: Oracle<R>, s: State<R>, op: int, w: Operands)
    requires Next(code, s, op, w) && op in {0x32, 0x33, 0x34, 0x35, 0x36, 0x37}
    ensures match ext(s.regs, w.fun, Handed(s, op, w))
            case Crashed => Step(code, ext, s) == Effect(s, Panic)
            case Returned(regs, v) =>
              var n := if op == 0x32 then 3 else if op in {0x33, 0x35} then 7 else if op == 0x37 then 15 else 11;
              if op < 0x35 then JumpsTo(s.(regs := regs), Step(code, ext, s), s.pc + n, n)
              else Stores(s.(regs := regs), Step(code, ext, s), w.a1, v, n)
  {
    hide Next, Step, Wrap32, Stores, Assign;
    CallStep(code, ext, s, op, w);
    match ext(s.regs, w.fun, Handed(s, op, w))
    case Crashed =>
    case Returned(regs, v) =>
      if op >= 0x35 {
        AssignStores(s.(regs := regs), w.a1, v, Length(ShapeOf(op)));
      }
  }

  lemma CallStep<R>(code: Code, ext: Oracle<R>, s: State<R>, op: int, w: Operands)
    requires Next(code, s, op, w) && op in {0x32, 0x33, 0x34, 0x35, 0x36, 0x37}
    ensures Usable(ShapeOf(op), w, s.pc) && Readable(op, w) && Arguments(s, op, w) == Handed(s, op, w)
    ensures Step(code, ext, s) == Settle(Externals(s, ext, op, w))
  {
    hide Step, Settle, Externals, Lies, Assembled;
    StepIs(code, ext, s, op, w);
  }

  // ---------- what is no instruction ----------

  /** The bytes that are no operation code. */
  ghost predicate Unused(op: int)
  {
    op == 0 || op == 0x19 || 0x1c <= op <= 0x1d || 0x2c <= op <= 0x2f || op == 0x31 || 0x38 <= op < 0x7f || 0x7f < op
  }

  lemma UnusedShape(op: int)
    ensures Unused(op) ==> ShapeOf(op) == NoSuch
    ensures op >= 0 && !Unused(op) ==> ShapeOf(op) != NoSuch
  {
  }

  /** They are refused and change nothing. */
  lemma Unknown<R>(code: Code, ext: Oracle<R>, s: State<R>)
    requires 0 <= s.pc < 512 && Unused(code[s.pc] as int)
    ensures Step(code, ext, s) == Effect(s, Code(INVALID_CODE))
  {
    hide Perform, Wrap32, SkipNops, ShapeOf;
    UnusedShape(code[s.pc] as int);
  }
}
