/**
 The automated-transaction machine as a step function: 64 words of memory and two
 bounded stacks, with every way a step can end.
 */
module AtMachine {
  import opened LittleEndian
  import opened MachineWords
  import opened Modular
  import opened Powers

  // ---------- machine words ----------

  type Word = x: int | -0x8000_0000_0000_0000 <= x < 0x8000_0000_0000_0000

  function Wrap64(x: int): (w: Word)
  {
    Wrap(x, 0x8000_0000_0000_0000)
  }

  function Wrap32(x: int): (w: int)
    ensures -0x8000_0000 <= w < 0x8000_0000
  {
    Wrap(x, 0x8000_0000)
  }

  function Abs(x: int): (a: int)
    ensures a >= 0 && (x != 0 ==> a > 0)
  {
    if x < 0 then -x else x
  }

  /** Division that truncates, and its remainder, which takes the sign of the dividend. */
  function Quo(x: Word, y: Word): Word
    requires y != 0
  {
    var q: int := Abs(x) / Abs(y);
    Wrap64(if (x < 0) == (y < 0) then q else -q)
  }

  function Rem(x: Word, y: Word): Word
    requires y != 0
  {
    var r: int := Abs(x) % Abs(y);
    if x < 0 then -r else r
  }

  /**
   Quotient and remainder belong together, the remainder smaller than the
   divisor and signed like the dividend, except for the one quotient that does
   not fit a word.
   */
  lemma QuoRemIff(x: Word, y: Word)
    requires y != 0
    ensures x == Quo(x, y) * y + Rem(x, y) <==> !(x == -0x8000_0000_0000_0000 && y == -1)
    ensures Abs(Rem(x, y)) < Abs(y) && (Rem(x, y) == 0 || (Rem(x, y) < 0 <==> x < 0))
  {
    hide Wrap;
    var a, b := Abs(x), Abs(y);
    var q, r := a / b, a % b;
    assert a == q * b + r && 0 <= r < b;
    QuotientFits(a, b, q, r);
    var signed := if (x < 0) == (y < 0) then q else -q;
    WrapFits(signed, 0x8000_0000_0000_0000);
    SignedProduct(x, y, a, b, q, r, signed);
    RemSize(x, y);
  }

  lemma RemSize(x: Word, y: Word)
    requires y != 0
    ensures Abs(Rem(x, y)) < Abs(y) && (Rem(x, y) == 0 || (Rem(x, y) < 0 <==> x < 0))
  {
  }

  lemma QuotientFits(a: int, b: int, q: int, r: int)
    requires 0 <= a <= 0x8000_0000_0000_0000 && a == q * b + r && 0 <= r < b
    ensures 0 <= q <= a && (q == 0x8000_0000_0000_0000 ==> a == q && b == 1)
  {
    if q < 0 {
      MulLe(q, -1, b);
    }
    MulLe(1, b, if q < 0 then 0 else q);
    if b >= 2 && q >= 0 {
      MulLe(2, b, q);
    }
  }

  lemma SignedProduct(x: int, y: int, a: int, b: int, q: int, r: int, signed: int)
    requires a == q * b + r && x == (if x < 0 then -a else a) && y == if y < 0 then -b else b
    requires signed == if (x < 0) == (y < 0) then q else -q
    ensures x == signed * y + if x < 0 then -r else r
  {
  }

  predicate JoinBits(op: int, p: bool, q: bool)
  {
    if op == OP_BOR_DAT then p || q else if op == OP_AND_DAT then p && q else p != q
  }

  /** The low n bits of two words in two's complement, joined bit by bit. */
  function Bitwise(op: int, x: int, y: int, n: nat): nat
    decreases n
  {
    if n == 0 then 0
    else (if JoinBits(op, x % 2 == 1, y % 2 == 1) then 1 else 0) + 2 * Bitwise(op, x / 2, y / 2, n - 1)
  }

  /** Shifts by an unsigned count: negative counts are huge. */
  function Shl(x: Word, n: Word): Word
  {
    if 0 <= n < 64 then Wrap64(x * Pow2(n)) else 0
  }

  function Shr(x: Word, n: Word): Word
  {
    if 0 <= n < 64 then Wrap64(x / Pow2(n)) else if x < 0 then -1 else 0
  }

  // ---------- state ----------

  type Code = c: seq<byte> | |c| == 512 witness seq(512, _ => 0)

  type Memory = m: seq<Word> | |m| == 64 witness seq(64, _ => 0)

  /** Both stacks grow at the end of their sequence. */
  datatype State<R> = State(mem: Memory, calls: seq<Word>, users: seq<Word>, pc: int, pce: int, pcs: int,
                            steps: int, stopped: bool, finished: bool, regs: R)

  /** What a step returns: a code, negative for an error, or a panic that ends the run. */
  datatype Outcome = Code(rc: int) | Panic

  const OK := 0
  const OVERFLOW := -1
  const INVALID_CODE := -2
  const UNEXPECTED := -3

  datatype Effect<R> = Effect(s: State<R>, outcome: Outcome)

  /** The result of an external function, which may change the registers or crash. */
  datatype External<R> = Returned(regs: R, value: Word) | Crashed

  type Oracle<!R> = (R, int, seq<Word>) -> External<R>

  // ---------- operation codes ----------

  const OP_NOP := 0x7f
  const OP_SET_VAL := 0x01
  const OP_SET_DAT := 0x02
  const OP_CLR_DAT := 0x03
  const OP_INC_DAT := 0x04
  const OP_DEC_DAT := 0x05
  const OP_ADD_DAT := 0x06
  const OP_SUB_DAT := 0x07
  const OP_MUL_DAT := 0x08
  const OP_DIV_DAT := 0x09
  const OP_BOR_DAT := 0x0a
  const OP_AND_DAT := 0x0b
  const OP_XOR_DAT := 0x0c
  const OP_NOT_DAT := 0x0d
  const OP_SET_IND := 0x0e
  const OP_SET_IDX := 0x0f
  const OP_PSH_DAT := 0x10
  const OP_POP_DAT := 0x11
  const OP_JMP_SUB := 0x12
  const OP_RET_SUB := 0x13
  const OP_IND_DAT := 0x14
  const OP_IDX_DAT := 0x15
  const OP_MOD_DAT := 0x16
  const OP_SHL_DAT := 0x17
  const OP_SHR_DAT := 0x18
  const OP_JMP_ADR := 0x1a
  const OP_BZR_DAT := 0x1b
  const OP_BNZ_DAT := 0x1e
  const OP_BGT_DAT := 0x1f
  const OP_BLT_DAT := 0x20
  const OP_BGE_DAT := 0x21
  const OP_BLE_DAT := 0x22
  const OP_BEQ_DAT := 0x23
  const OP_BNE_DAT := 0x24
  const OP_SLP_DAT := 0x25
  const OP_FIZ_DAT := 0x26
  const OP_STZ_DAT := 0x27
  const OP_FIN_IMD := 0x28
  const OP_STP_IMD := 0x29
  const OP_SLP_IMD := 0x2a
  const OP_ERR_ADR := 0x2b
  const OP_SET_PCS := 0x30
  const OP_EXT_FUN := 0x32
  const OP_EXT_FUN_DAT := 0x33
  const OP_EXT_FUN_DAT_2 := 0x34
  const OP_EXT_FUN_RET := 0x35
  const OP_EXT_FUN_RET_DAT := 0x36
  const OP_EXT_FUN_RET_DAT_2 := 0x37

  // ---------- operands ----------

  function Int32At(code: Code, at: nat): (x: int)
    requires at + 4 <= 512
    ensures -0x8000_0000 <= x < 0x8000_0000
  {
    Wrap32(Value(code[at..at + 4]))
  }

  function Int64At(code: Code, at: nat): Word
    requires at + 8 <= 512
  {
    Wrap64(Value(code[at..at + 8]))
  }

  function Int16At(code: Code, at: nat): int
    requires at + 2 <= 512
  {
    Wrap(Value(code[at..at + 2]), 0x8000)
  }

  function Int8At(code: Code, at: nat): int
    requires at < 512
  {
    Wrap(code[at] as int, 0x80)
  }

  /** The address test in 32-bit arithmetic. */
  function InvalidAddr(addr: int): bool
  {
    addr < 0 || addr > 0x1fff_ffff || Wrap32(addr * 8) < 0 || Wrap32(Wrap32(addr * 8) + 8) > 512
  }

  /** The address test in 64-bit arithmetic. */
  function InvalidAddr64(addr: Word): bool
  {
    addr < 0 || addr > 0x1fff_ffff || Wrap64(addr * 8) < 0 || Wrap64(Wrap64(addr * 8) + 8) > 512
  }

  const WRAPPING_ADDR := 0x0fff_ffff

  /** One address past the data passes the 32-bit test: eight times it, plus eight, wraps. */
  lemma ValidAddrIff(addr: int)
    requires -0x8000_0000 <= addr < 0x8000_0000
    ensures !InvalidAddr(addr) <==> 0 <= addr < 64 || addr == WRAPPING_ADDR
  {
    hide Wrap;
    if 0 <= addr <= 0x1fff_ffff {
      WrapFits(addr * 8, 0x8000_0000);
      WrapFits(Wrap32(addr * 8) + 8, 0x8000_0000);
    }
  }

  lemma ValidAddr64Iff(addr: Word)
    ensures !InvalidAddr64(addr) <==> 0 <= addr < 64
  {
    hide Wrap;
    if 0 <= addr <= 0x1fff_ffff {
      WrapFits(addr * 8, 0x8000_0000_0000_0000);
      WrapFits(Wrap64(addr * 8) + 8, 0x8000_0000_0000_0000);
    }
  }

  predicate InData(addr: int)
  {
    0 <= addr < 64
  }

  datatype Shape = Bare | Addr | AddrVal | Addrs | Addrs3 | AddrOff | AddrsOff | Fun | FunAddr | FunAddrs | FunAddrs3
                 | NoSuch

  function ShapeOf(op: int): Shape
  {
    if op in {OP_NOP, OP_RET_SUB, OP_FIN_IMD, OP_STP_IMD, OP_SLP_IMD, OP_SET_PCS} then Bare
    else if op == OP_SET_VAL then AddrVal
    else if op in {OP_CLR_DAT, OP_INC_DAT, OP_DEC_DAT, OP_NOT_DAT, OP_PSH_DAT, OP_POP_DAT, OP_JMP_SUB, OP_JMP_ADR,
                   OP_SLP_DAT, OP_FIZ_DAT, OP_STZ_DAT, OP_ERR_ADR} then Addr
    else if op in {OP_SET_DAT, OP_ADD_DAT, OP_SUB_DAT, OP_MUL_DAT, OP_DIV_DAT, OP_BOR_DAT, OP_AND_DAT, OP_XOR_DAT,
                   OP_SET_IND, OP_IND_DAT, OP_MOD_DAT, OP_SHL_DAT, OP_SHR_DAT} then Addrs
    else if op in {OP_SET_IDX, OP_IDX_DAT} then Addrs3
    else if op in {OP_BZR_DAT, OP_BNZ_DAT} then AddrOff
    else if OP_BGT_DAT <= op <= OP_BNE_DAT then AddrsOff
    else if op == OP_EXT_FUN then Fun
    else if op in {OP_EXT_FUN_DAT, OP_EXT_FUN_RET} then FunAddr
    else if op in {OP_EXT_FUN_DAT_2, OP_EXT_FUN_RET_DAT} then FunAddrs
    else if op == OP_EXT_FUN_RET_DAT_2 then FunAddrs3
    else NoSuch
  }

  /** The bytes an instruction occupies. */
  function Length(sh: Shape): int
  {
    match sh
    case Bare => 1
    case Addr => 5
    case AddrVal => 13
    case Addrs => 9
    case Addrs3 => 13
    case AddrOff => 6
    case AddrsOff => 10
    case Fun => 3
    case FunAddr => 7
    case FunAddrs => 11
    case FunAddrs3 => 15
    case NoSuch => 0
  }

  datatype Operands = Operands(a1: int, a2: int, a3: int, val: Word, off: int, fun: int)

  /** Operands, the code of a refusal, or an operand window that runs past the code. */
  datatype Fetch = Fetched(w: Operands) | Refused(rc: int) | Outside

  const NONE := Operands(0, 0, 0, 0, 0, 0)

  /** One address at a distance from the instruction; only the first four operand bytes are checked to exist. */
  function FetchAddr(code: Code, pc: int, off: nat): Fetch
    requires 0 <= pc < 512
  {
    if pc + 4 >= 512 then Refused(OVERFLOW)
    else if pc + 1 + off + 4 > 512 then Outside
    else
      var a := Int32At(code, pc + 1 + off);
      if InvalidAddr(a) then Refused(OVERFLOW) else Fetched(NONE.(a1 := a))
  }

  function FetchAddrs(code: Code, pc: int): Fetch
    requires 0 <= pc < 512
  {
    if pc + 4 >= 512 then Refused(OVERFLOW)
    else if pc + 9 > 512 then Outside
    else
      var a, b := Int32At(code, pc + 1), Int32At(code, pc + 5);
      if InvalidAddr(a) || InvalidAddr(b) then Refused(OVERFLOW) else Fetched(NONE.(a1 := a, a2 := b))
  }

  function FetchFunAddrs(code: Code, pc: int): Fetch
    requires 0 <= pc < 512
  {
    if pc + 10 >= 512 then Refused(OVERFLOW)
    else
      var f, a, b := Int16At(code, pc + 1), Int32At(code, pc + 3), Int32At(code, pc + 7);
      if InvalidAddr(a) || InvalidAddr(b) then Refused(OVERFLOW) else Fetched(NONE.(fun := f, a1 := a, a2 := b))
  }

  /** Adds a third address to operands already fetched. */
  function AndThird(f: Fetch, code: Code, pc: int, off: nat): Fetch
    requires 0 <= pc < 512
  {
    match f
    case Fetched(w) =>
      (match FetchAddr(code, pc, off)
       case Fetched(w3) => Fetched(w.(a3 := w3.a1))
       case bad => bad)
    case bad => bad
  }

  function FetchOperands(code: Code, pc: int, sh: Shape): (f: Fetch)
    requires 0 <= pc < 512
    ensures f.Fetched? ==> sh != NoSuch
  {
    match sh
    case Bare => Fetched(NONE)
    case NoSuch => Refused(INVALID_CODE)
    case Addr => FetchAddr(code, pc, 0)
    case Addrs => FetchAddrs(code, pc)
    case Addrs3 => AndThird(FetchAddrs(code, pc), code, pc, 8)
    case FunAddrs => FetchFunAddrs(code, pc)
    case FunAddrs3 => AndThird(FetchFunAddrs(code, pc), code, pc, 10)
    case AddrVal =>
      if pc + 12 >= 512 then Refused(OVERFLOW)
      else
        var a := Int32At(code, pc + 1);
        if InvalidAddr(a) then Refused(OVERFLOW) else Fetched(NONE.(a1 := a, val := Int64At(code, pc + 5)))
    case AddrOff =>
      if pc + 5 >= 512 then Refused(OVERFLOW)
      else
        var a, off := Int32At(code, pc + 1), Int8At(code, pc + 5);
        if InvalidAddr(a) || pc + off >= 512 then Refused(OVERFLOW) else Fetched(NONE.(a1 := a, off := off))
    case AddrsOff =>
      if pc + 9 >= 512 then Refused(OVERFLOW)
      else
        var a, b, off := Int32At(code, pc + 1), Int32At(code, pc + 5), Int8At(code, pc + 9);
        if InvalidAddr(a) || InvalidAddr(b) || pc + off >= 512 then Refused(OVERFLOW)
        else Fetched(NONE.(a1 := a, a2 := b, off := off))
    case Fun =>
      // the refusal is negated twice: a success that goes nowhere
      if pc + 2 >= 512 then Refused(-OVERFLOW) else Fetched(NONE.(fun := Int16At(code, pc + 1)))
    case FunAddr =>
      if pc + 6 >= 512 then Refused(OVERFLOW)
      else
        var f, a := Int16At(code, pc + 1), Int32At(code, pc + 3);
        if InvalidAddr(a) then Refused(OVERFLOW) else Fetched(NONE.(fun := f, a1 := a))
  }

  // ---------- instructions ----------

  /** A run of no-operations ends at the first other byte, or at byte 256. */
  function SkipNops(code: Code, pc: int): (n: int)
    requires 0 <= pc < 512
    ensures pc < n <= 512 && (pc < 256 ==> n <= 256) && (pc >= 255 ==> n == pc + 1)
    ensures forall k :: pc < k < n ==> code[k] as int == OP_NOP
    ensures n < 256 ==> code[n] as int != OP_NOP
    decreases 512 - pc
  {
    if pc + 1 >= 256 || code[pc + 1] != OP_NOP then pc + 1 else SkipNops(code, pc + 1)
  }

  /** The two-operand instructions that write their first operand. */
  function Combine(op: int, x: Word, y: Word): Word
  {
    if op == OP_SET_DAT || op == OP_ADD_DAT then Wrap64(x + y)  // setting adds, too
    else if op == OP_SUB_DAT then Wrap64(x - y)
    else if op == OP_MUL_DAT then Wrap64(x * y)
    else Wrap64(Bitwise(op, x, y, 64))
  }

  function Modify(op: int, x: Word): Word
  {
    if op == OP_CLR_DAT then 0
    else if op == OP_INC_DAT then Wrap64(x + 1)
    else if op == OP_DEC_DAT then Wrap64(x - 1)
    else -1 - x
  }

  predicate Taken(op: int, x: Word, y: Word)
  {
    if op == OP_BGT_DAT then x > y else if op == OP_BLT_DAT then x < y else if op == OP_BGE_DAT then x >= y
    else if op == OP_BLE_DAT then x <= y else if op == OP_BEQ_DAT then x == y else x != y
  }

  function Advance<R>(s: State<R>, n: int): State<R>
  {
    s.(pc := s.pc + n)
  }

  /** Moves on past the instruction, having stored a value. */
  function Assign<R>(s: State<R>, addr: int, v: Word, n: int): Effect<R>
    requires InData(addr)
  {
    Effect(Advance(s, n).(mem := s.mem[addr := v]), Code(n))
  }

  function Fails<R>(s: State<R>): Effect<R>
  {
    Effect(s, Code(OVERFLOW))
  }

  function Crash<R>(s: State<R>): Effect<R>
  {
    Effect(s, Panic)
  }

  /** Neither stack nor the error address changes. */
  ghost predicate KeepsStacks<R>(s: State<R>, t: State<R>)
  {
    t.calls == s.calls && t.users == s.users && t.pce == s.pce
  }

  /** Instructions on one memory word. */
  function OneWord<R>(s: State<R>, op: int, w: Operands): (e: Effect<R>)
    ensures KeepsStacks(s, e.s)
  {
    if !InData(w.a1) then Crash(s)
    else if op == OP_SET_VAL then Assign(s, w.a1, w.val, 13)
    else Assign(s, w.a1, Modify(op, s.mem[w.a1]), 5)
  }

  /** Instructions on two memory words. */
  function TwoWords<R>(s: State<R>, op: int, w: Operands): (e: Effect<R>)
    ensures KeepsStacks(s, e.s)
  {
    if op == OP_DIV_DAT then
      if !InData(w.a2) then Crash(s)
      else if s.mem[w.a2] == 0 then Effect(s, Code(INVALID_CODE))
      else if !InData(w.a1) then Crash(s)
      else Assign(s, w.a1, Quo(s.mem[w.a1], s.mem[w.a2]), 9)
    else if !InData(w.a1) || !InData(w.a2) then Crash(s)
    else if op == OP_MOD_DAT then
      if s.mem[w.a1] == 0 then Crash(s) else Assign(s, w.a2, Rem(s.mem[w.a2], s.mem[w.a1]), 9)
    else if op == OP_SHL_DAT then Assign(s, w.a2, Shl(s.mem[w.a2], s.mem[w.a1]), 9)
    else if op == OP_SHR_DAT then Assign(s, w.a2, Shr(s.mem[w.a2], s.mem[w.a1]), 9)
    else Assign(s, w.a1, Combine(op, s.mem[w.a1], s.mem[w.a2]), 9)
  }

  /** Instructions whose address is itself read from memory. */
  function Indirect<R>(s: State<R>, op: int, w: Operands): (e: Effect<R>)
    ensures KeepsStacks(s, e.s)
  {
    if op == OP_SET_IND then
      if !InData(w.a2) then Crash(s)
      else if !InData(s.mem[w.a2]) then Fails(s)
      else if !InData(w.a1) then Crash(s)
      else Assign(s, w.a1, s.mem[s.mem[w.a2]], 9)
    else if op == OP_IND_DAT then
      if !InData(w.a1) then Crash(s)
      else if !InData(s.mem[w.a1]) then Fails(s)
      else if !InData(w.a2) then Crash(s)
      else Assign(s, s.mem[w.a1], s.mem[w.a2], 9)
    else if op == OP_SET_IDX then
      if !InData(w.a2) || !InData(w.a3) then Crash(s)
      else
        var addr := Wrap64(s.mem[w.a2] as int + s.mem[w.a3] as int);
        if !InData(addr) then Fails(s) else if !InData(w.a1) then Crash(s)
        else Assign(s, w.a1, s.mem[addr], 13)
    else
      if !InData(w.a1) || !InData(w.a2) then Crash(s)
      else
        var addr := Wrap64(s.mem[w.a1] as int + s.mem[w.a2] as int);
        if !InData(addr) then Fails(s) else if !InData(w.a3) then Crash(s)
        else Assign(s, addr, s.mem[w.a3], 13)
  }

  /** The stack instructions: push and pop a word, call and return. */
  function Stacks<R>(s: State<R>, op: int, w: Operands): (e: Effect<R>)
    ensures e.s.pce == s.pce
  {
    if op == OP_PSH_DAT then
      if |s.users| == 32 then Fails(s)
      else if !InData(w.a1) then Crash(s)
      else Effect(Advance(s, 5).(users := s.users + [s.mem[w.a1]]), Code(5))
    else if op == OP_POP_DAT then
      if |s.users| == 0 then Fails(s)
      else if !InData(w.a1) then Crash(s)
      else Effect(Advance(s, 5).(mem := s.mem[w.a1 := s.users[|s.users| - 1]], users := s.users[..|s.users| - 1]),
          Code(5))
    else if op == OP_JMP_SUB then
      // a call too deep still jumps, and overwrites the last word of memory, before it fails
      if |s.calls| >= 32 then Effect(s.(pc := w.a1, mem := s.mem[63 := Wrap64(s.pc + OVERFLOW)]), Code(OVERFLOW))
      else Effect(s.(pc := w.a1, calls := s.calls + [Wrap64(s.pc + 5)]), Code(5))
    else
      if |s.calls| == 0 then Fails(s)
      else Effect(s.(pc := Wrap32(s.calls[|s.calls| - 1]), calls := s.calls[..|s.calls| - 1]), Code(1))
  }

  function Branches<R>(s: State<R>, op: int, w: Operands): (e: Effect<R>)
    ensures KeepsStacks(s, e.s)
  {
    if op == OP_JMP_ADR then Effect(s.(pc := w.a1), Code(5))
    else if !InData(w.a1) then Crash(s)
    else if op == OP_BZR_DAT then
      if s.mem[w.a1] == 0 then Effect(Advance(s, w.off), Code(6)) else Effect(Advance(s, 6), Code(6))
    else if op == OP_BNZ_DAT then
      if s.mem[w.a1] != 0 then Effect(Advance(s, w.off), Code(6)) else Effect(Advance(s, 6), Code(6))
    else if !InData(w.a2) then Crash(s)
    else if Taken(op, s.mem[w.a1], s.mem[w.a2]) then Effect(Advance(s, w.off), Code(10))
    else Effect(Advance(s, 10), Code(10))
  }

  /** Sleeping, stopping, finishing, and the two marks. */
  function Control<R>(s: State<R>, op: int, w: Operands): (e: Effect<R>)
    ensures e.outcome == Code(UNEXPECTED) || KeepsStacks(s, e.s)
  {
    if op == OP_SLP_DAT then Effect(Advance(s, 5), Code(5))
    else if op == OP_FIZ_DAT then
      if !InData(w.a1) then Crash(s)
      else if s.mem[w.a1] == 0 then Effect(s.(pc := s.pcs, finished := true), Code(OK))
      else Effect(Advance(s, 5), Code(5))
    else if op == OP_STZ_DAT then
      if !InData(w.a1) then Crash(s)
      else if s.mem[w.a1] == 0 then Effect(s.(stopped := true), Code(OK))
      else Effect(Advance(s, 5), Code(5))
    else if op == OP_FIN_IMD then Effect(s.(pc := s.pcs, finished := true), Code(OK))
    else if op == OP_STP_IMD then Effect(s.(pc := s.pcs, stopped := true), Code(OK))
    else if op == OP_SLP_IMD then Effect(Advance(s, 1), Code(1))
    else if op == OP_ERR_ADR then Effect(s.(pce := w.a1), Code(UNEXPECTED))
    else Effect(Advance(s, 1).(pcs := s.pc + 1), Code(1))
  }

  /** An external call's addresses are all within memory. */
  predicate Readable(op: int, w: Operands)
  {
    && (op != OP_EXT_FUN ==> InData(w.a1))
    && (op in {OP_EXT_FUN_DAT_2, OP_EXT_FUN_RET_DAT, OP_EXT_FUN_RET_DAT_2} ==> InData(w.a2))
    && (op == OP_EXT_FUN_RET_DAT_2 ==> InData(w.a3))
  }

  /** The arguments an external call reads from memory. */
  function Arguments<R>(s: State<R>, op: int, w: Operands): seq<Word>
    requires Readable(op, w)
  {
    if op == OP_EXT_FUN_DAT then [s.mem[w.a1]]
    else if op == OP_EXT_FUN_DAT_2 then [s.mem[w.a1], s.mem[w.a2]]
    else if op == OP_EXT_FUN_RET_DAT then [s.mem[w.a2]]
    else if op == OP_EXT_FUN_RET_DAT_2 then [s.mem[w.a2], s.mem[w.a3]]
    else []
  }

  function Externals<R>(s: State<R>, ext: Oracle<R>, op: int, w: Operands): (e: Effect<R>)
    ensures KeepsStacks(s, e.s)
  {
    var n := Length(ShapeOf(op));
    if !Readable(op, w) then Crash(s)
    else
      match ext(s.regs, w.fun, Arguments(s, op, w))
      case Crashed => Crash(s)
      case Returned(regs, v) =>
        if op in {OP_EXT_FUN_RET, OP_EXT_FUN_RET_DAT, OP_EXT_FUN_RET_DAT_2} then Assign(s.(regs := regs), w.a1, v, n)
        else Effect(Advance(s, n).(regs := regs), Code(n))
  }

  function Perform<R>(s: State<R>, ext: Oracle<R>, op: int, w: Operands): Effect<R>
  {
    if op in {OP_SET_VAL, OP_CLR_DAT, OP_INC_DAT, OP_DEC_DAT, OP_NOT_DAT} then OneWord(s, op, w)
    else if op in {OP_SET_IND, OP_IND_DAT, OP_SET_IDX, OP_IDX_DAT} then Indirect(s, op, w)
    else if op in {OP_PSH_DAT, OP_POP_DAT, OP_JMP_SUB, OP_RET_SUB} then Stacks(s, op, w)
    else if OP_JMP_ADR <= op <= OP_BNE_DAT then Branches(s, op, w)
    else if OP_SLP_DAT <= op <= OP_SET_PCS then Control(s, op, w)
    else if OP_EXT_FUN <= op <= OP_EXT_FUN_RET_DAT_2 then Externals(s, ext, op, w)
    else TwoWords(s, op, w)
  }

  function Instruction<R>(code: Code, ext: Oracle<R>, s: State<R>): Effect<R>
    requires 0 <= s.pc < 512
  {
    var op := code[s.pc] as int;
    if op == OP_NOP then
      var n := SkipNops(code, s.pc);
      Effect(s.(pc := n), Code(n - s.pc))
    else
      match FetchOperands(code, s.pc, ShapeOf(op))
      case Refused(rc) => Effect(s, Code(rc))
      case Outside => Crash(s)
      case Fetched(w) => Perform(s, ext, op, w)
  }

  /** An overflow resumes at the error address if one is set; steps that succeed are counted. */
  function Settle<R>(e: Effect<R>): Effect<R>
  {
    if e.outcome == Panic then e
    else
      var e' := if e.outcome == Code(OVERFLOW) && e.s.pce != 0 then Effect(e.s.(pc := e.s.pce), Code(OK)) else e;
      if e'.outcome.rc >= OK then e'.(s := e'.s.(steps := Wrap32(e'.s.steps + 1))) else e'
  }

  function Step<R>(code: Code, ext: Oracle<R>, s: State<R>): Effect<R>
  {
    if s.pc >= 512 then Effect(s, Code(OK))
    else if s.pc < 0 then Effect(s, Code(INVALID_CODE))
    else Settle(Instruction(code, ext, s))
  }
}
