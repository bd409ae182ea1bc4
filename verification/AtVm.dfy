/**
 The machine as it is built: one array holds the memory, the call stack and the
 user stack, and two counters say how deep the stacks are.
 */
module AtVm {
  import opened LittleEndian
  import opened AtMachine
  import opened MachineWords

  const CSIZE := 512
  const DSIZE := 512
  const CALL_STACK_BYTES := 256
  const USER_STACK_BYTES := 256

  class StateMachine<!R> {
    const code: Code
    const data: array<Word>
    const ext: Oracle<R>
    var stopped: bool
    var finished: bool
    var pc: int
    var pce: int
    var pcs: int
    var cs: int
    var us: int
    var steps: int
    var regs: R

    constructor (image: seq<byte>, ext: Oracle<R>, regs: R)
      ensures Valid() && fresh(data) && this.ext == ext
      ensures code == Padded(image)
      ensures Abs() == Initial(regs)
    {
      code := Padded(image);
      data := new Word[128](_ => 0);
      this.ext := ext;
      this.regs := regs;
      pc, pce, pcs, cs, us, steps, stopped, finished := 0, 0, 0, 0, 0, 0, false, false;
      new;
      assert data[..64] == seq(64, _ => 0);
    }

    /** Both counters within their regions; a call too deep leaves one call too many. */
    ghost predicate Layout()
      reads this
    {
      data.Length == 128 && 0 <= cs <= 33 && 0 <= us <= 32
    }

    /** What holds before every step. */
    ghost predicate Valid()
      reads this
    {
      Layout() && cs <= 32 && pce == 0
    }

    /** The call stack, its oldest entry at the upper end of the region. */
    ghost function Calls(): (s: seq<Word>)
      requires data.Length == 128 && 0 <= cs
      reads `cs, data
    {
      seq(if cs <= 32 then cs else 32, i requires 0 <= i < 32 reads data => data[95 - i])
    }

    ghost function Users(): (s: seq<Word>)
      requires data.Length == 128 && 0 <= us <= 32
      reads `us, data
    {
      seq(us, i requires 0 <= i < 32 reads data => data[127 - i])
    }

    /** The machine this array and these fields stand for. */
    ghost function Abs(): State<R>
      requires Layout()
      reads this, data
    {
      State(data[..64], Calls(), Users(), pc, pce, pcs, steps, stopped, finished, regs)
    }

    /** The fields are as an effect says. */
    ghost predicate Shows(e: Effect<R>, rc: Outcome)
      reads this, data
    {
      && Layout() && rc == e.outcome
      && (rc != Panic ==> Abs() == e.s)
      && (rc.Code? && rc.rc >= 0 ==> cs <= 32)
    }

    // ---------- access to the array ----------

    method Store(addr: int, v: Word)
      requires Layout() && InData(addr)
      modifies data
      ensures Layout() && Abs() == old(Abs()).(mem := old(Abs()).mem[addr := v])
    {
      data[addr] := v;
    }

    method PushUser(v: Word)
      requires Layout() && us < 32
      modifies data, `us
      ensures Layout() && Abs() == old(Abs()).(users := old(Abs()).users + [v])
    {
      us := us + 1;
      data[(DSIZE + CALL_STACK_BYTES + USER_STACK_BYTES - us * 8) / 8] := v;
      assert data[..64] == old(data[..64]);
      assert Users() == old(Users()) + [v];
    }

    method TopUser() returns (v: Word)
      requires Layout() && us > 0
      ensures v == Abs().users[us - 1]
    {
      v := data[(DSIZE + CALL_STACK_BYTES + USER_STACK_BYTES - us * 8) / 8];
    }

    method PushCall(v: Word)
      requires Layout() && cs <= 32
      modifies data, `cs
      ensures Layout() && cs == old(cs) + 1
      ensures Abs() == if old(cs) < 32 then old(Abs()).(calls := old(Abs()).calls + [v])
                       else old(Abs()).(mem := old(Abs()).mem[63 := v])
    {
      cs := cs + 1;
      data[(DSIZE + CALL_STACK_BYTES - cs * 8) / 8] := v;
      assert Users() == old(Users());
      if cs <= 32 {
        assert data[..64] == old(data[..64]);
        assert Calls() == old(Calls()) + [v];
      } else {
        assert Calls() == old(Calls());
        assert data[..64] == old(data[..64])[63 := v];
      }
    }

    method TopCall() returns (v: Word)
      requires Layout() && 0 < cs <= 32
      ensures v == Abs().calls[cs - 1]
    {
      v := data[(DSIZE + CALL_STACK_BYTES - cs * 8) / 8];
    }

    // ---------- the instructions ----------

    method OneWordAct(op: int, w: Operands) returns (rc: Outcome)
      requires Valid() && op in {OP_SET_VAL, OP_CLR_DAT, OP_INC_DAT, OP_DEC_DAT, OP_NOT_DAT}
      modifies this, data
      ensures Shows(OneWord(old(Abs()), op, w), rc)
    {
      hide Wrap, Wrap64, Calls, Users;
      if !InData(w.a1) {
        return Panic;
      }
      var n := if op == OP_SET_VAL then 13 else 5;
      pc := pc + n;
      if op == OP_SET_VAL {
        Store(w.a1, w.val);
      } else if op == OP_CLR_DAT {
        Store(w.a1, 0);
      } else if op == OP_INC_DAT {
        Store(w.a1, Wrap64(data[w.a1] as int + 1));
      } else if op == OP_DEC_DAT {
        Store(w.a1, Wrap64(data[w.a1] as int - 1));
      } else {
        Store(w.a1, -1 - data[w.a1]);
      }
      rc := Code(n);
    }

    method FirstWordAct(op: int, w: Operands) returns (rc: Outcome)
      requires Valid()
      requires op in {OP_SET_DAT, OP_ADD_DAT, OP_SUB_DAT, OP_MUL_DAT, OP_BOR_DAT, OP_AND_DAT, OP_XOR_DAT}
      modifies this, data
      ensures Shows(TwoWords(old(Abs()), op, w), rc)
    {
      hide Calls, Users, Combine;
      if !InData(w.a1) || !InData(w.a2) {
        return Panic;
      }
      var x, y := data[w.a1], data[w.a2];
      pc := pc + 9;
      var v := Combined(op, x, y);
      Store(w.a1, v);
      rc := Code(9);
    }

    method Combined(op: int, x: Word, y: Word) returns (v: Word)
      requires op in {OP_SET_DAT, OP_ADD_DAT, OP_SUB_DAT, OP_MUL_DAT, OP_BOR_DAT, OP_AND_DAT, OP_XOR_DAT}
      ensures v == Combine(op, x, y)
    {
      hide Wrap, Wrap64, Bitwise;
      if op == OP_SET_DAT || op == OP_ADD_DAT {
        v := Wrap64(x as int + y as int);
      } else if op == OP_SUB_DAT {
        v := Wrap64(x as int - y as int);
      } else if op == OP_MUL_DAT {
        v := Wrap64(x as int * y as int);
      } else {
        v := Wrap64(Bitwise(op, x, y, 64));
      }
    }

    method SecondWordAct(op: int, w: Operands) returns (rc: Outcome)
      requires Valid() && op in {OP_MOD_DAT, OP_SHL_DAT, OP_SHR_DAT}
      modifies this, data
      ensures Shows(TwoWords(old(Abs()), op, w), rc)
    {
      hide Calls, Users, Rem, Shl, Shr;
      if !InData(w.a1) || !InData(w.a2) {
        return Panic;
      }
      var x, y := data[w.a1], data[w.a2];
      pc := pc + 9;
      if op == OP_MOD_DAT {
        if x == 0 {
          return Panic;
        }
        Store(w.a2, Rem(y, x));
      } else {
        Store(w.a2, if op == OP_SHL_DAT then Shl(y, x) else Shr(y, x));
      }
      rc := Code(9);
    }

    method DivideAct(w: Operands) returns (rc: Outcome)
      requires Valid()
      modifies this, data
      ensures Shows(TwoWords(old(Abs()), OP_DIV_DAT, w), rc)
    {
      hide Calls, Users, Quo;
      if !InData(w.a2) {
        return Panic;
      }
      var val := data[w.a2];
      if val == 0 {
        return Code(INVALID_CODE);
      }
      if !InData(w.a1) {
        return Panic;
      }
      pc := pc + 9;
      Store(w.a1, Quo(data[w.a1], val));
      rc := Code(9);
    }

    method IndirectAct(op: int, w: Operands) returns (rc: Outcome)
      requires Valid() && op in {OP_SET_IND, OP_IND_DAT, OP_SET_IDX, OP_IDX_DAT}
      modifies this, data
      ensures Shows(Indirect(old(Abs()), op, w), rc)
    {
      hide Wrap, Wrap64, InvalidAddr64, Calls, Users;
      if op == OP_SET_IND {
        if !InData(w.a2) {
          return Panic;
        }
        var addr := data[w.a2];
        ValidAddr64Iff(addr);
        if InvalidAddr64(addr) {
          return Code(OVERFLOW);
        }
        if !InData(w.a1) {
          return Panic;
        }
        pc := pc + 9;
        Store(w.a1, data[addr]);
        rc := Code(9);
      } else if op == OP_IND_DAT {
        if !InData(w.a1) {
          return Panic;
        }
        var addr := data[w.a1];
        ValidAddr64Iff(addr);
        if InvalidAddr64(addr) {
          return Code(OVERFLOW);
        }
        if !InData(w.a2) {
          return Panic;
        }
        pc := pc + 9;
        Store(addr, data[w.a2]);
        rc := Code(9);
      } else if op == OP_SET_IDX {
        if !InData(w.a2) || !InData(w.a3) {
          return Panic;
        }
        var addr := Wrap64(data[w.a2] as int + data[w.a3] as int);
        ValidAddr64Iff(addr);
        if InvalidAddr64(addr) {
          return Code(OVERFLOW);
        }
        if !InData(w.a1) {
          return Panic;
        }
        pc := pc + 13;
        Store(w.a1, data[addr]);
        rc := Code(13);
      } else {
        if !InData(w.a1) || !InData(w.a2) {
          return Panic;
        }
        var addr := Wrap64(data[w.a1] as int + data[w.a2] as int);
        ValidAddr64Iff(addr);
        if InvalidAddr64(addr) {
          return Code(OVERFLOW);
        }
        if !InData(w.a3) {
          return Panic;
        }
        pc := pc + 13;
        Store(addr, data[w.a3]);
        rc := Code(13);
      }
    }

    method PushAct(w: Operands) returns (rc: Outcome)
      requires Valid()
      modifies this, data
      ensures Shows(Stacks(old(Abs()), OP_PSH_DAT, w), rc)
    {
      hide Calls;
      if us == USER_STACK_BYTES / 8 {
        return Code(OVERFLOW);
      }
      if !InData(w.a1) {
        return Panic;
      }
      pc := pc + 5;
      PushUser(data[w.a1]);
      rc := Code(5);
    }

    method PopAct(w: Operands) returns (rc: Outcome)
      requires Valid()
      modifies this, data
      ensures Shows(Stacks(old(Abs()), OP_POP_DAT, w), rc)
    {
      hide Calls;
      if us == 0 {
        return Code(OVERFLOW);
      }
      if !InData(w.a1) {
        return Panic;
      }
      pc := pc + 5;
      var v := TopUser();
      Store(w.a1, v);
      ghost var users := Users();
      us := us - 1;
      assert Users() == users[..us];
      rc := Code(5);
    }

    method CallAct(w: Operands) returns (rc: Outcome)
      requires Valid() && 0 <= pc < 512
      modifies this, data
      ensures Shows(Stacks(old(Abs()), OP_JMP_SUB, w), rc)
    {
      hide Wrap, Calls, Users;
      var n := 5;
      if cs == CALL_STACK_BYTES / 8 {
        n := OVERFLOW;
      }
      CallsDepth();
      SmallWord(pc + n);
      PushCall(pc + n);
      pc := w.a1;
      rc := Code(n);
    }

    method ReturnAct(w: Operands) returns (rc: Outcome)
      requires Valid()
      modifies this, data
      ensures Shows(Stacks(old(Abs()), OP_RET_SUB, w), rc)
    {
      hide Wrap, Wrap32, Users;
      if cs == 0 {
        return Code(OVERFLOW);
      }
      var val := TopCall();
      ghost var calls := Calls();
      cs := cs - 1;
      assert Calls() == calls[..cs];
      pc := Wrap32(val);
      rc := Code(1);
    }

    lemma CallsDepth()
      requires Valid()
      ensures |Abs().calls| == cs
    {
    }

    method BranchAct(op: int, w: Operands) returns (rc: Outcome)
      requires Valid()
      requires op in {OP_JMP_ADR, OP_BZR_DAT, OP_BNZ_DAT, OP_BGT_DAT, OP_BLT_DAT, OP_BGE_DAT, OP_BLE_DAT,
                      OP_BEQ_DAT, OP_BNE_DAT}
      modifies `pc
      ensures Shows(Branches(old(Abs()), op, w), rc)
    {
      hide Calls, Users;
      if op == OP_JMP_ADR {
        pc := w.a1;
        return Code(5);
      }
      if !InData(w.a1) {
        return Panic;
      }
      var val1 := data[w.a1];
      if op == OP_BZR_DAT {
        pc := if val1 == 0 then pc + w.off else pc + 6;
        return Code(6);
      } else if op == OP_BNZ_DAT {
        pc := if val1 != 0 then pc + w.off else pc + 6;
        return Code(6);
      }
      if !InData(w.a2) {
        return Panic;
      }
      var val2 := data[w.a2];
      var taken := if op == OP_BGT_DAT then val1 > val2 else if op == OP_BLT_DAT then val1 < val2
        else if op == OP_BGE_DAT then val1 >= val2 else if op == OP_BLE_DAT then val1 <= val2
        else if op == OP_BEQ_DAT then val1 == val2 else val1 != val2;
      pc := if taken then pc + w.off else pc + 10;
      rc := Code(10);
    }

    method ControlAct(op: int, w: Operands) returns (rc: Outcome)
      requires Valid()
      requires op in {OP_SLP_DAT, OP_FIZ_DAT, OP_STZ_DAT, OP_FIN_IMD, OP_STP_IMD, OP_SLP_IMD, OP_ERR_ADR, OP_SET_PCS}
      modifies this
      ensures Shows(Control(old(Abs()), op, w), rc)
    {
      hide Calls, Users;
      if op == OP_SLP_DAT {
        pc := pc + 5;
        rc := Code(5);
      } else if op == OP_FIZ_DAT {
        if !InData(w.a1) {
          return Panic;
        }
        if data[w.a1] == 0 {
          pc := pcs;
          finished := true;
          rc := Code(OK);
        } else {
          pc := pc + 5;
          rc := Code(5);
        }
      } else if op == OP_STZ_DAT {
        if !InData(w.a1) {
          return Panic;
        }
        if data[w.a1] == 0 {
          stopped := true;
          rc := Code(OK);
        } else {
          pc := pc + 5;
          rc := Code(5);
        }
      } else if op == OP_FIN_IMD {
        pc := pcs;
        finished := true;
        rc := Code(OK);
      } else if op == OP_STP_IMD {
        pc := pcs;
        stopped := true;
        rc := Code(OK);
      } else if op == OP_SLP_IMD {
        pc := pc + 1;
        rc := Code(1);
      } else if op == OP_ERR_ADR {
        pce := w.a1;
        rc := Code(UNEXPECTED);
      } else {
        pc := pc + 1;
        pcs := pc;
        rc := Code(1);
      }
    }

    method ReadArguments(op: int, w: Operands) returns (ok: bool, args: seq<Word>)
      requires Valid() && OP_EXT_FUN <= op <= OP_EXT_FUN_RET_DAT_2
      ensures ok == Readable(op, w)
      ensures ok ==> args == Arguments(Abs(), op, w)
    {
      if op != OP_EXT_FUN && !InData(w.a1) {
        return false, [];
      }
      if op in {OP_EXT_FUN_DAT_2, OP_EXT_FUN_RET_DAT, OP_EXT_FUN_RET_DAT_2} && !InData(w.a2) {
        return false, [];
      }
      if op == OP_EXT_FUN_RET_DAT_2 && !InData(w.a3) {
        return false, [];
      }
      ok := true;
      args := if op == OP_EXT_FUN_DAT then [data[w.a1]] else if op == OP_EXT_FUN_DAT_2 then [data[w.a1], data[w.a2]]
        else if op == OP_EXT_FUN_RET_DAT then [data[w.a2]]
        else if op == OP_EXT_FUN_RET_DAT_2 then [data[w.a2], data[w.a3]] else [];
    }

    method ExternalAct(op: int, w: Operands) returns (rc: Outcome)
      requires Valid() && OP_EXT_FUN <= op <= OP_EXT_FUN_RET_DAT_2
      modifies this, data
      ensures Shows(Externals(old(Abs()), ext, op, w), rc)
    {
      hide Calls, Users, Length, ShapeOf, Arguments;
      var ok, args := ReadArguments(op, w);
      if !ok {
        return Panic;
      }
      var n := Length(ShapeOf(op));
      pc := pc + n;
      match ext(regs, w.fun, args)
      case Crashed =>
        rc := Panic;
      case Returned(after, v) =>
        regs := after;
        if op in {OP_EXT_FUN_RET, OP_EXT_FUN_RET_DAT, OP_EXT_FUN_RET_DAT_2} {
          Store(w.a1, v);
        }
        rc := Code(n);
    }

    method NopOp() returns (rc: Outcome)
      requires Valid() && 0 <= pc < 512 && code[pc] as int == OP_NOP
      modifies `pc
      ensures Shows(Instruction(code, ext, old(Abs())), rc)
    {
      hide Calls, Users;
      var n := 0;
      ghost var target := SkipNops(code, pc);
      while true
        invariant 0 <= pc < target <= 512 && n == pc - old(pc)
        invariant SkipNops(code, pc) == target
        decreases target - pc
      {
        n := n + 1;
        pc := pc + 1;
        if pc >= CALL_STACK_BYTES || code[pc] as int != OP_NOP {
          break;
        }
      }
      rc := Code(n);
    }

    // ---------- a step and a run ----------

    method Act(op: int, w: Operands) returns (rc: Outcome)
      requires Valid() && 0 <= pc < 512 && op != OP_NOP && ShapeOf(op) != NoSuch
      modifies this, data
      ensures Shows(Perform(old(Abs()), ext, op, w), rc)
    {
      hide Calls, Users, OneWord, TwoWords, Indirect, Stacks, Branches, Control, Externals, Shows;
      if op in {OP_SET_VAL, OP_CLR_DAT, OP_INC_DAT, OP_DEC_DAT, OP_NOT_DAT} {
        rc := OneWordAct(op, w);
      } else if op == OP_DIV_DAT {
        rc := DivideAct(w);
      } else if op in {OP_MOD_DAT, OP_SHL_DAT, OP_SHR_DAT} {
        rc := SecondWordAct(op, w);
      } else if op in {OP_SET_DAT, OP_ADD_DAT, OP_SUB_DAT, OP_MUL_DAT, OP_BOR_DAT, OP_AND_DAT, OP_XOR_DAT} {
        rc := FirstWordAct(op, w);
      } else if op in {OP_SET_IND, OP_IND_DAT, OP_SET_IDX, OP_IDX_DAT} {
        rc := IndirectAct(op, w);
      } else if op == OP_PSH_DAT {
        rc := PushAct(w);
      } else if op == OP_POP_DAT {
        rc := PopAct(w);
      } else if op == OP_JMP_SUB {
        rc := CallAct(w);
      } else if op == OP_RET_SUB {
        rc := ReturnAct(w);
      } else if OP_JMP_ADR <= op <= OP_BNE_DAT {
        rc := BranchAct(op, w);
      } else if OP_SLP_DAT <= op <= OP_SET_PCS {
        rc := ControlAct(op, w);
      } else {
        rc := ExternalAct(op, w);
      }
    }

    method Dispatch(op: int) returns (rc: Outcome)
      requires Valid() && 0 <= pc < 512 && code[pc] as int == op
      modifies this, data
      ensures Shows(Instruction(code, ext, old(Abs())), rc)
    {
      hide Calls, Users, FetchOperands, Perform, ShapeOf;
      if op == OP_NOP {
        rc := NopOp();
      } else {
        match FetchOperands(code, pc, ShapeOf(op))
        case Refused(r) =>
          rc := Code(r);
        case Outside =>
          rc := Panic;
        case Fetched(w) =>
          rc := Act(op, w);
      }
    }

    method Conclude(rc: Outcome, ghost e: Effect<R>) returns (rc': Outcome)
      requires rc != Panic && Shows(e, rc)
      modifies this
      ensures Layout() && rc' == Settle(e).outcome && Abs() == Settle(e).s
      ensures rc'.Code? && (rc'.rc >= OK && old(pce) == 0 ==> cs <= 32)
      ensures old(pce) == 0 ==> pce == 0
    {
      hide Calls, Users, Wrap32;
      rc' := rc;
      if rc == Code(OVERFLOW) && pce != 0 {
        rc' := Code(OK);
        pc := pce;
      }
      if rc'.rc >= OK {
        steps := Wrap32(steps + 1);
      }
    }

    /** One step of the machine is one step of its description. */
    method ProcessOp() returns (rc: Outcome)
      requires Valid()
      modifies this, data
      ensures Shows(Step(code, ext, old(Abs())), rc)
      ensures rc.Code? && rc.rc >= OK ==> Valid()
    {
      hide Calls, Users, Instruction, Settle;
      if CSIZE < 1 || pc >= CSIZE {
        return Code(OK);
      }
      if pc < 0 {
        return Code(INVALID_CODE);
      }
      ghost var e := Instruction(code, ext, Abs());
      InstructionKeepsPce(code, ext, Abs());
      rc := Dispatch(code[pc] as int);
      if rc == Panic {
        SettlePanic(e);
        return;
      }
      assert Abs().pce == pce;
      SettleCodes(e);
      rc := Conclude(rc, e);
    }
  }

  lemma SmallWord(x: int)
    requires -1 <= x < 1024
    ensures Wrap64(x) == x
  {
    WrapFits(x, 0x8000_0000_0000_0000);
  }

  /** Only the error-address instruction, which ends the run, sets the error address. */
  lemma InstructionKeepsPce<R>(code: Code, ext: Oracle<R>, s: State<R>)
    requires 0 <= s.pc < 512 && s.pce == 0
    ensures var e := Instruction(code, ext, s); e.outcome.Code? && e.outcome.rc >= OVERFLOW ==> e.s.pce == 0
  {
    hide FetchOperands, Wrap, OneWord, TwoWords, Indirect, Stacks, Branches, Control, Externals, SkipNops;
  }

  lemma SettlePanic<R>(e: Effect<R>)
    ensures e.outcome == Panic ==> Settle(e) == e
  {
  }

  lemma SettleCodes<R>(e: Effect<R>)
    requires e.outcome.Code?
    ensures Settle(e).outcome.Code? && (Settle(e).outcome.rc >= OK ==> e.outcome.rc >= OVERFLOW)
  {
  }

  function Padded(image: seq<byte>): (c: Code)
  {
    seq(512, i requires 0 <= i < 512 => if i < |image| then image[i] else 0)
  }

  ghost function Initial<R>(regs: R): State<R>
  {
    State(seq(64, _ => 0), [], [], 0, 0, 0, 0, false, false, regs)
  }
}
