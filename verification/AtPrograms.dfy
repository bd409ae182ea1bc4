/** Small programs that show where the machine departs from what its instruction names suggest. */
module AtPrograms {
  import opened LittleEndian
  import opened Modular
  import opened MachineWords
  import opened Encoding
  import opened AtMachine
  import opened AtVm
  import opened AtRuns
  import opened AtAssembler

  // ---------- set adds ----------

  /** The set instruction stores the word it names exactly when the old word was 0. */
  lemma SetAssignsIff<R>(s: State<R>, w: Operands)
    requires InData(w.a1) && InData(w.a2)
    ensures TwoWords(s, OP_SET_DAT, w).s.mem[w.a1] == s.mem[w.a2] <==> s.mem[w.a1] == 0
  {
    hide Wrap;
    SumIs(s.mem[w.a1], s.mem[w.a2]);
  }

  lemma SumIs(x: Word, y: Word)
    ensures Wrap64(x as int + y as int) == y <==> x == 0
  {
    hide Wrap;
    var half := 0x8000_0000_0000_0000;
    if x as int + y as int < -half {
      WrapShift(x as int + y as int, half);
      WrapFits(x as int + y as int + 2 * half, half);
    } else {
      WrapFits(x as int + y as int, half);
    }
  }

  lemma WrapShift(x: int, half: int)
    requires half > 0
    ensures Wrap(x + 2 * half, half) == Wrap(x, half)
  {
    var q, r := (x + half) / (2 * half), (x + half) % (2 * half);
    assert x + half == q * (2 * half) + r;
    assert x + 2 * half + half == r + (q + 1) * (2 * half);
    RemainderUnique(x + 2 * half + half, r, q + 1, 2 * half);
  }

  // ---------- a call too deep ----------

  /** A call that calls itself. */
  const DEEP_CALLS: seq<byte> := [0x12, 0, 0, 0, 0]

  lemma ImageAt(image: seq<byte>, at: nat, part: seq<byte>)
    requires at + |part| <= |image| <= 512 && image[at..at + |part|] == part
    ensures Lies(Padded(image), at, part)
  {
    var c, i := Padded(image)[at..at + |part|], image[at..at + |part|];
    forall k | 0 <= k < |part| ensures c[k] == i[k] {
    }
  }

  lemma DeepCallsStep<R>(ext: Oracle<R>, s: State<R>)
    requires s.pc == 0
    ensures Instruction(Padded(DEEP_CALLS), ext, s) == Stacks(s, OP_JMP_SUB, NONE)
  {
    hide Stacks, Int32At, InvalidAddr;
    var code := Padded(DEEP_CALLS);
    assert DEEP_CALLS[1..5] == [0, 0, 0, 0];
    ImageAt(DEEP_CALLS, 1, [0, 0, 0, 0]);
    ZeroBytes();
    AddrRead(code, 1, 0);
    assert code[0] == DEEP_CALLS[0];
  }

  lemma ZeroBytes()
    ensures SignedBytes(0, 4) == [0, 0, 0, 0]
  {
    hide Radix;
    Radixes();
    assert Bytes(0, 2) == [0] + Bytes(0, 1);
    assert Bytes(0, 4) == [0] + ([0] + Bytes(0, 2));
  }

  /** The first 32 calls go through and leave memory as it was. */
  lemma {:induction false} DeepCallsRun<R>(ext: Oracle<R>, regs: R, n: nat)
    requires n <= 32
    ensures var (code, s) := (Padded(DEEP_CALLS), After(Padded(DEEP_CALLS), ext, Initial(regs), n));
            Reaches(code, ext, Initial(regs), n) && s.pc == 0 && s.pce == 0 && |s.calls| == n
            && !s.stopped && !s.finished && s.mem == Initial(regs).mem
  {
    hide Instruction, Wrap32, Wrap;
    if n > 0 {
      DeepCallsRun(ext, regs, n - 1);
      DeepCallsStep(ext, After(Padded(DEEP_CALLS), ext, Initial(regs), n - 1));
    }
  }

  /** The 33rd call fails, but only after it has overwritten the last data word with its own address less one. */
  lemma DeepCallOverwrites<R>(ext: Oracle<R>, regs: R)
    ensures var s := After(Padded(DEEP_CALLS), ext, Initial(regs), 32);
            var e := Step(Padded(DEEP_CALLS), ext, s);
            s.mem[63] == 0 && e.outcome == Code(OVERFLOW) && e.s.mem[63] == -1
  {
    hide Instruction, Wrap32, Wrap;
    DeepCallsRun(ext, regs, 32);
    DeepCallsStep(ext, After(Padded(DEEP_CALLS), ext, Initial(regs), 32));
    SmallWord(-1);
  }

  // ---------- a jump out of the code ----------

  /** A jump to the one address beyond the data that the test lets through. */
  const JUMP_OUT: seq<byte> := [0x1a, 0xff, 0xff, 0xff, 0x0f]

  lemma JumpOutReads()
    ensures Int32At(Padded(JUMP_OUT), 1) == WRAPPING_ADDR
  {
    hide Wrap;
    var code, part := Padded(JUMP_OUT), [0xff, 0xff, 0xff, 0x0f];
    assert JUMP_OUT[1..5] == part;
    ImageAt(JUMP_OUT, 1, part);
    JumpOutValue();
    WrapFits(WRAPPING_ADDR, 0x8000_0000);
  }

  lemma JumpOutValue()
    ensures Value([0xff, 0xff, 0xff, 0x0f]) == WRAPPING_ADDR
  {
    hide Value, Radix;
    Radixes();
    var a: seq<byte>, b: seq<byte>, c: seq<byte> := [0xff], [0xff, 0xff], [0xff, 0xff, 0xff];
    assert [] + [0xff] == a && a + [0xff] == b && b + [0xff] == c && c + [0x0f] == [0xff, 0xff, 0xff, 0x0f];
    ValueSnoc([], 0xff);
    ValueSnoc(a, 0xff);
    ValueSnoc(b, 0xff);
    ValueSnoc(c, 0x0f);
    ValueZeros([]);
    RadixStep(2);
    RadixZero();
  }

  lemma RadixZero()
    ensures Radix(0) == 1
  {
  }

  /** From its first step on this program stands still beyond the code, and the loop never ends. */
  lemma JumpOutSpins<R>(ext: Oracle<R>, regs: R, n: nat)
    ensures Reaches(Padded(JUMP_OUT), ext, Initial(regs), n)
    ensures n > 0 ==> After(Padded(JUMP_OUT), ext, Initial(regs), n).pc == WRAPPING_ADDR
  {
    hide Int32At;
    var code, s := Padded(JUMP_OUT), Initial(regs);
    JumpOutReads();
    ValidAddrIff(WRAPPING_ADDR);
    assert code[0] == JUMP_OUT[0];
    var t := Step(code, ext, s).s;
    assert Goes(code, ext, s) && t.pc == WRAPPING_ADDR;
    if n > 0 {
      IdlesForever(code, ext, t, n - 1);
      AfterFirst(code, ext, s, n - 1);
      hide Step;
      forall k: nat | k < n ensures Goes(code, ext, After(code, ext, s, k)) {
        if k > 0 {
          AfterFirst(code, ext, s, k - 1);
          assert Goes(code, ext, After(code, ext, t, k - 1));
        }
      }
    }
  }

  // ---------- an external call at the end of the code ----------

  /** No-operations up to byte 509, then an external call. */
  ghost predicate CallsAtEnd(code: Code)
  {
    (forall k :: 0 <= k < 510 ==> code[k] as int == OP_NOP) && code[510] as int == OP_EXT_FUN
  }

  lemma NopStep<R>(code: Code, ext: Oracle<R>, s: State<R>)
    requires CallsAtEnd(code) && 0 <= s.pc < 510 && s.pce == 0
    ensures var n := if s.pc < 255 then 256 else s.pc + 1;
            Step(code, ext, s) == Effect(s.(pc := n, steps := Wrap32(s.steps + 1)), Code(n - s.pc))
  {
    hide Wrap32, SkipNops;
    assert code[s.pc] as int == OP_NOP;
    assert forall k :: 0 <= k < 256 ==> code[k] as int == OP_NOP;
    assert SkipNops(code, s.pc) >= 256;
  }

  /** One step over the first 256 bytes, then one byte a step. */
  lemma {:induction false} NopsPass<R>(code: Code, ext: Oracle<R>, regs: R, n: nat)
    requires CallsAtEnd(code) && 1 <= n <= 255
    ensures var s := After(code, ext, Initial(regs), n);
            Reaches(code, ext, Initial(regs), n) && s.pc == 255 + n && s.pce == 0 && !s.stopped && !s.finished
  {
    hide Wrap32, Step, CallsAtEnd;
    if n > 1 {
      NopsPass(code, ext, regs, n - 1);
    }
    NopStep(code, ext, After(code, ext, Initial(regs), n - 1));
  }

  lemma CallReached<R>(code: Code, ext: Oracle<R>, regs: R)
    requires CallsAtEnd(code)
    ensures var s := After(code, ext, Initial(regs), 255);
            At(code, s, OP_EXT_FUN) && s.pc == 510 && !s.stopped && !s.finished
            && Reaches(code, ext, Initial(regs), 255)
  {
    hide Step, Reaches;
    NopsPass(code, ext, regs, 255);
  }

  /** This program reaches the call in 255 steps and repeats it for ever. */
  lemma CallAtEndSpins<R>(code: Code, ext: Oracle<R>, regs: R, n: nat)
    requires CallsAtEnd(code)
    ensures Reaches(code, ext, Initial(regs), n)
    ensures n >= 255 ==> After(code, ext, Initial(regs), n).pc == 510
  {
    hide Step, At, CallsAtEnd, Goes;
    if 1 <= n < 255 {
      NopsPass(code, ext, regs, n);
    } else if n >= 255 {
      CallReached(code, ext, regs);
      var s := After(code, ext, Initial(regs), 255);
      ExternalAtEndForever(code, ext, s, n - 255);
      AfterSum(code, ext, Initial(regs), 255, n - 255);
      forall k: nat | k < n ensures Goes(code, ext, After(code, ext, Initial(regs), k)) {
        if k >= 255 {
          AfterSum(code, ext, Initial(regs), 255, k - 255);
          assert Goes(code, ext, After(code, ext, s, k - 255));
        }
      }
    }
  }

  lemma {:induction false} AfterSum<R>(code: Code, ext: Oracle<R>, s: State<R>, m: nat, n: nat)
    ensures After(code, ext, s, m + n) == After(code, ext, After(code, ext, s, m), n)
    decreases n
  {
    hide Step;
    if n > 0 {
      AfterSum(code, ext, s, m, n - 1);
    }
  }
}
