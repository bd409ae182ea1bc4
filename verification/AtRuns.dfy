/** What every run of the machine keeps, however long it is. */
module AtRuns {
  import opened AtMachine
  import opened MachineWords
  import opened AtVm

  // ---------- runs ----------

  datatype Exit = Running | Ended | Overflow | InvalidCode | Unexpected | Panicked

  function ErrorOf(rc: int): Exit
  {
    if rc == OVERFLOW then Overflow else if rc == INVALID_CODE then InvalidCode else Unexpected
  }

  /** At most n steps, and how they end. */
  ghost function Run<R>(code: Code, ext: Oracle<R>, s: State<R>, n: nat): (State<R>, Exit)
    decreases n
  {
    if n == 0 then (s, Running)
    else
      var e := Step(code, ext, s);
      if e.outcome == Panic then (s, Panicked)
      else if e.outcome.rc < OK then (e.s, ErrorOf(e.outcome.rc))
      else if e.s.stopped || e.s.finished then (e.s, Ended)
      else Run(code, ext, e.s, n - 1)
  }

  /** The loop of execute, cut off after a number of steps. */
  method Execute<R>(vm: StateMachine<R>, limit: nat) returns (exit: Exit)
    requires vm.Valid()
    modifies vm, vm.data
    ensures exit == Run(vm.code, vm.ext, old(vm.Abs()), limit).1
    ensures vm.Layout() && (exit != Panicked ==> vm.Abs() == Run(vm.code, vm.ext, old(vm.Abs()), limit).0)
    ensures exit in {Running, Ended} ==> vm.Valid()
  {
    hide Step, vm.Calls, vm.Users;
    exit := Running;
    for i := 0 to limit
      invariant vm.Valid()
      invariant Run(vm.code, vm.ext, old(vm.Abs()), limit) == Run(vm.code, vm.ext, vm.Abs(), limit - i)
    {
      var rc := vm.ProcessOp();
      if rc == Panic {
        return Panicked;
      }
      if rc.rc >= OK {
        if vm.stopped {
          return Ended;
        } else if vm.finished {
          return Ended;
        }
      } else {
        return ErrorOf(rc.rc);
      }
    }
  }

  /** The state after n steps. */
  ghost function After<R>(code: Code, ext: Oracle<R>, s: State<R>, n: nat): State<R>
  {
    if n == 0 then s else Step(code, ext, After(code, ext, s, n - 1)).s
  }

  /** A step that leads to another. */
  ghost predicate Goes<R>(code: Code, ext: Oracle<R>, s: State<R>)
  {
    var e := Step(code, ext, s);
    e.outcome.Code? && e.outcome.rc >= OK && !e.s.stopped && !e.s.finished
  }

  ghost predicate Reaches<R>(code: Code, ext: Oracle<R>, s: State<R>, n: nat)
  {
    forall k: nat :: k < n ==> Goes(code, ext, After(code, ext, s, k))
  }

  /** A run still going after n steps has come that far. */
  lemma {:induction false} RunningReaches<R>(code: Code, ext: Oracle<R>, s: State<R>, n: nat)
    requires Run(code, ext, s, n).1 == Running
    ensures Reaches(code, ext, s, n) && Run(code, ext, s, n).0 == After(code, ext, s, n)
    decreases n
  {
    hide Step;
    if n > 0 {
      var t := Step(code, ext, s).s;
      RunningReaches(code, ext, t, n - 1);
      AfterFirst(code, ext, s, n - 1);
      forall k: nat | k < n ensures Goes(code, ext, After(code, ext, s, k)) {
        if k > 0 {
          AfterFirst(code, ext, s, k - 1);
          assert Goes(code, ext, After(code, ext, t, k - 1));
        }
      }
    }
  }

  lemma {:induction false} AfterFirst<R>(code: Code, ext: Oracle<R>, s: State<R>, n: nat)
    ensures After(code, ext, s, n + 1) == After(code, ext, Step(code, ext, s).s, n)
    decreases n
  {
    hide Step;
    if n > 0 {
      AfterFirst(code, ext, s, n - 1);
    }
  }

  // ---------- what a step keeps ----------

  ghost predicate Sound<R>(s: State<R>)
  {
    s.pce == 0 && |s.calls| <= 32 && |s.users| <= 32
  }

  /** A stack changes by at most one entry at its end. */
  ghost predicate OneEntry(before: seq<Word>, after: seq<Word>)
  {
    || after == before
    || (|after| == |before| + 1 && after[..|before|] == before)
    || (|before| == |after| + 1 && before[..|after|] == after)
  }

  lemma StacksStep<R>(s: State<R>, op: int, w: Operands)
    requires Sound(s) && Stacks(s, op, w).outcome != Panic && Stacks(s, op, w).outcome.rc >= OK
    ensures var t := Stacks(s, op, w).s; Sound(t) && OneEntry(s.calls, t.calls) && OneEntry(s.users, t.users)
  {
    hide Wrap, Wrap64, Wrap32;
  }

  lemma StepKeeps<R>(code: Code, ext: Oracle<R>, s: State<R>)
    requires Sound(s) && Goes(code, ext, s)
    ensures var t := Step(code, ext, s).s; Sound(t) && OneEntry(s.calls, t.calls) && OneEntry(s.users, t.users)
  {
    hide OneWord, TwoWords, Indirect, Stacks, Branches, Control, Externals, FetchOperands, SkipNops, Wrap32, OneEntry;
    SameEntry(s.calls);
    SameEntry(s.users);
    if 0 <= s.pc < 512 {
      var op := code[s.pc] as int;
      var f := FetchOperands(code, s.pc, ShapeOf(op));
      if f.Fetched? && op in {OP_PSH_DAT, OP_POP_DAT, OP_JMP_SUB, OP_RET_SUB} && Stacks(s, op, f.w).outcome != Panic
         && Stacks(s, op, f.w).outcome.rc >= OK {
        StacksStep(s, op, f.w);
      }
    }
  }

  lemma SameEntry(s: seq<Word>)
    ensures OneEntry(s, s)
  {
  }

  /** Before every step the error address is unset and both stacks are within their regions. */
  lemma {:induction false} RunKeeps<R>(code: Code, ext: Oracle<R>, s: State<R>, n: nat)
    requires Sound(s) && Reaches(code, ext, s, n)
    ensures Sound(After(code, ext, s, n))
  {
    hide Step;
    if n > 0 {
      RunKeeps(code, ext, s, n - 1);
      StepKeeps(code, ext, After(code, ext, s, n - 1));
    }
  }

  /** A machine whose program counter has left the code neither stops nor changes: execute spins. */
  lemma {:induction false} IdlesForever<R>(code: Code, ext: Oracle<R>, s: State<R>, n: nat)
    requires s.pc >= 512 && !s.stopped && !s.finished
    ensures Reaches(code, ext, s, n) && After(code, ext, s, n) == s
  {
    hide Instruction, Settle;
    if n > 0 {
      IdlesForever(code, ext, s, n - 1);
    }
  }

  /** An external call whose number would lie past the code is repeated for ever: only the step count changes. */
  lemma {:induction false} ExternalAtEndForever<R>(code: Code, ext: Oracle<R>, s: State<R>, n: nat)
    requires At(code, s, OP_EXT_FUN) && s.pc + 2 >= 512 && !s.stopped && !s.finished
    ensures Reaches(code, ext, s, n) && After(code, ext, s, n) == s.(steps := After(code, ext, s, n).steps)
  {
    hide Step, Wrap32;
    if n > 0 {
      ExternalAtEndForever(code, ext, s, n - 1);
      ExternalAtEndSticks(code, ext, After(code, ext, s, n - 1));
    }
  }

  /** An external call whose number would lie past the code counts as a step but goes nowhere. */
  lemma ExternalAtEndSticks<R>(code: Code, ext: Oracle<R>, s: State<R>)
    requires At(code, s, OP_EXT_FUN) && s.pc + 2 >= 512
    ensures Step(code, ext, s) == Effect(s.(steps := Wrap32(s.steps + 1)), Code(1))
  {
    hide Wrap32;
  }

  // ---------- stack discipline over a run ----------

  lemma PrefixStep(before: seq<Word>, after: seq<Word>, m: nat)
    requires OneEntry(before, after) && m <= |before| && m <= |after|
    ensures before[..m] == after[..m]
  {
    if |after| > |before| {
      assert after[..m] == after[..|before|][..m];
    } else if |after| < |before| {
      assert before[..m] == before[..|after|][..m];
    }
  }

  /** As long as a stack stays at least m deep, its lowest m entries do not change. */
  lemma {:induction false} CallsFrame<R>(code: Code, ext: Oracle<R>, s: State<R>, i: nat, j: nat, m: nat)
    requires Sound(s) && Reaches(code, ext, s, j) && i <= j
    requires forall k: nat :: i <= k <= j ==> m <= |After(code, ext, s, k).calls|
    ensures After(code, ext, s, j).calls[..m] == After(code, ext, s, i).calls[..m]
    decreases j
  {
    hide Step, OneEntry;
    if i < j {
      CallsFrame(code, ext, s, i, j - 1, m);
      RunKeeps(code, ext, s, j - 1);
      StepKeeps(code, ext, After(code, ext, s, j - 1));
      PrefixStep(After(code, ext, s, j - 1).calls, After(code, ext, s, j).calls, m);
    }
  }

  lemma {:induction false} UsersFrame<R>(code: Code, ext: Oracle<R>, s: State<R>, i: nat, j: nat, m: nat)
    requires Sound(s) && Reaches(code, ext, s, j) && i <= j
    requires forall k: nat :: i <= k <= j ==> m <= |After(code, ext, s, k).users|
    ensures After(code, ext, s, j).users[..m] == After(code, ext, s, i).users[..m]
    decreases j
  {
    hide Step, OneEntry;
    if i < j {
      UsersFrame(code, ext, s, i, j - 1, m);
      RunKeeps(code, ext, s, j - 1);
      StepKeeps(code, ext, After(code, ext, s, j - 1));
      PrefixStep(After(code, ext, s, j - 1).users, After(code, ext, s, j).users, m);
    }
  }

  /** The instruction about to be executed. */
  ghost predicate At<R>(code: Code, s: State<R>, op: int)
  {
    0 <= s.pc < 512 && code[s.pc] as int == op
  }

  lemma CallStep<R>(code: Code, ext: Oracle<R>, s: State<R>)
    requires Sound(s) && Goes(code, ext, s) && At(code, s, OP_JMP_SUB)
    ensures Step(code, ext, s).s.calls == s.calls + [s.pc + 5]
  {
    hide Wrap, Wrap32, Wrap64, Int32At, InvalidAddr;
    SmallWord(s.pc + 5);
  }

  lemma ReturnStep<R>(code: Code, ext: Oracle<R>, s: State<R>)
    requires Sound(s) && Goes(code, ext, s) && At(code, s, OP_RET_SUB)
    ensures |s.calls| > 0 && Step(code, ext, s).s.calls == s.calls[..|s.calls| - 1]
    ensures Step(code, ext, s).s.pc == Wrap32(s.calls[|s.calls| - 1])
  {
    hide Wrap, Wrap32, Wrap64;
  }

  /** The address operand of a one-address instruction. */
  ghost function Operand(code: Code, pc: int): int
    requires 0 <= pc < 508
  {
    Int32At(code, pc + 1)
  }

  lemma PushStep<R>(code: Code, ext: Oracle<R>, s: State<R>)
    requires Sound(s) && Goes(code, ext, s) && At(code, s, OP_PSH_DAT)
    ensures 0 <= s.pc < 508 && InData(Operand(code, s.pc))
    ensures Step(code, ext, s).s.users == s.users + [s.mem[Operand(code, s.pc)]]
  {
    hide Wrap, Wrap32, Wrap64, Int32At, InvalidAddr;
  }

  lemma PopStep<R>(code: Code, ext: Oracle<R>, s: State<R>)
    requires Sound(s) && Goes(code, ext, s) && At(code, s, OP_POP_DAT)
    ensures 0 <= s.pc < 508 && InData(Operand(code, s.pc)) && |s.users| > 0
    ensures Step(code, ext, s).s.mem[Operand(code, s.pc)] == s.users[|s.users| - 1]
    ensures Step(code, ext, s).s.users == s.users[..|s.users| - 1]
  {
    hide Wrap, Wrap32, Wrap64, Int32At, InvalidAddr;
  }

  /** A return goes to the instruction after the call it matches: five bytes past it. */
  lemma ReturnMatchesCall<R>(code: Code, ext: Oracle<R>, regs: R, i: nat, j: nat)
    requires i < j && Reaches(code, ext, Initial(regs), j + 1)
    requires At(code, After(code, ext, Initial(regs), i), OP_JMP_SUB)
    requires At(code, After(code, ext, Initial(regs), j), OP_RET_SUB)
    requires var depth := |After(code, ext, Initial(regs), i).calls|;
             (forall k: nat :: i < k <= j ==> |After(code, ext, Initial(regs), k).calls| > depth)
             && |After(code, ext, Initial(regs), j + 1).calls| == depth
    ensures After(code, ext, Initial(regs), j + 1).pc == After(code, ext, Initial(regs), i).pc + 5
    ensures After(code, ext, Initial(regs), j + 1).calls == After(code, ext, Initial(regs), i).calls
  {
    hide Step, At, Wrap;
    var s := Initial(regs);
    var call, ret := After(code, ext, s, i), After(code, ext, s, j);
    RunKeeps(code, ext, s, i);
    RunKeeps(code, ext, s, j);
    CallStep(code, ext, call);
    ReturnStep(code, ext, ret);
    var depth := |call.calls|;
    CallsFrame(code, ext, s, i + 1, j, depth + 1);
    assert ret.calls == ret.calls[..depth + 1];
    assert After(code, ext, s, i + 1).calls == call.calls + [call.pc + 5];
    CallPc(code, call);
    SmallWord32(call.pc + 5);
  }

  lemma CallPc<R>(code: Code, s: State<R>)
    requires At(code, s, OP_JMP_SUB)
    ensures 0 <= s.pc < 512
  {
  }

  lemma SmallWord32(x: int)
    requires 0 <= x < 1024
    ensures Wrap32(x) == x
  {
    WrapFits(x, 0x8000_0000);
  }

  /** A pop stores the word that the push it matches took from memory. */
  lemma PopMatchesPush<R>(code: Code, ext: Oracle<R>, regs: R, i: nat, j: nat)
    requires i < j && Reaches(code, ext, Initial(regs), j + 1)
    requires At(code, After(code, ext, Initial(regs), i), OP_PSH_DAT)
    requires At(code, After(code, ext, Initial(regs), j), OP_POP_DAT)
    requires var depth := |After(code, ext, Initial(regs), i).users|;
             (forall k: nat :: i < k <= j ==> |After(code, ext, Initial(regs), k).users| > depth)
             && |After(code, ext, Initial(regs), j + 1).users| == depth
    ensures var (a, b) := (After(code, ext, Initial(regs), i), After(code, ext, Initial(regs), j));
            a.pc < 508 && InData(Operand(code, a.pc)) && b.pc < 508 && InData(Operand(code, b.pc))
            && After(code, ext, Initial(regs), j + 1).mem[Operand(code, b.pc)] == a.mem[Operand(code, a.pc)]
            && After(code, ext, Initial(regs), j + 1).users == a.users
  {
    hide Step, At, Operand;
    var s := Initial(regs);
    var push, pop := After(code, ext, s, i), After(code, ext, s, j);
    RunKeeps(code, ext, s, i);
    RunKeeps(code, ext, s, j);
    PushStep(code, ext, push);
    PopStep(code, ext, pop);
    var depth := |push.users|;
    UsersFrame(code, ext, s, i + 1, j, depth + 1);
    assert pop.users == pop.users[..depth + 1];
    assert 0 <= push.pc < 508;
    assert After(code, ext, s, i + 1).users == push.users + [push.mem[Operand(code, push.pc)]];
  }

  // ---------- every return and every pop has a match ----------

  /** The last place before the end where a sequence of depths was below its end. */
  lemma LastBelow(depths: seq<nat>, j: nat) returns (i: nat)
    requires j < |depths| && depths[0] < depths[j]
    ensures i < j && depths[i] < depths[j] && forall k :: i < k <= j ==> depths[k] >= depths[j]
  {
    i := j - 1;
    while depths[i] >= depths[j]
      invariant i < j && forall k :: i < k <= j ==> depths[k] >= depths[j]
      decreases i
    {
      i := i - 1;
    }
  }

  /** Only a call makes the call stack deeper. */
  lemma DeeperByCall<R>(code: Code, ext: Oracle<R>, s: State<R>)
    requires Sound(s) && Goes(code, ext, s) && |Step(code, ext, s).s.calls| > |s.calls|
    ensures At(code, s, OP_JMP_SUB)
  {
    hide OneWord, TwoWords, Indirect, Branches, Control, Externals, FetchOperands, SkipNops, Wrap32, Wrap64;
  }

  /** Only a push makes the user stack deeper. */
  lemma DeeperByPush<R>(code: Code, ext: Oracle<R>, s: State<R>)
    requires Sound(s) && Goes(code, ext, s) && |Step(code, ext, s).s.users| > |s.users|
    ensures At(code, s, OP_PSH_DAT)
  {
    hide OneWord, TwoWords, Indirect, Branches, Control, Externals, FetchOperands, SkipNops, Wrap32, Wrap64;
  }

  lemma GrowsByOne(before: seq<Word>, after: seq<Word>)
    requires OneEntry(before, after)
    ensures |after| <= |before| + 1
  {
  }

  /** The call that a return executed at step j matches: the last step at which the call stack was less deep. */
  lemma MatchingCall<R>(code: Code, ext: Oracle<R>, s: State<R>, j: nat) returns (i: nat)
    requires Sound(s) && s.calls == [] && Reaches(code, ext, s, j + 1) && At(code, After(code, ext, s, j), OP_RET_SUB)
    ensures i < j && At(code, After(code, ext, s, i), OP_JMP_SUB)
    ensures forall k: nat :: i < k <= j ==> |After(code, ext, s, k).calls| > |After(code, ext, s, i).calls|
    ensures |After(code, ext, s, j).calls| == |After(code, ext, s, i).calls| + 1
  {
    hide Step, At, OneEntry;
    RunKeeps(code, ext, s, j);
    ReturnStep(code, ext, After(code, ext, s, j));
    var depths := seq(j + 1, k requires 0 <= k <= j => |After(code, ext, s, k).calls|);
    i := LastBelow(depths, j);
    RunKeeps(code, ext, s, i);
    StepKeeps(code, ext, After(code, ext, s, i));
    GrowsByOne(After(code, ext, s, i).calls, After(code, ext, s, i + 1).calls);
    assert depths[i + 1] >= depths[j];
    forall k: nat | i < k <= j ensures |After(code, ext, s, k).calls| > |After(code, ext, s, i).calls| {
      assert depths[k] >= depths[j];
    }
    DeeperByCall(code, ext, After(code, ext, s, i));
  }

  /** The push that a pop executed at step j matches. */
  lemma MatchingPush<R>(code: Code, ext: Oracle<R>, s: State<R>, j: nat) returns (i: nat)
    requires Sound(s) && s.users == [] && Reaches(code, ext, s, j + 1) && At(code, After(code, ext, s, j), OP_POP_DAT)
    ensures i < j && At(code, After(code, ext, s, i), OP_PSH_DAT)
    ensures forall k: nat :: i < k <= j ==> |After(code, ext, s, k).users| > |After(code, ext, s, i).users|
    ensures |After(code, ext, s, j).users| == |After(code, ext, s, i).users| + 1
  {
    hide Step, At, OneEntry;
    RunKeeps(code, ext, s, j);
    PopStep(code, ext, After(code, ext, s, j));
    var depths := seq(j + 1, k requires 0 <= k <= j => |After(code, ext, s, k).users|);
    i := LastBelow(depths, j);
    RunKeeps(code, ext, s, i);
    StepKeeps(code, ext, After(code, ext, s, i));
    GrowsByOne(After(code, ext, s, i).users, After(code, ext, s, i + 1).users);
    assert depths[i + 1] >= depths[j];
    forall k: nat | i < k <= j ensures |After(code, ext, s, k).users| > |After(code, ext, s, i).users| {
      assert depths[k] >= depths[j];
    }
    DeeperByPush(code, ext, After(code, ext, s, i));
  }

  /** Every return in every run goes to five bytes past a call, the last one not yet returned from. */
  lemma EveryReturnMatches<R>(code: Code, ext: Oracle<R>, regs: R, j: nat) returns (i: nat)
    requires Reaches(code, ext, Initial(regs), j + 1)
    requires At(code, After(code, ext, Initial(regs), j), OP_RET_SUB)
    ensures i < j && At(code, After(code, ext, Initial(regs), i), OP_JMP_SUB)
    ensures After(code, ext, Initial(regs), j + 1).pc == After(code, ext, Initial(regs), i).pc + 5
    ensures After(code, ext, Initial(regs), j + 1).calls == After(code, ext, Initial(regs), i).calls
    ensures var depth := |After(code, ext, Initial(regs), i).calls|;
            forall k: nat :: i < k <= j ==> |After(code, ext, Initial(regs), k).calls| > depth
  {
    hide Step, At;
    var s := Initial(regs);
    i := MatchingCall(code, ext, s, j);
    RunKeeps(code, ext, s, j);
    ReturnStep(code, ext, After(code, ext, s, j));
    ReturnMatchesCall(code, ext, regs, i, j);
  }

  /** Every pop in every run stores the word that a push read, the last one not yet popped. */
  lemma EveryPopMatches<R>(code: Code, ext: Oracle<R>, regs: R, j: nat) returns (i: nat)
    requires Reaches(code, ext, Initial(regs), j + 1)
    requires At(code, After(code, ext, Initial(regs), j), OP_POP_DAT)
    ensures i < j && At(code, After(code, ext, Initial(regs), i), OP_PSH_DAT)
    ensures var (a, b) := (After(code, ext, Initial(regs), i), After(code, ext, Initial(regs), j));
            a.pc < 508 && InData(Operand(code, a.pc)) && b.pc < 508 && InData(Operand(code, b.pc))
            && After(code, ext, Initial(regs), j + 1).mem[Operand(code, b.pc)] == a.mem[Operand(code, a.pc)]
            && After(code, ext, Initial(regs), j + 1).users == a.users
    ensures var depth := |After(code, ext, Initial(regs), i).users|;
            forall k: nat :: i < k <= j ==> |After(code, ext, Initial(regs), k).users| > depth
  {
    var s := Initial(regs);
    i := MatchingPush(code, ext, s, j);
    RunKeeps(code, ext, s, j);
    PopStep(code, ext, After(code, ext, s, j));
    PopMatchesPush(code, ext, regs, i, j);
  }
}
