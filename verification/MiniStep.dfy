// Single-stepping one function (labs/14-ss-equiv-deux/code/mini-step.c): the trace
// of program counters given to the handler against the instructions executed.
module MiniStep {
  import opened Words
  import opened DebugHardware

  /** What one user instruction does; code that makes no system call. */
  type Code = (Regs, Mem) -> (Regs, Mem)

  /** The run between switching to user mode and switching back. */
  datatype Stepping = Stepping(
    regs: Regs,
    mem: Mem,
    bvr0: Word,             // the pc that does not fault
    trace: seq<Word>,       // pcs passed to the step handler
    executed: seq<Word>,    // pcs of executed instructions
    done: bool)

  /** mini_step_run's initial registers; everything not named is 0. */
  function InitialRegs(fn: Word, sp: Word, ssOnExit: Word, cpsr: Word): (r: Regs)
    ensures r[PC] == fn && r[SP] == sp && r[LR] == ssOnExit && r[CPSR] == cpsr
    ensures forall i | 0 <= i <= 12 :: r[i] == 0
  {
    var r: Regs := seq(17, _ => 0);
    r[SP := sp][LR := ssOnExit][PC := fn][CPSR := cpsr]
  }

  function Start(regs: Regs, mem: Mem): Stepping {
    Stepping(regs, mem, 0, [], [], false)
  }

  /** One event: a prefetch abort handled by mismatch_fault, or one instruction. */
  function Step(code: Code, ssOnExit: Word, s: Stepping): Stepping {
    var pc := s.regs[PC];
    if s.done then s
    else if pc != s.bvr0 then
      if pc == ssOnExit then s.(done := true)
      else s.(bvr0 := pc, trace := s.trace + [pc])
    else
      var (r, m) := code(s.regs, s.mem);
      s.(regs := r, mem := m, executed := s.executed + [pc])
  }

  function Run(code: Code, ssOnExit: Word, s: Stepping, n: nat): Stepping {
    if n == 0 then s else Step(code, ssOnExit, Run(code, ssOnExit, s, n - 1))
  }

  /** The sequence with adjacent repetitions dropped, also of the value before it. */
  function Collapse(prev: Word, pcs: seq<Word>): seq<Word>
    decreases |pcs|
  {
    if pcs == [] then []
    else (if pcs[0] == prev then [] else [pcs[0]]) + Collapse(pcs[0], pcs[1..])
  }

  function LastOf(prev: Word, pcs: seq<Word>): Word {
    if pcs == [] then prev else pcs[|pcs| - 1]
  }

  lemma {:induction false} CollapseAppend(prev: Word, pcs: seq<Word>, pc: Word)
    ensures Collapse(prev, pcs + [pc]) == Collapse(prev, pcs) + if pc == LastOf(prev, pcs) then [] else [pc]
    decreases |pcs|
  {
    if pcs != [] {
      assert (pcs + [pc])[1..] == pcs[1..] + [pc];
      CollapseAppend(pcs[0], pcs[1..], pc);
    }
  }

  /** No address executed twice in a row, and the first one is not `prev`. */
  ghost predicate NoRepeats(prev: Word, pcs: seq<Word>) {
    && (pcs != [] ==> pcs[0] != prev)
    && forall i | 0 < i < |pcs| :: pcs[i] != pcs[i - 1]
  }

  lemma {:induction false} CollapseIsIdentity(prev: Word, pcs: seq<Word>)
    ensures |Collapse(prev, pcs)| <= |pcs|
    ensures Collapse(prev, pcs) == pcs <==> NoRepeats(prev, pcs)
    decreases |pcs|
  {
    if pcs != [] {
      CollapseIsIdentity(pcs[0], pcs[1..]);
      assert pcs == [pcs[0]] + pcs[1..];
      assert NoRepeats(prev, pcs) <==> pcs[0] != prev && NoRepeats(pcs[0], pcs[1..]) by {
        assert forall i | 0 < i < |pcs[1..]| :: pcs[1..][i] == pcs[i + 1];
        assert forall i | 1 < i < |pcs| :: pcs[i] == pcs[1..][i - 1];
        if NoRepeats(pcs[0], pcs[1..]) && pcs[0] != prev {
          forall i | 0 < i < |pcs|
            ensures pcs[i] != pcs[i - 1]
          {
            assert i > 1 ==> pcs[1..][i - 1] != pcs[1..][i - 2];
          }
        }
      }
    }
  }

  /** The trace is the collapsed history, with the traced instruction about to run as its end. */
  ghost predicate TraceInv(s: Stepping) {
    if s.regs[PC] == s.bvr0 && !s.done then s.trace == Collapse(0, s.executed + [s.bvr0])
    else s.trace == Collapse(0, s.executed) && s.bvr0 == LastOf(0, s.executed)
  }

  lemma StepKeepsTraceInv(code: Code, ssOnExit: Word, s: Stepping)
    requires TraceInv(s)
    ensures TraceInv(Step(code, ssOnExit, s))
  {
    var t := Step(code, ssOnExit, s);
    CollapseAppend(0, s.executed, s.regs[PC]);
    CollapseAppend(0, t.executed, t.regs[PC]);
  }

  lemma {:induction false} RunKeepsTraceInv(code: Code, ssOnExit: Word, regs: Regs, mem: Mem, n: nat)
    ensures TraceInv(Run(code, ssOnExit, Start(regs, mem), n))
  {
    if n > 0 {
      RunKeepsTraceInv(code, ssOnExit, regs, mem, n - 1);
      StepKeepsTraceInv(code, ssOnExit, Run(code, ssOnExit, Start(regs, mem), n - 1));
    } else {
      CollapseAppend(0, [], regs[PC]);
    }
  }

  /**
   * The finished trace: the handler has seen the executed instructions in order,
   * each run of repetitions of one address once, and an initial address 0 not at
   * all. So it has seen every executed instruction exactly when the code neither
   * starts at 0 nor executes a branch to itself.
   */
  lemma TraceIsComplete(code: Code, ssOnExit: Word, regs: Regs, mem: Mem, n: nat)
    requires Run(code, ssOnExit, Start(regs, mem), n).done
    ensures var s := Run(code, ssOnExit, Start(regs, mem), n);
      && s.trace == Collapse(0, s.executed)
      && (s.trace == s.executed <==> NoRepeats(0, s.executed))
      && s.regs[PC] == ssOnExit && ssOnExit !in s.trace
  {
    RunKeepsTraceInv(code, ssOnExit, regs, mem, n);
    CollapseIsIdentity(0, Run(code, ssOnExit, Start(regs, mem), n).executed);
    DoneAtExit(code, ssOnExit, regs, mem, n);
  }

  lemma {:induction false} DoneAtExit(code: Code, ssOnExit: Word, regs: Regs, mem: Mem, n: nat)
    ensures var s := Run(code, ssOnExit, Start(regs, mem), n);
      (s.done ==> s.regs[PC] == ssOnExit) && ssOnExit !in s.trace
  {
    if n > 0 {
      DoneAtExit(code, ssOnExit, regs, mem, n - 1);
    }
  }

  /** Code that never stays at its own address is traced completely from any nonzero start. */
  lemma StraightCodeIsTracedCompletely(code: Code, ssOnExit: Word, regs: Regs, mem: Mem, n: nat)
    requires regs[PC] != 0
    requires forall r: Regs, m: Mem :: code(r, m).0[PC] != r[PC]
    requires Run(code, ssOnExit, Start(regs, mem), n).done
    ensures var s := Run(code, ssOnExit, Start(regs, mem), n);
      s.trace == s.executed
  {
    TraceIsComplete(code, ssOnExit, regs, mem, n);
    NoRepeatsYet(code, ssOnExit, regs, mem, n);
    var s := Run(code, ssOnExit, Start(regs, mem), n);
    NoRepeatsPrefix(0, s.executed, s.regs[PC]);
  }

  lemma NoRepeatsPrefix(prev: Word, pcs: seq<Word>, pc: Word)
    requires NoRepeats(prev, pcs + [pc])
    ensures NoRepeats(prev, pcs)
  {
    var all := pcs + [pc];
    forall i | 0 < i < |pcs|
      ensures pcs[i] != pcs[i - 1]
    {
      assert all[i] != all[i - 1];
    }
    assert pcs != [] ==> pcs[0] == all[0];
  }

  lemma {:induction false} NoRepeatsYet(code: Code, ssOnExit: Word, regs: Regs, mem: Mem, n: nat)
    requires regs[PC] != 0
    requires forall r: Regs, m: Mem :: code(r, m).0[PC] != r[PC]
    ensures var s := Run(code, ssOnExit, Start(regs, mem), n);
      NoRepeats(0, s.executed + [s.regs[PC]])
  {
    if n > 0 {
      var s := Run(code, ssOnExit, Start(regs, mem), n - 1);
      NoRepeatsYet(code, ssOnExit, regs, mem, n - 1);
      var t := Step(code, ssOnExit, s);
      if t.executed != s.executed {
        assert t.executed == s.executed + [s.regs[PC]];
        assert t.regs[PC] != s.regs[PC];
      }
    }
  }

  // ----- The program does not notice -----

  /** The program by itself, with no breakpoint and no handler: its state after k instructions. */
  function Bare(code: Code, regs: Regs, mem: Mem, k: nat): (Regs, Mem) {
    if k == 0 then (regs, mem)
    else
      var (r, m) := Bare(code, regs, mem, k - 1);
      code(r, m)
  }

  /** The stepped program is where the bare one is, and has executed the same instructions. */
  ghost predicate IsBare(code: Code, regs: Regs, mem: Mem, s: Stepping) {
    && (s.regs, s.mem) == Bare(code, regs, mem, |s.executed|)
    && (forall i | 0 <= i < |s.executed| :: s.executed[i] == Bare(code, regs, mem, i).0[PC])
    && (s.bvr0 == 0 || s.bvr0 in s.trace)
    && (forall pc | pc in s.executed :: pc == 0 || pc in s.trace)
  }

  lemma {:induction false} RunIsBare(code: Code, ssOnExit: Word, regs: Regs, mem: Mem, n: nat)
    ensures IsBare(code, regs, mem, Run(code, ssOnExit, Start(regs, mem), n))
  {
    if n > 0 {
      RunIsBare(code, ssOnExit, regs, mem, n - 1);
      StepIsBare(code, ssOnExit, regs, mem, Run(code, ssOnExit, Start(regs, mem), n - 1));
    }
  }

  lemma StepIsBare(code: Code, ssOnExit: Word, regs: Regs, mem: Mem, s: Stepping)
    requires IsBare(code, regs, mem, s)
    ensures IsBare(code, regs, mem, Step(code, ssOnExit, s))
  {
    var k := |s.executed|;
    assert Bare(code, regs, mem, k + 1) == code(s.regs, s.mem);
  }

  /**
   * Transparency: a run that is over has left the registers and memory of the bare
   * program, after as many instructions and at the same addresses; it ends when that
   * program first comes to the exit address.
   */
  lemma SteppingIsTransparent(code: Code, ssOnExit: Word, regs: Regs, mem: Mem, n: nat)
    requires Run(code, ssOnExit, Start(regs, mem), n).done
    ensures var s := Run(code, ssOnExit, Start(regs, mem), n);
      var k := |s.executed|;
      && (s.regs, s.mem) == Bare(code, regs, mem, k) && s.regs[PC] == ssOnExit
      && (forall i | 0 <= i < k :: s.executed[i] == Bare(code, regs, mem, i).0[PC])
      && (ssOnExit != 0 ==> forall i | 0 <= i < k :: Bare(code, regs, mem, i).0[PC] != ssOnExit)
  {
    RunIsBare(code, ssOnExit, regs, mem, n);
    DoneAtExit(code, ssOnExit, regs, mem, n);
  }

  /** The stepper: the debug hardware and what the handler recorded. */
  class MiniStepper {
    const dbg: DebugUnit
    var trace: seq<Word>

    constructor (dbg: DebugUnit)
      ensures this.dbg == dbg && trace == []
    {
      this.dbg := dbg;
      trace := [];
    }

    /** mismatch_fault: leave at ss_on_exit, otherwise call the handler and let `pc` run. */
    method MismatchFault(pc: Word, ssOnExit: Word) returns (leave: bool)
      requires dbg.Armed() && dbg.Faults(pc)
      modifies this, dbg
      ensures dbg.Armed() && leave == (pc == ssOnExit)
      ensures trace == if leave then old(trace) else old(trace) + [pc]
      ensures dbg.bvr0 == if leave then old(dbg.bvr0) else pc
    {
      if pc == ssOnExit {
        return true;
      }
      trace := trace + [pc];
      var _ := dbg.MismatchPcSet(pc);
      return false;
    }

    /**
     * mini_step_run, for code that reaches ss_on_exit. Its result is the r0 of the
     * initial registers, which nothing updates: always 0, and the argument is unused.
     */
    method MiniStepRun(code: Code, ssOnExit: Word, fn: Word, arg: Word, sp: Word, cpsr: Word, mem: Mem, ghost n: nat)
      returns (ret: Word, mem': Mem, ghost executed: seq<Word>)
      requires dbg.Idle() && trace == []
      requires Run(code, ssOnExit, Start(InitialRegs(fn, sp, ssOnExit, cpsr), mem), n).done
      modifies this, dbg
      ensures dbg.Idle() && ret == 0
      ensures var s := Run(code, ssOnExit, Start(InitialRegs(fn, sp, ssOnExit, cpsr), mem), n);
        trace == s.trace && mem' == s.mem && executed == s.executed
      ensures var r := InitialRegs(fn, sp, ssOnExit, cpsr);
        && mem' == Bare(code, r, mem, |executed|).1 && Bare(code, r, mem, |executed|).0[PC] == ssOnExit
        && forall i | 0 <= i < |executed| :: executed[i] == Bare(code, r, mem, i).0[PC]
    {
      var regs := InitialRegs(fn, sp, ssOnExit, cpsr);
      ret := regs[0];
      mem' := mem;
      executed := [];
      dbg.MismatchOn();
      ghost var s0 := Start(regs, mem);
      ghost var i: nat := 0;
      var leave := false;
      while !leave
        invariant dbg.Armed() && i <= n
        invariant Run(code, ssOnExit, s0, i) == Stepping(regs, mem', dbg.bvr0, trace, executed, leave)
        decreases n - i
      {
        if i == n {
          assert false;
        }
        var pc := regs[PC];
        if dbg.Faults(pc) {
          leave := MismatchFault(pc, ssOnExit);
        } else {
          executed := executed + [pc];
          var (r, m) := code(regs, mem');
          regs, mem' := r, m;
        }
        i := i + 1;
      }
      DoneStays(code, ssOnExit, s0, i, n);
      SteppingIsTransparent(code, ssOnExit, s0.regs, mem, n);
      dbg.MismatchOff();
    }
  }

  lemma {:induction false} DoneStays(code: Code, ssOnExit: Word, s: Stepping, i: nat, n: nat)
    requires i <= n && Run(code, ssOnExit, s, i).done
    ensures Run(code, ssOnExit, s, n) == Run(code, ssOnExit, s, i)
  {
    if i < n {
      DoneStays(code, ssOnExit, s, i, n - 1);
    }
  }
}
