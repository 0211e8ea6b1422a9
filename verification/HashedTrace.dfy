// What a thread's hash and output are functions of: the thread's own program, run
// without breakpoints, handlers or company.
module HashedTrace {
  import opened Common
  import opened Words
  import opened DebugHardware
  import opened EquivMachine
  import opened ScheduleIndependence

  /**
   * The register states the checker hashes while a program executes n instructions:
   * those after an instruction that moved the pc, except system calls. The state
   * before the first instruction is not among them.
   */
  function Snapshots(env: Env, regs: Regs, mem: Mem, n: nat): seq<Regs>
    decreases n
  {
    if n == 0 then []
    else
      match env.code(regs, mem)
      case Plain(r, m) => (if r[PC] != regs[PC] then [r] else []) + Snapshots(env, r, m, n - 1)
      case Swi(r) => Snapshots(env, r, mem, n - 1)
  }

  function FoldHash(env: Env, snapshots: seq<Regs>, h: Word): Word
    decreases |snapshots|
  {
    if snapshots == [] then h else FoldHash(env, snapshots[1..], env.hash(snapshots[0], h))
  }

  /** Instructions among the first n events of a thread. */
  function Instructions(env: Env, l: Local, n: nat): nat
    decreases n
  {
    if n == 0 || !l.Live? then 0
    else (if Faults(l.cpu, l.bvr0) then 0 else 1) + Instructions(env, LocalStep(env, l), n - 1)
  }

  /** Still to be hashed: the snapshot whose fault is pending, then those of the rest of the run. */
  function Ahead(env: Env, l: Local, n: nat): seq<Regs>
    requires l.Live?
  {
    (if Faults(l.cpu, l.bvr0) then [l.cpu] else []) + Snapshots(env, l.cpu, l.t.mem, Instructions(env, l, n))
  }

  lemma {:induction false} HashAhead(env: Env, l: Local, n: nat)
    requires l.Live? && LocalRun(env, l, n).Exited?
    ensures var t := LocalRun(env, l, n).g.t;
      && t.regHash == FoldHash(env, Ahead(env, l, n), l.t.regHash)
      && t.instCnt == ToWord(l.t.instCnt + |Ahead(env, l, n)|)
    decreases n
  {
    hide LocalStep, Ahead, Faults;
    var l' := LocalStep(env, l);
    if !l'.Live? {
      FinishedStays(env, l', n - 1);
    }
    AheadStep(env, l, n);
    if l'.Live? {
      HashAhead(env, l', n - 1);
      if Faults(l.cpu, l.bvr0) {
        assert ([l.cpu] + Ahead(env, l', n - 1))[1..] == Ahead(env, l', n - 1);
      }
    }
  }

  /** One event consumes its own snapshot, and only a fault has one. */
  lemma AheadStep(env: Env, l: Local, n: nat)
    requires l.Live? && n > 0 && !LocalStep(env, l).Crashed?
    ensures var l' := LocalStep(env, l);
      if l'.Live? then
        if Faults(l.cpu, l.bvr0) then
          && Ahead(env, l, n) == [l.cpu] + Ahead(env, l', n - 1)
          && l'.t.regHash == env.hash(l.cpu, l.t.regHash) && l'.t.instCnt == ToWord(l.t.instCnt + 1)
        else
          && Ahead(env, l, n) == Ahead(env, l', n - 1)
          && l'.t.regHash == l.t.regHash && l'.t.instCnt == l.t.instCnt
      else Ahead(env, l, n) == [] && l'.g.t.regHash == l.t.regHash && l'.g.t.instCnt == l.t.instCnt
  {
    var l' := LocalStep(env, l);
    if !l'.Live? {
      assert Instructions(env, l', n - 1) == 0;
    }
  }

  /**
   * A thread started afresh exits with the fold of the hash over the snapshots of its
   * own program, and their number as its instruction count: neither its first
   * instruction, nor one that follows a system call or stays at its address, is hashed.
   */
  lemma HashIsOfTheProgram(env: Env, t: Thread, n: nat)
    requires t.regHash == 0 && t.instCnt == 0
    requires LocalRun(env, Park(t), n).Exited?
    ensures var g, snapshots := LocalRun(env, Park(t), n).g, Snapshots(env, t.regs, t.mem, Instructions(env, Park(t), n));
      g.t.regHash == FoldHash(env, snapshots, 0) && g.t.instCnt == ToWord(|snapshots|)
  {
    HashAhead(env, Park(t), n);
    assert Ahead(env, Park(t), n) == Snapshots(env, t.regs, t.mem, Instructions(env, Park(t), n));
  }

  // ----- Output -----

  /** What one event of a thread prints. */
  function StepOutput(env: Env, l: Local): seq<Printed> {
    if l.Live? && !Faults(l.cpu, l.bvr0) && env.code(l.cpu, l.t.mem).Swi? then
      var sys := SyscallEntry(l.t, env.code(l.cpu, l.t.mem).regs);
      if sys.Yield? then sys.out else []
    else []
  }

  /** What a thread prints during its first n events. */
  function LocalOutput(env: Env, l: Local, n: nat): seq<Printed>
    decreases n
  {
    if n == 0 then [] else StepOutput(env, l) + LocalOutput(env, LocalStep(env, l), n - 1)
  }

  /** The part of the console that a thread printed. */
  function PrintedBy(tid: nat, console: seq<Printed>): seq<Printed> {
    if console == [] then []
    else (if console[0].tid == tid then [console[0]] else []) + PrintedBy(tid, console[1..])
  }

  lemma {:induction false} PrintedByAppend(tid: nat, a: seq<Printed>, b: seq<Printed>)
    ensures PrintedBy(tid, a + b) == PrintedBy(tid, a) + PrintedBy(tid, b)
    decreases |a|
  {
    if a == [] {
      assert a + b == b;
    } else {
      var own := if a[0].tid == tid then [a[0]] else [];
      assert (a + b)[0] == a[0] && (a + b)[1..] == a[1..] + b;
      PrintedByAppend(tid, a[1..], b);
      assert PrintedBy(tid, a + b) == own + PrintedBy(tid, a[1..] + b);
      assert PrintedBy(tid, a) == own + PrintedBy(tid, a[1..]);
      ConcatAssociates(own, PrintedBy(tid, a[1..]), PrintedBy(tid, b));
    }
  }

  lemma StepPrints(env: Env, m: Machine, tid: nat)
    requires m.User? && !Step(env, m).Panicked?
    ensures var out := StepOutput(env, Current(m));
      Step(env, m).console == m.console + out && PrintedBy(tid, out) == if tid == m.cur.tid then out else []
  {
  }

  /** Interleaving shuffles the console but not any thread's own output. */
  lemma {:induction false} OutputProjects(env: Env, m: Machine, l: Local, n: nat)
    requires Distinct(m) && Holds(m, l) && !Run(env, m, n).Panicked?
    ensures PrintedBy(l.Tid(), Run(env, m, n).console)
         == PrintedBy(l.Tid(), m.console) + LocalOutput(env, l, Turns(env, m, l.Tid(), n))
    decreases n
  {
    hide Step, LocalStep, Distinct, Holds, StepOutput;
    if n > 0 && m.User? {
      var m' := Step(env, m);
      if m'.Panicked? {
        DistinctPanic(m', env, n - 1);
        assert false;
      }
      StepProjects(env, m, l);
      StepPrints(env, m, l.Tid());
      LocalStepKeepsTid(env, l);
      PrintedByAppend(l.Tid(), m.console, StepOutput(env, Current(m)));
      if l.Tid() == m.cur.tid {
        CurrentIsUnique(m, l);
        OutputProjects(env, m', LocalStep(env, l), n - 1);
      } else {
        OutputProjects(env, m', l, n - 1);
      }
    }
  }

  lemma {:induction false} FinishedIsSilent(env: Env, l: Local, n: nat)
    requires !l.Live?
    ensures LocalOutput(env, l, n) == []
    decreases n
  {
    if n > 0 {
      FinishedIsSilent(env, l, n - 1);
    }
  }

  /** A thread alone owns the console. */
  lemma {:induction false} SoloPrints(env: Env, m: Machine, l: Local, n: nat)
    requires IsSolo(m, l) && !LocalRun(env, l, n).Crashed?
    ensures !m.Panicked? && !Run(env, m, n).Panicked?
    ensures Run(env, m, n).console == m.console + LocalOutput(env, l, n)
    decreases n
  {
    hide Step, LocalStep, StepOutput;
    if !l.Live? {
      FinishedStays(env, l, n);
      FinishedIsSilent(env, l, n);
    } else if n > 0 {
      var m', l' := Step(env, m), LocalStep(env, l);
      SoloStep(env, m, l);
      SoloPrints(env, m', l', n - 1);
      StepPrints(env, m, l.t.tid);
      ConcatAssociates(m.console, StepOutput(env, l), LocalOutput(env, l', n - 1));
    }
  }

  /** A thread prints in a group exactly what it prints alone, as far as it has come. */
  lemma PrintsAsAlone(env: Env, ts: seq<Thread>, n: nat, i: nat)
    requires DistinctThreads(ts) && i < |ts| && !Run(env, Boot(ts), n).Panicked?
    ensures var alone := Run(env, Boot([ts[i]]), Turns(env, Boot(ts), ts[i].tid, n));
      !alone.Panicked? && PrintedBy(ts[i].tid, Run(env, Boot(ts), n).console) == alone.console
  {
    hide Step, LocalStep, Run, LocalRun, Turns, LocalOutput;
    BootHolds(ts, i);
    RunProjects(env, Boot(ts), Park(ts[i]), n);
    OutputProjects(env, Boot(ts), Park(ts[i]), n);
    SoloPrints(env, Boot([ts[i]]), Park(ts[i]), Turns(env, Boot(ts), ts[i].tid, n));
  }
}
