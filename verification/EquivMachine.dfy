// The pre-emptive, single-stepped thread scheduler as a machine
// (labs/14-ss-equiv-deux/code/equiv-threads.c over mini-step.c): one processor, one
// breakpoint, a run queue, and handlers that act on the current thread.
module EquivMachine {
  import opened Words
  import opened DebugHardware

  const SYS_EXIT := 0
  const SYS_PUTC := 1

  /** What one user instruction does: compute, or trap with the pc already past the swi. */
  datatype Insn = Plain(regs: Regs, mem: Mem) | Swi(regs: Regs)

  /** The program text, the register hash, and the addresses and status word the kernel uses. */
  datatype Env = Env(
    code: (Regs, Mem) -> Insn,
    hash: (Regs, Word) -> Word,
    ssOnExit: Word,
    sysExit: Word,
    cpsr: Word)

  /** eq_th_t, without the link, and with the memory only this thread uses. */
  datatype Thread = Thread(
    tid: nat,
    fn: Word, arg: Word, stackStart: Word, stackEnd: Word,
    regs: Regs,
    regHash: Word,
    instCnt: Word,
    expectedHash: Word,
    mem: Mem)

  /** LeftProgram: the pc reached ss_on_exit, whose saved registers are zero and name no legal mode. */
  datatype Reason = LeftProgram | StackOutOfRange | IllegalSyscall | HashMismatch

  // ----- What the handlers do to the current thread -----

  /** equiv_regs_init. */
  function InitialRegs(env: Env, fn: Word, arg: Word, sp: Word): (r: Regs)
    ensures r[0] == arg && r[SP] == sp && r[LR] == env.sysExit && r[PC] == fn && r[CPSR] == env.cpsr
    ensures forall i | 1 <= i <= 12 :: r[i] == 0
  {
    var r: Regs := seq(17, _ => 0);
    r[0 := arg][SP := sp][LR := env.sysExit][PC := fn][CPSR := env.cpsr]
  }

  /** equiv_hash_handler's bookkeeping: save the registers, count, fold them into the hash. */
  function HashEntry(env: Env, t: Thread, r: Regs): Thread {
    t.(regs := r, instCnt := ToWord(t.instCnt + 1), regHash := env.hash(r, t.regHash))
  }

  predicate StackOk(t: Thread) {
    t.stackStart <= t.regs[SP] <= t.stackEnd
  }

  /** A character on the console and the thread that printed it. */
  datatype Printed = Printed(tid: nat, ch: Word)

  datatype SysResult = Yield(t: Thread, out: seq<Printed>) | Exit(t: Thread, code: Word) | Panic(reason: Reason)

  /** equiv_syscall_handler up to the point where it picks the next thread. */
  function SyscallEntry(t0: Thread, r: Regs): SysResult {
    var t := t0.(regs := r);
    if !StackOk(t) then Panic(StackOutOfRange)
    else if r[0] == SYS_PUTC then Yield(t, [Printed(t.tid, r[1] % 256)])
    else if r[0] == SYS_EXIT then
      if t.expectedHash == 0 then Exit(t.(expectedHash := t.regHash), r[1])
      else if t.expectedHash == t.regHash then Exit(t, r[1])
      else Panic(HashMismatch)
    else Panic(IllegalSyscall)
  }

  // ----- The machine -----

  /** A finished thread and its exit code. */
  datatype Gone = Gone(t: Thread, code: Word)

  /** The processor runs `cur` in user mode, or equiv_run has returned, or the kernel has panicked. */
  datatype Machine =
    | User(cur: Thread, queue: seq<Thread>, cpu: Regs, bvr0: Word, gone: seq<Gone>, console: seq<Printed>)
    | Returned(gone: seq<Gone>, console: seq<Printed>)
    | Panicked(tid: nat, reason: Reason)

  /** mismatch_run: the resumed pc does not fault. */
  function Resume(t: Thread, queue: seq<Thread>, gone: seq<Gone>, console: seq<Printed>): Machine {
    User(t, queue, t.regs, t.regs[PC], gone, console)
  }

  /** equiv_schedule: the next thread if there is one, with the current one behind all others. */
  function Schedule(cur: Thread, queue: seq<Thread>, gone: seq<Gone>, console: seq<Printed>): Machine {
    if queue == [] then Resume(cur, [], gone, console)
    else Resume(queue[0], queue[1..] + [cur], gone, console)
  }

  /** Whether the next thing the processor does is enter a handler. */
  predicate Faults(cpu: Regs, bvr0: Word) {
    cpu[PC] != bvr0
  }

  /** mismatch_fault with equiv_hash_handler as the step handler. */
  function PrefetchAbort(env: Env, m: Machine): Machine
    requires m.User?
  {
    if m.cpu[PC] == env.ssOnExit then Panicked(m.cur.tid, LeftProgram)
    else Schedule(HashEntry(env, m.cur, m.cpu), m.queue, m.gone, m.console)
  }

  function Syscall(m: Machine, r: Regs): Machine
    requires m.User?
  {
    match SyscallEntry(m.cur, r)
    case Yield(t, out) => Schedule(t, m.queue, m.gone, m.console + out)
    case Panic(reason) => Panicked(m.cur.tid, reason)
    case Exit(t, code) =>
      var gone := m.gone + [Gone(t, code)];
      if m.queue == [] then Returned(gone, m.console)
      else Resume(m.queue[0], m.queue[1..], gone, m.console)
  }

  /** One event of the processor: a fault, or one instruction of the current thread. */
  function Step(env: Env, m: Machine): Machine
    requires m.User?
  {
    if Faults(m.cpu, m.bvr0) then PrefetchAbort(env, m)
    else
      match env.code(m.cpu, m.cur.mem)
      case Plain(r, mem) => m.(cpu := r, cur := m.cur.(mem := mem))
      case Swi(r) => Syscall(m, r)
  }

  function Run(env: Env, m: Machine, n: nat): Machine
    decreases n
  {
    if n == 0 || !m.User? then m else Run(env, Step(env, m), n - 1)
  }

  /** equiv_run's start: the head of the run queue first. */
  function Boot(ts: seq<Thread>): Machine
    requires ts != []
  {
    Resume(ts[0], ts[1..], [], [])
  }

  // ----- One thread by itself -----

  datatype Local = Live(t: Thread, cpu: Regs, bvr0: Word) | Exited(g: Gone) | Crashed(tid: nat, reason: Reason)
  {
    function Tid(): nat {
      match this
      case Live(t, _, _) => t.tid
      case Exited(g) => g.t.tid
      case Crashed(tid, _) => tid
    }
  }

  /** A thread as it is while it waits. */
  function Park(t: Thread): Local {
    Live(t, t.regs, t.regs[PC])
  }

  /** The events of one thread, with no one else in sight. */
  function LocalStep(env: Env, l: Local): Local {
    if !l.Live? then l
    else if Faults(l.cpu, l.bvr0) then
      if l.cpu[PC] == env.ssOnExit then Crashed(l.t.tid, LeftProgram)
      else Park(HashEntry(env, l.t, l.cpu))
    else
      match env.code(l.cpu, l.t.mem)
      case Plain(r, mem) => Live(l.t.(mem := mem), r, l.bvr0)
      case Swi(r) =>
        match SyscallEntry(l.t, r)
        case Yield(t, _) => Park(t)
        case Panic(reason) => Crashed(l.t.tid, reason)
        case Exit(t, code) => Exited(Gone(t, code))
  }

  function LocalRun(env: Env, l: Local, n: nat): Local
    decreases n
  {
    if n == 0 then l else LocalRun(env, LocalStep(env, l), n - 1)
  }

  lemma {:induction false} LocalRunAdds(env: Env, l: Local, m: nat, n: nat)
    ensures LocalRun(env, LocalRun(env, l, m), n) == LocalRun(env, l, m + n)
    decreases m
  {
    if m > 0 {
      LocalRunAdds(env, LocalStep(env, l), m - 1, n);
    }
  }

  lemma {:induction false} FinishedStays(env: Env, l: Local, n: nat)
    requires !l.Live?
    ensures LocalRun(env, l, n) == l
    decreases n
  {
    if n > 0 {
      FinishedStays(env, l, n - 1);
    }
  }

  // ----- Where a thread is in the machine -----

  /** The current thread's state is on the processor. */
  function Current(m: Machine): Local
    requires m.User?
  {
    Live(m.cur, m.cpu, m.bvr0)
  }

  /** The machine holds exactly this state of this thread: running, waiting, or finished. */
  ghost predicate Holds(m: Machine, l: Local) {
    || (m.User? && l == Current(m))
    || (m.User? && l.Live? && l == Park(l.t) && l.t in m.queue)
    || (!m.Panicked? && l.Exited? && l.g in m.gone)
  }

  /** No two threads share an identity. */
  ghost predicate Distinct(m: Machine) {
    && (m.User? ==>
      && (forall i, j | 0 <= i < j < |m.queue| :: m.queue[i].tid != m.queue[j].tid)
      && (forall t | t in m.queue :: t.tid != m.cur.tid)
      && (forall t, g | t in m.queue && g in m.gone :: t.tid != g.t.tid)
      && (forall g | g in m.gone :: g.t.tid != m.cur.tid))
    && (!m.Panicked? ==> forall i, j | 0 <= i < j < |m.gone| :: m.gone[i].t.tid != m.gone[j].t.tid)
  }

  lemma LocalStepKeepsTid(env: Env, l: Local)
    ensures LocalStep(env, l).Tid() == l.Tid()
  {
  }

  /** Switching threads parks the current one and changes no thread's state. */
  lemma ScheduleProjects(cur: Thread, queue: seq<Thread>, gone: seq<Gone>, console: seq<Printed>, l: Local)
    requires Distinct(Resume(cur, queue, gone, console))
    ensures var m := Schedule(cur, queue, gone, console);
      && Distinct(m)
      && (Holds(Resume(cur, queue, gone, console), l) ==> Holds(m, l))
  {
    if queue != [] {
      assert queue == [queue[0]] + queue[1..];
    }
  }

  /** An exit removes the current thread, records it, and changes no other thread's state. */
  lemma ExitProjects(cur: Thread, queue: seq<Thread>, gone: seq<Gone>, console: seq<Printed>, g: Gone, l: Local)
    requires Distinct(Resume(cur, queue, gone, console)) && g.t.tid == cur.tid
    ensures var m := if queue == [] then Returned(gone + [g], console) else Resume(queue[0], queue[1..], gone + [g], console);
      && Distinct(m)
      && Holds(m, Exited(g))
      && (Holds(Resume(cur, queue, gone, console), l) && l.Tid() != cur.tid ==> Holds(m, l))
  {
    assert g in gone + [g];
    if queue != [] {
      assert queue == [queue[0]] + queue[1..];
    }
  }

  /** The current thread is the only one with its identity. */
  lemma CurrentIsUnique(m: Machine, l: Local)
    requires m.User? && Distinct(m) && Holds(m, l) && l.Tid() == m.cur.tid
    ensures l == Current(m)
  {
  }

  /** What a step of the machine means for one thread. */
  ghost predicate Projects(env: Env, m: Machine, l: Local)
    requires m.User?
  {
    var m' := Step(env, m);
    if m'.Panicked? then LocalStep(env, Current(m)) == Crashed(m'.tid, m'.reason)
    else Holds(m', if l.Tid() == m.cur.tid then LocalStep(env, l) else l)
  }

  /** A step of the machine is a step of the current thread and of no other. */
  lemma StepProjects(env: Env, m: Machine, l: Local)
    requires m.User? && Distinct(m) && Holds(m, l)
    ensures Distinct(Step(env, m)) && Projects(env, m, l)
  {
    if l.Tid() == m.cur.tid {
      CurrentIsUnique(m, l);
    }
    if Faults(m.cpu, m.bvr0) {
      if m.cpu[PC] != env.ssOnExit {
        AfterEntry(m, HashEntry(env, m.cur, m.cpu), m.console, l);
      }
    } else {
      match env.code(m.cpu, m.cur.mem)
      case Plain(r, mem) =>
        AfterInstruction(m, r, mem, l);
      case Swi(r) =>
        match SyscallEntry(m.cur, r)
        case Yield(t, out) => AfterEntry(m, t, m.console + out, l);
        case Exit(t, code) => ExitProjects(m.cur, m.queue, m.gone, m.console, Gone(t, code), l);
        case Panic(_) =>
    }
  }

  lemma AfterInstruction(m: Machine, r: Regs, mem: Mem, l: Local)
    requires m.User? && Distinct(m) && Holds(m, l)
    ensures var m' := m.(cpu := r, cur := m.cur.(mem := mem));
      Distinct(m') && Holds(m', if l.Tid() == m.cur.tid then Live(m.cur.(mem := mem), r, m.bvr0) else l)
  {
  }

  /** A handler that updates the current thread and switches. */
  lemma AfterEntry(m: Machine, t: Thread, console: seq<Printed>, l: Local)
    requires m.User? && Distinct(m) && Holds(m, l) && t.tid == m.cur.tid
    ensures var m' := Schedule(t, m.queue, m.gone, console);
      Distinct(m') && Holds(m', if l.Tid() == m.cur.tid then Park(t) else l)
  {
    ScheduleProjects(t, m.queue, m.gone, console, if l.Tid() == m.cur.tid then Park(t) else l);
  }
}
