// How a thread ends, told from its bare program: what the exit check compares, and when
// it reports a mismatch.
module ProgramFate {
  import opened Common
  import opened Words
  import opened DebugHardware
  import opened EquivMachine
  import opened ScheduleIndependence
  import opened HashedTrace

  /** The program without breakpoints and handlers, its system calls returning at once: its state after k instructions. */
  function Bare(env: Env, regs: Regs, mem: Mem, k: nat): (Regs, Mem) {
    if k == 0 then (regs, mem)
    else
      var (r, m) := Bare(env, regs, mem, k - 1);
      match env.code(r, m)
      case Plain(r', m') => (r', m')
      case Swi(r') => (r', m)
  }

  /** Instruction k of the thread's program. */
  function InsnAt(env: Env, t: Thread, k: nat): Insn {
    var (r, m) := Bare(env, t.regs, t.mem, k);
    env.code(r, m)
  }

  /** The fold of the hash over what is hashed of the first k instructions. */
  function FoldAt(env: Env, t: Thread, k: nat): Word {
    FoldHash(env, Snapshots(env, t.regs, t.mem, k), t.regHash)
  }

  /**
   * Instruction k lets the thread go on: it does not move to the exit address of the
   * stepper, and a system call is putc, number 1, with the stack pointer in range.
   */
  predicate GoesOn(env: Env, t: Thread, k: nat) {
    match InsnAt(env, t, k)
    case Plain(r, _) => r[15] == env.ssOnExit ==> r[15] == Bare(env, t.regs, t.mem, k).0[15]
    case Swi(r) => r[0] == 1 && t.stackStart <= r[13] <= t.stackEnd
  }

  /** Instruction k is the one that ends the thread. */
  ghost predicate EndsProgram(env: Env, t: Thread, k: nat) {
    (forall i | 0 <= i < k :: GoesOn(env, t, i)) && !GoesOn(env, t, k)
  }

  /** Instruction k is a call of EQUIV_EXIT, number 0, with the stack pointer in range. */
  predicate CallsExit(env: Env, t: Thread, k: nat) {
    match InsnAt(env, t, k)
    case Plain(_, _) => false
    case Swi(r) => r[0] == 0 && t.stackStart <= r[13] <= t.stackEnd
  }

  /** No hash is expected, or the program's own. */
  predicate HashFits(env: Env, t: Thread, k: nat) {
    t.expectedHash == 0 || t.expectedHash == FoldAt(env, t, k)
  }

  /** How the thread ends with instruction k. */
  function EndAt(env: Env, t: Thread, k: nat): Local
    requires !GoesOn(env, t, k)
  {
    match InsnAt(env, t, k)
    case Plain(_, _) => Crashed(t.tid, LeftProgram)
    case Swi(r) =>
      if !(t.stackStart <= r[13] <= t.stackEnd) then Crashed(t.tid, StackOutOfRange)
      else if r[0] != 0 then Crashed(t.tid, IllegalSyscall)
      else if !HashFits(env, t, k) then Crashed(t.tid, HashMismatch)
      else Exited(Gone(RecordAt(env, t, k, r), r[1]))
  }

  /** The record of an exit: the program's registers, memory, hash and count, the hash noted as expected. */
  function RecordAt(env: Env, t: Thread, k: nat, r: Regs): Thread {
    t.(regs := r, mem := Bare(env, t.regs, t.mem, k).1,
       regHash := FoldAt(env, t, k), expectedHash := FoldAt(env, t, k),
       instCnt := ToWord(t.instCnt + |Snapshots(env, t.regs, t.mem, k)|))
  }

  // ----- The stepped thread follows its program -----

  /** The thread about to execute instruction k, no fault pending. */
  ghost predicate At(env: Env, t: Thread, k: nat, l: Local) {
    && l.Live? && l.bvr0 == l.cpu[PC]
    && (l.cpu, l.t.mem) == Bare(env, t.regs, t.mem, k)
    && l.t == t.(regs := l.t.regs, mem := l.t.mem, regHash := FoldAt(env, t, k),
                 instCnt := ToWord(t.instCnt + |Snapshots(env, t.regs, t.mem, k)|))
  }

  lemma {:induction false} SnapshotsSnoc(env: Env, regs: Regs, mem: Mem, k: nat)
    ensures var (r, m) := Bare(env, regs, mem, k);
      Snapshots(env, regs, mem, k + 1) == Snapshots(env, regs, mem, k) + (
        match env.code(r, m)
        case Plain(r', _) => if r'[PC] != r[PC] then [r'] else []
        case Swi(_) => [])
    decreases k
  {
    if k == 0 {
      assert Snapshots(env, regs, mem, 1) == match env.code(regs, mem)
        case Plain(r', m') => (if r'[PC] != regs[PC] then [r'] else []) + Snapshots(env, r', m', 0)
        case Swi(r') => Snapshots(env, r', mem, 0);
    } else {
      var (r1, m1) := Bare(env, regs, mem, 1);
      SnapshotsSnoc(env, r1, m1, k - 1);
      BareAdds(env, regs, mem, k - 1);
    }
  }

  lemma {:induction false} BareAdds(env: Env, regs: Regs, mem: Mem, k: nat)
    ensures var (r, m) := Bare(env, regs, mem, 1);
      Bare(env, regs, mem, k + 1) == Bare(env, r, m, k)
  {
    if k > 0 {
      BareAdds(env, regs, mem, k - 1);
    }
  }

  lemma {:induction false} FoldSnoc(env: Env, s: seq<Regs>, r: Regs, h: Word)
    ensures FoldHash(env, s + [r], h) == env.hash(r, FoldHash(env, s, h))
    decreases |s|
  {
    if s == [] {
      assert ([] + [r])[1..] == [];
    } else {
      assert (s + [r])[1..] == s[1..] + [r];
      FoldSnoc(env, s[1..], r, env.hash(s[0], h));
    }
  }

  lemma CountOneMore(a: int)
    ensures ToWord(ToWord(a) + 1) == ToWord(a + 1)
  {
  }

  /** The snapshot of instruction k, if it leaves one. */
  lemma FoldNext(env: Env, t: Thread, k: nat)
    ensures match InsnAt(env, t, k)
      case Plain(r, _) =>
        if r[PC] != Bare(env, t.regs, t.mem, k).0[PC] then
          && FoldAt(env, t, k + 1) == env.hash(r, FoldAt(env, t, k))
          && |Snapshots(env, t.regs, t.mem, k + 1)| == |Snapshots(env, t.regs, t.mem, k)| + 1
        else
          && FoldAt(env, t, k + 1) == FoldAt(env, t, k)
          && |Snapshots(env, t.regs, t.mem, k + 1)| == |Snapshots(env, t.regs, t.mem, k)|
      case Swi(_) =>
        && FoldAt(env, t, k + 1) == FoldAt(env, t, k)
        && |Snapshots(env, t.regs, t.mem, k + 1)| == |Snapshots(env, t.regs, t.mem, k)|
  {
    SnapshotsSnoc(env, t.regs, t.mem, k);
    var s := Snapshots(env, t.regs, t.mem, k);
    assert s + [] == s;
    match InsnAt(env, t, k) {
      case Plain(r, _) => FoldSnoc(env, s, r, t.regHash);
      case Swi(_) =>
    }
  }

  /** One instruction that goes on takes one event, or two if it moves the pc. */
  lemma Executes(env: Env, t: Thread, k: nat, l: Local) returns (j: nat)
    requires At(env, t, k, l) && GoesOn(env, t, k)
    ensures 1 <= j <= 2 && At(env, t, k + 1, LocalRun(env, l, j))
  {
    FoldNext(env, t, k);
    CountOneMore(t.instCnt + |Snapshots(env, t.regs, t.mem, k)|);
    hide FoldAt, Snapshots;
    var l1 := LocalStep(env, l);
    assert LocalRun(env, l, 1) == LocalRun(env, l1, 0) == l1;
    match InsnAt(env, t, k) {
      case Plain(r, m) =>
        if r[PC] == l.cpu[PC] {
          j := 1;
        } else {
          assert LocalRun(env, l, 2) == LocalRun(env, l1, 1) == LocalRun(env, LocalStep(env, l1), 0) == LocalStep(env, l1);
          j := 2;
        }
      case Swi(r) => j := 1;
    }
  }

  /** The instruction that does not go on ends the thread as its program says. */
  lemma Ends(env: Env, t: Thread, k: nat, l: Local) returns (j: nat)
    requires At(env, t, k, l) && !GoesOn(env, t, k)
    ensures 1 <= j <= 2 && LocalRun(env, l, j) == EndAt(env, t, k)
  {
    hide FoldAt, Snapshots;
    var l1 := LocalStep(env, l);
    assert LocalRun(env, l, 1) == LocalRun(env, l1, 0) == l1;
    match InsnAt(env, t, k) {
      case Plain(r, m) =>
        assert LocalRun(env, l, 2) == LocalRun(env, l1, 1) == LocalRun(env, LocalStep(env, l1), 0) == LocalStep(env, l1);
        j := 2;
      case Swi(r) => j := 1;
    }
  }

  /** The thread comes to instruction k if all before it go on. */
  lemma {:induction false} Reaches(env: Env, t: Thread, k: nat) returns (n: nat)
    requires forall i | 0 <= i < k :: GoesOn(env, t, i)
    ensures n >= k && At(env, t, k, LocalRun(env, Park(t), n))
  {
    hide LocalStep, GoesOn;
    if k == 0 {
      n := 0;
      AtStart(env, t);
    } else {
      n := Reaches(env, t, k - 1);
      var l := LocalRun(env, Park(t), n);
      hide At, LocalRun;
      var j := Executes(env, t, k - 1, l);
      LocalRunAdds(env, Park(t), n, j);
      n := n + j;
    }
  }

  lemma AtStart(env: Env, t: Thread)
    ensures At(env, t, 0, LocalRun(env, Park(t), 0))
  {
    assert Snapshots(env, t.regs, t.mem, 0) == [];
  }

  /** A thread whose program ends does so after some number of events, and stays so. */
  lemma ProgramEnds(env: Env, t: Thread, k: nat) returns (n: nat)
    requires EndsProgram(env, t, k)
    ensures LocalRun(env, Park(t), n) == EndAt(env, t, k)
  {
    n := Reaches(env, t, k);
    hide At, LocalRun, GoesOn, EndAt;
    var j := Ends(env, t, k, LocalRun(env, Park(t), n));
    LocalRunAdds(env, Park(t), n, j);
    n := n + j;
  }

  /** The first of the first n instructions that does not go on, if there is one. */
  lemma {:induction false} FirstEnd(env: Env, t: Thread, n: nat) returns (k: nat)
    ensures k <= n && forall i | 0 <= i < k :: GoesOn(env, t, i)
    ensures k < n ==> EndsProgram(env, t, k)
  {
    hide GoesOn;
    if n == 0 {
      k := 0;
    } else {
      k := FirstEnd(env, t, n - 1);
      if k == n - 1 && GoesOn(env, t, k) {
        k := n;
      }
    }
  }

  lemma StoppedAreEqual(env: Env, l: Local, m: nat, n: nat)
    requires !LocalRun(env, l, m).Live? && !LocalRun(env, l, n).Live?
    ensures LocalRun(env, l, m) == LocalRun(env, l, n)
  {
    hide LocalStep, LocalRun;
    if m <= n {
      LocalRunAdds(env, l, m, n - m);
      FinishedStays(env, LocalRun(env, l, m), n - m);
    } else {
      LocalRunAdds(env, l, n, m - n);
      FinishedStays(env, LocalRun(env, l, n), m - n);
    }
  }

  lemma StillLive(env: Env, l: Local, m: nat, n: nat)
    requires m <= n && LocalRun(env, l, n).Live?
    ensures LocalRun(env, l, m).Live?
  {
    hide LocalStep, LocalRun;
    if !LocalRun(env, l, m).Live? {
      LocalRunAdds(env, l, m, n - m);
      FinishedStays(env, LocalRun(env, l, m), n - m);
    }
  }

  /** However the thread has ended, its program tells how. */
  lemma FateOfTheProgram(env: Env, t: Thread, n: nat) returns (k: nat)
    requires !LocalRun(env, Park(t), n).Live?
    ensures EndsProgram(env, t, k) && LocalRun(env, Park(t), n) == EndAt(env, t, k)
  {
    k := FirstEnd(env, t, n);
    hide LocalRun, GoesOn, EndAt;
    if k == n {
      var m := Reaches(env, t, n);
      assert LocalRun(env, Park(t), m).Live?;
      hide At;
      StillLive(env, Park(t), n, m);
      assert false;
    }
    var m := ProgramEnds(env, t, k);
    NotLive(env, t, k);
    StoppedAreEqual(env, Park(t), m, n);
  }

  lemma NotLive(env: Env, t: Thread, k: nat)
    requires !GoesOn(env, t, k)
    ensures !EndAt(env, t, k).Live?
  {
  }

  // ----- The verdict -----

  /**
   * The check is made: a thread that has exited was not expected to have a hash, or has
   * the one that was expected, and its record is that of its program.
   */
  lemma ExitedAsExpected(env: Env, t: Thread, n: nat) returns (k: nat)
    requires LocalRun(env, Park(t), n).Exited?
    ensures (forall i | 0 <= i < k :: GoesOn(env, t, i)) && CallsExit(env, t, k)
    ensures var g, r := LocalRun(env, Park(t), n).g, InsnAt(env, t, k).regs;
      && g.t.regHash == g.t.expectedHash == FoldAt(env, t, k)
      && (t.expectedHash != 0 ==> g.t.regHash == t.expectedHash)
      && g.t.regs == r && g.code == r[1] && g.t.mem == Bare(env, t.regs, t.mem, k).1
  {
    hide LocalRun, Bare, FoldAt, Snapshots;
    k := FateOfTheProgram(env, t, n);
  }

  /**
   * A mismatch is reported of a thread by itself if and only if its program calls
   * EQUIV_EXIT, with the stack pointer in range and a hash other than the one expected.
   */
  lemma MismatchReportedIff(env: Env, t: Thread)
    ensures (exists n :: LocalRun(env, Park(t), n) == Crashed(t.tid, HashMismatch))
      <==> (exists k :: CallsExitWrongly(env, t, k))
  {
    if n: nat :| LocalRun(env, Park(t), n) == Crashed(t.tid, HashMismatch) {
      hide LocalRun, Bare, FoldAt, Snapshots;
      var k := FateOfTheProgram(env, t, n);
      assert CallsExitWrongly(env, t, k);
    }
    if k: nat :| CallsExitWrongly(env, t, k) {
      WrongExitEnds(env, t, k);
      hide LocalRun, Bare, FoldAt, Snapshots, CallsExitWrongly, EndAt;
      var n := ProgramEnds(env, t, k);
      assert LocalRun(env, Park(t), n) == Crashed(t.tid, HashMismatch);
    }
  }

  ghost predicate CallsExitWrongly(env: Env, t: Thread, k: nat) {
    && (forall i | 0 <= i < k :: GoesOn(env, t, i)) && CallsExit(env, t, k)
    && t.expectedHash != 0 && FoldAt(env, t, k) != t.expectedHash
  }

  lemma WrongExitEnds(env: Env, t: Thread, k: nat)
    requires CallsExitWrongly(env, t, k)
    ensures EndsProgram(env, t, k) && EndAt(env, t, k) == Crashed(t.tid, HashMismatch)
  {
    hide Bare, FoldAt, Snapshots;
  }

  // ----- Output -----

  /** What the first k instructions of a program put: the low bytes of r1 at its calls of putc. */
  function Puts(env: Env, t: Thread, regs: Regs, mem: Mem, k: nat): seq<Printed>
    decreases k
  {
    if k == 0 then []
    else
      match env.code(regs, mem)
      case Plain(r, m) => Puts(env, t, r, m, k - 1)
      case Swi(r) =>
        (if r[0] == 1 && t.stackStart <= r[13] <= t.stackEnd then [Printed(t.tid, r[1] % 256)] else [])
        + Puts(env, t, r, mem, k - 1)
  }

  lemma {:induction false} PutsByIdentity(env: Env, t: Thread, u: Thread, regs: Regs, mem: Mem, k: nat)
    requires t.tid == u.tid && t.stackStart == u.stackStart && t.stackEnd == u.stackEnd
    ensures Puts(env, t, regs, mem, k) == Puts(env, u, regs, mem, k)
    decreases k
  {
    if k > 0 {
      match env.code(regs, mem)
      case Plain(r, m) => PutsByIdentity(env, t, u, r, m, k - 1);
      case Swi(r) => PutsByIdentity(env, t, u, r, mem, k - 1);
    }
  }

  /** One event prints what its instruction puts, if it is one. */
  lemma PutsStep(env: Env, l: Local, n: nat)
    requires l.Live? && n > 0
    ensures var l' := LocalStep(env, l);
      if l'.Live? then
        && l'.t.tid == l.t.tid && l'.t.stackStart == l.t.stackStart && l'.t.stackEnd == l.t.stackEnd
        && Puts(env, l.t, l.cpu, l.t.mem, Instructions(env, l, n))
        == StepOutput(env, l) + Puts(env, l.t, l'.cpu, l'.t.mem, Instructions(env, l', n - 1))
      else Puts(env, l.t, l.cpu, l.t.mem, Instructions(env, l, n)) == StepOutput(env, l)
  {
    if !LocalStep(env, l).Live? {
      assert Instructions(env, LocalStep(env, l), n - 1) == 0;
    }
  }

  lemma {:induction false} OutputIsOfTheProgram(env: Env, l: Local, n: nat)
    requires l.Live?
    ensures LocalOutput(env, l, n) == Puts(env, l.t, l.cpu, l.t.mem, Instructions(env, l, n))
    decreases n
  {
    if n > 0 {
      PutsStep(env, l, n);
      hide LocalStep, StepOutput, Puts, Instructions;
      var l' := LocalStep(env, l);
      if l'.Live? {
        OutputIsOfTheProgram(env, l', n - 1);
        PutsByIdentity(env, l'.t, l.t, l'.cpu, l'.t.mem, Instructions(env, l', n - 1));
      } else {
        FinishedIsSilent(env, l', n - 1);
      }
    }
  }

  /** In every group and at every moment, a thread has printed what its program has put so far. */
  lemma PrintsItsProgram(env: Env, ts: seq<Thread>, n: nat, i: nat)
    requires DistinctThreads(ts) && i < |ts| && !Run(env, Boot(ts), n).Panicked?
    ensures var t, k := ts[i], Instructions(env, Park(ts[i]), Turns(env, Boot(ts), ts[i].tid, n));
      PrintedBy(t.tid, Run(env, Boot(ts), n).console) == Puts(env, t, t.regs, t.mem, k)
  {
    BootHolds(ts, i);
    OutputIsOfTheProgram(env, Park(ts[i]), Turns(env, Boot(ts), ts[i].tid, n));
    OutputProjects(env, Boot(ts), Park(ts[i]), n);
    hide Run, Turns, LocalOutput, Instructions, Puts;
    assert PrintedBy(ts[i].tid, []) == [];
  }
}
