// What the equivalence checker is for: a thread's registers, hash, instruction count
// and exit do not depend on which threads run beside it or how they interleave.
module ScheduleIndependence {
  import opened Words
  import opened DebugHardware
  import opened EquivMachine

  // ----- Every run projects onto runs of its threads -----

  /** How many of the first n events belong to a thread. */
  function Turns(env: Env, m: Machine, tid: nat, n: nat): nat
    decreases n
  {
    if n == 0 || !m.User? then 0
    else (if m.cur.tid == tid then 1 else 0) + Turns(env, Step(env, m), tid, n - 1)
  }

  lemma {:induction false} RunProjects(env: Env, m: Machine, l: Local, n: nat)
    requires Distinct(m) && Holds(m, l)
    ensures Distinct(Run(env, m, n))
    ensures !Run(env, m, n).Panicked? ==>
      Holds(Run(env, m, n), LocalRun(env, l, Turns(env, m, l.Tid(), n)))
    decreases n
  {
    hide Step, LocalStep, Distinct, Holds;
    if n > 0 && m.User? {
      StepProjects(env, m, l);
      LocalStepKeepsTid(env, l);
      var m' := Step(env, m);
      if m'.Panicked? {
        DistinctPanic(m', env, n - 1);
      } else {
        RunProjects(env, m', if l.Tid() == m.cur.tid then LocalStep(env, l) else l, n - 1);
      }
    }
  }

  lemma DistinctPanic(m: Machine, env: Env, n: nat)
    requires m.Panicked?
    ensures Distinct(m) && Run(env, m, n) == m
  {
  }

  lemma HeldStateIsUnique(m: Machine, k: Local, l: Local)
    requires Distinct(m) && Holds(m, k) && Holds(m, l) && k.Tid() == l.Tid()
    ensures k == l
  {
    if k.Live? && l.Live? && k != Current(m) && l != Current(m) {
      var i :| 0 <= i < |m.queue| && m.queue[i] == k.t;
      var j :| 0 <= j < |m.queue| && m.queue[j] == l.t;
    } else if k.Exited? && l.Exited? {
      var i :| 0 <= i < |m.gone| && m.gone[i] == k.g;
      var j :| 0 <= j < |m.gone| && m.gone[j] == l.g;
    }
  }

  lemma {:induction false} LocalRunKeepsTid(env: Env, l: Local, n: nat)
    ensures LocalRun(env, l, n).Tid() == l.Tid()
    decreases n
  {
    hide LocalStep;
    if n > 0 {
      LocalStepKeepsTid(env, l);
      LocalRunKeepsTid(env, LocalStep(env, l), n - 1);
    }
  }

  // ----- A machine with one thread is that thread -----

  /** A machine that runs, or has run, nothing but the thread whose state is l. */
  ghost predicate IsSolo(m: Machine, l: Local) {
    match l
    case Live(_, _, _) => m.User? && m.queue == [] && m.gone == [] && Current(m) == l
    case Exited(g) => m.Returned? && m.gone == [g]
    case Crashed(tid, reason) => m == Panicked(tid, reason)
  }

  /** Whether an event of the processor enters a handler. */
  predicate Enters(env: Env, cpu: Regs, bvr0: Word, mem: Mem) {
    Faults(cpu, bvr0) || env.code(cpu, mem).Swi?
  }

  /** Handler entries among the first n events. */
  function Entries(env: Env, m: Machine, n: nat): nat
    decreases n
  {
    if n == 0 || !m.User? then 0
    else (if Enters(env, m.cpu, m.bvr0, m.cur.mem) then 1 else 0) + Entries(env, Step(env, m), n - 1)
  }

  function LocalEntries(env: Env, l: Local, n: nat): nat
    decreases n
  {
    if n == 0 || !l.Live? then 0
    else (if Enters(env, l.cpu, l.bvr0, l.t.mem) then 1 else 0) + LocalEntries(env, LocalStep(env, l), n - 1)
  }

  lemma SoloStep(env: Env, m: Machine, l: Local)
    requires IsSolo(m, l) && l.Live?
    ensures IsSolo(Step(env, m), LocalStep(env, l))
  {
  }

  lemma {:induction false} SoloRun(env: Env, m: Machine, l: Local, n: nat)
    requires IsSolo(m, l)
    ensures IsSolo(Run(env, m, n), LocalRun(env, l, n))
    ensures Entries(env, m, n) == LocalEntries(env, l, n)
    decreases n
  {
    hide Step, LocalStep;
    if n > 0 {
      if l.Live? {
        SoloStep(env, m, l);
        SoloRun(env, Step(env, m), LocalStep(env, l), n - 1);
      } else {
        FinishedStays(env, l, n);
      }
    }
  }

  // ----- Schedule independence -----

  ghost predicate DistinctThreads(ts: seq<Thread>) {
    forall i, j | 0 <= i < j < |ts| :: ts[i].tid != ts[j].tid
  }

  lemma BootHolds(ts: seq<Thread>, i: nat)
    requires DistinctThreads(ts) && i < |ts|
    ensures Distinct(Boot(ts)) && Holds(Boot(ts), Park(ts[i]))
    ensures IsSolo(Boot([ts[i]]), Park(ts[i]))
  {
    if i > 0 {
      assert ts[i] == ts[1..][i - 1];
    }
  }

  /**
   * A thread that finishes in a group finishes in exactly the same way alone: same
   * exit code, registers, memory, instruction count and hash, after as many events
   * as were its own in the group.
   */
  lemma ExitsAsAlone(env: Env, ts: seq<Thread>, n: nat, i: nat, g: Gone)
    requires DistinctThreads(ts) && i < |ts|
    requires var m := Run(env, Boot(ts), n);
      !m.Panicked? && g in m.gone && g.t.tid == ts[i].tid
    ensures var alone := Run(env, Boot([ts[i]]), Turns(env, Boot(ts), ts[i].tid, n));
      alone.Returned? && alone.gone == [g]
  {
    var m, k := Run(env, Boot(ts), n), Turns(env, Boot(ts), ts[i].tid, n);
    BootHolds(ts, i);
    RunProjects(env, Boot(ts), Park(ts[i]), n);
    LocalRunKeepsTid(env, Park(ts[i]), k);
    HeldStateIsUnique(m, LocalRun(env, Park(ts[i]), k), Exited(g));
    SoloRun(env, Boot([ts[i]]), Park(ts[i]), k);
  }

  /** When a group returns, every one of its threads returns alone. */
  lemma ReturnsOnlyIfAllDo(env: Env, ts: seq<Thread>, n: nat, i: nat)
    requires DistinctThreads(ts) && i < |ts|
    requires Run(env, Boot(ts), n).Returned?
    ensures var alone := Run(env, Boot([ts[i]]), Turns(env, Boot(ts), ts[i].tid, n));
      alone.Returned? && |alone.gone| == 1 && alone.gone[0] in Run(env, Boot(ts), n).gone
  {
    hide Step, LocalStep, Run, LocalRun, Turns;
    BootHolds(ts, i);
    RunProjects(env, Boot(ts), Park(ts[i]), n);
    SoloRun(env, Boot([ts[i]]), Park(ts[i]), Turns(env, Boot(ts), ts[i].tid, n));
  }

  /** Two groups that share a thread see it exit identically. */
  lemma ExitsAlikeInAllGroups(env: Env, ts: seq<Thread>, us: seq<Thread>, i: nat, j: nat, m: nat, n: nat, g: Gone, h: Gone)
    requires DistinctThreads(ts) && DistinctThreads(us)
    requires i < |ts| && j < |us| && ts[i] == us[j]
    requires !Run(env, Boot(ts), m).Panicked? && g in Run(env, Boot(ts), m).gone && g.t.tid == ts[i].tid
    requires !Run(env, Boot(us), n).Panicked? && h in Run(env, Boot(us), n).gone && h.t.tid == us[j].tid
    ensures g == h
  {
    hide Step, LocalStep, Turns, Run;
    var t := ts[i];
    var p, q := Turns(env, Boot(ts), t.tid, m), Turns(env, Boot(us), t.tid, n);
    ExitsAsAlone(env, ts, m, i, g);
    ExitsAsAlone(env, us, n, j, h);
    SoloRun(env, Boot([t]), Park(t), p);
    SoloRun(env, Boot([t]), Park(t), q);
    if p <= q {
      LocalRunAdds(env, Park(t), p, q - p);
      FinishedStays(env, Exited(g), q - p);
    } else {
      LocalRunAdds(env, Park(t), q, p - q);
      FinishedStays(env, Exited(h), p - q);
    }
  }

  // ----- A group panics only if one of its threads does -----

  function QueueTids(ts: seq<Thread>): (s: seq<nat>)
    ensures |s| == |ts|
  {
    seq(|ts|, i requires 0 <= i < |ts| => ts[i].tid)
  }

  function GoneTids(gs: seq<Gone>): (s: seq<nat>)
    ensures |s| == |gs|
  {
    seq(|gs|, i requires 0 <= i < |gs| => gs[i].t.tid)
  }

  /** The threads still to run, the current one first. */
  function LiveTids(m: Machine): seq<nat> {
    if m.User? then [m.cur.tid] + QueueTids(m.queue) else []
  }

  function DoneTids(m: Machine): seq<nat> {
    if m.Panicked? then [] else GoneTids(m.gone)
  }

  /** What one event does to the order of the threads: rotate at a handler entry, drop at an exit. */
  lemma StepReorders(env: Env, m: Machine)
    requires m.User? && !Step(env, m).Panicked?
    ensures var m' := Step(env, m);
      if !Enters(env, m.cpu, m.bvr0, m.cur.mem) then LiveTids(m') == LiveTids(m) && DoneTids(m') == DoneTids(m)
      else if LocalStep(env, Current(m)).Exited? then
        LiveTids(m') == LiveTids(m)[1..] && DoneTids(m') == DoneTids(m) + [m.cur.tid]
      else
        LiveTids(m') == LiveTids(m)[1..] + [m.cur.tid] && DoneTids(m') == DoneTids(m)
  {
    if Faults(m.cpu, m.bvr0) {
      RotateTids(m.queue, HashEntry(env, m.cur, m.cpu));
    } else {
      match env.code(m.cpu, m.cur.mem)
      case Plain(_, _) =>
      case Swi(r) =>
        match SyscallEntry(m.cur, r)
        case Yield(t, _) => RotateTids(m.queue, t);
        case Exit(t, code) => RetireTid(m.queue, m.gone, Gone(t, code));
        case Panic(_) =>
    }
  }

  lemma RotateTids(q: seq<Thread>, t: Thread)
    ensures [t.tid] + QueueTids([]) == [t.tid]
    ensures q != [] ==> [q[0].tid] + QueueTids(q[1..] + [t]) == QueueTids(q) + [t.tid]
  {
  }

  lemma RetireTid(q: seq<Thread>, gone: seq<Gone>, g: Gone)
    ensures GoneTids(gone + [g]) == GoneTids(gone) + [g.t.tid]
    ensures q != [] ==> [q[0].tid] + QueueTids(q[1..]) == QueueTids(q)
  {
  }

  /** Every thread is, at every moment, exactly once current, waiting or finished. */
  lemma {:induction false} ThreadsAreConserved(env: Env, m: Machine, n: nat)
    requires !Run(env, m, n).Panicked?
    ensures var m' := Run(env, m, n);
      multiset(LiveTids(m') + DoneTids(m')) == multiset(LiveTids(m) + DoneTids(m))
    decreases n
  {
    hide Step, LocalStep, LiveTids, DoneTids, Enters;
    if n > 0 && m.User? {
      var m' := Step(env, m);
      if m'.Panicked? {
        DistinctPanic(m', env, n - 1);
        assert false;
      }
      StepReorders(env, m);
      LiveNonempty(m);
      var live, done := LiveTids(m), DoneTids(m);
      assert live == [live[0]] + live[1..];
      ThreadsAreConserved(env, m', n - 1);
    }
  }

  lemma LiveNonempty(m: Machine)
    requires m.User?
    ensures LiveTids(m) != [] && LiveTids(m)[0] == m.cur.tid
  {
  }

  /** The panic of a group is the panic of one of its threads run alone. */
  lemma PanicsAsAlone(env: Env, ts: seq<Thread>, n: nat) returns (i: nat)
    requires ts != [] && DistinctThreads(ts)
    requires Run(env, Boot(ts), n).Panicked?
    ensures i < |ts|
    ensures Run(env, Boot([ts[i]]), Turns(env, Boot(ts), ts[i].tid, n)) == Run(env, Boot(ts), n)
  {
    var boot := Boot(ts);
    var k := LastUserStep(env, boot, n);
    var m := Run(env, boot, k);
    hide *;
    i := CurrentIndex(env, ts, k);
    CrashesAlone(env, ts, i, k);
    TurnsBeforePanic(env, boot, k, n);
  }

  lemma TurnsBeforePanic(env: Env, m: Machine, k: nat, n: nat)
    requires k < n && Run(env, m, k).User? && Step(env, Run(env, m, k)).Panicked?
    ensures Turns(env, m, Run(env, m, k).cur.tid, n) == Turns(env, m, Run(env, m, k).cur.tid, k) + 1
  {
    hide *;
    TurnsSplit(env, m, Run(env, m, k).cur.tid, k, n - k);
    PanicStops(env, Run(env, m, k), n - k);
  }

  lemma CrashesAlone(env: Env, ts: seq<Thread>, i: nat, k: nat)
    requires DistinctThreads(ts) && i < |ts|
    requires var m := Run(env, Boot(ts), k);
      m.User? && m.cur.tid == ts[i].tid && Step(env, m).Panicked?
    ensures Run(env, Boot([ts[i]]), Turns(env, Boot(ts), ts[i].tid, k) + 1) == Step(env, Run(env, Boot(ts), k))
  {
    BootHolds(ts, i);
    hide Step, LocalStep, Run, LocalRun, Turns, Boot, Distinct, Holds;
    var l := Park(ts[i]);
    var p := CrashesInPlace(env, Boot(ts), l, k);
    SoloRun(env, Boot([ts[i]]), l, p + 1);
  }

  lemma CrashesInPlace(env: Env, boot: Machine, l: Local, k: nat) returns (p: nat)
    requires Distinct(boot) && Holds(boot, l)
    requires var m := Run(env, boot, k);
      m.User? && m.cur.tid == l.Tid() && Step(env, m).Panicked?
    ensures p == Turns(env, boot, l.Tid(), k)
    ensures var m' := Step(env, Run(env, boot, k));
      LocalRun(env, l, p + 1) == Crashed(m'.tid, m'.reason)
  {
    hide *;
    p := Turns(env, boot, l.Tid(), k);
    CurrentAfterRun(env, boot, l, k);
    CurrentCrashes(env, Run(env, boot, k));
    LocalRunAdds(env, l, p, 1);
  }

  lemma CurrentAfterRun(env: Env, m: Machine, l: Local, k: nat)
    requires Distinct(m) && Holds(m, l)
    requires Run(env, m, k).User? && Run(env, m, k).cur.tid == l.Tid()
    ensures Distinct(Run(env, m, k))
    ensures LocalRun(env, l, Turns(env, m, l.Tid(), k)) == Current(Run(env, m, k))
  {
    hide Distinct, Holds, Run, LocalRun, Turns;
    RunProjects(env, m, l, k);
    LocalRunKeepsTid(env, l, Turns(env, m, l.Tid(), k));
    CurrentIsUnique(Run(env, m, k), LocalRun(env, l, Turns(env, m, l.Tid(), k)));
  }

  lemma CurrentCrashes(env: Env, m: Machine)
    requires m.User? && Distinct(m) && Step(env, m).Panicked?
    ensures LocalRun(env, Current(m), 1) == Crashed(Step(env, m).tid, Step(env, m).reason)
  {
    hide Step, LocalStep, Distinct;
    StepProjects(env, m, Current(m));
    assert LocalRun(env, LocalStep(env, Current(m)), 0) == LocalStep(env, Current(m));
  }

  lemma CurrentIndex(env: Env, ts: seq<Thread>, k: nat) returns (i: nat)
    requires ts != [] && Run(env, Boot(ts), k).User?
    ensures i < |ts| && ts[i].tid == Run(env, Boot(ts), k).cur.tid
  {
    hide Step, LiveTids, DoneTids;
    ThreadsAreConserved(env, Boot(ts), k);
    i := IndexOfTid(ts, Run(env, Boot(ts), k));
  }

  lemma IndexOfTid(ts: seq<Thread>, m: Machine) returns (i: nat)
    requires ts != [] && m.User?
    requires multiset(LiveTids(m) + DoneTids(m)) == multiset(LiveTids(Boot(ts)) + DoneTids(Boot(ts)))
    ensures i < |ts| && ts[i].tid == m.cur.tid
  {
    BootTids(ts);
    LiveNonempty(m);
    hide LiveTids, DoneTids, Boot;
    var all := LiveTids(m) + DoneTids(m);
    assert all[0] == m.cur.tid;
    assert m.cur.tid in multiset(all);
    assert m.cur.tid in QueueTids(ts);
    i :| 0 <= i < |ts| && QueueTids(ts)[i] == m.cur.tid;
  }

  lemma BootTids(ts: seq<Thread>)
    requires ts != []
    ensures LiveTids(Boot(ts)) + DoneTids(Boot(ts)) == QueueTids(ts)
  {
  }

  /** The moment before a panic. */
  lemma {:induction false} LastUserStep(env: Env, m: Machine, n: nat) returns (k: nat)
    requires m.User? && Run(env, m, n).Panicked?
    ensures k < n && Run(env, m, k).User? && Step(env, Run(env, m, k)) == Run(env, m, n)
    decreases n
  {
    var m' := Step(env, m);
    if m'.User? {
      k := LastUserStep(env, m', n - 1);
      k := k + 1;
    } else {
      k := 0;
    }
  }

  lemma {:induction false} RunSplit(env: Env, m: Machine, k: nat, n: nat)
    ensures Run(env, Run(env, m, k), n) == Run(env, m, k + n)
    decreases k
  {
    hide Step;
    if k > 0 && m.User? {
      RunSplit(env, Step(env, m), k - 1, n);
    }
  }

  lemma {:induction false} TurnsSplit(env: Env, m: Machine, tid: nat, k: nat, n: nat)
    ensures Turns(env, m, tid, k + n) == Turns(env, m, tid, k) + Turns(env, Run(env, m, k), tid, n)
    decreases k
  {
    hide Step;
    if k > 0 && m.User? {
      TurnsSplit(env, Step(env, m), tid, k - 1, n);
    }
  }

  lemma PanicStops(env: Env, m: Machine, n: nat)
    requires m.User? && Step(env, m).Panicked? && n > 0
    ensures Turns(env, m, m.cur.tid, n) == 1
  {
  }
}
