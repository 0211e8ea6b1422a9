// Running threads again: a thread that finished once, alone or in any company, finishes
// the same way ever after, and the hash check never rejects it.
module Reruns {
  import opened Words
  import opened DebugHardware
  import opened EquivMachine
  import opened ScheduleIndependence
  import opened SchedulerProgress

  /** equiv_refresh, with the thread's private memory as it was at first. */
  function Refresh(env: Env, t: Thread, mem: Mem): Thread {
    t.(regs := InitialRegs(env, t.fn, t.arg, t.stackEnd), instCnt := 0, regHash := 0, mem := mem)
  }

  function WithExpected(l: Local, x: Word): Local {
    if l.Live? then l.(t := l.t.(expectedHash := x)) else l
  }

  /** A thread that exits leaves with its expected hash equal to its hash. */
  lemma {:induction false} ExitRecordsHash(env: Env, l: Local, n: nat)
    requires l.Live? && LocalRun(env, l, n).Exited?
    ensures var g := LocalRun(env, l, n).g;
      && g.t.expectedHash == g.t.regHash
      && g.t.fn == l.t.fn && g.t.arg == l.t.arg && g.t.tid == l.t.tid
      && g.t.stackStart == l.t.stackStart && g.t.stackEnd == l.t.stackEnd
    decreases n
  {
    var l' := LocalStep(env, l);
    if l'.Live? {
      ExitRecordsHash(env, l', n - 1);
    } else {
      FinishedStays(env, l', n - 1);
    }
  }

  /** The expected hash is not looked at before the exit, and the recorded one is accepted there. */
  lemma {:induction false} ExpectedHashIsAccepted(env: Env, l: Local, n: nat)
    requires l.Live? && LocalRun(env, l, n).Exited?
    ensures var g := LocalRun(env, l, n).g;
      LocalRun(env, WithExpected(l, g.t.expectedHash), n) == Exited(g)
    decreases n
  {
    var l' := LocalStep(env, l);
    var g := LocalRun(env, l, n).g;
    if l'.Live? {
      ExpectedHashIsAccepted(env, l', n - 1);
      assert LocalStep(env, WithExpected(l, g.t.expectedHash)) == WithExpected(l', g.t.expectedHash);
    } else {
      FinishedStays(env, l', n - 1);
      FinishedStays(env, LocalStep(env, WithExpected(l, g.t.expectedHash)), n - 1);
      ExitRecordsHash(env, l, n);
    }
  }

  /**
   * Refreshing a finished thread and running it again from the same memory ends in
   * the very same record; in particular it never reaches the hash-mismatch panic.
   */
  lemma RerunReproduces(env: Env, t: Thread, n: nat, g: Gone)
    requires t == Refresh(env, t, t.mem)
    requires LocalRun(env, Park(t), n) == Exited(g)
    ensures LocalRun(env, Park(Refresh(env, g.t, t.mem)), n) == Exited(g)
  {
    ExitRecordsHash(env, Park(t), n);
    ExpectedHashIsAccepted(env, Park(t), n);
    assert Park(Refresh(env, g.t, t.mem)) == WithExpected(Park(t), g.t.expectedHash);
  }

  /** The thread, by itself, exits with its n-th event and leaves this record. */
  ghost predicate FinishesAt(env: Env, t: Thread, n: nat, g: Gone) {
    ExitsIn(env, Park(t), n) && LocalRun(env, Park(t), n) == Exited(g)
  }

  lemma {:induction false} FirstExit(env: Env, l: Local, p: nat) returns (n: nat)
    requires l.Live? && LocalRun(env, l, p).Exited?
    ensures n <= p && ExitsIn(env, l, n) && LocalRun(env, l, n) == LocalRun(env, l, p)
    decreases p
  {
    hide LocalStep;
    var l' := LocalStep(env, l);
    if l'.Live? {
      n := FirstExit(env, l', p - 1);
      n := n + 1;
    } else {
      FinishedStays(env, l', p - 1);
      n := 1;
      assert LocalRun(env, l', 0) == l' && ExitsIn(env, l', 0);
    }
  }

  /** A thread that has exited in some group finishes so by itself. */
  lemma GroupMemberFinishes(env: Env, ts: seq<Thread>, n: nat, i: nat, g: Gone) returns (k: nat)
    requires DistinctThreads(ts) && i < |ts|
    requires var m := Run(env, Boot(ts), n);
      !m.Panicked? && g in m.gone && g.t.tid == ts[i].tid
    ensures FinishesAt(env, ts[i], k, g)
  {
    BootHolds(ts, i);
    hide LocalStep, Step, Run, LocalRun, Turns, Boot;
    var p := Turns(env, Boot(ts), ts[i].tid, n);
    RunProjects(env, Boot(ts), Park(ts[i]), n);
    LocalRunKeepsTid(env, Park(ts[i]), p);
    HeldStateIsUnique(Run(env, Boot(ts), n), LocalRun(env, Park(ts[i]), p), Exited(g));
    k := FirstExit(env, Park(ts[i]), p);
  }

  /** When a group has returned, every member has finished as it does by itself. */
  lemma ReturnedMemberFinishes(env: Env, ts: seq<Thread>, n: nat, i: nat) returns (k: nat, g: Gone)
    requires DistinctThreads(ts) && i < |ts| && Run(env, Boot(ts), n).Returned?
    ensures g in Run(env, Boot(ts), n).gone && g.t.tid == ts[i].tid && FinishesAt(env, ts[i], k, g)
  {
    BootHolds(ts, i);
    hide LocalStep, Step, Run, LocalRun, Turns, Boot;
    var p := Turns(env, Boot(ts), ts[i].tid, n);
    RunProjects(env, Boot(ts), Park(ts[i]), n);
    LocalRunKeepsTid(env, Park(ts[i]), p);
    g := LocalRun(env, Park(ts[i]), p).g;
    k := FirstExit(env, Park(ts[i]), p);
  }

  lemma {:induction false} RerunTakesAsLong(env: Env, l: Local, n: nat)
    requires l.Live? && ExitsIn(env, l, n) && LocalRun(env, l, n).Exited?
    ensures ExitsIn(env, WithExpected(l, LocalRun(env, l, n).g.t.expectedHash), n)
    decreases n
  {
    var l' := LocalStep(env, l);
    var x := LocalRun(env, l, n).g.t.expectedHash;
    if l'.Live? {
      RerunTakesAsLong(env, l', n - 1);
      assert LocalStep(env, WithExpected(l, x)) == WithExpected(l', x);
    } else {
      FinishedStays(env, l', n - 1);
      ExpectedHashIsAccepted(env, l, n);
      assert n == 1;
      assert LocalRun(env, LocalStep(env, WithExpected(l, x)), 0) == LocalStep(env, WithExpected(l, x));
    }
  }

  /** The record is the thread's own, with the hash noted. */
  lemma RecordIsOwn(env: Env, t: Thread, k: nat, g: Gone)
    requires FinishesAt(env, t, k, g)
    ensures g.t.tid == t.tid && g.t.stackStart == t.stackStart && g.t.stackEnd == t.stackEnd
    ensures g.t.expectedHash == g.t.regHash
  {
    hide LocalStep, LocalRun, ExitsIn;
    ExitRecordsHash(env, Park(t), k);
  }

  /** Refreshed, a finished thread finishes again: at the same event, with the same record. */
  lemma RefreshedFinishes(env: Env, t: Thread, k: nat, g: Gone)
    requires t == Refresh(env, t, t.mem) && FinishesAt(env, t, k, g)
    ensures FinishesAt(env, Refresh(env, g.t, t.mem), k, g)
    ensures g.t.tid == t.tid
  {
    hide LocalStep, LocalRun;
    RerunTakesAsLong(env, Park(t), k);
    RerunReproduces(env, t, k, g);
    ExitRecordsHash(env, Park(t), k);
    assert Park(Refresh(env, g.t, t.mem)) == WithExpected(Park(t), g.t.expectedHash);
  }

  /** A thread that finishes by itself is, whatever its number of events, unfinished or has that record. */
  lemma FinishesOnlySo(env: Env, t: Thread, k: nat, g: Gone, p: nat)
    requires FinishesAt(env, t, k, g)
    ensures var l := LocalRun(env, Park(t), p);
      !l.Crashed? && (l.Exited? ==> l == Exited(g))
  {
    hide LocalStep, LocalRun, ExitsIn;
    if p <= k {
      LocalRunAdds(env, Park(t), p, k - p);
      if !LocalRun(env, Park(t), p).Live? {
        FinishedStays(env, LocalRun(env, Park(t), p), k - p);
      }
    } else {
      LocalRunAdds(env, Park(t), k, p - k);
      FinishedStays(env, Exited(g), p - k);
    }
  }

  /** In any company, at any moment, a thread that finishes by itself has not panicked, and if done has its record. */
  lemma FinishesInAnyCompany(env: Env, us: seq<Thread>, j: nat, k: nat, g: Gone, n: nat)
    requires DistinctThreads(us) && j < |us| && FinishesAt(env, us[j], k, g)
    ensures var m := Run(env, Boot(us), n);
      && (m.Panicked? ==> m.tid != us[j].tid)
      && (m.Returned? ==> g in m.gone)
      && (!m.Panicked? ==> forall h | h in m.gone && h.t.tid == us[j].tid :: h == g)
  {
    BootHolds(us, j);
    hide Step, LocalStep, Run, LocalRun, Turns, Boot, FinishesAt;
    var m, l := Run(env, Boot(us), n), Park(us[j]);
    if m.Panicked? {
      if m.tid == us[j].tid {
        PanicIsACrash(env, us, j, k, g, n);
        assert false;
      }
    } else {
      var p := Turns(env, Boot(us), us[j].tid, n);
      RunProjects(env, Boot(us), l, n);
      FinishesOnlySo(env, us[j], k, g, p);
      LocalRunKeepsTid(env, l, p);
      forall h | h in m.gone && h.t.tid == us[j].tid
        ensures h == g
      {
        HeldStateIsUnique(m, LocalRun(env, l, p), Exited(h));
      }
    }
  }

  lemma PanicIsACrash(env: Env, us: seq<Thread>, j: nat, k: nat, g: Gone, n: nat)
    requires DistinctThreads(us) && j < |us| && FinishesAt(env, us[j], k, g)
    requires Run(env, Boot(us), n).Panicked?
    ensures Run(env, Boot(us), n).tid != us[j].tid
  {
    BootHolds(us, j);
    var q := LastUserStep(env, Boot(us), n);
    var m := Run(env, Boot(us), q);
    PanicNamesCurrent(env, m);
    hide Step, LocalStep, Run, LocalRun, Turns, Boot, FinishesAt, Distinct, Holds;
    if m.cur.tid == us[j].tid {
      var p := CrashesInPlace(env, Boot(us), Park(us[j]), q);
      FinishesOnlySo(env, us[j], k, g, p + 1);
    }
  }

  lemma PanicNamesCurrent(env: Env, m: Machine)
    requires m.User? && Step(env, m).Panicked?
    ensures Step(env, m).tid == m.cur.tid
  {
  }

  /**
   * A thread that finished once, alone or in any company, and is refreshed can be run
   * again in any other company: at no moment has it panicked, with a hash mismatch or
   * otherwise, and when it is done it has left the record of its first run.
   */
  lemma RefreshedInAnyCompany(env: Env, t: Thread, k: nat, g: Gone, us: seq<Thread>, j: nat, n: nat)
    requires t == Refresh(env, t, t.mem) && FinishesAt(env, t, k, g)
    requires DistinctThreads(us) && j < |us| && us[j] == Refresh(env, g.t, t.mem)
    ensures var m := Run(env, Boot(us), n);
      && (m.Panicked? ==> m.tid != us[j].tid)
      && (!m.Panicked? ==> forall h | h in m.gone && h.t.tid == us[j].tid :: h == g)
  {
    hide *;
    RefreshedFinishes(env, t, k, g);
    FinishesInAnyCompany(env, us, j, k, g, n);
  }

  lemma BootLocals(ts: seq<Thread>)
    requires ts != []
    ensures Boot(ts).User? && Locals(Boot(ts)) == Parked(ts)
  {
  }

  /** A group of threads that each finish by themselves returns after the sum of their events. */
  lemma FinishersReturn(env: Env, us: seq<Thread>, ns: seq<nat>, gs: seq<Gone>)
    requires us != [] && DistinctThreads(us) && |us| == |ns| == |gs|
    requires forall j | 0 <= j < |us| :: FinishesAt(env, us[j], ns[j], gs[j])
    ensures Run(env, Boot(us), Sum(ns)).Returned?
    ensures forall j | 0 <= j < |us| :: gs[j] in Run(env, Boot(us), Sum(ns)).gone
  {
    hide Step, LocalStep, Run, LocalRun, Entries, LocalEntries, Boot, Locals, ExitsIn;
    BootLocals(us);
    var es := seq(|us|, j requires 0 <= j < |us| => LocalEntries(env, Park(us[j]), ns[j]));
    RunTakesTheSum(env, Boot(us), ns, es);
    forall j | 0 <= j < |us|
      ensures gs[j] in Run(env, Boot(us), Sum(ns)).gone
    {
      FinishesInAnyCompany(env, us, j, ns[j], gs[j], Sum(ns));
    }
  }

  /**
   * Threads that each finished once, alone or in any company, can be refreshed and run
   * together in any order: the run returns after as many events as theirs together,
   * no hash mismatch is reported, and every thread ends with the record, hash and
   * instruction count of its first run.
   */
  lemma RerunNeverMismatches(env: Env, ts: seq<Thread>, us: seq<Thread>, ns: seq<nat>, gs: seq<Gone>)
    requires ts != [] && DistinctThreads(ts) && |ts| == |us| == |ns| == |gs|
    requires forall j | 0 <= j < |ts| :: FinishesAt(env, ts[j], ns[j], gs[j])
    requires forall j | 0 <= j < |ts| ::
      ts[j] == Refresh(env, ts[j], ts[j].mem) && us[j] == Refresh(env, gs[j].t, ts[j].mem)
    ensures Run(env, Boot(us), Sum(ns)).Returned?
    ensures forall j | 0 <= j < |us| :: gs[j] in Run(env, Boot(us), Sum(ns)).gone
  {
    hide Step, LocalStep, Run, LocalRun, Boot, FinishesAt;
    forall j | 0 <= j < |us|
      ensures FinishesAt(env, us[j], ns[j], gs[j]) && us[j].tid == ts[j].tid
    {
      RefreshedFinishes(env, ts[j], ns[j], gs[j]);
    }
    hide Refresh;
    FinishersReturn(env, us, ns, gs);
  }
}
