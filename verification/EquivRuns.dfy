// What a caller of the thread checker sees on the thread records themselves: after a
// run each record is what the thread leaves alone, and running it again changes nothing.
module EquivRuns {
  import opened Common
  import opened Words
  import opened DebugHardware
  import opened EquivMachine
  import opened ScheduleIndependence
  import opened SchedulerProgress
  import opened Reruns
  import opened ProgramFate
  import opened Verdicts
  import opened EquivThreads

  /** Alone, a thread that starts as `before` exits and is left as `after`. */
  ghost predicate LeavesAs(env: Env, before: Thread, after: Thread) {
    exists k, code :: FinishesAt(env, before, k, Gone(after, code))
  }

  /** No two records have one id. */
  ghost predicate OneToAnId(ths: seq<EqThread>) {
    forall s, t | s in ths && t in ths && s.tid == t.tid :: s == t
  }

  lemma DistinctViews(ths: seq<EqThread>)
    requires OneToAnId(ths) && NoDuplicates(ths)
    ensures DistinctThreads(Views(ths))
  {
  }

  /** The machine's records belong to the threads that were run, each to its own. */
  lemma RecordIsOfItsThread(ths: seq<EqThread>, done: seq<EqThread>, codes: seq<Word>, t: EqThread, g: Gone)
    requires OneToAnId(ths) && (forall d | d in done :: d in ths) && |codes| == |done|
    requires t in ths && g in Records(done, codes) && g.t.tid == t.tid
    ensures t in done && t.View() == g.t
  {
    var i :| 0 <= i < |done| && Records(done, codes)[i] == g;
    assert done[i] in ths && done[i].View() == g.t;
  }

  /**
   * equiv_run, from any set of forked or refreshed threads. When it finishes, each of
   * them is left exactly as it leaves by itself, its program having exited with the hash
   * that was expected; when it panics, one of the programs gives the reason; with a
   * program in it that exits on a wrong hash, it never finishes; and it has come to an
   * end once it has had the events that its threads take to end by themselves.
   */
  method RunGroup(kernel: Kernel, n: nat, ghost ns: seq<nat>) returns (outcome: Outcome)
    requires kernel.Idle()
    modifies kernel`cur, kernel`finished, kernel`exitCodes, kernel`console
    modifies kernel.dbg, kernel.runq, kernel.runq.nodes
    ensures outcome == Finished ==> kernel.Idle() && kernel.runq.nodes == []
    ensures outcome == Finished ==> forall t | t in old(kernel.runq.nodes) ::
      && t in kernel.finished && LeavesAs(kernel.env, old(t.View()), t.View())
      && ExitsLeaving(kernel.env, old(t.View()), t.View())
      && (old(t.expectedHash) != 0 ==> t.regHash == old(t.expectedHash))
    ensures outcome.Rebooted? ==> SomeoneCrashes(kernel.env, old(Views(kernel.runq.nodes)), outcome.reason)
    ensures SomeoneMismatches(kernel.env, old(Views(kernel.runq.nodes))) ==> outcome != Finished
    ensures EndInTime(kernel.env, old(Views(kernel.runq.nodes)), ns, n) ==> !outcome.InUserMode?
  {
    ghost var ths, before := kernel.runq.nodes, Views(kernel.runq.nodes);
    assert OneToAnId(ths) && NoDuplicates(ths);
    DistinctViews(ths);
    hide Views, Records, Run, Boot, Kernel.Registered, FinishesAt, RunQueue.Valid, SomeoneCrashes, SomeoneMismatches;
    hide OneToAnId, NoDuplicates, DistinctThreads, ExitsLeaving, LeavesAs, EndInTime;
    outcome := kernel.EquivRun(n);
    if ths != [] {
      VerdictOn(kernel.env, before, ns, n);
    }
    if outcome == Finished {
      forall i | 0 <= i < |ths|
        ensures ths[i] in kernel.finished && LeavesAs(kernel.env, before[i], ths[i].View())
        ensures ExitsLeaving(kernel.env, before[i], ths[i].View())
        ensures before[i].expectedHash != 0 ==> ths[i].View().regHash == before[i].expectedHash
      {
        MemberLeavesAs(kernel.env, ths, before, kernel.finished, kernel.exitCodes, n, i);
      }
    }
  }

  /** Each thread ends by itself within its number of events, and n is at least all of them. */
  ghost predicate EndInTime(env: Env, ts: seq<Thread>, ns: seq<nat>, n: nat) {
    && |ns| == |ts| && n >= Sum(ns)
    && forall i | 0 <= i < |ts| :: !LocalRun(env, Park(ts[i]), ns[i]).Live?
  }

  lemma VerdictOn(env: Env, ts: seq<Thread>, ns: seq<nat>, n: nat)
    requires ts != [] && DistinctThreads(ts)
    ensures var m := Run(env, Boot(ts), n);
      && (m.Panicked? ==> SomeoneCrashes(env, ts, m.reason))
      && (SomeoneMismatches(env, ts) ==> !m.Returned?)
      && (EndInTime(env, ts, ns, n) ==> !m.User?)
  {
    hide Run, Boot, LocalRun, SomeoneCrashes, SomeoneMismatches, DistinctThreads;
    if Run(env, Boot(ts), n).Panicked? {
      PanicIsOfAProgram(env, ts, n);
    }
    if SomeoneMismatches(env, ts) {
      MismatchPreventsReturn(env, ts, n);
    }
    if EndInTime(env, ts, ns, n) {
      EndsInTime(env, ts, ns);
      RunSplit(env, Boot(ts), Sum(ns), n - Sum(ns));
      EndedStays(env, Run(env, Boot(ts), Sum(ns)), n - Sum(ns));
    }
  }

  lemma MemberLeavesAs(env: Env, ths: seq<EqThread>, before: seq<Thread>,
      done: seq<EqThread>, codes: seq<Word>, n: nat, i: nat)
    requires OneToAnId(ths) && DistinctThreads(before) && i < |before| == |ths| && before[i].tid == ths[i].tid
    requires (forall d | d in done :: d in ths) && |codes| == |done|
    requires Run(env, Boot(before), n).Returned? && Run(env, Boot(before), n).gone == Records(done, codes)
    ensures ths[i] in done && LeavesAs(env, before[i], ths[i].View()) && ExitsLeaving(env, before[i], ths[i].View())
    ensures before[i].expectedHash != 0 ==> ths[i].View().regHash == before[i].expectedHash
  {
    hide Records, Run, Boot, FinishesAt, OneToAnId, DistinctThreads, ExitsLeaving;
    var k, g := ReturnedMemberFinishes(env, before, n, i);
    RecordIsOfItsThread(ths, done, codes, ths[i], g);
    FinishIsOfTheProgram(env, before[i], k, g);
    assert FinishesAt(env, before[i], k, Gone(ths[i].View(), g.code));
  }

  /** Running threads that finish by themselves: the run finishes with all of their events, and each leaves its record. */
  method RunFinishers(kernel: Kernel, n: nat, ghost ns: seq<nat>, ghost gs: seq<Gone>)
    requires kernel.Idle() && kernel.runq.nodes != [] && |ns| == |gs| == |kernel.runq.nodes| && n == Sum(ns)
    requires forall j | 0 <= j < |ns| :: FinishesAt(kernel.env, kernel.runq.nodes[j].View(), ns[j], gs[j])
    modifies kernel`cur, kernel`finished, kernel`exitCodes, kernel`console
    modifies kernel.dbg, kernel.runq, kernel.runq.nodes
    ensures kernel.Idle() && kernel.runq.nodes == []
    ensures forall j | 0 <= j < |gs| :: old(kernel.runq.nodes)[j].View() == gs[j].t
  {
    ghost var ths, us := kernel.runq.nodes, Views(kernel.runq.nodes);
    assert OneToAnId(ths) && NoDuplicates(ths);
    DistinctViews(ths);
    hide Views, Records, Run, Boot, Kernel.Registered, FinishesAt, RunQueue.Valid, OneToAnId;
    FinishersReturn(kernel.env, us, ns, gs);
    var _ := kernel.EquivRun(n);
    forall j | 0 <= j < |ths|
      ensures ths[j].View() == gs[j].t
    {
      RecordIsOwn(kernel.env, us[j], ns[j], gs[j]);
      RecordIsOfItsThread(ths, kernel.finished, kernel.exitCodes, ths[j], gs[j]);
    }
  }

  /** Threads that finished before: how each started, at which event it exited, and its record. */
  ghost predicate FinishedBefore(env: Env, before: seq<Thread>, ns: seq<nat>, gs: seq<Gone>) {
    && |before| == |ns| == |gs|
    && forall j | 0 <= j < |before| ::
      && before[j] == Refresh(env, before[j], before[j].mem) && before[j].stackStart <= before[j].stackEnd
      && FinishesAt(env, before[j], ns[j], gs[j])
  }

  /** equiv_refresh on each thread, the last one first: then they wait in this order, each set to finish again. */
  method RefreshAll(kernel: Kernel, ths: seq<EqThread>,
      ghost before: seq<Thread>, ghost ns: seq<nat>, ghost gs: seq<Gone>)
    requires kernel.Idle() && kernel.runq.nodes == []
    requires NoDuplicates(ths) && forall t | t in ths :: t in kernel.forked
    requires FinishedBefore(kernel.env, before, ns, gs) && |ths| == |before|
    requires forall j | 0 <= j < |ths| :: ths[j].View() == gs[j].t.(mem := before[j].mem)
    modifies kernel.runq, ths
    ensures kernel.Idle() && kernel.runq.nodes == ths
    ensures forall j | 0 <= j < |ths| :: FinishesAt(kernel.env, ths[j].View(), ns[j], gs[j])
  {
    hide FinishesAt, RunQueue.Valid, Refresh, Kernel.Registered;
    var i := |ths|;
    while i > 0
      invariant 0 <= i <= |ths| && kernel.Idle() && kernel.runq.nodes == ths[i..]
      invariant forall j | 0 <= j < i :: ths[j].View() == gs[j].t.(mem := before[j].mem)
      invariant forall j | i <= j < |ths| :: FinishesAt(kernel.env, ths[j].View(), ns[j], gs[j])
    {
      i := i - 1;
      RefreshedFinishes(kernel.env, before[i], ns[i], gs[i]);
      RecordIsOwn(kernel.env, before[i], ns[i], gs[i]);
      RefreshFits(kernel.env, gs[i].t, before[i].mem);
      kernel.EquivRefresh(ths[i]);
    }
  }

  lemma RefreshFits(env: Env, t: Thread, mem: Mem)
    ensures Refresh(env, t.(mem := mem), mem) == Refresh(env, t, mem)
  {
  }

  /**
   * Refreshing finished threads, their private memory put back, and running them
   * together, whoever ran with them the first time: the run finishes without a panic
   * after as many events as theirs together, and leaves every record, hash and count
   * as the first run did.
   */
  method RefreshAndRun(kernel: Kernel, ths: seq<EqThread>, n: nat,
      ghost before: seq<Thread>, ghost ns: seq<nat>, ghost gs: seq<Gone>)
    requires kernel.Idle() && kernel.runq.nodes == []
    requires ths != [] && NoDuplicates(ths) && forall t | t in ths :: t in kernel.forked
    requires FinishedBefore(kernel.env, before, ns, gs) && |ths| == |before| && n == Sum(ns)
    requires forall j | 0 <= j < |ths| :: ths[j].View() == gs[j].t.(mem := before[j].mem)
    modifies kernel`cur, kernel`finished, kernel`exitCodes, kernel`console, kernel.dbg, kernel.runq, ths
    ensures kernel.Idle() && kernel.runq.nodes == []
    ensures forall j | 0 <= j < |ths| :: ths[j].View() == gs[j].t
  {
    RefreshAll(kernel, ths, before, ns, gs);
    hide FinishesAt, FinishedBefore, Kernel.Idle, EqThread.View;
    RunFinishers(kernel, n, ns, gs);
  }

  /** How equiv_fork's thread starts. */
  function Forked(env: Env, tid: nat, fn: Word, arg: Word, expectedHash: Word, stackStart: Word, mem: Mem): Thread
    requires stackStart + STACK_SIZE < TWO32
  {
    var stackEnd := stackStart + STACK_SIZE;
    Thread(tid, fn, arg, stackStart, stackEnd, InitialRegs(env, fn, arg, stackEnd), 0, 0, expectedHash, mem)
  }

  /**
   * Fork a thread, run it, then refresh and run it again as often as one likes: if the
   * program exits at all, every run finishes, with the record of the first and the
   * hash that the first noted.
   */
  method RunSingle(kernel: Kernel, times: nat, fn: Word, arg: Word, expectedHash: Word, stackStart: Word, mem: Mem,
      n: nat, ghost g: Gone)
      returns (th: EqThread)
    requires kernel.Idle() && kernel.runq.nodes == []
    requires stackStart % 8 == 0 && stackStart + STACK_SIZE < TWO32
    requires FinishesAt(kernel.env, Forked(kernel.env, kernel.ntids, fn, arg, expectedHash, stackStart, mem), n, g)
    modifies kernel, kernel.dbg, kernel.runq
    ensures fresh(th) && kernel.Idle() && kernel.runq.nodes == []
    ensures th.View() == g.t && g.t.expectedHash == g.t.regHash
  {
    ghost var t := Forked(kernel.env, kernel.ntids, fn, arg, expectedHash, stackStart, mem);
    th := kernel.EquivFork(fn, arg, expectedHash, stackStart, mem);
    assert th.View() == t == Refresh(kernel.env, t, mem);
    assert Sum([n]) == n + Sum([]);
    hide FinishesAt, RunQueue.Valid, Refresh, Kernel.Registered, EqThread.View;
    RecordIsOwn(kernel.env, t, n, g);
    RunFinishers(kernel, n, [n], [g]);
    assert th.View() == g.t;
    RerunSingle(kernel, th, times, mem, n, t, g);
  }

  /** The repetitions: the program's memory is put back, the thread refreshed and run. */
  method RerunSingle(kernel: Kernel, th: EqThread, times: nat, mem: Mem, n: nat, ghost t: Thread, ghost g: Gone)
    requires kernel.Idle() && kernel.runq.nodes == [] && th in kernel.forked
    requires FinishedBefore(kernel.env, [t], [n], [g]) && t.mem == mem
    requires th.View() == g.t
    modifies kernel`cur, kernel`finished, kernel`exitCodes, kernel`console, kernel.dbg, kernel.runq, th
    ensures kernel.Idle() && kernel.runq.nodes == [] && th.View() == g.t
  {
    assert Sum([n]) == n + Sum([]);
    hide FinishedBefore, RunQueue.Valid, Kernel.Registered;
    var i := 0;
    while i < times
      invariant 0 <= i <= times
      invariant kernel.Idle() && kernel.runq.nodes == [] && th.View() == g.t
    {
      th.mem := mem;
      assert [th][0].View() == g.t.(mem := mem);
      RefreshAndRun(kernel, [th], n, [t], [n], [g]);
      assert [th][0].View() == [g][0].t;
      i := i + 1;
    }
  }
}
