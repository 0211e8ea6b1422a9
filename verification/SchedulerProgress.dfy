// Termination of equiv_run, the fairness of its round robin, and when a thread is starved.
module SchedulerProgress {
  import opened Common
  import opened Words
  import opened DebugHardware
  import opened EquivMachine
  import opened ScheduleIndependence

  // ----- Termination -----

  function Sum(ns: seq<nat>): nat {
    if ns == [] then 0 else ns[0] + Sum(ns[1..])
  }

  lemma {:induction false} SumAppend(ns: seq<nat>, n: nat)
    ensures Sum(ns + [n]) == Sum(ns) + n
  {
    if ns != [] {
      assert (ns + [n])[1..] == ns[1..] + [n];
      SumAppend(ns[1..], n);
    } else {
      assert (ns + [n])[1..] == [];
    }
  }

  /** The thread, by itself, exits with its n-th event and not before. */
  ghost predicate ExitsIn(env: Env, l: Local, n: nat)
    decreases n
  {
    if n == 0 then l.Exited? else l.Live? && ExitsIn(env, LocalStep(env, l), n - 1)
  }

  /** The live threads' states, the current one first. */
  function Locals(m: Machine): (s: seq<Local>)
    requires m.User?
    ensures |s| == 1 + |m.queue|
  {
    [Current(m)] + Parked(m.queue)
  }

  function Parked(ts: seq<Thread>): (s: seq<Local>)
    ensures |s| == |ts|
  {
    seq(|ts|, i requires 0 <= i < |ts| => Park(ts[i]))
  }

  lemma FirstIsCurrent(m: Machine)
    requires m.User?
    ensures Locals(m)[0] == Current(m) && |Locals(m)| == |LiveTids(m)|
  {
  }

  /** One event spends one unit of the current thread's remaining events. */
  ghost predicate Budgets(env: Env, ls: seq<Local>, ns: seq<nat>, es: seq<nat>) {
    && |ls| == |ns| == |es|
    && forall i | 0 <= i < |ls| :: ExitsIn(env, ls[i], ns[i]) && es[i] == LocalEntries(env, ls[i], ns[i])
  }

  lemma StepLocals(env: Env, m: Machine)
    requires m.User? && !LocalStep(env, Current(m)).Crashed?
    ensures var m', ls, l' := Step(env, m), Locals(m), LocalStep(env, Current(m));
      if !Enters(env, m.cpu, m.bvr0, m.cur.mem) then m'.User? && l'.Live? && Locals(m') == [l'] + ls[1..]
      else if l'.Live? then m'.User? && Locals(m') == ls[1..] + [l']
      else if |ls| == 1 then m'.Returned?
      else m'.User? && Locals(m') == ls[1..]
  {
    if Faults(m.cpu, m.bvr0) {
      RotateParked(m.queue, HashEntry(env, m.cur, m.cpu));
    } else {
      match env.code(m.cpu, m.cur.mem)
      case Plain(_, _) =>
      case Swi(r) =>
        match SyscallEntry(m.cur, r)
        case Yield(t, _) => RotateParked(m.queue, t);
        case Exit(t, code) => RotateParked(m.queue, t);
        case Panic(_) =>
    }
  }

  lemma RotateParked(q: seq<Thread>, t: Thread)
    ensures q != [] ==> [Park(q[0])] + Parked(q[1..] + [t]) == Parked(q) + [Park(t)]
    ensures q != [] ==> [Park(q[0])] + Parked(q[1..]) == Parked(q)
  {
  }

  /**
   * equiv_run returns after exactly the sum of the events, and the sum of the handler
   * entries, that its threads take alone; it does not return, or panic, before.
   */
  lemma {:induction false} RunTakesTheSum(env: Env, m: Machine, ns: seq<nat>, es: seq<nat>)
    requires m.User? && Budgets(env, Locals(m), ns, es)
    ensures Run(env, m, Sum(ns)).Returned?
    ensures Entries(env, m, Sum(ns)) == Sum(es)
    ensures forall k | 0 <= k < Sum(ns) :: Run(env, m, k).User?
    decreases Sum(ns)
  {
    hide Step, LocalStep, Locals, Enters, Run, Entries;
    var ls, m', l' := Locals(m), Step(env, m), LocalStep(env, Current(m));
    var entry := if Enters(env, m.cpu, m.bvr0, m.cur.mem) then 1 else 0;
    FirstIsCurrent(m);
    assert ExitsIn(env, ls[0], ns[0]) && ns[0] > 0 && es[0] == entry + LocalEntries(env, l', ns[0] - 1);
    assert ExitsIn(env, l', ns[0] - 1);
    StepLocals(env, m);
    NextFrom(env, m, Sum(ns));
    if m'.Returned? {
      assert |ls| == 1;
      assert ns == [1] && es == [entry];
      RunNone(env, m');
    } else {
      var ns', es' := NextBudgets(env, ls, l', ns, es, entry, Locals(m'));
      hide Budgets, ExitsIn;
      RunTakesTheSum(env, m', ns', es');
      forall k | 0 <= k < Sum(ns)
        ensures Run(env, m, k).User?
      {
        RunNone(env, m);
        if k > 0 {
          NextFrom(env, m, k);
        }
      }
    }
    RunNone(env, m);
  }

  lemma NextFrom(env: Env, m: Machine, n: nat)
    requires m.User? && n > 0
    ensures Run(env, m, n) == Run(env, Step(env, m), n - 1)
    ensures Entries(env, m, n)
         == (if Enters(env, m.cpu, m.bvr0, m.cur.mem) then 1 else 0) + Entries(env, Step(env, m), n - 1)
  {
  }

  lemma RunNone(env: Env, m: Machine)
    ensures Run(env, m, 0) == m && Entries(env, m, 0) == 0
  {
  }

  lemma NextBudgets(env: Env, ls: seq<Local>, l': Local, ns: seq<nat>, es: seq<nat>, entry: nat, ls': seq<Local>)
      returns (ns': seq<nat>, es': seq<nat>)
    requires ls != [] && Budgets(env, ls, ns, es)
    requires ls[0].Live? && l' == LocalStep(env, ls[0])
    requires es[0] == entry + LocalEntries(env, l', ns[0] - 1)
    requires
      || (ls' == [l'] + ls[1..] && entry == 0)
      || (ls' == ls[1..] + [l'] && l'.Live? && entry == 1)
      || (ls' == ls[1..] && l'.Exited? && entry == 1)
    ensures Budgets(env, ls', ns', es')
    ensures Sum(ns') + 1 == Sum(ns) && Sum(es') + entry == Sum(es)
  {
    hide LocalStep;
    var n, e := ns[0] - 1, LocalEntries(env, l', ns[0] - 1);
    assert ExitsIn(env, l', n);
    if ls' == [l'] + ls[1..] && entry == 0 {
      ns', es' := [n] + ns[1..], [e] + es[1..];
    } else if l'.Live? {
      ns', es' := ns[1..] + [n], es[1..] + [e];
      SumAppend(ns[1..], n);
      SumAppend(es[1..], e);
    } else {
      assert n == 0 && e == 0;
      ns', es' := ns[1..], es[1..];
    }
  }

  /** A solo run that returns exactly at its n-th event. */
  ghost predicate ReturnsAloneAt(env: Env, t: Thread, n: nat) {
    && Run(env, Boot([t]), n).Returned?
    && (n > 0 ==> Run(env, Boot([t]), n - 1).User?)
  }

  lemma {:induction false} SoloReturnExits(env: Env, m: Machine, l: Local, n: nat)
    requires IsSolo(m, l) && l.Live?
    requires Run(env, m, n).Returned? && (n > 0 ==> Run(env, m, n - 1).User?)
    ensures ExitsIn(env, l, n)
    decreases n
  {
    hide Step, LocalStep;
    assert n > 0;
    SoloStep(env, m, l);
    var m' := Step(env, m);
    if m'.User? {
      assert n > 1;
      assert Run(env, m, n) == Run(env, m', n - 1);
      assert Run(env, m, n - 1) == Run(env, m', n - 2);
      SoloReturnExits(env, m', LocalStep(env, l), n - 1);
    } else {
      assert Run(env, m', n - 1) == m';
      if n > 1 {
        StopsAtOnce(env, m, n);
        assert false;
      }
    }
  }

  lemma StopsAtOnce(env: Env, m: Machine, n: nat)
    requires m.User? && !Step(env, m).User? && n > 1
    ensures Run(env, m, n - 1) == Step(env, m)
  {
    hide Step;
    assert Run(env, Step(env, m), n - 2) == Step(env, m);
  }

  /**
   * If each thread alone returns after n_i events and k_i handler entries, the group
   * returns after exactly the sum of the n_i events and the sum of the k_i entries,
   * with every thread finished.
   */
  lemma GroupReturnsAfterTheSum(env: Env, ts: seq<Thread>, ns: seq<nat>, ks: seq<nat>)
    requires ts != [] && |ts| == |ns| == |ks|
    requires forall i | 0 <= i < |ts| :: ReturnsAloneAt(env, ts[i], ns[i]) && ks[i] == Entries(env, Boot([ts[i]]), ns[i])
    ensures var m := Run(env, Boot(ts), Sum(ns));
      && m.Returned?
      && multiset(GoneTids(m.gone)) == multiset(QueueTids(ts))
    ensures Entries(env, Boot(ts), Sum(ns)) == Sum(ks)
    ensures forall k | 0 <= k < Sum(ns) :: Run(env, Boot(ts), k).User?
  {
    hide Step, LocalStep, Run, Entries, LocalEntries;
    var ls := Locals(Boot(ts));
    forall i | 0 <= i < |ts|
      ensures ls[i] == Park(ts[i])
      ensures ExitsIn(env, ls[i], ns[i]) && ks[i] == LocalEntries(env, ls[i], ns[i])
    {
      assert i > 0 ==> ts[1..][i - 1] == ts[i];
      SoloRun(env, Boot([ts[i]]), Park(ts[i]), ns[i]);
      SoloReturnExits(env, Boot([ts[i]]), Park(ts[i]), ns[i]);
    }
    RunTakesTheSum(env, Boot(ts), ns, ks);
    ThreadsAreConserved(env, Boot(ts), Sum(ns));
    BootTids(ts);
    assert LiveTids(Run(env, Boot(ts), Sum(ns))) + DoneTids(Run(env, Boot(ts), Sum(ns)))
        == DoneTids(Run(env, Boot(ts), Sum(ns)));
  }

  /**
   * Panics included: if every thread by itself exits or crashes within n_i events, the
   * group has returned or panicked within the sum of them.
   */
  lemma {:induction false} RunEndsWithinTheSum(env: Env, m: Machine, ns: seq<nat>)
    requires m.User? && |ns| == |Locals(m)|
    requires forall i | 0 <= i < |ns| :: !LocalRun(env, Locals(m)[i], ns[i]).Live?
    ensures !Run(env, m, Sum(ns)).User?
    decreases Sum(ns)
  {
    FirstIsCurrent(m);
    hide Step, LocalStep, Locals, Enters, Run, Entries;
    var ls, m', l' := Locals(m), Step(env, m), LocalStep(env, Current(m));
    assert ls[0].Live? && !LocalRun(env, ls[0], ns[0]).Live?;
    assert ns[0] > 0 && LocalRun(env, ls[0], ns[0]) == LocalRun(env, l', ns[0] - 1);
    NextFrom(env, m, Sum(ns));
    if !m'.User? {
      EndedStays(env, m', Sum(ns) - 1);
    } else {
      CrashPanics(env, m);
      StepLocals(env, m);
      var ns' := NextBounds(env, ls, l', ns, Locals(m'));
      RunEndsWithinTheSum(env, m', ns');
      RunSplit(env, m', Sum(ns'), Sum(ns) - 1 - Sum(ns'));
      EndedStays(env, Run(env, m', Sum(ns')), Sum(ns) - 1 - Sum(ns'));
    }
  }

  lemma EndedStays(env: Env, m: Machine, n: nat)
    requires !m.User?
    ensures Run(env, m, n) == m
  {
  }

  lemma CrashPanics(env: Env, m: Machine)
    requires m.User? && Step(env, m).User?
    ensures !LocalStep(env, Current(m)).Crashed?
  {
  }

  lemma NextBounds(env: Env, ls: seq<Local>, l': Local, ns: seq<nat>, ls': seq<Local>) returns (ns': seq<nat>)
    requires |ls| == |ns| > 0 && ns[0] > 0 && !LocalRun(env, l', ns[0] - 1).Live?
    requires forall i | 0 <= i < |ns| :: !LocalRun(env, ls[i], ns[i]).Live?
    requires ls' == [l'] + ls[1..] || ls' == ls[1..] + [l'] || ls' == ls[1..]
    ensures |ns'| == |ls'| && Sum(ns') < Sum(ns)
    ensures forall i | 0 <= i < |ns'| :: !LocalRun(env, ls'[i], ns'[i]).Live?
  {
    hide LocalRun;
    var n := ns[0] - 1;
    if ls' == [l'] + ls[1..] {
      ns' := [n] + ns[1..];
    } else if ls' == ls[1..] + [l'] {
      ns' := ns[1..] + [n];
      SumAppend(ns[1..], n);
    } else {
      ns' := ns[1..];
    }
  }

  // ----- Fairness -----

  /** The threads whose handler entries happen in the first n events, in order. */
  function Served(env: Env, m: Machine, n: nat): seq<nat> {
    if n == 0 then []
    else
      var m' := Run(env, m, n - 1);
      Served(env, m, n - 1) + if m'.User? && Enters(env, m'.cpu, m'.bvr0, m'.cur.mem) then [m'.cur.tid] else []
  }

  lemma RunSnoc(env: Env, m: Machine, n: nat)
    requires n > 0
    ensures var m' := Run(env, m, n - 1);
      Run(env, m, n) == if m'.User? then Step(env, m') else m'
  {
    hide Step;
    RunSplit(env, m, n - 1, 1);
    var m' := Run(env, m, n - 1);
    if m'.User? {
      assert Run(env, Step(env, m'), 0) == Step(env, m');
    }
  }

  /** Those of the ids that are not among the finished. */
  function Survivors(ids: seq<nat>, done: seq<nat>): seq<nat> {
    if ids == [] then []
    else Survivors(ids[..|ids| - 1], done) + if ids[|ids| - 1] in done then [] else [ids[|ids| - 1]]
  }

  lemma {:induction false} SurvivorsUnaffected(ids: seq<nat>, done: seq<nat>, tid: nat)
    requires tid !in ids
    ensures Survivors(ids, done + [tid]) == Survivors(ids, done)
  {
    if ids != [] {
      SurvivorsUnaffected(ids[..|ids| - 1], done, tid);
    }
  }

  lemma SurvivorsNext(ids: seq<nat>, e: nat, done: seq<nat>)
    requires e < |ids|
    ensures Survivors(ids[..e + 1], done) == Survivors(ids[..e], done) + if ids[e] in done then [] else [ids[e]]
  {
    assert ids[..e + 1][..e] == ids[..e];
  }

  lemma CurrentNotDone(m: Machine)
    requires m.User? && Distinct(m)
    ensures m.cur.tid !in DoneTids(m)
  {
    forall i | 0 <= i < |m.gone|
      ensures m.gone[i].t.tid != m.cur.tid
    {
      assert m.gone[i] in m.gone;
    }
  }

  lemma LiveTidsDistinct(m: Machine)
    requires Distinct(m)
    ensures NoDuplicates(LiveTids(m))
  {
    if m.User? {
      forall i, j | 0 <= i < j < |LiveTids(m)|
        ensures LiveTids(m)[i] != LiveTids(m)[j]
      {
        assert m.queue[j - 1] in m.queue;
        if i > 0 {
          assert m.queue[i - 1].tid != m.queue[j - 1].tid;
        }
      }
    }
  }

  /**
   * Round robin: up to a full round, handler entries go to the live threads one after
   * the other in queue order, each once; the threads not yet served keep their order
   * in front, and behind them wait the served ones that are still alive, in order.
   */
  lemma {:induction false} RoundRobin(env: Env, m: Machine, n: nat)
    requires m.User? && Distinct(m) && !Run(env, m, n).Panicked?
    requires |Served(env, m, n)| <= |LiveTids(m)|
    ensures var ids, e, m' := LiveTids(m), |Served(env, m, n)|, Run(env, m, n);
      && Served(env, m, n) == ids[..e]
      && LiveTids(m') == ids[e..] + Survivors(ids[..e], DoneTids(m'))
    decreases n
  {
    hide Step, LocalStep, LiveTids, DoneTids, Enters, Distinct, Holds;
    if n == 0 {
    } else {
      RunSnoc(env, m, n);
      var ids, p := LiveTids(m), Run(env, m, n - 1);
      RoundRobin(env, m, n - 1);
      var e := |Served(env, m, n - 1)|;
      if p.User? {
        RunProjects(env, m, Current(m), n - 1) by { CurrentIsHeld(m); }
        LiveTidsDistinct(m);
        StepReorders(env, p);
        CurrentNotDone(p);
        LiveNonempty(p);
        if Enters(env, p.cpu, p.bvr0, p.cur.mem) {
          OneMoreServed(ids, e, DoneTids(p), LiveTids(p), LiveTids(Step(env, p)), DoneTids(Step(env, p)));
        }
      }
    }
  }

  lemma CurrentIsHeld(m: Machine)
    requires m.User?
    ensures Holds(m, Current(m))
  {
  }

  lemma OneMoreServed(ids: seq<nat>, e: nat, done: seq<nat>, live: seq<nat>, live': seq<nat>, done': seq<nat>)
    requires e < |ids| && NoDuplicates(ids)
    requires live == ids[e..] + Survivors(ids[..e], done) && ids[e] !in done
    requires (live' == live[1..] && done' == done + [ids[e]]) || (live' == live[1..] + [ids[e]] && done' == done)
    ensures live' == ids[e + 1..] + Survivors(ids[..e + 1], done')
  {
    SurvivorsNext(ids, e, done');
    if done' != done {
      SurvivorsUnaffected(ids[..e], done, ids[e]);
    }
  }

  /**
   * Fairness: over a full round every live thread is resumed exactly once, in queue
   * order, and the next round starts with the survivors in the same order.
   */
  lemma FullRoundServesEachOnce(env: Env, m: Machine, n: nat)
    requires m.User? && Distinct(m) && !Run(env, m, n).Panicked?
    requires |Served(env, m, n)| == |LiveTids(m)|
    ensures Served(env, m, n) == LiveTids(m) && NoDuplicates(Served(env, m, n))
    ensures LiveTids(Run(env, m, n)) == Survivors(LiveTids(m), DoneTids(Run(env, m, n)))
  {
    hide Step, LiveTids, DoneTids, Enters, Distinct, Served, Run;
    RoundRobin(env, m, n);
    LiveTidsDistinct(m);
    var ids := LiveTids(m);
    assert ids[..|ids|] == ids;
  }

  // ----- When everyone is served -----

  /** Alone, the thread enters a handler with its k-th event and not before, and survives it. */
  ghost predicate ServedAfter(env: Env, l: Local, k: nat)
    decreases k
  {
    && l.Live? && k > 0 && !LocalStep(env, l).Crashed?
    && if Enters(env, l.cpu, l.bvr0, l.t.mem) then k == 1 else ServedAfter(env, LocalStep(env, l), k - 1)
  }

  ghost predicate Progresses(env: Env, l: Local) {
    exists k :: ServedAfter(env, l, k)
  }

  lemma {:induction false} EntriesSplit(env: Env, m: Machine, k: nat, n: nat)
    ensures Entries(env, m, k + n) == Entries(env, m, k) + Entries(env, Run(env, m, k), n)
    decreases k
  {
    hide Step, Enters;
    if k > 0 && m.User? {
      EntriesSplit(env, Step(env, m), k - 1, n);
    }
  }

  lemma {:induction false} ServedCounts(env: Env, m: Machine, n: nat)
    ensures |Served(env, m, n)| == Entries(env, m, n)
  {
    hide Step, Enters;
    if n > 0 {
      ServedCounts(env, m, n - 1);
      EntriesSplit(env, m, n - 1, 1);
      var p := Run(env, m, n - 1);
      assert p.User? ==> Entries(env, Step(env, p), 0) == 0;
    }
  }

  lemma SurvivesStep(env: Env, m: Machine)
    requires m.User?
    ensures Step(env, m).Panicked? <==> LocalStep(env, Current(m)).Crashed?
  {
  }

  /** The current thread gets as far as its next handler entry, and the others move up. */
  lemma {:induction false} ServeFirst(env: Env, m: Machine, k: nat)
    requires m.User? && ServedAfter(env, Current(m), k)
    ensures var m' := Run(env, m, k);
      && Entries(env, m, k) == 1 && !m'.Panicked?
      && (|Locals(m)| > 1 ==> m'.User? && Locals(m)[1..] <= Locals(m'))
    decreases k
  {
    StepLocals(env, m);
    SurvivesStep(env, m);
    assert Locals(m)[0] == Current(m);
    hide Step, LocalStep, Enters, Locals;
    var m' := Step(env, m);
    if Enters(env, m.cpu, m.bvr0, m.cur.mem) {
      assert Run(env, m', 0) == m' && Entries(env, m', 0) == 0;
    } else {
      assert Locals(m')[0] == Current(m') by { FirstIsCurrent(m'); }
      ServeFirst(env, m', k - 1);
    }
  }

  /** If the first r threads progress, they are all served. */
  lemma {:induction false} ServeMany(env: Env, m: Machine, r: nat) returns (n: nat)
    requires m.User? && r <= |Locals(m)| && forall i | 0 <= i < r :: Progresses(env, Locals(m)[i])
    ensures !Run(env, m, n).Panicked? && Entries(env, m, n) == r
    decreases r
  {
    FirstIsCurrent(m);
    hide Step, Locals, Enters, ServedAfter;
    n := 0;
    if r > 0 {
      assert Progresses(env, Locals(m)[0]);
      var k: nat :| ServedAfter(env, Current(m), k);
      ServeFirst(env, m, k);
      n := k;
      if r > 1 {
        var m' := Run(env, m, k);
        assert forall i | 0 <= i < r - 1 :: Locals(m')[i] == Locals(m)[1..][i] == Locals(m)[i + 1];
        hide Run, Entries, Progresses;
        var n' := ServeMany(env, m', r - 1);
        RunSplit(env, m, k, n');
        EntriesSplit(env, m, k, n');
        n := k + n';
      }
    }
  }

  lemma ProgressesIf(env: Env, l: Local)
    requires l.Live? && !LocalStep(env, l).Crashed?
    requires Enters(env, l.cpu, l.bvr0, l.t.mem) || Progresses(env, LocalStep(env, l))
    ensures Progresses(env, l)
  {
    hide LocalStep, Enters;
    if Enters(env, l.cpu, l.bvr0, l.t.mem) {
      assert ServedAfter(env, l, 1);
    } else {
      var k: nat :| ServedAfter(env, LocalStep(env, l), k);
      assert ServedAfter(env, l, k + 1);
    }
  }

  /** Where the thread at place i is after one event. */
  lemma MovesUp(env: Env, m: Machine, i: nat)
    requires m.User? && !Step(env, m).Panicked? && i < |Locals(m)|
    ensures !LocalStep(env, Current(m)).Crashed?
    ensures var m' := Step(env, m);
      if Enters(env, m.cpu, m.bvr0, m.cur.mem) then
        i > 0 ==> m'.User? && i - 1 < |Locals(m')| && Locals(m')[i - 1] == Locals(m)[i]
      else
        && m'.User? && i < |Locals(m')|
        && Locals(m')[i] == if i == 0 then LocalStep(env, Current(m)) else Locals(m)[i]
  {
    SurvivesStep(env, m);
    FirstIsCurrent(m);
    StepLocals(env, m);
    hide Step, LocalStep, Enters, Locals;
    var rest := Locals(m)[1..];
    assert i > 0 ==> rest[i - 1] == Locals(m)[i];
  }

  /** Only threads that progress are served. */
  lemma {:induction false} ServedProgress(env: Env, m: Machine, n: nat, i: nat)
    requires m.User? && !Run(env, m, n).Panicked?
    requires i < |Locals(m)| && i < Entries(env, m, n)
    ensures Progresses(env, Locals(m)[i])
    decreases n
  {
    RunNone(env, m);
    NextFrom(env, m, n);
    var m' := Step(env, m);
    assert !m'.Panicked?;
    FirstIsCurrent(m);
    MovesUp(env, m, i);
    hide Step, LocalStep, Enters, Locals, Progresses, Entries, Run;
    if i == 0 {
      if !Enters(env, m.cpu, m.bvr0, m.cur.mem) {
        ServedProgress(env, m', n - 1, 0);
      }
      ProgressesIf(env, Current(m));
    } else {
      ServedProgress(env, m', n - 1, if Enters(env, m.cpu, m.bvr0, m.cur.mem) then i - 1 else i);
    }
  }

  ghost predicate ServesAll(env: Env, m: Machine, n: nat) {
    !Run(env, m, n).Panicked? && |Served(env, m, n)| >= |LiveTids(m)|
  }

  /**
   * Exactly when a full round comes about: if and only if every live thread, taken
   * alone, enters a handler again and survives it. One that computes for ever without
   * faulting or trapping is the one way, besides a panic, to starve the others.
   */
  lemma EveryoneIsServedIff(env: Env, m: Machine)
    requires m.User?
    ensures (exists n :: ServesAll(env, m, n)) <==> forall i | 0 <= i < |Locals(m)| :: Progresses(env, Locals(m)[i])
  {
    FirstIsCurrent(m);
    hide Step, LiveTids, Locals, Run, Served, Entries, Progresses;
    if forall i | 0 <= i < |Locals(m)| :: Progresses(env, Locals(m)[i]) {
      var n := ServeMany(env, m, |Locals(m)|);
      ServedCounts(env, m, n);
      assert ServesAll(env, m, n);
    }
    if n: nat :| ServesAll(env, m, n) {
      ServedCounts(env, m, n);
      forall i | 0 <= i < |Locals(m)|
        ensures Progresses(env, Locals(m)[i])
      {
        ServedProgress(env, m, n, i);
      }
    }
  }

  /** A thread that has begun to branch to itself never gives up the processor: it does not fault. */
  lemma {:induction false} SelfBranchStarves(env: Env, m: Machine, pc: Word, n: nat)
    requires m.User? && m.cpu[PC] == pc == m.bvr0
    requires forall r: Regs, mem: Mem | r[PC] == pc :: env.code(r, mem).Plain? && env.code(r, mem).regs[PC] == pc
    ensures var m' := Run(env, m, n);
      m'.User? && m'.cur.tid == m.cur.tid && m'.cpu[PC] == pc == m'.bvr0 && Served(env, m, n) == []
  {
    if n > 0 {
      SelfBranchStarves(env, m, pc, n - 1);
      RunSnoc(env, m, n);
    }
  }
}
