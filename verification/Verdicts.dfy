// The verdict on a group of threads, told from their bare programs.
module Verdicts {
  import opened Common
  import opened Words
  import opened DebugHardware
  import opened EquivMachine
  import opened ScheduleIndependence
  import opened SchedulerProgress
  import opened Reruns
  import opened ProgramFate

  /** The thread's program ends it in this way. */
  ghost predicate EndsWith(env: Env, t: Thread, k: nat, end: Local) {
    EndsProgram(env, t, k) && EndAt(env, t, k) == end
  }

  /** Some thread's program crashes it for this reason. */
  ghost predicate SomeoneCrashes(env: Env, ts: seq<Thread>, reason: Reason) {
    exists i, k :: 0 <= i < |ts| && EndsWith(env, ts[i], k, Crashed(ts[i].tid, reason))
  }

  /** Some thread's program calls EQUIV_EXIT with a hash other than the one expected. */
  ghost predicate SomeoneMismatches(env: Env, ts: seq<Thread>) {
    exists i, k :: 0 <= i < |ts| && CallsExitWrongly(env, ts[i], k)
  }

  /** The program exits, accepted, and leaves the thread so. */
  ghost predicate ExitsLeaving(env: Env, before: Thread, after: Thread) {
    exists k, code :: EndsWith(env, before, k, Exited(Gone(after, code)))
  }

  /** A group panics for a reason one of its programs gives. */
  lemma PanicIsOfAProgram(env: Env, ts: seq<Thread>, n: nat)
    requires ts != [] && DistinctThreads(ts) && Run(env, Boot(ts), n).Panicked?
    ensures SomeoneCrashes(env, ts, Run(env, Boot(ts), n).reason)
  {
    var i := PanicsAsAlone(env, ts, n);
    hide Step, LocalStep, Run, LocalRun, Turns, EndsWith;
    var m, p := Run(env, Boot(ts), n), Turns(env, Boot(ts), ts[i].tid, n);
    BootHolds([ts[i]], 0);
    SoloRun(env, Boot([ts[i]]), Park(ts[i]), p);
    LocalRunKeepsTid(env, Park(ts[i]), p);
    CrashIsOfTheProgram(env, ts[i], p, m.reason);
    var k: nat :| EndsWith(env, ts[i], k, Crashed(ts[i].tid, m.reason));
  }

  lemma CrashIsOfTheProgram(env: Env, t: Thread, p: nat, reason: Reason)
    requires LocalRun(env, Park(t), p) == Crashed(t.tid, reason)
    ensures exists k :: EndsWith(env, t, k, Crashed(t.tid, reason))
  {
    hide LocalRun, GoesOn, EndAt;
    var k := FateOfTheProgram(env, t, p);
    assert EndsWith(env, t, k, Crashed(t.tid, reason));
  }

  lemma FinishIsOfTheProgram(env: Env, t: Thread, n: nat, g: Gone)
    requires FinishesAt(env, t, n, g)
    ensures ExitsLeaving(env, t, g.t)
    ensures t.expectedHash != 0 ==> g.t.regHash == t.expectedHash
  {
    hide LocalRun, GoesOn, EndAt, ExitsIn;
    var k := FateOfTheProgram(env, t, n);
    assert EndsWith(env, t, k, Exited(Gone(g.t, g.code)));
    var _ := ExitedAsExpected(env, t, n);
  }

  /** With a thread in it whose program ends on a wrong hash, a group never returns. */
  lemma MismatchPreventsReturn(env: Env, ts: seq<Thread>, n: nat)
    requires ts != [] && DistinctThreads(ts) && SomeoneMismatches(env, ts)
    ensures !Run(env, Boot(ts), n).Returned?
  {
    var i: nat, k: nat :| i < |ts| && CallsExitWrongly(env, ts[i], k);
    WrongExitEnds(env, ts[i], k);
    hide Step, LocalStep, Run, LocalRun, CallsExitWrongly, EndAt, GoesOn;
    if Run(env, Boot(ts), n).Returned? {
      var p, g := ReturnedMemberFinishes(env, ts, n, i);
      var q := ProgramEnds(env, ts[i], k);
      StoppedAreEqual(env, Park(ts[i]), p, q);
      assert false;
    }
  }

  /**
   * The verdict: a group whose threads' programs all call EQUIV_EXIT properly comes to an
   * end, and it ends with the hash-mismatch panic if and only if one of the programs has
   * a hash other than the one expected of it; otherwise it returns.
   */
  lemma VerdictOnTheGroup(env: Env, ts: seq<Thread>, ks: seq<nat>) returns (n: nat)
    requires ts != [] && DistinctThreads(ts) && |ks| == |ts|
    requires forall i | 0 <= i < |ts| :: EndsProgram(env, ts[i], ks[i]) && CallsExit(env, ts[i], ks[i])
    ensures var m := Run(env, Boot(ts), n);
      && !m.User?
      && (m.Panicked? <==> SomeoneMismatches(env, ts))
      && (m.Panicked? ==> m.reason == HashMismatch)
  {
    var ns := EventsOfAll(env, ts, ks);
    n := Sum(ns);
    EndsInTime(env, ts, ns);
    hide Step, LocalStep, Run, LocalRun, GoesOn, EndAt, CallsExit, SomeoneMismatches, EndsWith;
    if Run(env, Boot(ts), n).Panicked? {
      PanicIsOfAProgram(env, ts, n);
      var i: nat, k: nat :| i < |ts| && EndsWith(env, ts[i], k, Crashed(ts[i].tid, Run(env, Boot(ts), n).reason));
      OnlyMismatch(env, ts, i, ks[i], k, Run(env, Boot(ts), n).reason);
    } else if SomeoneMismatches(env, ts) {
      MismatchPreventsReturn(env, ts, n);
    }
  }

  lemma {:induction false} EventsOfAll(env: Env, ts: seq<Thread>, ks: seq<nat>) returns (ns: seq<nat>)
    requires |ks| == |ts| && forall i | 0 <= i < |ts| :: EndsProgram(env, ts[i], ks[i])
    ensures |ns| == |ts| && forall i | 0 <= i < |ts| :: !LocalRun(env, Park(ts[i]), ns[i]).Live?
  {
    hide LocalRun, EndsProgram, EndAt;
    if ts == [] {
      ns := [];
    } else {
      var rest := EventsOfAll(env, ts[1..], ks[1..]);
      var n := ProgramEnds(env, ts[0], ks[0]);
      NotLive(env, ts[0], ks[0]) by { LastGoesNot(env, ts[0], ks[0]); }
      ns := [n] + rest;
    }
  }

  lemma LastGoesNot(env: Env, t: Thread, k: nat)
    requires EndsProgram(env, t, k)
    ensures !GoesOn(env, t, k)
  {
  }

  /** Threads that each end by themselves within n_i events end together within the sum. */
  lemma EndsInTime(env: Env, ts: seq<Thread>, ns: seq<nat>)
    requires ts != [] && |ns| == |ts| && forall i | 0 <= i < |ts| :: !LocalRun(env, Park(ts[i]), ns[i]).Live?
    ensures !Run(env, Boot(ts), Sum(ns)).User?
  {
    hide LocalRun, Run, Step;
    BootLocals(ts);
    RunEndsWithinTheSum(env, Boot(ts), ns);
  }

  /** A program has one end, and if that is a proper call of EQUIV_EXIT, only the hash can be wrong. */
  lemma OnlyMismatch(env: Env, ts: seq<Thread>, i: nat, k: nat, k': nat, reason: Reason)
    requires i < |ts| && EndsProgram(env, ts[i], k) && CallsExit(env, ts[i], k)
    requires EndsWith(env, ts[i], k', Crashed(ts[i].tid, reason))
    ensures reason == HashMismatch && SomeoneMismatches(env, ts)
  {
    assert k == k' by {
      hide GoesOn, CallsExit, EndAt;
    }
    hide Bare, FoldAt;
    assert CallsExitWrongly(env, ts[i], k);
  }
}
