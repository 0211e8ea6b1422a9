// equiv-threads.c with its globals and its run queue in place: thread records linked
// through their own next field (queue-ext-T.h), the current thread, and the handlers.
module EquivThreads {
  import opened Words
  import opened DebugHardware
  import opened EquivMachine
  import opened ScheduleIndependence
  import opened SchedulerProgress
  import opened Reruns

  /** eq_th_t. */
  class EqThread {
    const tid: nat
    var fn: Word
    var arg: Word
    var stackStart: Word
    var stackEnd: Word
    var regs: Regs
    var regHash: Word
    var instCnt: Word
    var expectedHash: Word
    var mem: Mem            // the memory only this thread uses
    var next: EqThread?

    constructor (tid: nat, fn: Word, arg: Word, stackStart: Word, stackEnd: Word, regs: Regs, expectedHash: Word, mem: Mem)
      ensures View() == Thread(tid, fn, arg, stackStart, stackEnd, regs, 0, 0, expectedHash, mem)
    {
      this.tid := tid;
      this.fn, this.arg, this.stackStart, this.stackEnd := fn, arg, stackStart, stackEnd;
      this.regs, this.regHash, this.instCnt, this.expectedHash, this.mem := regs, 0, 0, expectedHash, mem;
      next := null;
    }

    /** Everything but the link. */
    ghost function View(): Thread
      reads `fn, `arg, `stackStart, `stackEnd, `regs, `regHash, `instCnt, `expectedHash, `mem
    {
      Thread(tid, fn, arg, stackStart, stackEnd, regs, regHash, instCnt, expectedHash, mem)
    }
  }

  /** rq_t with the operations gen_queue_T generates. */
  class RunQueue {
    var head: EqThread?
    var tail: EqThread?
    ghost var nodes: seq<EqThread>

    constructor ()
      ensures Valid() && nodes == []
    {
      head, tail, nodes := null, null, [];
    }

    /** The nodes are distinct and linked in order; the tail is the last, with no successor. */
    ghost predicate Valid()
      reads this, nodes`next
    {
      && (forall i, j | 0 <= i < j < |nodes| :: nodes[i] != nodes[j])
      && (if nodes == [] then head == null && tail == null
          else head == nodes[0] && tail == nodes[|nodes| - 1] && tail.next == null)
      && (forall i | 0 <= i < |nodes| - 1 :: nodes[i].next == nodes[i + 1])
    }

    method Empty() returns (r: bool)
      requires Valid()
      ensures r <==> nodes == []
    {
      r := head == null;
      assert r ==> tail == null;
    }

    method Pop() returns (e: EqThread?)
      requires Valid()
      modifies this
      ensures Valid()
      ensures old(nodes) == [] ==> e == null && nodes == []
      ensures old(nodes) != [] ==> e == old(nodes)[0] && nodes == old(nodes)[1..]
    {
      e := head;
      if e == null {
        return;
      }
      head := e.next;
      if head == null {
        tail := null;
      }
      nodes := nodes[1..];
    }

    method Append(e: EqThread)
      requires Valid() && e !in nodes
      modifies this, e`next, nodes`next
      ensures Valid() && nodes == old(nodes) + [e]
    {
      e.next := null;
      if tail == null {
        head, tail := e, e;
      } else {
        tail.next := e;
        tail := e;
      }
      nodes := nodes + [e];
    }

    method Push(e: EqThread)
      requires Valid() && e !in nodes
      modifies this, e`next
      ensures Valid() && nodes == [e] + old(nodes)
    {
      e.next := head;
      head := e;
      if tail == null {
        tail := e;
      }
      nodes := [e] + nodes;
    }
  }

  // ----- The kernel -----

  const STACK_SIZE := 65536

  /** Where a handler leaves for: back to user mode, back to equiv_run's caller, or a reboot. */
  datatype Leave = ToUser(regs: Regs) | ToCaller | Reboot(reason: Reason)

  /** How far a run has come: still in user mode with these registers, over, or rebooted. */
  datatype Outcome = InUserMode(cpu: Regs) | Finished | Rebooted(reason: Reason) | EmptyRunQueue

  ghost function Views(ts: seq<EqThread>): (s: seq<Thread>)
    reads ts`fn, ts`arg, ts`stackStart, ts`stackEnd, ts`regs, ts`regHash, ts`instCnt, ts`expectedHash, ts`mem
    ensures |s| == |ts| && forall i | 0 <= i < |ts| :: s[i] == ts[i].View()
  {
    if ts == [] then [] else [ts[0].View()] + Views(ts[1..])
  }

  ghost function Records(ts: seq<EqThread>, codes: seq<Word>): (s: seq<Gone>)
    requires |ts| == |codes|
    reads ts`fn, ts`arg, ts`stackStart, ts`stackEnd, ts`regs, ts`regHash, ts`instCnt, ts`expectedHash, ts`mem
    ensures |s| == |ts| && forall i | 0 <= i < |ts| :: s[i] == Gone(ts[i].View(), codes[i])
  {
    if ts == [] then [] else [Gone(ts[0].View(), codes[0])] + Records(ts[1..], codes[1..])
  }

  /** The statics of equiv-threads.c and mini-step.c. */
  class Kernel {
    const env: Env
    const dbg: DebugUnit
    const runq: RunQueue
    var cur: EqThread?
    var ntids: nat
    var console: seq<Printed>
    ghost var finished: seq<EqThread>   // exited in this run, in order
    ghost var exitCodes: seq<Word>
    ghost var forked: set<EqThread>     // every record there is

    constructor (env: Env)
      ensures fresh(dbg) && fresh(runq) && Idle() && runq.nodes == [] && this.env == env
      ensures ntids == 1 && forked == {}
    {
      this.env := env;
      dbg := new DebugUnit();
      runq := new RunQueue();
      cur, ntids, console := null, 1, [];
      finished, exitCodes, forked := [], [], {};
    }

    /** No two records have the same id: ids are handed out once. */
    ghost predicate Registered()
      reads `ntids, `forked
    {
      && (forall t | t in forked :: t.tid < ntids)
      && (forall s, t | s in forked && t in forked && s.tid == t.tid :: s == t)
    }

    /** Between runs. */
    ghost predicate Idle()
      reads this, dbg, runq, runq.nodes`next
    {
      dbg.Idle() && runq.Valid() && Registered() && forall t | t in runq.nodes :: t in forked
    }

    /** During a run: current, waiting and finished threads are all different records. */
    ghost predicate Running()
      reads this, dbg, runq, runq.nodes`next
    {
      && dbg.Armed() && runq.Valid()
      && cur != null && cur !in runq.nodes && cur !in finished
      && (forall t | t in runq.nodes :: t !in finished)
      && |exitCodes| == |finished|
    }

    /** The machine the kernel's state stands for, when the processor holds `cpu`. */
    ghost function View(cpu: Regs): (m: Machine)
      requires Running()
      ensures m.User?
      reads this, dbg, runq, runq.nodes, cur, finished
    {
      User(cur.View(), Views(runq.nodes), cpu, dbg.bvr0, Records(finished, exitCodes), console)
    }

    /** equiv_fork: a new thread with an aligned stack, at the head of the run queue. */
    method EquivFork(fn: Word, arg: Word, expectedHash: Word, stackStart: Word, mem: Mem) returns (th: EqThread)
      requires Idle()
      requires stackStart % 8 == 0 && stackStart + STACK_SIZE < TWO32
      modifies this`ntids, this`forked, runq
      ensures Idle() && fresh(th) && runq.nodes == [th] + old(runq.nodes)
      ensures th.tid == old(ntids) && ntids == old(ntids) + 1 && forked == old(forked) + {th}
      ensures th.View() == Refresh(env, th.View(), mem)
      ensures th.fn == fn && th.arg == arg && th.expectedHash == expectedHash && StackOk(th.View())
      ensures th.stackStart == stackStart && th.stackEnd == stackStart + 65536
    {
      var stackEnd := stackStart + STACK_SIZE;
      th := new EqThread(ntids, fn, arg, stackStart, stackEnd, InitialRegs(env, fn, arg, stackEnd), expectedHash, mem);
      ntids := ntids + 1;
      forked := forked + {th};
      runq.Push(th);
    }

    /** equiv_fork_nostack: the same with no stack at all. */
    method EquivForkNostack(fn: Word, arg: Word, expectedHash: Word, stackStart: Word, mem: Mem) returns (th: EqThread)
      requires Idle()
      requires stackStart % 8 == 0 && stackStart + STACK_SIZE < TWO32
      modifies this`ntids, this`forked, runq
      ensures Idle() && fresh(th) && runq.nodes == [th] + old(runq.nodes)
      ensures th.tid == old(ntids) && ntids == old(ntids) + 1 && forked == old(forked) + {th}
      ensures th.View() == Refresh(env, th.View(), mem)
      ensures th.fn == fn && th.arg == arg && th.expectedHash == expectedHash
      ensures th.stackStart == th.stackEnd == 0 && StackOk(th.View())
    {
      th := EquivFork(fn, arg, expectedHash, stackStart, mem);
      th.regs := th.regs[SP := 0];
      th.stackStart, th.stackEnd := 0, 0;
    }

    /** equiv_refresh: registers, count and hash as at the start; the memory is the caller's business. */
    method EquivRefresh(th: EqThread)
      requires Idle() && th in forked && th !in runq.nodes
      requires th.stackStart <= th.stackEnd
      modifies th, runq
      ensures Idle() && runq.nodes == [th] + old(runq.nodes)
      ensures th.View() == Refresh(env, old(th.View()), old(th.mem)) && StackOk(th.View())
    {
      th.regs := InitialRegs(env, th.fn, th.arg, th.stackEnd);
      th.instCnt := 0;
      th.regHash := 0;
      runq.Push(th);
    }

    /** The queue part of equiv_schedule: the head becomes current, the current goes to the back. */
    method PickNext()
      requires Running()
      modifies `cur, runq, cur`next, runq.nodes`next
      ensures Running()
      ensures var q, c := old(runq.nodes), old(cur);
        if q == [] then runq.nodes == [] && cur == c else runq.nodes == q[1..] + [c] && cur == q[0]
    {
      var th := runq.Pop();
      if th != null {
        runq.Append(cur);
        cur := th;
      }
    }

    /** What the kernel does next is what the machine does next. */
    ghost predicate Matches(leave: Leave, m: Machine)
      reads this, dbg, runq, runq.nodes, cur, finished
    {
      match m
      case User(_, _, _, _, _, _) => leave.ToUser? && Running() && View(leave.regs) == m
      case Returned(gone, out) =>
        && leave.ToCaller? && dbg.Armed() && runq.Valid() && runq.nodes == []
        && |exitCodes| == |finished| && Records(finished, exitCodes) == gone && console == out
      case Panicked(_, reason) => leave == Reboot(reason)
    }

    /** Threads only move among current, waiting and finished. */
    ghost predicate SameThreads(q: seq<EqThread>, c: EqThread, f: seq<EqThread>)
      reads this, runq
    {
      && (cur != null && (cur in q || cur == c))
      && (forall t | t in runq.nodes :: t in q || t == c)
      && (forall t | t in finished :: t in f || t == c)
    }

    /** equiv_schedule, ending in mismatch_run. */
    method EquivSchedule() returns (regs: Regs)
      requires Running()
      modifies `cur, runq, cur`next, runq.nodes`next, dbg
      ensures Running() && SameThreads(old(runq.nodes), old(cur), finished)
      ensures View(regs) == Schedule(old(cur.View()), old(Views(runq.nodes)), old(Records(finished, exitCodes)), console)
    {
      hide Views, Records, RunQueue.Valid;
      ghost var q, c := runq.nodes, cur;
      PickNext();
      regs := MismatchRun();
      assert forall t | t in q :: t.View() == old(t.View());
      assert c.View() == old(c.View());
      assert Records(finished, exitCodes) == old(Records(finished, exitCodes));
      if q != [] {
        assert Views(runq.nodes) == old(Views(q))[1..] + [old(c.View())];
      }
    }

    /** mismatch_run: let the current thread's next instruction through and resume there. */
    method MismatchRun() returns (regs: Regs)
      requires Running()
      modifies dbg
      ensures Running() && regs == cur.regs && dbg.bvr0 == regs[PC]
    {
      var _ := dbg.MismatchPcSet(cur.regs[PC]);
      regs := cur.regs;
    }

    /** Saving the registers, counting and hashing touch nothing but the current thread. */
    method CountAndHash(r: Regs)
      requires Running()
      modifies cur`regs, cur`instCnt, cur`regHash
      ensures cur.View() == HashEntry(env, old(cur.View()), r)
      ensures Views(runq.nodes) == old(Views(runq.nodes))
      ensures Records(finished, exitCodes) == old(Records(finished, exitCodes))
    {
      hide Views, Records, RunQueue.Valid;
      cur.regs := r;
      cur.instCnt := ToWord(cur.instCnt + 1);
      cur.regHash := env.hash(cur.regs, cur.regHash);
    }

    /** equiv_hash_handler. */
    method EquivHashHandler(r: Regs) returns (regs: Regs)
      requires Running()
      modifies `cur, runq, cur, runq.nodes`next, dbg
      ensures Running() && SameThreads(old(runq.nodes), old(cur), finished)
      ensures View(regs) ==
        Schedule(HashEntry(env, old(cur.View()), r), old(Views(runq.nodes)), old(Records(finished, exitCodes)), console)
    {
      hide Views, Records, RunQueue.Valid, Schedule, HashEntry;
      CountAndHash(r);
      regs := EquivSchedule();
    }

    /** mismatch_fault with the hash handler installed. */
    method MismatchFault(r: Regs) returns (leave: Leave)
      requires Running()
      modifies `cur, runq, cur, runq.nodes`next, dbg
      ensures Matches(leave, PrefetchAbort(env, old(View(r))))
      ensures leave.ToUser? ==> SameThreads(old(runq.nodes), old(cur), finished)
      ensures finished == old(finished)
    {
      hide Views, Records, RunQueue.Valid;
      if r[PC] == env.ssOnExit {
        return Reboot(LeftProgram);
      }
      var regs := EquivHashHandler(r);
      return ToUser(regs);
    }

    /** check_sp. */
    predicate StackPointerOk(th: EqThread)
      reads th
    {
      th.stackStart <= th.regs[SP] <= th.stackEnd
    }

    /** The queue part of the exit case: the current thread is finished, the head becomes current. */
    method RetireCurrent(ghost code: Word) returns (more: bool)
      requires Running()
      modifies `cur, `finished, `exitCodes, runq
      ensures finished == old(finished) + [old(cur)] && exitCodes == old(exitCodes) + [code]
      ensures more == (old(runq.nodes) != []) && runq.Valid() && dbg.Armed()
      ensures if more then Running() && cur == old(runq.nodes)[0] && runq.nodes == old(runq.nodes)[1..]
        else runq.nodes == []
    {
      finished, exitCodes := finished + [cur], exitCodes + [code];
      var th := runq.Pop();
      more := th != null;
      if more {
        cur := th;
      }
    }

    /** The exit case of equiv_syscall_handler: retire the current thread, take up the next or return. */
    method ExitCurrent(ghost code: Word) returns (leave: Leave)
      requires Running()
      modifies `cur, `finished, `exitCodes, runq, dbg
      ensures var g := Gone(old(cur.View()), code);
        var q, records := old(Views(runq.nodes)), old(Records(finished, exitCodes)) + [g];
        Matches(leave, if q == [] then Returned(records, console) else Resume(q[0], q[1..], records, console))
      ensures leave.ToUser? ==> SameThreads(old(runq.nodes), old(cur), old(finished))
      ensures finished == old(finished) + [old(cur)]
    {
      hide Views, Records, RunQueue.Valid;
      ghost var q, c := runq.nodes, cur;
      ghost var f, codes := finished, exitCodes;
      var more := RetireCurrent(code);
      assert Records(finished, exitCodes) == old(Records(f, codes)) + [Gone(old(c.View()), code)];
      if !more {
        return ToCaller;
      }
      ghost var records := Records(finished, exitCodes);
      var regs := MismatchRun();
      assert Records(finished, exitCodes) == records;
      assert Views(runq.nodes) == old(Views(q))[1..];
      return ToUser(regs);
    }

    /** Saving the registers and recording the hash touch nothing but the current thread. */
    method Save(r: Regs, expectedHash: Word)
      requires Running()
      modifies cur`regs, cur`expectedHash
      ensures cur.View() == old(cur.View()).(regs := r, expectedHash := expectedHash)
      ensures Views(runq.nodes) == old(Views(runq.nodes))
      ensures Records(finished, exitCodes) == old(Records(finished, exitCodes))
    {
      hide Views, Records, RunQueue.Valid;
      cur.regs := r;
      cur.expectedHash := expectedHash;
    }

    /** equiv_syscall_handler. */
    method EquivSyscallHandler(r: Regs) returns (leave: Leave)
      requires Running()
      modifies `cur, `finished, `exitCodes, `console, runq, cur, runq.nodes`next, dbg
      ensures Matches(leave, Syscall(old(View(r)), r))
      ensures leave.ToUser? ==> SameThreads(old(runq.nodes), old(cur), old(finished))
      ensures finished == old(finished) || finished == old(finished) + [old(cur)]
    {
      hide Views, Records, RunQueue.Valid, Schedule;
      Save(r, cur.expectedHash);
      if !StackPointerOk(cur) {
        return Reboot(StackOutOfRange);
      }
      if r[0] == SYS_PUTC {
        console := console + [Printed(cur.tid, r[1] % 256)];
        var regs := EquivSchedule();
        return ToUser(regs);
      } else if r[0] == SYS_EXIT {
        if cur.expectedHash == 0 {
          Save(r, cur.regHash);
        } else if cur.expectedHash != cur.regHash {
          return Reboot(HashMismatch);
        }
        leave := ExitCurrent(r[1]);
      } else {
        return Reboot(IllegalSyscall);
      }
    }

    /** An instruction that neither faults nor traps: only the running thread's memory changes. */
    method Execute(cpu: Regs, r: Regs, mem: Mem) returns (leave: Leave)
      requires Running()
      modifies cur`mem
      ensures Matches(leave, User(old(cur.View()).(mem := mem), old(Views(runq.nodes)), r, dbg.bvr0,
                                  old(Records(finished, exitCodes)), console))
      ensures leave.ToUser? && SameThreads(old(runq.nodes), old(cur), old(finished)) && finished == old(finished)
    {
      hide Views, Records, RunQueue.Valid;
      cur.mem := mem;
      assert Views(runq.nodes) == old(Views(runq.nodes));
      assert Records(finished, exitCodes) == old(Records(finished, exitCodes));
      return ToUser(r);
    }

    /** One event of the processor in user mode. */
    method UserEvent(cpu: Regs) returns (leave: Leave)
      requires Running()
      modifies `cur, `finished, `exitCodes, `console, runq, cur, runq.nodes`next, dbg
      ensures Matches(leave, Step(env, old(View(cpu))))
      ensures leave.ToUser? ==> SameThreads(old(runq.nodes), old(cur), old(finished))
      ensures finished == old(finished) || finished == old(finished) + [old(cur)]
    {
      hide Views, Records, RunQueue.Valid, Schedule, SyscallEntry, HashEntry;
      if dbg.Faults(cpu[PC]) {
        leave := MismatchFault(cpu);
      } else {
        match env.code(cpu, cur.mem)
        case Plain(r, mem) => leave := Execute(cpu, r, mem);
        case Swi(r) => leave := EquivSyscallHandler(r);
      }
    }

    /** The kernel is where the machine is: in user mode, done with these records and output, or rebooting. */
    ghost predicate StandsAt(outcome: Outcome, m: Machine)
      reads this, dbg, runq, runq.nodes, cur, finished
    {
      match m
      case User(_, _, _, _, _, _) => outcome.InUserMode? && Running() && View(outcome.cpu) == m
      case Panicked(_, reason) => outcome == Rebooted(reason)
      case Returned(gone, out) =>
        && outcome == Finished && runq.nodes == []
        && |exitCodes| == |finished| && Records(finished, exitCodes) == gone && console == out
    }

    /** The start of equiv_run: take the head of the queue and arm the mismatch on its first pc. */
    method StartFirst() returns (cpu: Regs)
      requires Idle() && runq.nodes != []
      modifies `cur, `finished, `exitCodes, `console, dbg, runq
      ensures Running() && View(cpu) == Boot(old(Views(runq.nodes)))
      ensures SameThreads(old(runq.nodes), old(runq.nodes)[0], []) && finished == []
    {
      hide Records, Views, RunQueue.Valid, Boot;
      console, finished, exitCodes := [], [], [];
      TakeFirst();
      cpu := MismatchRun();
      assert Views(runq.nodes) == old(Views(runq.nodes))[1..];
      BootFromHead(old(Views(runq.nodes)));
      NoRecords();
    }

    method TakeFirst()
      requires Idle() && runq.nodes != [] && finished == [] && exitCodes == []
      modifies `cur, dbg, runq
      ensures Running() && cur == old(runq.nodes)[0] && runq.nodes == old(runq.nodes)[1..]
    {
      cur := runq.Pop();
      dbg.MismatchOn();
    }

    /** The next n events of a run, as many as there are. */
    method RunFor(cpu0: Regs, n: nat, ghost all: set<EqThread>) returns (outcome: Outcome)
      requires Running() && cur in all && forall t | t in runq.nodes || t in finished :: t in all
      modifies `cur, `finished, `exitCodes, `console, dbg, runq, all
      ensures StandsAt(outcome, Run(env, old(View(cpu0)), n))
      ensures outcome == Finished ==> dbg.Armed() && runq.Valid()
      ensures outcome != EmptyRunQueue && forall t | t in finished :: t in all
    {
      hide Views, Records, RunQueue.Valid, Step, Run;
      ghost var boot := View(cpu0);
      var cpu := cpu0;
      var i := 0;
      RunZero(env, boot);
      while i < n
        invariant 0 <= i <= n && Running() && View(cpu) == Run(env, boot, i)
        invariant cur in all && forall t | t in runq.nodes || t in finished :: t in all
      {
        var leave := UserEvent(cpu);
        RunSnoc(env, boot, i + 1);
        i := i + 1;
        RunStops(env, boot, i, n);
        match leave
        case ToUser(regs) => cpu := regs;
        case ToCaller => return Finished;
        case Reboot(reason) => return Rebooted(reason);
      }
      return InUserMode(cpu);
    }

    method SwitchOff(ghost m: Machine)
      requires dbg.Armed() && runq.Valid() && StandsAt(Finished, m)
      modifies dbg
      ensures dbg.Idle() && runq.Valid() && runq.nodes == [] && StandsAt(Finished, m)
    {
      hide Records;
      dbg.MismatchOff();
      assert Records(finished, exitCodes) == old(Records(finished, exitCodes));
    }

    /** The first n events, from a queue that is not empty. */
    method RunQueued(n: nat) returns (outcome: Outcome)
      requires Idle() && runq.nodes != []
      modifies `cur, `finished, `exitCodes, `console, dbg, runq, runq.nodes
      ensures StandsAt(outcome, Run(env, Boot(old(Views(runq.nodes))), n))
      ensures outcome == Finished ==> dbg.Armed() && runq.Valid()
      ensures outcome != EmptyRunQueue && forall t | t in finished :: t in old(runq.nodes)
    {
      hide Views, Records, Run, Boot, Registered, StandsAt, RunQueue.Valid;
      ghost var all := set t | t in runq.nodes;
      var cpu := StartFirst();
      outcome := RunFor(cpu, n, all);
    }

    /**
     * The first n events of equiv_run, however many there are: the kernel is where the
     * machine is that starts with the threads on the run queue. When the run is over
     * the debug hardware is off.
     */
    method EquivRun(n: nat) returns (outcome: Outcome)
      requires Idle()
      modifies `cur, `finished, `exitCodes, `console, dbg, runq, runq.nodes
      ensures old(runq.nodes) == [] <==> outcome == EmptyRunQueue
      ensures old(runq.nodes) != [] ==> StandsAt(outcome, Run(env, Boot(old(Views(runq.nodes))), n))
      ensures old(runq.nodes) != [] ==> forall t | t in finished :: t in old(runq.nodes)
      ensures outcome == Finished ==> Idle()
    {
      hide Views, Records, Run, Boot, Registered, StandsAt, RunQueue.Valid;
      var empty := runq.Empty();
      if empty {
        return EmptyRunQueue;
      }
      ghost var end := Run(env, Boot(Views(runq.nodes)), n);
      outcome := RunQueued(n);
      if outcome == Finished {
        SwitchOff(end);
      }
    }
  }

  lemma BootFromHead(ts: seq<Thread>)
    requires ts != []
    ensures Boot(ts) == User(ts[0], ts[1..], ts[0].regs, ts[0].regs[PC], [], [])
  {
  }

  lemma NoRecords()
    ensures Records([], []) == []
  {
  }

  lemma RunZero(env: Env, m: Machine)
    ensures Run(env, m, 0) == m
  {
  }

  lemma RunStops(env: Env, m: Machine, i: nat, n: nat)
    ensures i <= n && !Run(env, m, i).User? ==> Run(env, m, n) == Run(env, m, i)
  {
    hide Step;
    if i <= n {
      RunSplit(env, m, i, n - i);
    }
  }
}
