# Verified models of the bare-metal ARMv6 kernel labs

The repository is a teaching operating system for the Raspberry Pi: it runs without
memory protection until its own code turns it on, single-steps user code through the
debug coprocessor, and shares small data structures between interrupt handlers and
ordinary code. This project models the parts of it that hold real algorithms and proves
what they are for. `dafny verify dfyconfig.toml` checks everything.

| file | about |
|---|---|
| `Common.dfy` | what several components share |
| `Words.dfy` | 32-bit words, two's complement, C division |
| `DebugHardware.dfy` | the breakpoint registers and the mismatch-fault rule |
| `MiniStep.dfy` | single-stepping one function |
| `EquivMachine.dfy` | the pre-emptive thread scheduler as a state machine, and one thread by itself |
| `ScheduleIndependence.dfy` | what a thread does in a group is what it does alone |
| `SchedulerProgress.dfy` | termination, fairness, and when a thread is starved |
| `Reruns.dfy` | running finished threads again |
| `HashedTrace.dfy` | what a thread's hash and output are functions of |
| `ProgramFate.dfy` | how a thread ends and what it prints, told from its bare program |
| `Verdicts.dfy` | when a group is reported to mismatch |
| `EquivThreads.dfy` | the scheduler's globals, thread records and linked run queue in place |
| `EquivRuns.dfy` | runs and re-runs as a caller sees them on the thread records |
| `Ring.dfy` | the circular queue, one operation at a time |
| `RingProtocol.dfy` | the circular queue between a concurrent producer and consumer |
| `RingCalls.dfy` | what a call on the shared queue returns, from the moment it is made |
| `Random.dfy` | the additive-feedback random generator |
| `RandomSwitching.dfy` | one generator object used for many state buffers |
| `Crc.dfy` | table-driven CRC-32 |
| `VirtualMemory.dfy` | descriptor formats and the page table |
| `PageTables.dfy` | any number of page tables, mapped into and duplicated |
| `AddressSpaces.dfy` | the process map, pinned entries, and the agreement of the two implementations |
| `IntrusiveQueue.dfy` | the counted intrusive queue |
| `Fat32Names.dfy` | 8.3 file names and directory look-up |

## How the hardware and the unseen parts are modelled

- A fetch in user mode faults exactly when the breakpoint is enabled as a user-only
  mismatch and the pc differs from `bvr0` (chapter 13 of the ARM1176JZF-S Technical
  Reference Manual). One event of the processor is either such a fault or one instruction.
  Bit 21 of `bcr0` reads as zero, as tables 13-10 and 13-11 there say of a breakpoint
  without context ID capability. User code runs in ARM state, so its pcs are multiples of
  4 and fit `bvr0`, which has no bits 1 and 0.
- The program text is an arbitrary function from registers and private memory to registers
  and private memory, or to a system call with the pc already past it. The hash function
  and the status word read at fork are arbitrary parameters.
- Each thread has memory of its own, and `kmalloc` hands out zeroed memory at addresses
  that are parameters.
- Ring operations take effect one shared access at a time, in program order (sequential
  consistency).
- TLB lockdown entries and first-level descriptors are 32-bit words read back by field, as
  `lockdown_print_entry` does and as section B4 of the ARMv6 Architecture Reference Manual
  lays sections out.
- Signed table words of the generator are kept as residues modulo 2^32.

## What the code does that its comments, or a reader, may not expect

- `mini_step_run` always returns 0 and never passes its argument on; its comment says it
  returns what the user set (`MiniStepper.MiniStepRun`).
- `initstate_r` does not save the state it leaves, although its comment says so. Such a
  buffer resumes correctly exactly if a multiple of its degree was drawn from it since its
  header was written (`ResumesIffHeaderCurrent`, `AbandonedIffFullTurns`).
- The generator's seeding fails for exactly two of the 2^32 seeds, 2^31 - 1 and its
  negation: all later table words are then 0 (`DegenerateSeeds`).
- The single-step handler sees every executed instruction exactly when the code neither
  starts at 0 nor branches to itself (`TraceIsComplete`). The thread hash leaves out a
  thread's first instruction and the one after each system call (`HashIsOfTheProgram`).
- A thread that jumps to `ss_on_exit` under `equiv_run` makes the kernel panic:
  `mismatch_fault` switches to mini-step.c's own `start_regs`, which only `mini_step_run`
  fills in, and `mode_legal` panics on the mode of a zeroed status word
  (labs/14-ss-equiv-deux/code/cpsr-util.h:11-27). It appears as `LeftProgram`.
- A thread that begins to branch to itself is never pre-empted: it does not fault
  (`SelfBranchStarves`, `EveryoneIsServedIff`).
- The template ring accepts any size, but its count is right for every state only if the
  size divides 2^32 (`CountExprExact`, `CountExprBreaks`). First-in-first-out order does
  not depend on that, but `cq_push`'s assertion of free space does: it fails in a ring that
  is not full exactly when the head has wrapped below the tail and size - 1 - (2^32 mod
  size) elements are queued (`AssertionFailsIff`).
- `procmap_lookup` never finds an address in the last megabyte: the end of that section
  wraps to 0 (`ContainsIsSection`).
- `vm_map_sec` returns the address of a local; its contract is on the table slot.
  `vm_xlate` reads through a null look-up result; the intended test for "no entry" is
  modelled.
- `to_8dot3` stores before the start of its buffer exactly on the fields that begin with
  eight blanks (`To8dot3`, `HasNoBaseIff`).
- Arming the mismatch writes b11 into bits 22:21 of the control register, which is
  reserved; b10 is the mismatch. It works exactly because breakpoint 0 cannot hold bit 21
  (`ReservedEncodingWorksIff`).
- Arming trusts a breakpoint that is already enabled, and fails exactly when that one is
  not a user-only mismatch, b10 in those bits (`ArmsUnlessOtherwiseEnabled`).
- `setstate_r` does not check the pointer it decodes: the object is usable afterwards
  exactly if the pointer lies inside the table of the header's type and the buffer holds
  that table (`SetstateR`).

## Model

| member | source | states |
|---|---|---|
| DebugHardware.ArmingSetsMismatch | labs/14-ss-equiv-deux/code/armv6-debug-impl.h:265-283 | From any disabled control word, the register then holds an enabled, unlinked, user-only, every-byte mismatch, b10 in bits 22:21; arming again changes nothing |
| DebugHardware.ReservedEncodingWorksIff | labs/14-ss-equiv-deux/code/armv6-debug-impl.h:269-281 | The word written has the reserved b11 in bits 22:21, and is held as a mismatch if and only if the breakpoint is not context ID capable |
| DebugHardware.ArmingKeepsOtherBits | labs/14-ss-equiv-deux/code/armv6-debug-impl.h:265-283 | The read-modify-write touches no bit outside the six fields it names |
| DebugHardware.DisableOnlyDisables | labs/14-ss-equiv-deux/code/armv6-debug-impl.h:284-288 | Disabling clears the enable bit and nothing else of what the register can hold |
| DebugHardware.RearmRestores | labs/14-ss-equiv-deux/code/armv6-debug-impl.h:265-288 | Disabling and arming again gives back an armed register unchanged |
| DebugHardware.ArmsUnlessOtherwiseEnabled | labs/14-ss-equiv-deux/code/armv6-debug-impl.h:265-283 | Arming results in a user mismatch if and only if the breakpoint was off or was one already, as its register reads back |
| DebugHardware.DebugUnit.MismatchPcSet | labs/14-ss-equiv-deux/code/mini-step.c:27-41 | Afterwards the unit is armed and exactly the given pc does not fault; the previous pc is returned |
| DebugHardware.DebugUnit.MismatchOn | labs/14-ss-equiv-deux/code/mini-step.c:44-53 | Turns an idle unit into one armed on pc 0 |
| DebugHardware.DebugUnit.MismatchOff | labs/14-ss-equiv-deux/code/mini-step.c:56-63 | Turns an armed unit idle again |
| MiniStep.TraceIsComplete | labs/14-ss-equiv-deux/code/mini-step.c:81-107 | At the end of any run the handler has seen the executed pcs in order, runs of one address once and a leading 0 not at all; hence all of them if and only if the code does not start at 0 and never executes one address twice running; the run ends at the exit address, which the handler never sees |
| MiniStep.StraightCodeIsTracedCompletely | labs/14-ss-equiv-deux/code/mini-step.c:137-174 | Code that starts at a nonzero address and has no instruction branching to itself is traced completely |
| MiniStep.SteppingIsTransparent | labs/14-ss-equiv-deux/code/mini-step.c:81-107 | A finished run has left the registers and memory of the bare program, run with no breakpoint and no handler, after as many instructions at the same addresses, and ends when that program first comes to the exit address |
| MiniStep.MiniStepper.MismatchFault | labs/14-ss-equiv-deux/code/mini-step.c:81-107 | Leaves at the exit address without calling the handler; otherwise calls it once and lets that pc run |
| MiniStep.MiniStepper.MiniStepRun | labs/14-ss-equiv-deux/code/mini-step.c:137-174 | The stepping loop on the debug registers makes the trace of the run of steps, executes the instructions of the bare program and leaves its memory when it comes to the exit address, turns the debug unit off again and returns 0 |
| EquivMachine.InitialRegs | labs/14-ss-equiv-deux/code/equiv-threads.c:145-158 | Argument, entry point, stack top, exit stub and status word in their registers, every other register 0 |
| EquivMachine.ScheduleProjects | labs/14-ss-equiv-deux/code/equiv-threads.c:45-64 | Switching parks the current thread and changes no thread's state; identities stay distinct |
| EquivMachine.ExitProjects | labs/14-ss-equiv-deux/code/equiv-threads.c:105-135 | An exit records the current thread and leaves every other thread as it was |
| EquivMachine.StepProjects | labs/14-ss-equiv-deux/code/equiv-threads.c:92-142 | One event of the machine is one event of the current thread taken by itself, a panic included, and of no other thread |
| ScheduleIndependence.RunProjects | labs/14-ss-equiv-deux/code/equiv-threads.c:45-220 | In every run, each thread is where its own events alone would have brought it after as many turns as it had |
| ScheduleIndependence.ExitsAsAlone | labs/14-ss-equiv-deux/code/equiv-threads.c:92-234 | A thread that exits in a group leaves, run alone, with the same hash, instruction count, registers, memory and exit code |
| ScheduleIndependence.ExitsAlikeInAllGroups | labs/14-ss-equiv-deux/code/equiv-threads.c:92-234 | Any two groups that share a thread see it exit identically |
| ScheduleIndependence.ReturnsOnlyIfAllDo | labs/14-ss-equiv-deux/code/equiv-threads.c:223-234 | If a group returns, each of its threads returns alone, with the record it has in the group |
| ScheduleIndependence.PanicsAsAlone | labs/14-ss-equiv-deux/code/equiv-threads.c:80-142 | If a group panics, one of its threads panics in the same way alone |
| ScheduleIndependence.StepReorders | labs/14-ss-equiv-deux/code/equiv-threads.c:45-64 | A handler entry moves the current thread behind all waiting ones, an exit drops it, an instruction leaves the order |
| ScheduleIndependence.ThreadsAreConserved | labs/14-ss-equiv-deux/code/equiv-threads.c:45-142 | At every moment of every run each thread is exactly once current, waiting or finished |
| ScheduleIndependence.BootTids | labs/14-ss-equiv-deux/code/equiv-threads.c:223-231 | A run starts with the head of the queue and the others behind it in order |
| SchedulerProgress.RunTakesTheSum | labs/14-ss-equiv-deux/code/equiv-threads.c:223-234 | From any state, the run returns after exactly the sum of the events, and of the handler entries, its threads still take alone, and not before |
| SchedulerProgress.GroupReturnsAfterTheSum | labs/14-ss-equiv-deux/code/equiv-threads.c:223-234 | If every thread returns alone after n_i events and k_i handler entries, the group returns after exactly the sums, with every thread finished once |
| SchedulerProgress.RoundRobin | labs/14-ss-equiv-deux/code/equiv-threads.c:45-64 | Up to a full round, handler entries go to the live threads in queue order, once each; unserved threads stay in front in order, surviving served ones follow in order |
| SchedulerProgress.FullRoundServesEachOnce | labs/14-ss-equiv-deux/code/equiv-threads.c:45-64 | Over a full round every live thread is served exactly once, and the next round starts with the survivors in the same order |
| SchedulerProgress.EveryoneIsServedIff | labs/14-ss-equiv-deux/code/equiv-threads.c:45-64 | A full round comes about if and only if every live thread, taken alone, enters a handler again and survives it |
| SchedulerProgress.SelfBranchStarves | labs/14-ss-equiv-deux/code/mini-step.c:81-107 | Once resumed at an instruction that branches to itself, a thread keeps the processor for ever and no one is served |
| Reruns.ExitRecordsHash | labs/14-ss-equiv-deux/code/equiv-threads.c:109-122 | A thread that exits leaves with its expected hash equal to its hash, its identity, code and stack unchanged |
| Reruns.ExpectedHashIsAccepted | labs/14-ss-equiv-deux/code/equiv-threads.c:109-122 | Replacing the expected hash by the one the run ends with changes nothing about the exit |
| Reruns.RerunReproduces | labs/14-ss-equiv-deux/code/equiv-threads.c:192-198 | A finished thread, refreshed and run from the same memory, ends in the very same record |
| Reruns.RerunNeverMismatches | labs/14-ss-equiv-deux/code/equiv-threads.c:92-234 | Threads that each finished once can be refreshed and run together: the run returns after the sum of their events, never reports a mismatch, and every record is that of the first run |
| Reruns.GroupMemberFinishes | labs/14-ss-equiv-deux/code/equiv-threads.c:92-142 | A thread that has exited in any group exits by itself with that record |
| Reruns.FinishesInAnyCompany | labs/14-ss-equiv-deux/code/equiv-threads.c:92-234 | A thread that exits by itself never panics in any group, and its record there is the one it leaves alone |
| Reruns.RefreshedInAnyCompany | labs/14-ss-equiv-deux/code/equiv-threads.c:109-122 | A finished thread, refreshed, can run with any other threads, well-behaved or not: at no moment has it reported a hash mismatch or panicked otherwise, and its record is that of its first run |
| Reruns.FinishersReturn | labs/14-ss-equiv-deux/code/equiv-threads.c:223-234 | Threads that each exit by themselves return together after exactly the sum of their events, each with its own record |
| HashedTrace.HashIsOfTheProgram | labs/14-ss-equiv-deux/code/equiv-threads.c:201-220 | The hash and count at exit are the fold and the number of the register states of the bare program after instructions that moved the pc, system calls excepted and without the state before the first instruction |
| HashedTrace.OutputProjects | labs/14-ss-equiv-deux/code/equiv-threads.c:102-104 | In every run, what a thread has on the console is what its own events print, in order |
| HashedTrace.PrintsAsAlone | labs/14-ss-equiv-deux/code/equiv-threads.c:102-104 | A thread prints in a group exactly the console of its run alone, as far as it has come |
| ProgramFate.Executes | labs/14-ss-equiv-deux/code/equiv-threads.c:92-104 | An instruction that goes on takes the stepped thread from its bare state k to bare state k+1, with the hash and count of the snapshots so far |
| ProgramFate.FateOfTheProgram | labs/14-ss-equiv-deux/code/equiv-threads.c:80-142 | However a thread has ended, its bare program tells how: accepted exit with registers, memory, code, hash and count of the program, or the panic for a stack pointer out of range, an illegal call, a wrong hash or the exit address |
| ProgramFate.ProgramEnds | labs/14-ss-equiv-deux/code/equiv-threads.c:80-142 | Conversely, a thread whose program ends at instruction k comes to that end |
| ProgramFate.ExitedAsExpected | labs/14-ss-equiv-deux/code/equiv-threads.c:109-122 | A thread that has exited has the fold over its program as its hash, and that is the expected one if one was expected |
| ProgramFate.MismatchReportedIff | labs/14-ss-equiv-deux/code/equiv-threads.c:112-121 | A thread alone ends in the mismatch panic if and only if its program calls EQUIV_EXIT, stack pointer in range, with a fold other than the nonzero hash expected |
| ProgramFate.OutputIsOfTheProgram | labs/14-ss-equiv-deux/code/equiv-threads.c:102-104 | What the events of a thread print are the low bytes of r1 at the calls of putc of its program, in order |
| ProgramFate.PrintsItsProgram | labs/14-ss-equiv-deux/code/equiv-threads.c:102-104 | In every group and at every moment, a thread has on the console what its program has put so far |
| Verdicts.PanicIsOfAProgram | labs/14-ss-equiv-deux/code/equiv-threads.c:80-142 | A group panics only for a reason that the program of one of its threads gives |
| Verdicts.MismatchPreventsReturn | labs/14-ss-equiv-deux/code/equiv-threads.c:112-121 | With a program in it that exits on a wrong hash, a group never returns |
| Verdicts.VerdictOnTheGroup | labs/14-ss-equiv-deux/code/equiv-threads.c:92-234 | A group whose programs all call EQUIV_EXIT properly comes to an end, in the mismatch panic if and only if one of the programs has a hash other than the one expected, and otherwise by returning |
| SchedulerProgress.RunEndsWithinTheSum | labs/14-ss-equiv-deux/code/equiv-threads.c:223-234 | Panics included, a group is over within the sum of the events after which its threads are over by themselves |
| EquivThreads.RunQueue.Empty | libpi/libc/queue-ext-T.h:21-26 | True exactly for the empty list |
| EquivThreads.RunQueue.Pop | libpi/libc/queue-ext-T.h:29-40 | Removes and returns the first node, or null from an empty queue; the links stay a proper list |
| EquivThreads.RunQueue.Append | libpi/libc/queue-ext-T.h:43-51 | Adds a node at the end; the tail is the last node and has no successor |
| EquivThreads.RunQueue.Push | libpi/libc/queue-ext-T.h:54-59 | Adds a node at the front |
| EquivThreads.Kernel.EquivFork | labs/14-ss-equiv-deux/code/equiv-threads.c:161-183 | A fresh record with the next id, which no other record has, aligned stack and initial registers, first on the queue |
| EquivThreads.Kernel.EquivForkNostack | labs/14-ss-equiv-deux/code/equiv-threads.c:184-189 | The same with an empty stack at 0 |
| EquivThreads.Kernel.EquivRefresh | labs/14-ss-equiv-deux/code/equiv-threads.c:192-198 | Registers, count and hash as at the start, everything else kept, first on the queue |
| EquivThreads.Kernel.EquivSchedule | labs/14-ss-equiv-deux/code/equiv-threads.c:45-64 | On records and links: the machine's scheduling step, resumed with its pc let through |
| EquivThreads.Kernel.MismatchRun | labs/14-ss-equiv-deux/code/mini-step.c:176-189 | Resumes the current thread with its own registers, its pc not faulting |
| EquivThreads.Kernel.EquivHashHandler | labs/14-ss-equiv-deux/code/equiv-threads.c:201-220 | On records and links: save, count, hash, then the scheduling step |
| EquivThreads.Kernel.MismatchFault | labs/14-ss-equiv-deux/code/mini-step.c:81-107 | With the hash handler installed and mini-step.c's start_regs never filled in: the machine's prefetch abort, with a panic at the exit address |
| EquivThreads.Kernel.ExitCurrent | labs/14-ss-equiv-deux/code/equiv-threads.c:124-135 | Retires the current thread and takes up the head of the queue, or returns when there is none |
| EquivThreads.Kernel.EquivSyscallHandler | labs/14-ss-equiv-deux/code/equiv-threads.c:92-142 | On records and links: the machine's system call, with its stack check, output, hash comparison, exit and panics |
| EquivThreads.Kernel.UserEvent | labs/14-ss-equiv-deux/code/equiv-threads.c:92-220 | Every event of the processor does to the kernel's state what the machine's step does |
| EquivThreads.Kernel.EquivRun | labs/14-ss-equiv-deux/code/equiv-threads.c:223-234 | For every number of events, however the run goes on: afterwards registers, records, links, output and breakpoint are where the machine's run from the queued threads is, or it has finished with its records and the debug unit off, or panicked with its reason; an empty queue panics |
| EquivRuns.RunGroup | labs/14-ss-equiv-deux/code/equiv-threads.c:223-234 | On the records: a finished run has left each thread as it leaves alone, its program having exited with the expected hash if one was expected; a panic is for a reason one of the programs gives; with a program that exits on a wrong hash it never finishes; and it is over once it has had the events its threads take to end by themselves |
| EquivRuns.RefreshAndRun | labs/14-ss-equiv-deux/code/10-equiv-test.c:52-55 | Finished threads, refreshed and run together whoever ran with them before: the run finishes after the sum of their events without a panic, and every record is again that of the first run |
| EquivRuns.RunSingle | labs/14-ss-equiv-deux/code/10-equiv-test.c:25-38 | Forked once, then refreshed and run any number of times: every run finishes with one and the same record, its hash equal to the one noted by the first |
| Ring.CountExprExact | libpi/libc/circular.h:70-71 | For every reachable head and tail, the 32-bit expression is the number of elements if and only if head >= tail or the size divides 2^32 |
| Ring.CountExprValue | libpi/libc/circular.h:70 | Once the head has wrapped below the tail the expression is the count plus 2^32 mod the size, modulo the size |
| Ring.CountExprBreaks | libpi/libc/circular-T.h:49-52 | Every size that does not divide 2^32 has a state that is miscounted |
| Ring.AssertionFailsIff | libpi/libc/circular.h:103-107 | In a ring that is not full, the assertion of free space fails if and only if the head is below the tail and size - 1 - (2^32 mod size) elements are queued; never for a size that divides 2^32 |
| Ring.AssertionCanFail | libpi/libc/circular.h:103-107 | Such a state exists for exactly the sizes that leave neither 0 nor size - 1 from 2^32 |
| Ring.PushAppends | libpi/libc/circular.h:108-112 | Writing the free slot changes no queued element; publishing it appends exactly that element |
| Ring.PopRemoves | libpi/libc/circular.h:80-83 | The slot at the tail holds the oldest element; publishing the tail removes exactly it |
| Ring.FullAndEmpty | libpi/libc/circular.h:65-68 | The index tests are tests for n-1 and for 0 elements |
| Ring.RestoreUndoesPops | libpi/libc/circular.h:218-219 | After any pushes and pops, restoring gives the checkpointed elements followed by the later pushes if and only if together they number at most n-1 |
| Ring.CircularQueue.CqCkpt | libpi/libc/circular.h:218 | The tail, a valid index |
| Ring.CircularQueue.CqRestore | libpi/libc/circular.h:219 | Only the tail moves, to the checkpoint |
| Ring.CircularQueue.TryAndRestore | libpi/libc/circular.h:218-219 | On the object: a checkpoint, any pushes and pops, and a restore leave the checkpointed elements followed by what was pushed, if and only if together they number at most n-1 |
| Ring.CircularQueue.Init | libpi/libc/circular.h:206-217 | An empty queue |
| Ring.CircularQueue.Empty | libpi/libc/circular-T.h:40-43 | True exactly when nothing is queued |
| Ring.CircularQueue.Full | libpi/libc/circular-T.h:44-47 | True exactly when n-1 elements are queued |
| Ring.CircularQueue.Nelem | libpi/libc/circular.h:70 | The number of queued elements if and only if the head has not wrapped below the tail or the size divides 2^32 |
| Ring.CircularQueue.Nspace | libpi/libc/circular.h:71 | The number of elements that still fit, under the same condition |
| Ring.CircularQueue.PopNonblk | libpi/libc/circular-T.h:55-67 | The oldest element, removed, or nothing from an empty queue |
| Ring.CircularQueue.Push | libpi/libc/circular-T.h:82-93 | Appends, or refuses exactly when full, for any size |
| Ring.CircularQueue.CqPush | libpi/libc/circular.h:102-114 | Appends, refuses exactly when full, or fails its assertion exactly where AssertionFailsIff says |
| Ring.CircularQueue.CqPopN | libpi/libc/circular.h:127-132 | The oldest n elements in order, nothing else of the buffer changed; with too few it takes them all and waits |
| Ring.CircularQueue.CqPopNNoblk | libpi/libc/circular.h:134-139 | Refuses exactly by the count expression; where the size divides 2^32, all n in order or no change, and it never waits |
| Ring.CircularQueue.CqPeekN | libpi/libc/circular.h:143-157 | The oldest n elements without removing any, refused exactly by the count expression; where the size divides 2^32, exactly if there are n |
| Ring.CircularQueue.CqPushN | libpi/libc/circular.h:161-175 | A prefix of the values in order for any size; where the size divides 2^32, all of them or none exactly by the space, and the panic is not reached |
| Ring.CircularQueue.Get | libpi/libc/circular-T.h:96-101 | The i-th oldest element for every i below both counts; where the size divides 2^32, exactly for the queued elements |
| Ring.CircularQueue.PushWDrop | libpi/libc/circular-T.h:103-110 | Appends, a full queue losing its oldest element; it panics for size 1 only |
| RingProtocol.NextKeepsInv | libpi/libc/circular.h:65-175 | Every step of either side keeps: published = handed out + queued, and what each side has established at its program point |
| RingProtocol.PoppedIsPrefixOfPushed | libpi/libc/circular.h:74-114 | For every size and in every interleaving from an empty ring, the popped values are a prefix of the pushed ones and the rest is what the ring holds, at most size - 1; where the size divides 2^32 the producer has not panicked |
| RingProtocol.CallsAreAllOrNothing | libpi/libc/circular.h:127-175 | For every size and in every interleaving, published values are the successful calls' arguments in order followed by those of the call in progress, and each finished pop call delivers all it asked for or nothing |
| RingProtocol.BatchesGoThrough | libpi/libc/circular.h:134-175 | Where the size divides 2^32: past its space check a batch push always finds room; past its count check a batch pop never waits |
| RingProtocol.PanicIsExact | libpi/libc/circular.h:102-107 | A step of a push panics if and only if it is at the assertion in a misjudged ring, or in a batch that finds the ring full |
| RingProtocol.TemplateNeverPanics | libpi/libc/circular-T.h:82-93 | A producer that calls only the template's push never panics, whatever the size |
| RingProtocol.SlotsAreDisjoint | libpi/libc/circular.h:78-112 | The slot being written is never the one being read, and the value read is the oldest queued one |
| RingProtocol.StepRefinesQueue | libpi/libc/circular.h:74-114 | Each step is one enqueue, one dequeue or nothing on an atomic bounded queue, at the two publishing stores |
| RingProtocol.PushRefusalIsExact | libpi/libc/circular.h:102-104 | A push gives up at its check if and only if its values do not fit at that moment |
| RingProtocol.PopRefusalIsExact | libpi/libc/circular.h:74-76 | A pop gives up at its check if and only if fewer elements are queued at that moment than it asks for |
| RingProtocol.UninterruptedPush | libpi/libc/circular.h:102-114 | The micro-steps of the template's push, and of cq_push where its assertion holds, with nothing between them are the sequential push |
| RingProtocol.UninterruptedPop | libpi/libc/circular.h:74-86 | The micro-steps of a pop with nothing between them are the sequential pop |
| RingCalls.PopNNoblkReturns | libpi/libc/circular.h:134-139 | Where the size divides 2^32, from the call on and under any interleaving with the producer: within 3n + 1 own steps it has returned, with the n oldest elements if that many were queued at its first step, and otherwise having taken nothing |
| RingCalls.PopNonblockReturns | libpi/libc/circular.h:74-86 | For every size, under any interleaving: within three own steps it has returned, with the oldest element if one was queued at its first step, and otherwise with nothing |
| RingCalls.PopNNeverRefuses | libpi/libc/circular.h:88-132 | Under any interleaving a blocking pop of n is still at it or has returned n elements; it is never refused |
| RingCalls.PushReturns | libpi/libc/circular.h:102-114 | Under any interleaving with the consumer: within four own steps a push has returned, having gone through if and only if the ring was not full at its first step; for the template on every size, for cq_push where the size divides 2^32 |
| RingCalls.PushNReturns | libpi/libc/circular.h:161-175 | Where the size divides 2^32, under any interleaving: within 4n + 1 own steps all n values are pushed if they fitted at its first step, and otherwise none |
| Random.PointerWalkRefinesRecurrence | libpi/libc/random.c:140-185 | From any table, the k-th output is the high 31 bits of term d+k of x(n) = x(n-d) + x(n-s) modulo 2^32, seeded with the table read from the front pointer |
| Random.Trinomials | libpi/libc/random.c:85-125 | The degrees and separations are 7 and 3, 15 and 1, 31 and 3, 63 and 1 |
| Random.TypeZeroIsCongruential | libpi/libc/random.c:149-155 | A type 0 buffer yields the terms of x' = 1103515245x + 12345 modulo 2^31 |
| Random.SchrageExact | libpi/libc/random.c:222-229 | For every 32-bit word the divide-first step is 16807 * word modulo 2^31-1 and no intermediate leaves the signed range |
| Random.NextSeedWord | libpi/libc/random.c:220-231 | The loop's next word is the next power of 16807 times the seed, modulo 2^31-1 |
| Random.SeedWordZero | libpi/libc/random.c:217-231 | Later table words are residues modulo 2^31-1, and 0 if and only if the seed is |
| Random.DegenerateSeeds | libpi/libc/random.c:210-231 | For every seed (0 standing for 1), the table words lie in 1 .. 2^31-2, except for exactly two seeds, for which they are 0 |
| Random.OutputsAfterSeeding | libpi/libc/random.c:195-247 | For every seed (0 standing for 1) and type 1-4, the k-th output after seeding is the high 31 bits of term 11d+k of the recurrence seeded with the table rotated by the separation |
| Random.TypeZeroAfterSeeding | libpi/libc/random.c:211-215 | A seeded buffer of type 0 yields the congruence from the seed, 0 standing for 1, with nothing thrown away |
| Random.DecodeUndoesHeader | libpi/libc/random.c:329-346 | Division and remainder undo the multiplexing of type and rear pointer |
| Random.ResumesIffHeaderCurrent | libpi/libc/random.c:260-301 | The same read from a buffer: what setstate_r decodes under a stale header is the generator that was left if and only if its draws were a multiple of the degree |
| Random.WalkWraps | libpi/libc/random.c:166-177 | The two pointers cannot both wrap in one call, and both advance by one around the circle |
| Random.RandomData.RandomR | libpi/libc/random.c:140-185 | On pointers and buffer: one draw of the generator, the header untouched |
| Random.RandomData.StepPointers | libpi/libc/random.c:166-179 | The pointer steps with one wrap test each keep the pointers the separation apart and advance the rear one around the circle |
| Random.RandomData.FillTable | libpi/libc/random.c:217-231 | The loop leaves 16807^i * seed modulo 2^31-1 in word i |
| Random.RandomData.SrandomR | libpi/libc/random.c:195-247 | Fails on an unknown type without touching the buffer; otherwise the state is the seeded table after 10d draws |
| Random.TypeForSize | libpi/libc/random.c:270-281 | The largest type whose table and header fit into that many bytes |
| Random.RandomData.InitstateR | libpi/libc/random.c:260-305 | Takes the largest type whose table and header fit into the size, fails below 8 bytes without change, otherwise seeds and writes a current header, 5 times the rear pointer plus the type |
| Random.RandomData.SetstateR | libpi/libc/random.c:315-356 | Writes a current header into the buffer left; fails on a header of negative type; otherwise resumes the other buffer exactly where its header says, and is usable afterwards if and only if that lies in a table the buffer holds |
| RandomSwitching.StepKeepsStreams | libpi/libc/random.c:260-356 | A call advances the stream it draws from and changes no stream but those it seeds or abandons under a stale header |
| Random.AbandonedIffFullTurns | libpi/libc/random.c:286-299 | A generator taken up at an old pointer is where it was if and only if its draws since then were a multiple of the degree |
| RandomSwitching.Start | libpi/libc/random.c:260-305 | The first initstate_r sets the object up with one stream |
| RandomSwitching.Perform | libpi/libc/random.c:140-356 | Each of the four calls does to the object and its buffers what one step does to the independent streams |
| RandomSwitching.PerformAll | libpi/libc/random.c:140-356 | Any run of draws, reseedings, switches and initialisations on one object draws exactly what independent generators, one to a buffer, draw |
| RandomSwitching.SwitchingIsTransparent | libpi/libc/random.c:315-356 | Whatever is drawn, seeded, initialised or switched to in between, what is drawn from a buffer that is not itself reseeded or left under a stale header is the beginning of its own uninterrupted stream |
| Crc.TableIsShift8 | libpi/libc/crc.c:8-52 | Each of the 256 entries is its index after eight division steps |
| Crc.TableStepIsByte | libpi/libc/crc.c:59 | One look-up absorbs the eight bits of a byte |
| Crc.OurCrc32Inc | libpi/libc/crc.c:54-61 | The loop, with its complement before and after, computes the bit-at-a-time reflected CRC-32 (section 8 of RFC 1952) for every buffer and start value |
| Crc.OurCrc32 | libpi/libc/crc.c:63-65 | The same from start value 0 |
| Crc.IncrementalCrc | libpi/libc/crc.c:54-65 | Continuing from the checksum of a with b gives the checksum of a followed by b |
| Crc.LeadingZeroIsSeen | libpi/libc/crc.c:57 | A zero byte in front changes every checksum |
| Crc.ResidueIsConstant | libpi/libc/crc.c:54-61 | Every message followed by its own checksum, least significant byte first, has the checksum 0x2144DF1C |
| Crc.CheckValue | libpi/libc/crc.c:54-65 | The digits 123456789 have the checksum 0xCBF43926 |
| Crc.BurstDetected | libpi/libc/crc.c:54-65 | Buffers of one length that differ only inside 32 consecutive bits, anywhere, have different checksums |
| Crc.ByteBurstDetected | libpi/libc/crc.c:54-65 | So do buffers that differ only inside four consecutive bytes |
| Crc.LongerBurstMissed | libpi/libc/crc.c:54-65 | 33 bits is too long: a concrete burst that goes unseen |
| VirtualMemory.LockFields | labs/15-pinned-vm/code/pinned-vm.c:128-138 | The field extraction of the entry printer gives back every attribute put into the lockdown registers, and all their other bits are 0 |
| VirtualMemory.LockHitsItsSection | labs/15-pinned-vm/code/pinned-vm.c:107-139 | A pinned entry hits exactly the addresses of its section, for everyone if global and otherwise for its process |
| VirtualMemory.WordFields | labs/16-vm-page-table/code/pt-vm.c:87-102 | The bit fields of a section descriptor hold every attribute and do not overlap; the supersection, shared and reserved bits are 0 |
| VirtualMemory.EncodingsAgree | labs/16-vm-page-table/code/pt-vm.c:87-106 | For every attribute record and pair of addresses, the pinned entry and the descriptor read back as the same translation |
| VirtualMemory.TableRefinesMap | labs/16-vm-page-table/code/pt-vm.c:65-139 | After any sequence of mappings, an address reads as the last mapping of its section, and as empty if there was none |
| VirtualMemory.LastCallIsLast | labs/16-vm-page-table/code/pt-vm.c:65-106 | The mapping a table goes by is the last one of the section |
| VirtualMemory.TranslationKeepsOffset | labs/16-vm-page-table/code/pt-vm.c:154-155 | Translation keeps the low 20 bits and replaces the rest by the mapped base |
| VirtualMemory.SlotAddress | labs/16-vm-page-table/code/pt-vm.c:84-85 | Or-ing the shifted index into a 2^14-aligned base is adding four times the index |
| VirtualMemory.PageTable.constructor | labs/16-vm-page-table/code/pt-vm.c:10-24 | A table of empty slots at the allocator's aligned address |
| VirtualMemory.PageTable.VmMapSec | labs/16-vm-page-table/code/pt-vm.c:65-112 | Writes the descriptor into exactly the section's slot |
| VirtualMemory.PageTable.VmLookup | labs/16-vm-page-table/code/pt-vm.c:116-139 | The slot of the address if it is not empty, nothing otherwise |
| VirtualMemory.PageTable.VmXlate | labs/16-vm-page-table/code/pt-vm.c:147-161 | The mapped base with the address's offset, or "no entry" |
| VirtualMemory.PageTable.VmDup | labs/16-vm-page-table/code/pt-vm.c:27-31 | A new table with the same entries; the original is untouched and not shared |
| PageTables.PerformAll | labs/16-vm-page-table/code/pt-vm.c:27-112 | After any run of vm_map_sec and vm_dup among any number of tables, no two share memory and each holds exactly the mappings of its own history, a duplicate that of its original up to then |
| PageTables.XlateAfter | labs/16-vm-page-table/code/pt-vm.c:27-161 | After any such run, vm_xlate returns the base last mapped for the section in the history of the table, with the low 20 bits of the address, or no entry if there was none; its assertion on the tag holds |
| AddressSpaces.DomPerm | labs/15-pinned-vm/code/procmap.h:45-56 | Each domain of the set gets the permission and every other one none |
| AddressSpaces.PushKeepsDomains | labs/15-pinned-vm/code/procmap.h:36-41 | The domain set stays exactly the domains of the entries |
| AddressSpaces.Procmap.ProcmapPush | labs/15-pinned-vm/code/procmap.h:36-41 | Appends the entry |
| AddressSpaces.Procmap.ProcmapLookup | labs/15-pinned-vm/code/procmap.h:58-69 | The first entry whose range contains the address, or nothing if none does |
| AddressSpaces.ContainsIsSection | labs/15-pinned-vm/code/procmap.h:63-65 | The 32-bit range test is membership in the section, except that the last megabyte contains nothing |
| AddressSpaces.LockdownTlb.PinMmuSec | labs/15-pinned-vm/code/pinned-vm.c:107-157 | Three register writes through the index register fill exactly the chosen entry |
| AddressSpaces.LockdownTlb.ProcmapPin | labs/15-pinned-vm/code/procmap.h:124-143 | Entry i pins the section of entry i of the map onto itself; the entries past the map stay |
| AddressSpaces.VmMapKernel | labs/16-vm-page-table/code/pt-vm.c:186-230 | A fresh table mapping every section onto itself, client access for exactly the map's domains, and the final check never fails |
| AddressSpaces.EntriesAreFound | labs/16-vm-page-table/code/pt-vm.c:216-221 | Every entry of the map has a slot that is not empty |
| AddressSpaces.PinnedKeepsPromise | labs/15-pinned-vm/code/pinned-vm.c:107-139 | The pinned entries translate every address as the map says, for every process |
| AddressSpaces.TableKeepsPromise | labs/16-vm-page-table/code/pt-vm.c:204-214 | So does the page table, for every map of disjoint sections |
| AddressSpaces.LastSectionWins | labs/16-vm-page-table/code/pt-vm.c:205-214 | Where sections of the map overlap, the page table has the attributes of the last |
| AddressSpaces.ImplementationsAgree | labs/16-vm-page-table/code/pt-vm.c:178-214 | For every map of at most eight disjoint sections, every address and process, both give the same physical address, domain, permissions, TEX, C, B, XN and global bit, or both give none |
| AddressSpaces.AddressSpaceIsIdentity | labs/15-pinned-vm/code/procmap.h:124-143 | An address of the map translates to itself, privileged read-write, uncached or device, global; any other address faults |
| AddressSpaces.LookupFindsMapped | labs/15-pinned-vm/code/procmap.h:58-69 | An address is found in the map if and only if it translates and is not in the last megabyte |
| IntrusiveQueue.Queue.Pop | libpi/libc/Q.h:27-40 | Removes and returns the first element, or null; count, head and tail follow |
| IntrusiveQueue.Queue.Append | libpi/libc/Q.h:43-52 | Adds at the end |
| IntrusiveQueue.Queue.Push | libpi/libc/Q.h:55-61 | Adds at the front |
| IntrusiveQueue.Queue.InsertAfter | libpi/libc/Q.h:72-82 | Adds right behind the anchor, or at the front for a null anchor |
| IntrusiveQueue.PlaceOfTheNew | libpi/libc/Q.h:43-82 | A push puts the element first, an append last, an insertion right behind the anchor, and everything else stays in its place |
| IntrusiveQueue.ApplyConserves | libpi/libc/Q.h:27-82 | Each operation adds exactly its element or removes exactly the one it returns: what is there and what was popped is what was there and what was added |
| IntrusiveQueue.ApplyKeepsDistinct | libpi/libc/Q.h:27-82 | Each operation keeps the elements distinct |
| IntrusiveQueue.RunConserves | libpi/libc/Q.h:27-82 | Over any legal run, what is in the queue and what was popped is what was there and what was added |
| IntrusiveQueue.AppendPopIsFifo | libpi/libc/Q.h:27-52 | Under any run of appends and pops, popped elements followed by queued ones are the initial ones followed by the appended ones, in order |
| Fat32Names.IsValidName | labs/19-fat32-readonly/code/fat32-helpers.c:190-214 | Accepts exactly names of one to eight capitals and digits, or such a base with a dot and a three-character extension |
| Fat32Names.ValidSpelledOut | labs/19-fat32-readonly/code/fat32-helpers.c:196-213 | The accepted names, character by character |
| Fat32Names.DirentSetName | labs/19-fat32-readonly/code/fat32-helpers.c:216-230 | The field holds base and extension, blank-padded in their places |
| Fat32Names.FieldPlaces | labs/19-fat32-readonly/code/fat32-helpers.c:223-229 | The base at 0, the extension at 8, blanks everywhere else |
| Fat32Names.To8dot3 | labs/19-fat32-readonly/code/fat32-helpers.c:164-183 | The base without trailing blanks, a dot, and the extension if the field has a base; a store before the buffer if and only if it has none |
| Fat32Names.HasNoBaseIff | labs/19-fat32-readonly/code/fat32-helpers.c:168-177 | The fields without a base are exactly those that begin with eight blanks |
| Fat32Names.ShownField | labs/19-fat32-readonly/code/fat32-helpers.c:164-230 | A dotted name reads back as itself; a bare one as itself with a dot and three blanks |
| Fat32Names.ShownIdentifies | labs/19-fat32-readonly/code/fat32-helpers.c:164-230 | Among all 11-byte fields, whatever they hold, only the field of a valid name reads back as that name |
| Fat32Names.DottedNamesRoundTrip | labs/19-fat32-readonly/code/fat32-helpers.c:164-230 | Writing and reading back a valid name with a dot is the identity |
| Fat32Names.FieldsAreDistinct | labs/19-fat32-readonly/code/fat32-helpers.c:216-230 | Valid names, dotted or not, have the same field if and only if they are the same |
| Fat32Names.DirLookup | labs/19-fat32-readonly/code/fat32-helpers.c:297-306 | The first entry with that field that is not free (first byte 0 or 0xE5) and no long-name piece (attribute 0x0F), or -1 |
| Fat32Names.LookupName | labs/19-fat32-readonly/code/fat32-helpers.c:297-306 | Looking up a valid name's field in any directory, with free slots, deleted entries, long-name pieces or names no one could have written, finds the first live entry that reads as that name, or -1 if there is none |

## Left out

- EquivThreads.Kernel.EquivRefresh: does not reset the thread's memory, as in the code, so the re-run theorems take the private memory to be what it was at first.
- AddressSpaces.ImplementationsAgree: lockdown entries beyond the map are taken to be invalid, as they are after reset; MEM_RO sections panic in both implementations and are excluded.
- What happens after an access outside a buffer: a store of `to_8dot3` before its buffer, or a draw after `setstate_r` has taken a pointer outside the table, is reported and not followed.
- User code in Thumb state: the assertion in `mismatch_pc_set` that `bvr0` holds the pc would fail at an odd halfword.
- Threads that share memory: a thread's state is its registers and memory of its own; instructions that read another thread's memory are outside the theorems.
- The panic of `cq_pop` when it would wait with interrupts disabled, and the assertion of `cq_push_n` that it is given something.
- Null arguments of the generator's functions, which only return -1.
- Waiting for the UART, its output beyond the characters themselves, tracing and `verbose_p`.
- What the step handler does besides observing: a handler that changes the registers it is shown is not modelled.
- EquivThreads.Kernel.MismatchFault: an image that has used `mini_step_run` before `equiv_run` would resume its old registers at the exit address; threads that call it themselves, and switching the step handler while threads exist.
- The inline assembly, barriers, cache and TLB maintenance, and `tlb_contains_va`, which asks the hardware.
- Weak memory ordering in the ring, and `cq_peek_n` and `_push_w_drop` under concurrency: they move the other side's index.
- `attr_mk` and the switch in `procmap_pin` are one and the same table of attributes and are modelled once.
- Sizes other than 1MB, the FAT32 and MBR file-system bodies, and the device drivers.
- `fast_hash_inc32` is any function of the registers and the previous hash.
