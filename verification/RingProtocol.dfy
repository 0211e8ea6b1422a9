// The single-producer/single-consumer protocol of libpi/libc/circular.h: every
// shared access is one step, and the two sides interleave freely.
module RingProtocol {
  import opened Words
  import opened Ring

  /** The numbered program points of cq_push. */
  datatype PushPc = AtFull | AtAssert | AtWrite | AtPublish

  /** The template's push, cq_push with its assertion, and cq_push inside cq_push_n. */
  datatype PushKind = Template | Asserting | OfBatch

  /** The producer: idle, at the space check of cq_push_n, inside a push, or panicked there. */
  datatype Producer<E> =
    | PIdle
    | PSpace(xs: seq<E>)
    | PPush(pc: PushPc, xs: seq<E>, k: nat, kind: PushKind)   // pushing xs[k]
    | PPanic(xs: seq<E>, k: nat)

  /** The program points of cq_pop_nonblock; the value read is held until it is published. */
  datatype PopPc<E> = AtEmpty | AtRead | AtRelease(e: E)

  /** cq_pop_nonblock, cq_pop_n, and cq_pop_n_noblk after its count check. */
  datatype PopKind = Try | Blocking | Batch

  datatype Consumer<E> =
    | CIdle
    | CCount(n: nat)
    | CPop(pc: PopPc<E>, n: nat, got: seq<E>, kind: PopKind)   // popping element |got| of n

  /** A finished call and what it returned. */
  datatype PushCall<E> = PushCall(xs: seq<E>, ok: bool)
  datatype PopCall<E> = PopCall(n: nat, got: seq<E>, ok: bool)

  /** The shared ring, both sides, and the history of finished calls and published values. */
  datatype System<E> = System(
    ring: Ring<E>,
    prod: Producer<E>,
    cons: Consumer<E>,
    pushed: seq<E>,
    popped: seq<E>,
    pushes: seq<PushCall<E>>,
    pops: seq<PopCall<E>>)

  datatype Step<E> =
    | CallTemplatePush(x: E)
    | CallPush(x: E)
    | CallPushN(xs: seq<E>)
    | CallPop
    | CallPopN(n: nat)
    | CallPopNNoblk(n: nat)
    | ProducerStep
    | ConsumerStep

  /** What cq_nelem and cq_nspace evaluate to. */
  function Nelem<E>(r: Ring<E>): nat
    requires r.Valid()
  {
    CountExpr(r.head, r.tail, r.N())
  }

  function Nspace<E>(r: Ring<E>): Word
    requires r.Valid()
  {
    ToWord(r.N() - 1 - Nelem(r))
  }

  /** The size makes the counts exact. */
  ghost predicate Exact<E>(r: Ring<E>) {
    r.N() > 0 && TWO32 % r.N() == 0
  }

  lemma CountsAreExact<E>(r: Ring<E>)
    requires r.Valid()
    ensures Exact(r) ==> Nelem(r) == r.Count() && Nspace(r) == r.N() - 1 - r.Count()
    ensures !r.Full() ==> (Nspace(r) == 0 <==> Misjudged(r)) && (Misjudged(r) ==> !Exact(r))
  {
    SpaceIsComplement(r);
    CountExprExact(r);
    hide CountExpr, Misjudged, Ring.Full, Ring.Count, Nspace;
    if !r.Full() {
      AssertionFailsIff(r);
    }
  }

  lemma SpaceIsComplement<E>(r: Ring<E>)
    requires r.Valid()
    ensures Nelem(r) < r.N() && Nspace(r) == r.N() - 1 - Nelem(r)
  {
  }

  function StepProducer<E>(s: System<E>): (t: System<E>)
    requires s.ring.Valid()
    requires s.prod.PPush? ==> s.prod.k < |s.prod.xs|
    ensures t.ring.Valid() && t.ring.N() == s.ring.N()
    ensures t.prod.PPush? ==> t.prod.k < |t.prod.xs|
  {
    match s.prod
    case PIdle => s
    case PPanic(_, _) => s
    case PSpace(xs) =>
      if Nspace(s.ring) < |xs| then s.(prod := PIdle, pushes := s.pushes + [PushCall(xs, false)])
      else if xs == [] then s.(prod := PPanic([], 0))
      else s.(prod := PPush(AtFull, xs, 0, OfBatch))
    case PPush(pc, xs, k, kind) =>
      match pc
      case AtFull =>
        if s.ring.Full() then
          if kind == OfBatch then s.(prod := PPanic(xs, k))
          else s.(prod := PIdle, pushes := s.pushes + [PushCall(xs, false)])
        else s.(prod := PPush(if kind == Template then AtWrite else AtAssert, xs, k, kind))
      case AtAssert =>
        if Nspace(s.ring) > 0 then s.(prod := PPush(AtWrite, xs, k, kind)) else s.(prod := PPanic(xs, k))
      case AtWrite =>
        s.(ring := s.ring.WriteAtHead(xs[k]), prod := PPush(AtPublish, xs, k, kind))
      case AtPublish =>
        var s1 := s.(ring := s.ring.AdvanceHead(), pushed := s.pushed + [xs[k]]);
        if k + 1 < |xs| then s1.(prod := PPush(AtFull, xs, k + 1, kind))
        else s1.(prod := PIdle, pushes := s.pushes + [PushCall(xs, true)])
  }

  function StepConsumer<E>(s: System<E>): (t: System<E>)
    requires s.ring.Valid()
    ensures t.ring.Valid() && t.ring.N() == s.ring.N()
  {
    match s.cons
    case CIdle => s
    case CCount(n) =>
      if Nelem(s.ring) < n then s.(cons := CIdle, pops := s.pops + [PopCall(n, [], false)])
      else StartPops(s, n, Batch)
    case CPop(pc, n, got, kind) =>
      match pc
      case AtEmpty =>
        if s.ring.Empty() then
          if kind == Try then s.(cons := CIdle, pops := s.pops + [PopCall(n, [], false)]) else s
        else s.(cons := CPop(AtRead, n, got, kind))
      case AtRead =>
        s.(cons := CPop(AtRelease(s.ring.buf[s.ring.tail]), n, got, kind))
      case AtRelease(e) =>
        var s1 := s.(ring := s.ring.AdvanceTail(), popped := s.popped + [e]);
        if |got| + 1 < n then s1.(cons := CPop(AtEmpty, n, got + [e], kind))
        else s1.(cons := CIdle, pops := s.pops + [PopCall(n, got + [e], true)])
  }

  function StartPops<E>(s: System<E>, n: nat, kind: PopKind): System<E> {
    if n == 0 then s.(cons := CIdle, pops := s.pops + [PopCall(0, [], true)])
    else s.(cons := CPop(AtEmpty, n, [], kind))
  }

  /** One step of the system: a side starts a call when idle, or advances its own call. */
  function Next<E>(s: System<E>, step: Step<E>): (t: System<E>)
    requires s.ring.Valid()
    requires s.prod.PPush? ==> s.prod.k < |s.prod.xs|
    ensures t.ring.N() == s.ring.N()
  {
    match step
    case CallTemplatePush(x) => if s.prod.PIdle? then s.(prod := PPush(AtFull, [x], 0, Template)) else s
    case CallPush(x) => if s.prod.PIdle? then s.(prod := PPush(AtFull, [x], 0, Asserting)) else s
    case CallPushN(xs) => if s.prod.PIdle? && xs != [] then s.(prod := PSpace(xs)) else s
    case CallPop => if s.cons.CIdle? then StartPops(s, 1, Try) else s
    case CallPopN(n) => if s.cons.CIdle? then StartPops(s, n, Blocking) else s
    case CallPopNNoblk(n) => if s.cons.CIdle? then s.(cons := CCount(n)) else s
    case ProducerStep => StepProducer(s)
    case ConsumerStep => StepConsumer(s)
  }

  // ----- The invariant -----

  /** The values of the successful push calls, in call order. */
  function Accepted<E>(calls: seq<PushCall<E>>): seq<E> {
    if calls == [] then []
    else Accepted(calls[..|calls| - 1]) + (if calls[|calls| - 1].ok then calls[|calls| - 1].xs else [])
  }

  /** The values the pop calls have handed out, in call order. */
  function Delivered<E>(calls: seq<PopCall<E>>): seq<E> {
    if calls == [] then [] else Delivered(calls[..|calls| - 1]) + calls[|calls| - 1].got
  }

  /** Published values: those of finished successful calls and of the call in progress. */
  ghost predicate ProducerInv<E>(s: System<E>)
    requires s.ring.Valid()
  {
    match s.prod
    case PPanic(xs, k) => !Exact(s.ring) && k <= |xs| && s.pushed == Accepted(s.pushes) + xs[..k]
    case PIdle => s.pushed == Accepted(s.pushes)
    case PSpace(xs) => xs != [] && s.pushed == Accepted(s.pushes)
    case PPush(pc, xs, k, kind) =>
      && k < |xs|
      && (kind != OfBatch ==> |xs| == 1)
      && s.pushed == Accepted(s.pushes) + xs[..k]
      && (pc != AtFull ==> s.ring.Count() < s.ring.N() - 1)
      && (kind == OfBatch && Exact(s.ring) ==> s.ring.Count() + (|xs| - k) <= s.ring.N() - 1)
      && (pc == AtPublish ==> s.ring.buf[s.ring.head] == xs[k])
  }

  ghost predicate ConsumerInv<E>(s: System<E>)
    requires s.ring.Valid()
  {
    match s.cons
    case CIdle => s.popped == Delivered(s.pops)
    case CCount(n) => s.popped == Delivered(s.pops)
    case CPop(pc, n, got, kind) =>
      && |got| < n
      && (kind == Try ==> n == 1)
      && s.popped == Delivered(s.pops) + got
      && (pc != AtEmpty ==> s.ring.Count() > 0)
      && (kind == Batch && Exact(s.ring) ==> s.ring.Count() >= n - |got|)
      && (pc.AtRelease? ==> pc.e == s.ring.buf[s.ring.tail])
  }

  /** Every finished pop call handed out exactly what it was asked for, or nothing. */
  ghost predicate AllOrNothing<E>(pops: seq<PopCall<E>>) {
    forall i | 0 <= i < |pops| :: |pops[i].got| == if pops[i].ok then pops[i].n else 0
  }

  ghost predicate Inv<E>(s: System<E>) {
    && s.ring.Valid()
    && s.pushed == s.popped + s.ring.Contents()
    && ProducerInv(s)
    && ConsumerInv(s)
    && AllOrNothing(s.pops)
  }

  function Init<E>(buf: seq<E>): System<E> {
    System(Ring(buf, 0, 0), PIdle, CIdle, [], [], [], [])
  }

  lemma AcceptedGrows<E>(calls: seq<PushCall<E>>, c: PushCall<E>)
    ensures Accepted(calls + [c]) == Accepted(calls) + if c.ok then c.xs else []
  {
    assert (calls + [c])[..|calls|] == calls;
  }

  lemma DeliveredGrows<E>(calls: seq<PopCall<E>>, c: PopCall<E>)
    ensures Delivered(calls + [c]) == Delivered(calls) + c.got
  {
    assert (calls + [c])[..|calls|] == calls;
  }

  lemma ConsumerSeesPublish<E>(s: System<E>, t: System<E>)
    requires s.ring.Valid() && t.ring.Valid() && ConsumerInv(s)
    requires t.cons == s.cons && t.popped == s.popped && t.pops == s.pops
    requires t.ring.buf == s.ring.buf && t.ring.tail == s.ring.tail && t.ring.Count() >= s.ring.Count()
    ensures ConsumerInv(t)
  {
  }

  lemma ProducerChecksSpace<E>(s: System<E>)
    requires Inv(s) && s.prod.PSpace?
    ensures Inv(StepProducer(s))
  {
    CountsAreExact(s.ring);
    hide Ring.Contents, Ring.Count, Ring.Full, Nelem, Nspace, Accepted, Delivered, Misjudged, ConsumerInv;
    AcceptedGrows(s.pushes, PushCall(s.prod.xs, false));
    ConsumerSeesPublish(s, StepProducer(s));
  }

  lemma ProducerChecksFull<E>(s: System<E>)
    requires Inv(s) && s.prod.PPush? && (s.prod.pc == AtFull || s.prod.pc == AtAssert)
    ensures Inv(StepProducer(s))
  {
    FullAndEmpty(s.ring);
    CountsAreExact(s.ring);
    hide Ring.Contents, Ring.Count, Ring.Full, Nelem, Nspace, Accepted, Delivered, Misjudged, ConsumerInv;
    AcceptedGrows(s.pushes, PushCall(s.prod.xs, false));
    ConsumerSeesPublish(s, StepProducer(s));
  }

  lemma ProducerWrites<E>(s: System<E>)
    requires Inv(s) && s.prod.PPush? && s.prod.pc == AtWrite
    ensures Inv(StepProducer(s))
  {
    hide Ring.Contents, Accepted, Delivered;
    PushAppends(s.ring, s.prod.xs[s.prod.k]);
  }

  lemma ProducerPublishes<E>(s: System<E>)
    requires Inv(s) && s.prod.PPush? && s.prod.pc == AtPublish
    ensures Inv(StepProducer(s))
  {
    var xs, k := s.prod.xs, s.prod.k;
    var t := StepProducer(s);
    PublishAppends(s.ring);
    hide Ring.Contents, Ring.Count, Accepted, Delivered, ProducerInv, ConsumerInv;
    assert t.pushed == t.popped + t.ring.Contents();
    ConsumerSeesPublish(s, t);
    ProducerMovesOn(s);
  }

  lemma ProducerMovesOn<E>(s: System<E>)
    requires s.ring.Valid() && s.ring.Count() < s.ring.N() - 1 && s.ring.AdvanceHead().Valid()
    requires s.ring.AdvanceHead().Count() == s.ring.Count() + 1
    requires s.prod.PPush? && s.prod.pc == AtPublish && ProducerInv(s)
    ensures ProducerInv(StepProducer(s))
  {
    var xs, k := s.prod.xs, s.prod.k;
    AcceptedGrows(s.pushes, PushCall(xs, true));
    assert xs[..k + 1] == xs[..k] + [xs[k]];
    assert xs[..|xs|] == xs;
    hide Ring.Count, Accepted;
  }

  lemma ConsumerCounts<E>(s: System<E>)
    requires Inv(s) && s.cons.CCount?
    ensures Inv(StepConsumer(s))
  {
    CountsAreExact(s.ring);
    hide Ring.Contents, Ring.Count, Nelem, Nspace, Accepted, Delivered, ProducerInv;
    DeliveredGrows(s.pops, PopCall(s.cons.n, [], false));
    DeliveredGrows(s.pops, PopCall(0, [], true));
    ProducerSeesSameRing(s, StepConsumer(s));
  }

  lemma ConsumerChecks<E>(s: System<E>)
    requires Inv(s) && s.cons.CPop? && !s.cons.pc.AtRelease?
    ensures Inv(StepConsumer(s))
  {
    FullAndEmpty(s.ring);
    hide Ring.Contents, Ring.Count, Ring.Empty, Accepted, Delivered, ProducerInv;
    DeliveredGrows(s.pops, PopCall(s.cons.n, [], false));
    ProducerSeesSameRing(s, StepConsumer(s));
  }

  lemma ProducerSeesSameRing<E>(s: System<E>, t: System<E>)
    requires s.ring.Valid() && ProducerInv(s)
    requires t.ring == s.ring && t.prod == s.prod && t.pushed == s.pushed && t.pushes == s.pushes
    ensures ProducerInv(t)
  {
  }

  lemma ConsumerReleases<E>(s: System<E>)
    requires Inv(s) && s.cons.CPop? && s.cons.pc.AtRelease?
    ensures Inv(StepConsumer(s))
  {
    hide Ring.Contents, Ring.Count, Accepted, Delivered;
    PopRemoves(s.ring);
    DeliveredGrows(s.pops, PopCall(s.cons.n, s.cons.got + [s.cons.pc.e], true));
  }

  lemma NextKeepsInv<E>(s: System<E>, step: Step<E>)
    requires Inv(s)
    ensures Inv(Next(s, step))
  {
    hide Ring.Contents, Ring.Count, Accepted, Delivered;
    match step {
      case ProducerStep =>
        if s.prod.PSpace? {
          ProducerChecksSpace(s);
        } else if s.prod.PPush? && (s.prod.pc == AtFull || s.prod.pc == AtAssert) {
          ProducerChecksFull(s);
        } else if s.prod.PPush? && s.prod.pc == AtWrite {
          ProducerWrites(s);
        } else if s.prod.PPush? {
          ProducerPublishes(s);
        }
      case ConsumerStep =>
        if s.cons.CPop? && s.cons.pc.AtRelease? {
          ConsumerReleases(s);
        } else if s.cons.CPop? {
          ConsumerChecks(s);
        } else if s.cons.CCount? {
          ConsumerCounts(s);
        }
      case CallPopN(n) => DeliveredGrows(s.pops, PopCall(0, [], true));
      case _ =>
    }
  }

  // ----- Every interleaving -----

  /** The state after a schedule of steps. */
  ghost function Run<E>(s: System<E>, steps: seq<Step<E>>): (t: System<E>)
    requires Inv(s)
    ensures Inv(t)
    decreases |steps|
  {
    if steps == [] then s else NextKeepsInv(s, steps[0]); Run(Next(s, steps[0]), steps[1..])
  }

  lemma InitHoldsInv<E>(buf: seq<E>)
    requires 0 < |buf| <= 0x8000_0000
    ensures Inv(Init(buf))
  {
  }

  /**
   * First in, first out, under every interleaving and for every size: what has been
   * popped is a prefix of what has been published, and the difference is what the
   * ring holds. Where the size divides 2^32 the producer has never reached a panic.
   */
  lemma PoppedIsPrefixOfPushed<E>(buf: seq<E>, steps: seq<Step<E>>)
    requires 0 < |buf| <= 0x8000_0000
    ensures Inv(Init(buf))
    ensures var t := Run(Init(buf), steps);
      && t.popped <= t.pushed
      && t.pushed[|t.popped|..] == t.ring.Contents()
      && t.ring.Count() <= |buf| - 1
      && (TWO32 % |buf| == 0 ==> !t.prod.PPanic?)
  {
    InitHoldsInv(buf);
    RunKeepsSize(Init(buf), steps);
  }

  lemma {:induction false} RunKeepsSize<E>(s: System<E>, steps: seq<Step<E>>)
    requires Inv(s)
    ensures Run(s, steps).ring.N() == s.ring.N()
    decreases |steps|
  {
    if steps != [] {
      NextKeepsInv(s, steps[0]);
      hide Inv, Next;
      RunKeepsSize(Next(s, steps[0]), steps[1..]);
    }
  }

  /** The values published by a call still in progress. */
  function InFlight<E>(p: Producer<E>): seq<E>
    requires p.PPush? || p.PPanic? ==> p.k <= |p.xs|
  {
    if p.PPush? || p.PPanic? then p.xs[..p.k] else []
  }

  function Held<E>(c: Consumer<E>): seq<E> {
    if c.CPop? then c.got else []
  }

  /**
   * Calls are all or nothing and in order: published values are the arguments of the
   * successful pushes one after the other, and values are delivered n to a successful
   * pop of n and none to a failed one, without gap, loss or repetition.
   */
  lemma CallsAreAllOrNothing<E>(buf: seq<E>, steps: seq<Step<E>>)
    requires 0 < |buf| <= 0x8000_0000
    ensures Inv(Init(buf))
    ensures var t := Run(Init(buf), steps);
      && Accepted(t.pushes) + InFlight(t.prod) == Delivered(t.pops) + Held(t.cons) + t.ring.Contents()
      && forall i | 0 <= i < |t.pops| :: |t.pops[i].got| == if t.pops[i].ok then t.pops[i].n else 0
  {
    InitHoldsInv(buf);
    hide Ring.Contents, Accepted, Delivered;
    var t := Run(Init(buf), steps);
    assert t.pushed == t.popped + t.ring.Contents();
    assert t.prod.PPush? || t.prod.PPanic? ==> Accepted(t.pushes) + InFlight(t.prod) == t.pushed;
    assert t.prod.PIdle? || t.prod.PSpace? ==> Accepted(t.pushes) + [] == Accepted(t.pushes);
    assert !t.cons.CPop? ==> Delivered(t.pops) + [] == Delivered(t.pops);
  }

  /**
   * Batches never wait and never fail halfway: wherever the other side is, a batch
   * push past its space check finds room for each value, and a batch pop past its
   * count check finds each element, so it is never in the blocking loop.
   */
  lemma BatchesGoThrough<E>(s: System<E>)
    requires Inv(s) && Exact(s.ring)
    ensures s.prod.PPush? && s.prod.kind == OfBatch && s.prod.pc == AtFull ==> StepProducer(s).prod.PPush?
    ensures s.cons.CPop? && s.cons.kind == Batch && s.cons.pc.AtEmpty? ==> StepConsumer(s).cons.pc.AtRead?
  {
    FullAndEmpty(s.ring);
  }

  /** A slot is never written while it is being read, nor read before it is written. */
  lemma SlotsAreDisjoint<E>(s: System<E>)
    requires Inv(s)
    ensures s.prod.PPush? && s.prod.pc == AtWrite && s.cons.CPop? && s.cons.pc != AtEmpty ==>
      s.ring.head != s.ring.tail
    ensures s.cons.CPop? && s.cons.pc.AtRelease? ==> s.ring.Contents() != [] && s.cons.pc.e == s.ring.Contents()[0]
  {
    FullAndEmpty(s.ring);
    if s.ring.Count() > 0 {
      PopRemoves(s.ring);
    }
  }

  /** What a step of the system may do to an atomic bounded queue. */
  ghost predicate IsQueueStep<E>(s: System<E>, step: Step<E>, t: System<E>)
    requires s.ring.Valid() && t.ring.Valid()
    requires s.prod.PPush? ==> s.prod.k < |s.prod.xs|
  {
    var before, after := s.ring.Contents(), t.ring.Contents();
    if step.ProducerStep? && s.prod.PPush? && s.prod.pc == AtPublish then
      after == before + [s.prod.xs[s.prod.k]]
    else if step.ConsumerStep? && s.cons.CPop? && s.cons.pc.AtRelease? then
      before != [] && after == before[1..] && t.popped == s.popped + [before[0]]
    else
      after == before
  }

  lemma ProducerRefinesQueue<E>(s: System<E>)
    requires Inv(s)
    ensures IsQueueStep(s, ProducerStep, StepProducer(s))
  {
    hide Ring.Contents, Ring.Count, Ring.Full, Nspace, ConsumerInv;
    if s.prod.PPush? {
      if s.prod.pc == AtWrite {
        PushAppends(s.ring, s.prod.xs[s.prod.k]);
      } else if s.prod.pc == AtPublish {
        PublishAppends(s.ring);
      }
    }
  }

  lemma ConsumerRefinesQueue<E>(s: System<E>)
    requires Inv(s)
    ensures IsQueueStep(s, ConsumerStep, StepConsumer(s))
  {
    hide Ring.Contents, Ring.Count, Ring.Empty, Nelem, ProducerInv;
    if s.cons.CPop? && s.cons.pc.AtRelease? {
      PopRemoves(s.ring);
    }
  }

  /**
   * Each step is at most one operation of an atomic bounded queue: publishing the
   * head enqueues the value being pushed, publishing the tail dequeues the oldest
   * element, and every other step leaves the queue alone.
   */
  lemma StepRefinesQueue<E>(s: System<E>, step: Step<E>)
    requires Inv(s)
    ensures Inv(Next(s, step))
    ensures IsQueueStep(s, step, Next(s, step))
  {
    NextKeepsInv(s, step);
    hide Ring.Contents, Nelem, Nspace, StepProducer, StepConsumer;
    if step.ProducerStep? {
      ProducerRefinesQueue(s);
    } else if step.ConsumerStep? {
      ConsumerRefinesQueue(s);
    }
  }

  /**
   * Refusals are exact: at its check, a push gives up if and only if its values do
   * not fit beside the queued elements, and a pop if and only if fewer elements are
   * queued than it asks for.
   */
  lemma PushRefusalIsExact<E>(s: System<E>)
    requires Inv(s) && ((s.prod.PPush? && s.prod.pc == AtFull) || (s.prod.PSpace? && Exact(s.ring)))
    ensures StepProducer(s).prod.PIdle? <==>
      (s.prod.PPush? ==> s.prod.kind != OfBatch) && s.ring.Count() + |s.prod.xs| > s.ring.N() - 1
  {
    FullAndEmpty(s.ring);
    CountsAreExact(s.ring);
    hide Nelem, Nspace, Ring.Full, Ring.Contents, ConsumerInv;
  }

  lemma PopRefusalIsExact<E>(s: System<E>)
    requires Inv(s)
    ensures s.cons.CCount? && s.cons.n > 0 && Exact(s.ring) ==>
      (StepConsumer(s).cons.CIdle? <==> s.ring.Count() < s.cons.n)
    ensures s.cons.CPop? && s.cons.pc.AtEmpty? && s.cons.kind == Try ==>
      (StepConsumer(s).cons.CIdle? <==> s.ring.Count() == 0)
  {
    FullAndEmpty(s.ring);
    CountsAreExact(s.ring);
    hide Nelem, Nspace, Ring.Empty, Ring.Contents, ProducerInv;
  }

  /** A step runs into a panic exactly at the assertion of cq_push in a misjudged ring, or in a batch let in by one. */
  lemma PanicIsExact<E>(s: System<E>)
    requires Inv(s) && s.prod.PPush?
    ensures StepProducer(s).prod.PPanic? <==>
      || (s.prod.pc == AtAssert && Misjudged(s.ring))
      || (s.prod.pc == AtFull && s.prod.kind == OfBatch && s.ring.Full())
  {
    FullAndEmpty(s.ring);
    CountsAreExact(s.ring);
    hide Nelem, Nspace, Ring.Full, Ring.Contents, ConsumerInv, Misjudged;
  }

  /** The producer has called nothing but the template's push. */
  predicate OnTemplate<E>(p: Producer<E>) {
    p.PIdle? || (p.PPush? && p.kind == Template && p.pc != AtAssert)
  }

  predicate IsTemplateStep<E>(step: Step<E>) {
    !step.CallPush? && !step.CallPushN?
  }

  lemma StaysOnTemplate<E>(s: System<E>, step: Step<E>)
    requires Inv(s) && OnTemplate(s.prod) && IsTemplateStep(step)
    ensures OnTemplate(Next(s, step).prod)
  {
    hide Ring.Full, Nspace, Nelem, Ring.Contents, Accepted, Delivered;
  }

  /** The template's push never panics, whatever the size. */
  lemma {:induction false} TemplateNeverPanics<E>(s: System<E>, steps: seq<Step<E>>)
    requires Inv(s) && OnTemplate(s.prod) && forall step | step in steps :: IsTemplateStep(step)
    ensures OnTemplate(Run(s, steps).prod)
    decreases |steps|
  {
    if steps != [] {
      NextKeepsInv(s, steps[0]);
      StaysOnTemplate(s, steps[0]);
      hide Inv, Next, OnTemplate, IsTemplateStep;
      TemplateNeverPanics(Next(s, steps[0]), steps[1..]);
    }
  }

  /** A push that is not interleaved with anything is the sequential operation. */
  lemma UninterruptedPush<E>(s: System<E>, x: E)
    requires Inv(s) && s.prod.PIdle?
    ensures StepProducer(StepProducer(StepProducer(Next(s, CallTemplatePush(x))))).ring == Apply(s.ring, DoPush(x)).0
    ensures !Misjudged(s.ring) ==>
      StepProducer(StepProducer(StepProducer(StepProducer(Next(s, CallPush(x)))))).ring == Apply(s.ring, DoPush(x)).0
  {
    FullAndEmpty(s.ring);
    CountsAreExact(s.ring);
    hide Ring.Full, Ring.Contents, Nspace, ConsumerInv, Misjudged;
    var t1, s1 := Next(s, CallTemplatePush(x)), Next(s, CallPush(x));
    if s.ring.Full() {
      assert StepProducer(t1).prod.PIdle?;
      assert StepProducer(s1).prod.PIdle?;
    } else {
      assert StepProducer(t1) == s.(prod := PPush(AtWrite, [x], 0, Template));
      var s2 := s.(prod := PPush(AtAssert, [x], 0, Asserting));
      assert StepProducer(s1) == s2;
      assert !Misjudged(s.ring) ==> StepProducer(s2) == s.(prod := PPush(AtWrite, [x], 0, Asserting));
    }
  }

  /** A pop that is not interleaved with anything is the sequential operation. */
  lemma UninterruptedPop<E>(s: System<E>)
    requires Inv(s) && s.cons.CIdle?
    ensures StepConsumer(StepConsumer(StepConsumer(Next(s, CallPop)))).ring == Apply(s.ring, DoPop).0
  {
    FullAndEmpty(s.ring);
    hide Ring.Empty, Ring.Contents, Nelem, ProducerInv;
    var s1 := Next(s, CallPop);
    if s.ring.Empty() {
      assert StepConsumer(s1).cons.CIdle?;
    } else {
      assert StepConsumer(s1) == s.(cons := CPop(AtRead, 1, [], Try));
    }
  }
}
