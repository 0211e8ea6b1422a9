// What a call on the shared ring does, from the moment it is made: whatever the other
// side does in between, it comes to an end after so many of its own steps, with the
// result that the ring's contents at its first step call for.
module RingCalls {
  import opened Common
  import opened Words
  import opened Ring
  import opened RingProtocol

  /** Steps of the producer's side, calls included, and of the consumer's. */
  predicate ProducerSide<E>(step: Step<E>) {
    step.CallTemplatePush? || step.CallPush? || step.CallPushN? || step.ProducerStep?
  }

  predicate ConsumerSide<E>(step: Step<E>) {
    step.CallPop? || step.CallPopN? || step.CallPopNNoblk? || step.ConsumerStep?
  }

  ghost predicate AllProducer<E>(steps: seq<Step<E>>) {
    forall step | step in steps :: ProducerSide(step)
  }

  ghost predicate AllConsumer<E>(steps: seq<Step<E>>) {
    forall step | step in steps :: ConsumerSide(step)
  }

  /** The producer does as it likes, the consumer goes on with its call. */
  ghost predicate OneCallOfConsumer<E>(steps: seq<Step<E>>) {
    forall step | step in steps :: ProducerSide(step) || step.ConsumerStep?
  }

  ghost predicate OneCallOfProducer<E>(steps: seq<Step<E>>) {
    forall step | step in steps :: ConsumerSide(step) || step.ProducerStep?
  }

  function ConsumerSteps<E>(steps: seq<Step<E>>): nat {
    if steps == [] then 0 else (if steps[0].ConsumerStep? then 1 else 0) + ConsumerSteps(steps[1..])
  }

  function ProducerSteps<E>(steps: seq<Step<E>>): nat {
    if steps == [] then 0 else (if steps[0].ProducerStep? then 1 else 0) + ProducerSteps(steps[1..])
  }

  // ----- The consumer -----

  /** The other side's steps leave a side alone, and only add to what is queued. */
  lemma ProducerOnlyAdds<E>(s: System<E>, step: Step<E>)
    requires Inv(s) && ProducerSide(step)
    ensures var t := Next(s, step);
      Inv(t) && t.cons == s.cons && t.pops == s.pops && t.popped == s.popped && t.ring.N() == s.ring.N()
      && s.ring.Contents() <= t.ring.Contents()
  {
    StepRefinesQueue(s, step);
    hide Inv, Ring.Contents, Ring.Full, Nspace;
  }

  lemma ConsumerOnlyTakes<E>(s: System<E>, step: Step<E>)
    requires Inv(s) && ConsumerSide(step)
    ensures var t := Next(s, step);
      Inv(t) && t.prod == s.prod && t.pushes == s.pushes && t.pushed == s.pushed && t.ring.N() == s.ring.N()
      && |t.ring.Contents()| <= |s.ring.Contents()|
  {
    StepRefinesQueue(s, step);
    hide Inv, Ring.Contents, Ring.Empty, Nelem;
  }

  /** Own steps left of a pop that will not have to wait. */
  function PopStepsLeft<E>(c: Consumer<E>): nat
    requires c.CPop? ==> |c.got| < c.n
  {
    if !c.CPop? then 0
    else 3 * (c.n - |c.got|) - (match c.pc case AtEmpty => 0 case AtRead => 1 case AtRelease(_) => 2)
  }

  /** What one own step of a pop with enough elements does towards its end. */
  ghost predicate PopGoesOn<E>(s: System<E>, t: System<E>)
    requires s.ring.Valid() && t.ring.Valid() && s.cons.CPop?
  {
    var c, k := s.cons, s.cons.n - |s.cons.got|;
    && 0 < k <= |s.ring.Contents()|
    && if t.cons.CPop? then
      var k' := c.n - |t.cons.got|;
      && t.cons.n == c.n && t.pops == s.pops && 0 < k' <= |t.ring.Contents()|
      && PopStepsLeft(t.cons) + 1 == PopStepsLeft(c)
      && t.cons.got + t.ring.Contents()[..k'] == c.got + s.ring.Contents()[..k]
    else
      && t.cons.CIdle? && PopStepsLeft(c) == 1
      && t.pops == s.pops + [PopCall(c.n, c.got + s.ring.Contents()[..k], true)]
  }

  lemma PopReads<E>(s: System<E>)
    requires Inv(s) && s.cons.CPop? && |s.ring.Contents()| >= s.cons.n - |s.cons.got| && !s.cons.pc.AtRelease?
    ensures PopGoesOn(s, StepConsumer(s))
  {
    FullAndEmpty(s.ring);
    hide Ring.Empty, Ring.Contents, Ring.Count, ProducerInv;
  }

  lemma TakeNext<E>(got: seq<E>, rest: seq<E>, k: nat)
    requires 0 < k <= |rest|
    ensures (got + [rest[0]]) + rest[1..][..k - 1] == got + rest[..k]
    ensures k == 1 ==> got + [rest[0]] == got + rest[..k]
  {
  }

  lemma PopReleases<E>(s: System<E>)
    requires Inv(s) && s.cons.CPop? && |s.ring.Contents()| >= s.cons.n - |s.cons.got| && s.cons.pc.AtRelease?
    ensures StepConsumer(s).ring.Valid() && PopGoesOn(s, StepConsumer(s))
  {
    PopRemoves(s.ring);
    hide Ring.Contents, Ring.Count, ProducerInv, Delivered;
    TakeNext(s.cons.got, s.ring.Contents(), s.cons.n - |s.cons.got|);
  }

  /** A pop for which enough is queued: one own step, towards its end. */
  lemma PopAdvances<E>(s: System<E>)
    requires Inv(s) && s.cons.CPop? && |s.ring.Contents()| >= s.cons.n - |s.cons.got|
    ensures var t := Next(s, ConsumerStep);
      Inv(t) && PopGoesOn(s, t)
  {
    NextKeepsInv(s, ConsumerStep);
    if s.cons.pc.AtRelease? {
      PopReleases(s);
    } else {
      PopReads(s);
    }
  }

  lemma GotLess<E>(s: System<E>)
    requires Inv(s)
    ensures s.ring.Valid() && (s.prod.PPush? ==> s.prod.k < |s.prod.xs|)
    ensures s.cons.CPop? ==> |s.cons.got| < s.cons.n
  {
  }

  /** A pop under way for which enough is queued. */
  ghost predicate PopReady<E>(s: System<E>) {
    && Inv(s) && s.cons.CPop? && |s.cons.got| < s.cons.n
    && |s.ring.Contents()| >= s.cons.n - |s.cons.got|
  }

  /** What it is going to return. */
  ghost function PopDue<E>(s: System<E>): PopCall<E>
    requires PopReady(s)
  {
    PopCall(s.cons.n, s.cons.got + s.ring.Contents()[..s.cons.n - |s.cons.got|], true)
  }

  lemma PopReadyStep<E>(s: System<E>, step: Step<E>)
    requires PopReady(s) && (ProducerSide(step) || step.ConsumerStep?)
    ensures var t, own := Next(s, step), if step.ConsumerStep? then 1 else 0;
      && Inv(t)
      && if t.cons.CPop? then
        PopReady(t) && PopDue(t) == PopDue(s) && t.pops == s.pops && PopStepsLeft(t.cons) + own == PopStepsLeft(s.cons)
      else
        own == 1 == PopStepsLeft(s.cons) && t.cons.CIdle? && t.pops == s.pops + [PopDue(s)]
  {
    hide Inv, Next, Ring.Contents;
    GotLess(s);
    if step.ConsumerStep? {
      PopAdvances(s);
      GotLess(Next(s, step));
    } else {
      ProducerOnlyAdds(s, step);
      GotLess(Next(s, step));
      var k := s.cons.n - |s.cons.got|;
      assert Next(s, step).ring.Contents()[..k] == s.ring.Contents()[..k];
    }
  }

  lemma {:induction false} IdleConsumerStays<E>(s: System<E>, steps: seq<Step<E>>)
    requires Inv(s) && s.cons.CIdle? && OneCallOfConsumer(steps)
    ensures var t := Run(s, steps);
      t.cons.CIdle? && t.pops == s.pops
    decreases |steps|
  {
    if steps != [] {
      if steps[0].ConsumerStep? {
        assert Next(s, steps[0]) == s;
      } else {
        ProducerOnlyAdds(s, steps[0]);
      }
      hide Inv, Next;
      IdleConsumerStays(Next(s, steps[0]), steps[1..]);
    }
  }

  /** A pop for which enough is queued takes just that, in three of its own steps for each element. */
  lemma {:induction false} PopDrains<E>(s: System<E>, steps: seq<Step<E>>)
    requires PopReady(s) && OneCallOfConsumer(steps) && ConsumerSteps(steps) >= PopStepsLeft(s.cons)
    ensures var t := Run(s, steps);
      t.cons.CIdle? && t.pops == s.pops + [PopDue(s)]
    decreases |steps|
  {
    assert PopStepsLeft(s.cons) > 0;
    PopReadyStep(s, steps[0]);
    hide Inv, Next, PopReady, PopDue, PopStepsLeft;
    if Next(s, steps[0]).cons.CPop? {
      PopDrains(Next(s, steps[0]), steps[1..]);
    } else {
      IdleConsumerStays(Next(s, steps[0]), steps[1..]);
    }
  }

  /** What a finished non-blocking call has to show: all n elements, or none, by what was queued. */
  function PopResult<E>(n: nat, queued: seq<E>): PopCall<E> {
    if n <= |queued| then PopCall(n, queued[..n], true) else PopCall(n, [], false)
  }

  lemma ExactBySize<E>(r: Ring<E>, t: Ring<E>)
    requires Exact(r) && r.N() == t.N()
    ensures Exact(t)
  {
  }

  /** A pop that is over stays so; one with nothing taken yet and enough queued takes the oldest n. */
  lemma FinishesPop<E>(s: System<E>, post: seq<Step<E>>)
    requires Inv(s) && OneCallOfConsumer(post)
    requires s.cons.CPop? ==>
      && s.cons.got == [] && 0 < s.cons.n <= |s.ring.Contents()|
      && ConsumerSteps(post) >= PopStepsLeft(s.cons)
    requires !s.cons.CCount?
    ensures var t := Run(s, post);
      t.cons.CIdle? && t.pops == if s.cons.CPop? then s.pops + [PopResult(s.cons.n, s.ring.Contents())] else s.pops
  {
    if s.cons.CIdle? {
      hide *;
      IdleConsumerStays(s, post);
    } else {
      ReadyAtStart(s);
      hide *;
      PopDrains(s, post);
    }
  }

  lemma ReadyAtStart<E>(s: System<E>)
    requires Inv(s) && s.cons.CPop? && s.cons.got == [] && 0 < s.cons.n <= |s.ring.Contents()|
    ensures PopReady(s) && PopDue(s) == PopResult(s.cons.n, s.ring.Contents())
  {
    var queued := s.ring.Contents();
    hide Inv, Ring.Contents;
    assert [] + queued[..s.cons.n] == queued[..s.cons.n];
  }

  /** Waiting for its first step, a call is only overtaken by pushes. */
  lemma {:induction false} ProducerRuns<E>(s: System<E>, pre: seq<Step<E>>)
    requires Inv(s) && AllProducer(pre)
    ensures var t := Run(s, pre);
      t.cons == s.cons && t.pops == s.pops && t.ring.N() == s.ring.N()
    decreases |pre|
  {
    if pre != [] {
      ProducerOnlyAdds(s, pre[0]);
      hide Inv, Next;
      ProducerRuns(Next(s, pre[0]), pre[1..]);
    }
  }

  /**
   * cq_pop_n_noblk, from the call on and under any interleaving with the producer: after
   * at most 3n + 1 of its own steps it has returned, with the n oldest elements if that
   * many were queued at its first step, and otherwise having taken nothing.
   */
  lemma PopNNoblkReturns<E>(s: System<E>, n: nat, pre: seq<Step<E>>, post: seq<Step<E>>)
    requires Inv(s) && Exact(s.ring) && s.cons.CIdle?
    requires AllProducer(pre) && OneCallOfConsumer(post) && ConsumerSteps(post) >= 3 * n
    ensures Inv(Next(s, CallPopNNoblk(n)))
    ensures var before := Run(Next(s, CallPopNNoblk(n)), pre);
      && Inv(Next(before, ConsumerStep))
      && var t := Run(Next(before, ConsumerStep), post);
        t.cons.CIdle? && t.pops == s.pops + [PopResult(n, before.ring.Contents())]
  {
    NextKeepsInv(s, CallPopNNoblk(n));
    var s0 := Next(s, CallPopNNoblk(n));
    assert s0 == s.(cons := CCount(n));
    hide Inv, Next, Run, Ring.Contents, Exact;
    ProducerRuns(s0, pre);
    var before := Run(s0, pre);
    assert Exact(before.ring) by { ExactBySize(s.ring, before.ring); }
    NextKeepsInv(before, ConsumerStep);
    GotLess(before);
    CountDecides(before);
    FinishesPop(Next(before, ConsumerStep), post);
  }

  lemma CountDecides<E>(s: System<E>)
    requires Inv(s) && Exact(s.ring) && s.cons.CCount?
    ensures var t, n, queued := Next(s, ConsumerStep), s.cons.n, s.ring.Contents();
      && t.ring == s.ring
      && if 0 < n <= |queued| then t.cons == CPop(AtEmpty, n, [], Batch) && t.pops == s.pops
         else t.cons == CIdle && t.pops == s.pops + [PopResult(n, queued)]
  {
    CountsAreExact(s.ring);
    hide Nelem, Ring.Contents, Ring.Count, ProducerInv;
    assert s.ring.Contents()[..0] == [];
  }

  /** cq_pop_nonblock: the same for one element, in three steps and for every size. */
  lemma PopNonblockReturns<E>(s: System<E>, pre: seq<Step<E>>, post: seq<Step<E>>)
    requires Inv(s) && s.cons.CIdle?
    requires AllProducer(pre) && OneCallOfConsumer(post) && ConsumerSteps(post) >= 2
    ensures Inv(Next(s, CallPop))
    ensures var before := Run(Next(s, CallPop), pre);
      && Inv(Next(before, ConsumerStep))
      && var t := Run(Next(before, ConsumerStep), post);
        t.cons.CIdle? && t.pops == s.pops + [PopResult(1, before.ring.Contents())]
  {
    NextKeepsInv(s, CallPop);
    var s0 := Next(s, CallPop);
    assert s0 == s.(cons := CPop(AtEmpty, 1, [], Try));
    hide Inv, Next, Run, Ring.Contents;
    ProducerRuns(s0, pre);
    var before := Run(s0, pre);
    NextKeepsInv(before, ConsumerStep);
    GotLess(before);
    EmptinessDecides(before);
    FinishesPop(Next(before, ConsumerStep), post);
  }

  lemma EmptinessDecides<E>(s: System<E>)
    requires Inv(s) && s.cons == CPop(AtEmpty, 1, [], Try)
    ensures var t, queued := Next(s, ConsumerStep), s.ring.Contents();
      && t.ring == s.ring
      && if queued != [] then t.cons == CPop(AtRead, 1, [], Try) && t.pops == s.pops
         else t.cons == CIdle && t.pops == s.pops + [PopResult(1, queued)]
  {
    FullAndEmpty(s.ring);
    hide Ring.Empty, Ring.Contents, Ring.Count, ProducerInv;
  }

  /** The blocking cq_pop_n, still at it or finished, never refused. */
  ghost predicate PoppingOrDone<E>(s: System<E>, pops: seq<PopCall<E>>, n: nat) {
    || (s.cons.CPop? && s.cons.kind == Blocking && s.cons.n == n && s.pops == pops)
    || (s.cons.CIdle? && |s.pops| == |pops| + 1 && s.pops[..|pops|] == pops
        && s.pops[|pops|].n == n == |s.pops[|pops|].got| && s.pops[|pops|].ok)
  }

  lemma PoppingStays<E>(s: System<E>, step: Step<E>, pops: seq<PopCall<E>>, n: nat)
    requires Inv(s) && PoppingOrDone(s, pops, n) && (ProducerSide(step) || step.ConsumerStep?)
    ensures Inv(Next(s, step)) && PoppingOrDone(Next(s, step), pops, n)
  {
    NextKeepsInv(s, step);
    if !step.ConsumerStep? {
      ProducerOnlyAdds(s, step);
    } else {
      hide Ring.Contents, Ring.Count, Ring.Empty, ProducerInv, Delivered;
      if s.cons.CPop? && s.cons.pc.AtRelease? && |s.cons.got| + 1 == n {
        assert |s.cons.got + [s.cons.pc.e]| == n;
      }
    }
  }

  /**
   * cq_pop_n, from the call on and under any interleaving: it is never refused; it waits
   * as long as it must, and returns only with n elements.
   */
  lemma {:induction false} PopNNeverRefuses<E>(s: System<E>, n: nat, steps: seq<Step<E>>)
    requires Inv(s) && s.cons.CIdle? && OneCallOfConsumer(steps)
    ensures Inv(Next(s, CallPopN(n))) && PoppingOrDone(Run(Next(s, CallPopN(n)), steps), s.pops, n)
  {
    NextKeepsInv(s, CallPopN(n));
    var s0 := Next(s, CallPopN(n));
    ghost var none: seq<E> := [];
    assert n == 0 ==> |none| == n && s0.pops == s.pops + [PopCall(n, none, true)];
    hide Inv, Next;
    PoppingRuns(s0, steps, s.pops, n);
  }

  lemma {:induction false} PoppingRuns<E>(s: System<E>, steps: seq<Step<E>>, pops: seq<PopCall<E>>, n: nat)
    requires Inv(s) && PoppingOrDone(s, pops, n) && OneCallOfConsumer(steps)
    ensures PoppingOrDone(Run(s, steps), pops, n)
    decreases |steps|
  {
    hide Inv, Next, PoppingOrDone;
    if steps != [] {
      GotLess(s);
      PoppingStays(s, steps[0], pops, n);
      PoppingRuns(Next(s, steps[0]), steps[1..], pops, n);
    }
  }

  // ----- The producer -----

  /** Own steps left, at most, of a push that will find room. */
  function PushStepsLeft<E>(p: Producer<E>): nat
    requires p.PPush? ==> p.k < |p.xs|
  {
    if !p.PPush? then 0
    else 4 * (|p.xs| - p.k) - (match p.pc case AtFull => 0 case AtAssert => 1 case AtWrite => 2 case AtPublish => 3)
  }

  /** A push under way for which there is room, and whose assertion cannot fail. */
  ghost predicate PushReady<E>(s: System<E>) {
    && Inv(s) && s.prod.PPush? && s.prod.k < |s.prod.xs|
    && (Exact(s.ring) || (s.prod.kind == Template && s.prod.pc != AtAssert))
    && |s.ring.Contents()| + (|s.prod.xs| - s.prod.k) <= s.ring.N() - 1
  }

  /** What one own step of a push with room does towards its end. */
  ghost predicate PushGoesOn<E>(s: System<E>, t: System<E>)
    requires s.prod.PPush? && s.prod.k < |s.prod.xs|
  {
    && t.ring.Valid() && t.ring.N() == s.ring.N()
    && if t.prod.PPush? then
      && t.prod.xs == s.prod.xs && t.prod.kind == s.prod.kind && t.pushes == s.pushes && t.prod.k < |t.prod.xs|
      && (t.prod.kind == Template ==> t.prod.pc != AtAssert || s.prod.pc == AtAssert)
      && PushStepsLeft(t.prod) < PushStepsLeft(s.prod)
      && |t.ring.Contents()| + (|t.prod.xs| - t.prod.k) <= t.ring.N() - 1
    else
      t.prod.PIdle? && t.pushes == s.pushes + [PushCall(s.prod.xs, true)]
  }

  lemma PushChecks<E>(s: System<E>)
    requires PushReady(s) && (s.prod.pc == AtFull || s.prod.pc == AtAssert)
    ensures PushGoesOn(s, StepProducer(s))
  {
    FullAndEmpty(s.ring);
    RoomIsCounted(s.ring);
    hide Ring.Contents, Ring.Count, Ring.Full, Nspace, Nelem, ConsumerInv, Accepted, Exact;
  }

  lemma RoomIsCounted<E>(r: Ring<E>)
    requires r.Valid()
    ensures Exact(r) && r.Count() < r.N() - 1 ==> Nspace(r) > 0
  {
    CountsAreExact(r);
  }

  lemma PushStores<E>(s: System<E>)
    requires PushReady(s) && (s.prod.pc == AtWrite || s.prod.pc == AtPublish)
    ensures PushGoesOn(s, StepProducer(s))
  {
    if s.prod.pc == AtWrite {
      PushAppends(s.ring, s.prod.xs[s.prod.k]);
    } else {
      PublishAppends(s.ring);
    }
    hide Ring.Contents, Ring.Count, ConsumerInv, Accepted, Exact;
  }

  lemma PushAdvances<E>(s: System<E>)
    requires PushReady(s)
    ensures PushGoesOn(s, StepProducer(s))
  {
    if s.prod.pc == AtFull || s.prod.pc == AtAssert {
      PushChecks(s);
    } else {
      PushStores(s);
    }
  }

  lemma PushReadyStep<E>(s: System<E>, step: Step<E>)
    requires PushReady(s) && (ConsumerSide(step) || step.ProducerStep?)
    ensures var t, own := Next(s, step), if step.ProducerStep? then 1 else 0;
      && Inv(t)
      && if t.prod.PPush? then
        && PushReady(t) && t.prod.xs == s.prod.xs && t.pushes == s.pushes
        && PushStepsLeft(t.prod) + own <= PushStepsLeft(s.prod)
      else
        t.prod.PIdle? && t.pushes == s.pushes + [PushCall(s.prod.xs, true)]
  {
    NextKeepsInv(s, step);
    if step.ProducerStep? {
      PushAdvances(s);
      assert Next(s, step) == StepProducer(s);
    } else {
      ConsumerOnlyTakes(s, step);
    }
    hide Inv, Next, Ring.Contents, StepProducer;
    GotLess(Next(s, step));
  }

  lemma {:induction false} IdleProducerStays<E>(s: System<E>, steps: seq<Step<E>>)
    requires Inv(s) && s.prod.PIdle? && OneCallOfProducer(steps)
    ensures var t := Run(s, steps);
      t.prod.PIdle? && t.pushes == s.pushes
    decreases |steps|
  {
    if steps != [] {
      if steps[0].ProducerStep? {
        assert Next(s, steps[0]) == s;
      } else {
        ConsumerOnlyTakes(s, steps[0]);
      }
      hide Inv, Next;
      IdleProducerStays(Next(s, steps[0]), steps[1..]);
    }
  }

  /** A push for which there is room goes through, in at most four of its own steps for each value. */
  lemma {:induction false} PushGoesThrough<E>(s: System<E>, steps: seq<Step<E>>)
    requires PushReady(s) && OneCallOfProducer(steps) && ProducerSteps(steps) >= PushStepsLeft(s.prod)
    ensures var t := Run(s, steps);
      t.prod.PIdle? && t.pushes == s.pushes + [PushCall(s.prod.xs, true)]
    decreases |steps|
  {
    assert PushStepsLeft(s.prod) > 0;
    PushReadyStep(s, steps[0]);
    hide Inv, Next, PushReady, PushStepsLeft;
    if Next(s, steps[0]).prod.PPush? {
      PushGoesThrough(Next(s, steps[0]), steps[1..]);
    } else {
      IdleProducerStays(Next(s, steps[0]), steps[1..]);
    }
  }

  /** Waiting for its first step, a push is only overtaken by pops. */
  lemma {:induction false} ConsumerRuns<E>(s: System<E>, pre: seq<Step<E>>)
    requires Inv(s) && AllConsumer(pre)
    ensures var t := Run(s, pre);
      t.prod == s.prod && t.pushes == s.pushes && t.ring.N() == s.ring.N()
    decreases |pre|
  {
    if pre != [] {
      ConsumerOnlyTakes(s, pre[0]);
      hide Inv, Next;
      ConsumerRuns(Next(s, pre[0]), pre[1..]);
    }
  }

  /** A push that is over stays so; one that found room at its first step goes through. */
  lemma FinishesPush<E>(s: System<E>, post: seq<Step<E>>)
    requires Inv(s) && OneCallOfProducer(post) && (s.prod.PIdle? || PushReady(s))
    requires s.prod.PPush? ==> s.prod.k < |s.prod.xs| && ProducerSteps(post) >= PushStepsLeft(s.prod)
    ensures var t := Run(s, post);
      t.prod.PIdle? && t.pushes == if s.prod.PPush? then s.pushes + [PushCall(s.prod.xs, true)] else s.pushes
  {
    hide Inv, Run, Ring.Contents;
    if s.prod.PIdle? {
      IdleProducerStays(s, post);
    } else {
      PushGoesThrough(s, post);
    }
  }

  lemma FullDecides<E>(s: System<E>, x: E, kind: PushKind)
    requires Inv(s) && s.prod == PPush(AtFull, [x], 0, kind) && kind != OfBatch && (kind == Template || Exact(s.ring))
    ensures var t := Next(s, ProducerStep);
      && t.ring == s.ring
      && if |s.ring.Contents()| < s.ring.N() - 1 then
           PushReady(t) && t.prod.xs == [x] && t.prod.k == 0 && t.prod.pc != AtFull && t.pushes == s.pushes
         else t.prod.PIdle? && t.pushes == s.pushes + [PushCall([x], false)]
  {
    NextKeepsInv(s, ProducerStep);
    FullAndEmpty(s.ring);
    hide Ring.Full, Ring.Contents, Ring.Count, ConsumerInv;
  }

  lemma SpaceDecides<E>(s: System<E>)
    requires Inv(s) && s.prod.PSpace? && Exact(s.ring)
    ensures var t, xs := Next(s, ProducerStep), s.prod.xs;
      && t.ring == s.ring
      && if |s.ring.Contents()| + |xs| <= s.ring.N() - 1 then
           PushReady(t) && t.prod.xs == xs && t.pushes == s.pushes && t.prod.k == 0
         else t.prod.PIdle? && t.pushes == s.pushes + [PushCall(xs, false)]
  {
    NextKeepsInv(s, ProducerStep);
    CountsAreExact(s.ring);
    hide Nspace, Nelem, Ring.Contents, Ring.Count, ConsumerInv;
  }

  /**
   * One push, the template's on a ring of any size or cq_push where the size divides
   * 2^32, from the call on: after at most four own steps it has returned, and it has
   * gone through if and only if the ring was not full at its first step.
   */
  lemma PushReturns<E>(s: System<E>, x: E, checked: bool, pre: seq<Step<E>>, post: seq<Step<E>>)
    requires Inv(s) && s.prod.PIdle? && (checked ==> Exact(s.ring))
    requires AllConsumer(pre) && OneCallOfProducer(post) && ProducerSteps(post) >= 3
    ensures var call := if checked then CallPush(x) else CallTemplatePush(x);
      && Inv(Next(s, call))
      && var before := Run(Next(s, call), pre);
      && Inv(Next(before, ProducerStep))
      && var t := Run(Next(before, ProducerStep), post);
        t.prod.PIdle? && t.pushes == s.pushes + [PushCall([x], |before.ring.Contents()| < s.ring.N() - 1)]
  {
    var call := if checked then CallPush(x) else CallTemplatePush(x);
    var kind := if checked then Asserting else Template;
    NextKeepsInv(s, call);
    var s0 := Next(s, call);
    assert s0 == s.(prod := PPush(AtFull, [x], 0, kind));
    hide Inv, Next, Run, Ring.Contents, Exact;
    ConsumerRuns(s0, pre);
    var before := Run(s0, pre);
    if checked {
      ExactBySize(s.ring, before.ring);
    }
    NextKeepsInv(before, ProducerStep);
    GotLess(before);
    FullDecides(before, x, kind);
    ReadyLeft(Next(before, ProducerStep));
    FinishesPush(Next(before, ProducerStep), post);
  }

  lemma ReadyLeft<E>(s: System<E>)
    ensures PushReady(s) && s.prod.k == 0 && s.prod.pc != AtFull ==>
      s.prod.k < |s.prod.xs| && PushStepsLeft(s.prod) <= 4 * |s.prod.xs| - 1
    ensures PushReady(s) && s.prod.k == 0 ==> s.prod.k < |s.prod.xs| && PushStepsLeft(s.prod) <= 4 * |s.prod.xs|
  {
  }

  /**
   * cq_push_n, from the call on and under any interleaving with the consumer: after at
   * most 4n + 1 of its own steps it has returned, with all n values pushed if they fitted
   * beside what was queued at its first step, and otherwise with none.
   */
  lemma PushNReturns<E>(s: System<E>, xs: seq<E>, pre: seq<Step<E>>, post: seq<Step<E>>)
    requires Inv(s) && Exact(s.ring) && s.prod.PIdle? && xs != []
    requires AllConsumer(pre) && OneCallOfProducer(post) && ProducerSteps(post) >= 4 * |xs|
    ensures Inv(Next(s, CallPushN(xs)))
    ensures var before := Run(Next(s, CallPushN(xs)), pre);
      && Inv(Next(before, ProducerStep))
      && var t := Run(Next(before, ProducerStep), post);
        && t.prod.PIdle?
        && t.pushes == s.pushes + [PushCall(xs, |before.ring.Contents()| + |xs| <= s.ring.N() - 1)]
  {
    NextKeepsInv(s, CallPushN(xs));
    var s0 := Next(s, CallPushN(xs));
    assert s0 == s.(prod := PSpace(xs));
    hide Inv, Next, Run, Ring.Contents, Exact;
    ConsumerRuns(s0, pre);
    var before := Run(s0, pre);
    ExactBySize(s.ring, before.ring);
    NextKeepsInv(before, ProducerStep);
    GotLess(before);
    SpaceDecides(before);
    ReadyLeft(Next(before, ProducerStep));
    FinishesPush(Next(before, ProducerStep), post);
  }
}
