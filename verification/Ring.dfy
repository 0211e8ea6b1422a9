// The circular queue of libpi/libc/circular.h and circular-T.h: one producer owns
// head, one consumer owns tail. This file has the ring as a value, the exact reach
// of its 32-bit count expression, and the operations run one at a time.
module Ring {
  import opened Common
  import opened Words

  /** Capacity is one less than the size: head == tail always means empty. */
  datatype Ring<E> = Ring(buf: seq<E>, head: nat, tail: nat)
  {
    ghost predicate Valid() {
      0 < |buf| <= 0x8000_0000 && head < |buf| && tail < |buf|
    }

    function N(): nat {
      |buf|
    }

    /** The number of queued elements. */
    function Count(): nat
      requires Valid()
    {
      if head >= tail then head - tail else head - tail + N()
    }

    /** cq_full: adding 1 to the head would reach the tail. */
    predicate Full()
      requires Valid()
    {
      (head + 1) % N() == tail
    }

    predicate Empty() {
      head == tail
    }

    /** The slot i places after the tail. */
    function Slot(i: nat): (k: nat)
      requires Valid() && i < N()
      ensures k == if tail + i < N() then tail + i else tail + i - N()
    {
      WrapIsMod(tail + i, N());
      (tail + i) % N()
    }

    /** The queued elements, oldest first. */
    function Contents(): (s: seq<E>)
      requires Valid()
      ensures |s| == Count() < N()
    {
      seq(Count(), i requires 0 <= i < Count() => buf[Slot(i)])
    }

    function WriteAtHead(x: E): Ring<E>
      requires Valid()
    {
      this.(buf := buf[head := x])
    }

    function AdvanceHead(): Ring<E>
      requires Valid()
    {
      this.(head := (head + 1) % N())
    }

    function AdvanceTail(): Ring<E>
      requires Valid()
    {
      this.(tail := (tail + 1) % N())
    }
  }

  // ----- The count expression -----

  /** (head - tail) % N as the C code evaluates it, in unsigned 32-bit arithmetic. */
  function CountExpr(head: nat, tail: nat, n: nat): nat
    requires n > 0
  {
    ToWord(head - tail) % n
  }

  /** What the expression evaluates to: once the head has wrapped below the tail it is off by 2^32 mod N. */
  lemma CountExprValue<E>(r: Ring<E>)
    requires r.Valid()
    ensures CountExpr(r.head, r.tail, r.N())
         == if r.head >= r.tail then r.Count() else (r.Count() + TWO32 % r.N()) % r.N()
  {
    var n: nat, d: int := r.N(), r.head - r.tail;
    if d >= 0 {
      DivModUnique(d, n, 0, d);
    } else {
      assert ToWord(d) == TWO32 + d;
      ShiftedMod(TWO32 + d, TWO32 % n + d + n, TWO32 / n - 1, n);
    }
  }

  lemma ShiftedMod(x: nat, y: nat, q: int, n: nat)
    requires n > 0 && x == y + n * q
    ensures x % n == y % n
  {
    DivModUnique(x, n, y / n + q, y % n);
  }

  /**
   * The expression is the element count for every reachable pair of indices exactly
   * when the indices have not wrapped past each other or the size divides 2^32.
   */
  lemma CountExprExact<E>(r: Ring<E>)
    requires r.Valid()
    ensures CountExpr(r.head, r.tail, r.N()) == r.Count() <==> r.head >= r.tail || TWO32 % r.N() == 0
  {
    CountExprValue(r);
    WrapIsMod(r.Count() + TWO32 % r.N(), r.N());
  }

  /** cq_push's assertion of free space fails although the ring is not full: exactly here. */
  ghost predicate Misjudged<E>(r: Ring<E>)
    requires r.Valid()
  {
    !r.Full() && r.head < r.tail && r.Count() == r.N() - 1 - TWO32 % r.N()
  }

  lemma AssertionFailsIff<E>(r: Ring<E>)
    requires r.Valid() && !r.Full()
    ensures CountExpr(r.head, r.tail, r.N()) == r.N() - 1 <==> Misjudged(r)
    ensures Misjudged(r) ==> TWO32 % r.N() != 0
  {
    CountExprValue(r);
    FullAndEmpty(r);
    WrapIsMod(r.Count() + TWO32 % r.N(), r.N());
  }

  /** Nearly every size that does not divide 2^32 has such a state: only those leaving n-1 have none. */
  lemma AssertionCanFail(n: nat)
    requires 2 <= n <= 0x8000_0000
    ensures (exists r: Ring<bool> :: r.Valid() && r.N() == n && Misjudged(r)) <==> TWO32 % n != 0 && TWO32 % n != n - 1
  {
    var m := TWO32 % n;
    if m != 0 && m != n - 1 {
      var r := Ring(seq(n, _ => false), 0, m + 1);
      FullAndEmpty(r);
      assert r.Count() == n - 1 - m;
      assert Misjudged(r);
    }
    if r: Ring<bool> :| r.Valid() && r.N() == n && Misjudged(r) {
      AssertionFailsIff(r);
      FullAndEmpty(r);
      assert r.Count() > 0;
    }
  }

  /** For a size that does not divide 2^32 a single wrapped element-free slot already miscounts. */
  lemma CountExprBreaks(n: nat)
    requires 2 <= n <= 0x8000_0000 && TWO32 % n != 0
    ensures CountExpr(0, 1, n) != n - 1
  {
    CountExprExact(Ring(seq(n, _ => 0), 0, 1));
  }

  // ----- The two index steps -----

  /** Writing the free slot and then publishing it appends; nothing queued is disturbed. */
  lemma PushAppends<E>(r: Ring<E>, x: E)
    requires r.Valid() && r.Count() < r.N() - 1
    ensures r.WriteAtHead(x).Valid() && r.WriteAtHead(x).Contents() == r.Contents()
    ensures r.WriteAtHead(x).Count() == r.Count()
    ensures r.WriteAtHead(x).AdvanceHead().Valid()
    ensures r.WriteAtHead(x).AdvanceHead().Contents() == r.Contents() + [x]
    ensures r.WriteAtHead(x).AdvanceHead().Count() == r.Count() + 1
  {
    var w := r.WriteAtHead(x);
    var p := w.AdvanceHead();
    WrapIsMod(r.head + 1, r.N());
    assert p.Count() == r.Count() + 1;
    hide Ring.Slot;
    assert r.Slot(r.Count()) == r.head;
    forall i | 0 <= i < r.Count()
      ensures w.Contents()[i] == r.Contents()[i] == p.Contents()[i]
    {
      assert r.Slot(i) != r.head;
    }
    assert p.Contents()[r.Count()] == x;
  }

  /** Publishing a slot that already holds the value appends that value. */
  lemma PublishAppends<E>(r: Ring<E>)
    requires r.Valid() && r.Count() < r.N() - 1
    ensures r.AdvanceHead().Valid()
    ensures r.AdvanceHead().Contents() == r.Contents() + [r.buf[r.head]]
    ensures r.AdvanceHead().Count() == r.Count() + 1
  {
    PushAppends(r, r.buf[r.head]);
    assert r.WriteAtHead(r.buf[r.head]) == r;
  }

  /** Advancing the tail removes the oldest element. */
  lemma PopRemoves<E>(r: Ring<E>)
    requires r.Valid() && r.Count() > 0
    ensures r.Contents()[0] == r.buf[r.tail]
    ensures r.AdvanceTail().Valid()
    ensures r.AdvanceTail().Contents() == r.Contents()[1..]
    ensures r.AdvanceTail().Count() == r.Count() - 1
  {
    var p := r.AdvanceTail();
    WrapIsMod(r.tail + 1, r.N());
    assert p.Count() == r.Count() - 1;
    hide Ring.Slot;
    assert r.Slot(0) == r.tail;
    forall i | 0 <= i < p.Count()
      ensures p.Contents()[i] == r.Contents()[i + 1]
    {
      assert p.Slot(i) == r.Slot(i + 1);
    }
  }

  /** cq_full tests for capacity, cq_empty for emptiness. */
  lemma FullAndEmpty<E>(r: Ring<E>)
    requires r.Valid()
    ensures r.Full() <==> r.Count() == r.N() - 1
    ensures r.Empty() <==> r.Count() == 0
  {
    WrapIsMod(r.head + 1, r.N());
  }

  // ----- Checkpoint and restore -----

  datatype QueueOp<E> = DoPush(x: E) | DoPop

  /** One complete operation; the second result is what a successful push added. */
  function Apply<E>(r: Ring<E>, op: QueueOp<E>): (res: (Ring<E>, seq<E>))
    requires r.Valid()
    ensures res.0.Valid() && res.0.N() == r.N()
  {
    match op
    case DoPush(x) =>
      FullAndEmpty(r);
      if r.Full() then (r, [])
      else PushAppends(r, x); (r.WriteAtHead(x).AdvanceHead(), [x])
    case DoPop =>
      if r.Empty() then (r, [])
      else PopRemoves(r); (r.AdvanceTail(), [])
  }

  function ApplyAll<E>(r: Ring<E>, ops: seq<QueueOp<E>>): (res: (Ring<E>, seq<E>))
    requires r.Valid()
    ensures res.0.Valid() && res.0.N() == r.N()
    decreases |ops|
  {
    if ops == [] then (r, [])
    else
      var (r1, added) := Apply(r, ops[0]);
      var (r2, more) := ApplyAll(r1, ops[1..]);
      (r2, added + more)
  }

  /** An operation seen from an older tail: a pop is nothing, a push appends while there is room. */
  lemma ApplyFromOldTail<E>(r: Ring<E>, tail: nat, op: QueueOp<E>)
    requires r.Valid() && tail < r.N()
    requires |r.(tail := tail).Contents()| + |Apply(r, op).1| <= r.N() - 1
    ensures var (r1, added) := Apply(r, op);
      r1.(tail := tail).Valid() && r1.(tail := tail).Contents() == r.(tail := tail).Contents() + added
  {
    var (r1, added) := Apply(r, op);
    var v := r.(tail := tail);
    hide Ring.Contents, Ring.Count, Ring.Full, Ring.Empty;
    if added != [] {
      PushAppends(v, op.x);
      assert r1.(tail := tail) == v.WriteAtHead(op.x).AdvanceHead();
    } else {
      assert r1.(tail := tail) == v;
    }
  }

  lemma {:induction false} RestoredRing<E>(r: Ring<E>, tail: nat, ops: seq<QueueOp<E>>)
    requires r.Valid() && tail < r.N()
    requires var (_, added) := ApplyAll(r, ops);
      |r.(tail := tail).Contents()| + |added| <= r.N() - 1
    ensures var (r', added) := ApplyAll(r, ops);
      r'.(tail := tail).Contents() == r.(tail := tail).Contents() + added
    decreases |ops|
  {
    hide Ring.Contents, Ring.Count, Apply;
    if ops != [] {
      var (r1, added) := Apply(r, ops[0]);
      ApplyFromOldTail(r, tail, ops[0]);
      RestoredRing(r1, tail, ops[1..]);
    }
  }

  /**
   * cq_restore undoes every pop since the checkpoint and keeps every later push,
   * exactly as long as the checkpointed elements and the pushes fit together.
   */
  lemma RestoreUndoesPops<E>(r: Ring<E>, ops: seq<QueueOp<E>>)
    requires r.Valid()
    ensures var (r', added) := ApplyAll(r, ops);
      r'.(tail := r.tail).Contents() == r.Contents() + added <==> |r.Contents()| + |added| <= r.N() - 1
  {
    var (r', added) := ApplyAll(r, ops);
    if |r.Contents()| + |added| <= r.N() - 1 {
      RestoredRing(r, r.tail, ops);
    }
  }

  lemma TakeOneMore<E>(before: seq<E>, data: seq<E>, i: nat)
    requires i < |data|
    ensures |before + data[..i]| == |before| + i
    ensures before + data[..i] + [data[i]] == before + data[..i + 1]
  {
  }

  // ----- The operations, run one at a time -----

  /** How a call ends: it may wait for the other side for ever, or run into a panic. */
  datatype Outcome = Done | Refused | Waiting | Panicked

  /**
   * The queue object, for any size. Where a size divides 2^32 the count expression is
   * exact, and then no call waits or panics by miscounting.
   */
  class CircularQueue<E(0)> {
    var cBuf: array<E>
    var head: nat
    var tail: nat

    ghost predicate Valid()
      reads this, cBuf
    {
      View().Valid()
    }

    ghost function View(): Ring<E>
      reads this, cBuf
    {
      Ring(cBuf[..], head, tail)
    }

    ghost function Contents(): seq<E>
      requires Valid()
      reads this, cBuf
    {
      View().Contents()
    }

    /** The size makes the 32-bit count expression exact. */
    ghost predicate CountsExactly()
      reads this
    {
      cBuf.Length > 0 && TWO32 % cBuf.Length == 0
    }

    constructor Init(n: nat)
      requires 0 < n <= 0x8000_0000
      ensures Valid() && fresh(cBuf) && cBuf.Length == n && Contents() == []
    {
      cBuf := new E[n];
      head, tail := 0, 0;
    }

    method Empty() returns (r: bool)
      requires Valid()
      ensures r <==> Contents() == []
      ensures r <==> View().Empty()
    {
      FullAndEmpty(View());
      r := head == tail;
    }

    method Full() returns (r: bool)
      requires Valid()
      ensures r <==> |Contents()| == cBuf.Length - 1
      ensures r <==> View().Full()
    {
      FullAndEmpty(View());
      r := (head + 1) % cBuf.Length == tail;
    }

    method Nelem() returns (r: nat)
      requires Valid()
      ensures r == CountExpr(head, tail, cBuf.Length) < cBuf.Length
      ensures r == |Contents()| <==> head >= tail || CountsExactly()
    {
      CountExprExact(View());
      r := ToWord(head - tail) % cBuf.Length;
    }

    method Nspace() returns (r: nat)
      requires Valid()
      ensures r == cBuf.Length - 1 - CountExpr(head, tail, cBuf.Length)
      ensures r == cBuf.Length - 1 - |Contents()| <==> head >= tail || CountsExactly()
    {
      var n := Nelem();
      r := cBuf.Length - 1 - n;
    }

    method PopNonblk() returns (e: Option<E>)
      requires Valid()
      modifies `tail
      ensures Valid()
      ensures e == if old(Contents()) == [] then None else Some(old(Contents())[0])
      ensures Contents() == if old(Contents()) == [] then [] else old(Contents())[1..]
      ensures View() == Apply(old(View()), DoPop).0
    {
      var isEmpty := Empty();
      if isEmpty {
        return None;
      }
      PopRemoves(View());
      e := Some(cBuf[tail]);
      tail := (tail + 1) % cBuf.Length;
    }

    method Push(x: E) returns (ok: bool)
      requires Valid()
      modifies `head, cBuf
      ensures Valid()
      ensures ok == (|old(Contents())| < cBuf.Length - 1)
      ensures Contents() == if ok then old(Contents()) + [x] else old(Contents())
      ensures (View(), if ok then [x] else []) == Apply(old(View()), DoPush(x))
    {
      var isFull := Full();
      if isFull {
        return false;
      }
      PushAppends(View(), x);
      hide Ring.Contents, Ring.Count, Ring.Full;
      cBuf[head] := x;
      assert View() == old(View()).WriteAtHead(x);
      head := (head + 1) % cBuf.Length;
      return true;
    }

    /** cq_push: the same step, behind an assertion that there is space. */
    method CqPush(x: E) returns (r: Outcome)
      requires Valid()
      modifies `head, cBuf
      ensures Valid() && CountsExactly() == old(CountsExactly())
      ensures r == if |old(Contents())| == cBuf.Length - 1 then Refused
        else if old(Misjudged(View())) then Panicked else Done
      ensures Contents() == if r == Done then old(Contents()) + [x] else old(Contents())
    {
      FullAndEmpty(View());
      var isFull := Full();
      if isFull {
        return Refused;
      }
      AssertionFailsIff(View());
      var space := Nspace();
      if space == 0 {
        return Panicked;
      }
      var _ := Push(x);
      return Done;
    }

    /** cq_pop_n: the oldest elements in order; with too few it takes those and waits for more. */
    method CqPopN(data: array<E>, n: nat) returns (r: Outcome)
      requires Valid() && n <= data.Length && data != cBuf
      modifies `tail, data
      ensures Valid()
      ensures r == if n <= |old(Contents())| then Done else Waiting
      ensures var k := if r == Done then n else |old(Contents())|;
        && data[..k] == old(Contents())[..k] && data[k..] == old(data[k..])
        && Contents() == old(Contents())[k..]
    {
      hide CircularQueue.Valid, CircularQueue.Contents, CircularQueue.View;
      ghost var before := Contents();
      assert before[0..] == before;
      var i := 0;
      while i < n
        invariant 0 <= i <= n && i <= |before| && Valid()
        invariant Contents() == before[i..]
        invariant data[..i] == before[..i]
        invariant forall j | i <= j < data.Length :: data[j] == old(data[j])
      {
        var e := PopNonblk();
        if e.None? {
          assert before[i..] == [];
          return Waiting;
        }
        assert e.value == before[i] && before[i..][1..] == before[i + 1..];
        data[i] := e.value;
        assert data[..i + 1] == data[..i] + [e.value] && before[..i + 1] == before[..i] + [before[i]];
        assert Contents() == before[i + 1..];
        i := i + 1;
      }
      return Done;
    }

    /** cq_pop_n_noblk. With an exact count it pops all or nothing and never waits. */
    method CqPopNNoblk(data: array<E>, n: nat) returns (r: Outcome)
      requires Valid() && n <= data.Length && data != cBuf
      modifies `tail, data
      ensures Valid()
      ensures r == if old(CountExpr(head, tail, cBuf.Length)) < n then Refused
        else if n <= |old(Contents())| then Done else Waiting
      ensures CountsExactly() ==> r == if n <= |old(Contents())| then Done else Refused
      ensures r == Done ==> data[..n] == old(Contents())[..n] && Contents() == old(Contents())[n..]
      ensures r == Refused ==> Contents() == old(Contents()) && data[..] == old(data[..])
      ensures r == Waiting ==> Contents() == [] && data[..|old(Contents())|] == old(Contents())
      ensures data[n..] == old(data[n..])
    {
      var count := Nelem();
      if count < n {
        return Refused;
      }
      r := CqPopN(data, n);
    }

    /** cq_peek_n: pops, then moves the tail back. */
    method CqPeekN(data: array<E>, n: nat) returns (r: Outcome)
      requires Valid() && n <= data.Length && data != cBuf
      modifies `tail, data
      ensures Valid() && (r != Waiting ==> Contents() == old(Contents()))
      ensures r == if old(CountExpr(head, tail, cBuf.Length)) < n then Refused
        else if n <= |old(Contents())| then Done else Waiting
      ensures CountsExactly() ==> r == if n <= |old(Contents())| then Done else Refused
      ensures r == Done ==> data[..n] == Contents()[..n]
      ensures r == Refused ==> data[..] == old(data[..])
      ensures data[n..] == old(data[n..])
    {
      var sz := Nelem();
      if n > sz {
        return Refused;
      }
      var t := tail;
      r := CqPopNNoblk(data, n);
      if r == Waiting {
        return;
      }
      tail := t;
      assert View() == old(View());
    }

    /**
     * cq_push_n: a prefix of the values in order, and with an exact count all of them
     * or none: then the inner push cannot fail.
     */
    method CqPushN(data: seq<E>) returns (r: Outcome)
      requires Valid() && data != []
      modifies `head, cBuf
      ensures Valid() && CountsExactly() == old(CountsExactly())
      ensures r == Done ==> Contents() == old(Contents()) + data
      ensures r == Refused ==> Contents() == old(Contents())
      ensures r == Panicked ==> exists k: nat | k < |data| :: Contents() == old(Contents()) + data[..k]
      ensures CountsExactly() ==> r == if |old(Contents())| + |data| <= cBuf.Length - 1 then Done else Refused
      ensures r != Waiting
    {
      var space := Nspace();
      if space < |data| {
        return Refused;
      }
      ghost var before, exact := Contents(), CountsExactly();
      assert exact ==> |before| + |data| <= cBuf.Length - 1;
      hide CircularQueue.Valid, CircularQueue.Contents, CircularQueue.View, CircularQueue.CountsExactly;
      var i := 0;
      assert before + data[..0] == before;
      while i < |data|
        invariant 0 <= i <= |data| && Valid() && CountsExactly() == exact
        invariant Contents() == before + data[..i]
      {
        TakeOneMore(before, data, i);
        NeverMisjudged();
        var pushed := CqPush(data[i]);
        if pushed != Done {
          return Panicked;
        }
        i := i + 1;
      }
      assert data[..|data|] == data;
      return Done;
    }

    lemma NeverMisjudged()
      requires Valid()
      ensures View().Valid() && (CountsExactly() ==> !Misjudged(View()))
    {
      if Misjudged(View()) {
        AssertionFailsIff(View());
      }
    }

    /** cq_ckpt. */
    method CqCkpt() returns (ckpt: nat)
      requires Valid()
      ensures ckpt == tail < cBuf.Length
    {
      ckpt := tail;
    }

    /** cq_restore. */
    method CqRestore(ckpt: nat)
      requires Valid() && ckpt < cBuf.Length
      modifies `tail
      ensures Valid() && View() == old(View()).(tail := ckpt)
    {
      tail := ckpt;
    }

    /** Any pushes and pops; what the pushes that succeeded have added. */
    method Perform(ops: seq<QueueOp<E>>) returns (added: seq<E>)
      requires Valid()
      modifies this, cBuf
      ensures Valid() && cBuf == old(cBuf) && (View(), added) == ApplyAll(old(View()), ops)
    {
      ghost var r := View();
      added := [];
      hide Apply, CircularQueue.View;
      assert ops[0..] == ops && added + ApplyAll(r, ops).1 == ApplyAll(r, ops).1;
      var i := 0;
      while i < |ops|
        invariant 0 <= i <= |ops| && Valid() && cBuf == old(cBuf)
        invariant View().Valid() && ApplyAll(View(), ops[i..]).0 == ApplyAll(r, ops).0
        invariant added + ApplyAll(View(), ops[i..]).1 == ApplyAll(r, ops).1
      {
        assert ops[i..][1..] == ops[i + 1..];
        ghost var rest := ApplyAll(Apply(View(), ops[i]).0, ops[i + 1..]).1;
        var more := PerformOne(ops[i]);
        ConcatAssociates(added, more, rest);
        added := added + more;
        i := i + 1;
      }
      assert ops[i..] == [];
      assert ApplyAll(View(), []).0 == View() && added + ApplyAll(View(), []).1 == added;
    }

    method PerformOne(op: QueueOp<E>) returns (added: seq<E>)
      requires Valid()
      modifies this, cBuf
      ensures Valid() && cBuf == old(cBuf) && (View(), added) == Apply(old(View()), op)
    {
      added := [];
      match op
      case DoPush(x) =>
        var ok := Push(x);
        if ok {
          added := [x];
        }
      case DoPop =>
        var _ := PopNonblk();
    }

    /**
     * A checkpoint, any pushes and pops, and a restore: the queue holds what it held at
     * the checkpoint followed by what was pushed since, exactly if that fits.
     */
    method TryAndRestore(ops: seq<QueueOp<E>>) returns (added: seq<E>)
      requires Valid()
      modifies this, cBuf
      ensures Valid() && added == ApplyAll(old(View()), ops).1
      ensures Contents() == old(Contents()) + added <==> |old(Contents())| + |added| <= cBuf.Length - 1
    {
      RestoreUndoesPops(View(), ops);
      hide ApplyAll, Apply;
      var ckpt := CqCkpt();
      added := Perform(ops);
      CqRestore(ckpt);
    }

    /** _get: the i-th oldest element. With an inexact count it may hand out a free slot, or miss an element. */
    method Get(i: nat) returns (e: Option<E>)
      requires Valid()
      ensures e.Some? <==> i < CountExpr(head, tail, cBuf.Length)
      ensures e.Some? && i < |Contents()| ==> e.value == Contents()[i]
      ensures CountsExactly() ==> e == if i < |Contents()| then Some(Contents()[i]) else None
    {
      var count := Nelem();
      if i >= count {
        return None;
      }
      assert i < |Contents()| ==> Contents()[i] == cBuf[View().Slot(i)];
      WrapIsMod(tail + i, cBuf.Length);
      return Some(cBuf[(tail + i) % cBuf.Length]);
    }

    /** _push_w_drop: a full queue loses its oldest element. A ring of size 1 is full and empty at once. */
    method PushWDrop(x: E) returns (r: Outcome)
      requires Valid()
      modifies `head, `tail, cBuf
      ensures Valid()
      ensures r == if cBuf.Length == 1 then Panicked else Done
      ensures r == Panicked ==> Contents() == old(Contents())
      ensures r == Done ==>
        Contents() == (if |old(Contents())| == cBuf.Length - 1 then old(Contents())[1..] else old(Contents())) + [x]
    {
      var isFull := Full();
      if isFull {
        var oldest := PopNonblk();
        if oldest.None? {
          return Panicked;
        }
      }
      var ok := Push(x);
      assert ok;
      return Done;
    }
  }
}
