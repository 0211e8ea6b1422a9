// The counted intrusive queue of libpi/libc/Q.h: elements are linked through their
// own next field, and the queue refines a sequence of distinct elements.
module IntrusiveQueue {
  import opened Common

  class Element {
    var next: Element?

    constructor ()
    {
      next := null;
    }
  }

  datatype Op =
    | OpPush(e: Element)
    | OpAppend(e: Element)
    | OpPop
    | OpInsertAfter(anchor: Element?, e: Element)

  function IndexOf(s: seq<Element>, e: Element): (i: nat)
    requires e in s
    ensures i < |s| && s[i] == e && e !in s[..i]
  {
    if s[0] == e then 0 else 1 + IndexOf(s[1..], e)
  }

  /** An element is added only while it is not on the queue, and after a member or at the head. */
  predicate Legal(s: seq<Element>, op: Op) {
    match op
    case OpPush(e) => e !in s
    case OpAppend(e) => e !in s
    case OpPop => true
    case OpInsertAfter(a, e) => e !in s && (a == null || a in s)
  }

  /** What an operation does to the sequence. */
  function Apply(s: seq<Element>, op: Op): seq<Element>
    requires Legal(s, op)
  {
    match op
    case OpPush(e) => [e] + s
    case OpAppend(e) => s + [e]
    case OpPop => if s == [] then [] else s[1..]
    case OpInsertAfter(a, e) =>
      if a == null then [e] + s
      else var i := IndexOf(s, a); s[..i + 1] + [e] + s[i + 1..]
  }

  /** The element stands right behind the anchor, and all others as they stood. */
  ghost predicate IsBehind(s: seq<Element>, anchor: Element, e: Element, t: seq<Element>) {
    exists i | 0 <= i < |s| && s[i] == anchor ::
      |t| == |s| + 1 && t[..i + 1] == s[..i + 1] && t[i + 1] == e && t[i + 2..] == s[i + 1..]
  }

  /** Where each addition goes: to the head, to the end, or right behind the anchor. */
  lemma PlaceOfTheNew(s: seq<Element>, op: Op)
    requires Legal(s, op)
    ensures match op
      case OpPush(e) => Apply(s, op) == [e] + s
      case OpAppend(e) => Apply(s, op) == s + [e]
      case OpPop => s != [] ==> [s[0]] + Apply(s, op) == s
      case OpInsertAfter(a, e) => if a == null then Apply(s, op) == [e] + s else IsBehind(s, a, e, Apply(s, op))
  {
    if op.OpInsertAfter? && op.anchor != null {
      var i, t := IndexOf(s, op.anchor), Apply(s, op);
      assert t[..i + 1] == s[..i + 1] && t[i + 1] == op.e && t[i + 2..] == s[i + 1..];
    }
  }

  class Queue {
    var head: Element?
    var tail: Element?
    var cnt: nat
    ghost var nodes: seq<Element>

    constructor ()
      ensures Valid() && nodes == []
    {
      head, tail, cnt, nodes := null, null, 0, [];
    }

    /**
     * The links spell out the sequence, the count is its length, and head and tail
     * are both null exactly when it is empty.
     */
    ghost predicate Valid()
      reads this, nodes
    {
      && NoDuplicates(nodes)
      && cnt == |nodes|
      && (head == null <==> nodes == []) && (tail == null <==> nodes == [])
      && (nodes != [] ==> head == nodes[0] && tail == nodes[|nodes| - 1] && nodes[|nodes| - 1].next == null)
      && (forall i | 0 <= i < |nodes| - 1 :: nodes[i].next == nodes[i + 1])
    }

    method Pop() returns (e: Element?)
      requires Valid()
      modifies this
      ensures Valid() && nodes == Apply(old(nodes), OpPop) == if old(nodes) == [] then [] else old(nodes)[1..]
      ensures e == if old(nodes) == [] then null else old(nodes)[0]
    {
      e := head;
      if e == null {
        return;
      }
      assert |nodes| > 1 ==> nodes[0].next == nodes[1];
      cnt := cnt - 1;
      head := e.next;
      if head == null {
        tail := null;
      }
      nodes := nodes[1..];
      assert forall i | 0 <= i < |nodes| :: nodes[i] == old(nodes)[i + 1];
    }

    method Append(e: Element)
      requires Valid() && e !in nodes
      modifies this, e, nodes
      ensures Valid() && nodes == Apply(old(nodes), OpAppend(e)) == old(nodes) + [e]
    {
      e.next := null;
      cnt := cnt + 1;
      if tail == null {
        head, tail := e, e;
      } else {
        tail.next := e;
        tail := e;
      }
      nodes := nodes + [e];
    }

    method Push(e: Element)
      requires Valid() && e !in nodes
      modifies this, e
      ensures Valid() && nodes == Apply(old(nodes), OpPush(e)) == [e] + old(nodes)
    {
      cnt := cnt + 1;
      e.next := head;
      head := e;
      if tail == null {
        tail := e;
      }
      nodes := [e] + nodes;
    }

    /** The anchor is null, for the head, or a member. */
    method InsertAfter(anchor: Element?, e: Element)
      requires Valid() && e !in nodes && (anchor == null || anchor in nodes)
      modifies this, e, nodes
      ensures Valid() && nodes == Apply(old(nodes), OpInsertAfter(anchor, e))
      ensures anchor == null ==> nodes == [e] + old(nodes)
      ensures anchor != null ==> IsBehind(old(nodes), anchor, e, nodes)
    {
      PlaceOfTheNew(nodes, OpInsertAfter(anchor, e));
      hide IsBehind;
      if anchor == null {
        Push(e);
      } else if tail == anchor {
        LastIndex(nodes);
        assert nodes[..|nodes|] + [e] + nodes[|nodes|..] == nodes + [e];
        Append(e);
      } else {
        IndexIsNotLast(nodes, anchor);
        Splice(anchor, IndexOf(nodes, anchor), e);
      }
    }

    /** The last case of Q_insert_after: an element goes in behind one that is not the last. */
    method Splice(anchor: Element, ghost i: nat, e: Element)
      requires Valid() && e !in nodes && i < |nodes| - 1 && anchor == nodes[i]
      modifies this, e, anchor
      ensures Valid() && nodes == old(nodes)[..i + 1] + [e] + old(nodes)[i + 1..]
    {
      ghost var s := nodes;
      assert s[i].next == s[i + 1];
      cnt := cnt + 1;
      e.next := anchor.next;
      anchor.next := e;
      nodes := s[..i + 1] + [e] + s[i + 1..];
      assert forall k | 0 <= k < |nodes| :: nodes[k] == if k <= i then s[k] else if k == i + 1 then e else s[k - 1];
      forall k | 0 <= k < |nodes| - 1
        ensures nodes[k].next == nodes[k + 1]
      {
        if k < i {
          assert s[k].next == s[k + 1];
        } else if k > i + 1 {
          assert s[k - 1].next == s[k];
        }
      }
    }
  }

  lemma IndexIsNotLast(s: seq<Element>, e: Element)
    requires e in s && e != s[|s| - 1]
    ensures IndexOf(s, e) < |s| - 1
  {
  }

  lemma {:induction false} LastIndex(s: seq<Element>)
    requires s != [] && NoDuplicates(s)
    ensures IndexOf(s, s[|s| - 1]) == |s| - 1
  {
    if |s| > 1 {
      assert s[1..][|s| - 2] == s[|s| - 1];
      assert NoDuplicates(s[1..]);
      LastIndex(s[1..]);
    }
  }

  ghost predicate LegalRun(s: seq<Element>, ops: seq<Op>)
    decreases |ops|
  {
    ops == [] || (Legal(s, ops[0]) && LegalRun(Apply(s, ops[0]), ops[1..]))
  }

  ghost function ApplyAll(s: seq<Element>, ops: seq<Op>): seq<Element>
    requires LegalRun(s, ops)
    decreases |ops|
  {
    if ops == [] then s else ApplyAll(Apply(s, ops[0]), ops[1..])
  }

  /** The element an operation adds, if any. */
  function AddedBy(op: Op): seq<Element> {
    match op
    case OpPush(e) => [e]
    case OpAppend(e) => [e]
    case OpInsertAfter(_, e) => [e]
    case OpPop => []
  }

  function PoppedBy(s: seq<Element>, op: Op): seq<Element> {
    if op.OpPop? && s != [] then [s[0]] else []
  }

  /** The elements a run adds, in order. */
  function Added(ops: seq<Op>): seq<Element> {
    if ops == [] then [] else AddedBy(ops[0]) + Added(ops[1..])
  }

  /** What the pops of a run returned, in order. */
  ghost function Popped(s: seq<Element>, ops: seq<Op>): seq<Element>
    requires LegalRun(s, ops)
    decreases |ops|
  {
    if ops == [] then []
    else PoppedBy(s, ops[0]) + Popped(Apply(s, ops[0]), ops[1..])
  }

  lemma ApplyKeepsDistinct(s: seq<Element>, op: Op)
    requires Legal(s, op) && NoDuplicates(s)
    ensures NoDuplicates(Apply(s, op))
  {
  }

  function SpliceAt(s: seq<Element>, i: nat, e: Element): seq<Element>
    requires i <= |s|
  {
    s[..i] + [e] + s[i..]
  }

  /** Every addition is a splice, at the head, at the end or behind the anchor. */
  lemma AdditionIsSplice(s: seq<Element>, op: Op) returns (i: nat)
    requires Legal(s, op) && !op.OpPop?
    ensures i <= |s| && Apply(s, op) == SpliceAt(s, i, op.e)
  {
    match op {
      case OpPush(_) => i := 0;
      case OpAppend(_) => i := |s|;
      case OpInsertAfter(a, _) => i := if a == null then 0 else IndexOf(s, a) + 1;
    }
  }

  lemma SpliceBag(s: seq<Element>, i: nat, e: Element)
    requires i <= |s|
    ensures multiset(SpliceAt(s, i, e)) == multiset(s) + multiset([e])
  {
    assert s == s[..i] + s[i..];
  }

  lemma ApplyConserves(s: seq<Element>, op: Op)
    requires Legal(s, op)
    ensures multiset(s) + multiset(AddedBy(op)) == multiset(Apply(s, op)) + multiset(PoppedBy(s, op))
  {
    if op.OpPop? {
      assert s != [] ==> s == [s[0]] + s[1..];
    } else {
      var i := AdditionIsSplice(s, op);
      hide Apply, SpliceAt, IndexOf;
      SpliceBag(s, i, op.e);
    }
  }

  lemma Balance(s: multiset<Element>, a: multiset<Element>, s': multiset<Element>, p: multiset<Element>,
                more: multiset<Element>, t: multiset<Element>, ps: multiset<Element>)
    requires s + a == s' + p && s' + more == t + ps
    ensures s + (a + more) == t + (p + ps)
  {
    forall x: Element
      ensures (s + (a + more))[x] == (t + (p + ps))[x]
    {
      assert (s + a)[x] == (s' + p)[x] && (s' + more)[x] == (t + ps)[x];
    }
  }

  /** Under any legal run nothing is lost, duplicated or invented. */
  lemma {:induction false} RunConserves(s: seq<Element>, ops: seq<Op>)
    requires LegalRun(s, ops) && NoDuplicates(s)
    ensures NoDuplicates(ApplyAll(s, ops))
    ensures multiset(s) + multiset(Added(ops)) == multiset(ApplyAll(s, ops)) + multiset(Popped(s, ops))
    decreases |ops|
  {
    if ops != [] {
      ApplyKeepsDistinct(s, ops[0]);
      ApplyConserves(s, ops[0]);
      hide Apply, AddedBy, PoppedBy, NoDuplicates, Legal;
      RunConserves(Apply(s, ops[0]), ops[1..]);
      Balance(multiset(s), multiset(AddedBy(ops[0])), multiset(Apply(s, ops[0])), multiset(PoppedBy(s, ops[0])),
              multiset(Added(ops[1..])), multiset(ApplyAll(s, ops)), multiset(Popped(Apply(s, ops[0]), ops[1..])));
    }
  }

  lemma FifoStep(s: seq<Element>, op: Op)
    requires Legal(s, op) && (op.OpAppend? || op.OpPop?)
    ensures s + AddedBy(op) == PoppedBy(s, op) + Apply(s, op)
  {
  }

  /** A queue used only through append and pop is first in, first out. */
  lemma {:induction false} AppendPopIsFifo(s: seq<Element>, ops: seq<Op>)
    requires LegalRun(s, ops) && forall i | 0 <= i < |ops| :: ops[i].OpAppend? || ops[i].OpPop?
    ensures s + Added(ops) == Popped(s, ops) + ApplyAll(s, ops)
    decreases |ops|
  {
    if ops == [] {
      assert s + [] == [] + s;
    } else {
      var op, rest := ops[0], ops[1..];
      FifoStep(s, op);
      var s' := Apply(s, op);
      hide Apply, AddedBy, PoppedBy, Legal;
      AppendPopIsFifo(s', rest);
      ConcatAssociates(s, AddedBy(op), Added(rest));
      ConcatAssociates(PoppedBy(s, op), s', Added(rest));
      ConcatAssociates(PoppedBy(s, op), Popped(s', rest), ApplyAll(s', rest));
    }
  }
}
