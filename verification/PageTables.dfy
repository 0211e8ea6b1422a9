// Any number of page tables, mapped into and duplicated in any order: what vm_xlate
// returns is the last mapping in the history of the table it is asked about.
module PageTables {
  import opened Common
  import opened VirtualMemory

  /** vm_map_sec into a table, or vm_dup of a table to an address of the allocator's. */
  datatype Op = MapSec(table: nat, call: MapCall) | Dup(table: nat, base: bv32)

  /** What vm_map_sec and vm_pt_alloc demand, for n tables. */
  ghost predicate Legal(n: nat, op: Op) {
    match op
    case MapSec(t, c) => t < n && Aligned(c.va) && Aligned(c.pa) && c.attr.Valid()
    case Dup(t, base) => t < n && base & 0x3FFF == 0
  }

  /** The mappings a table goes back to: its own, and before them those of the table it is a duplicate of. */
  ghost function Record(hs: seq<seq<MapCall>>, op: Op): seq<seq<MapCall>>
    requires Legal(|hs|, op)
  {
    match op
    case MapSec(t, c) => hs[t := hs[t] + [c]]
    case Dup(t, _) => hs + [hs[t]]
  }

  ghost predicate LegalRun(n: nat, ops: seq<Op>)
    decreases |ops|
  {
    ops == [] || (Legal(n, ops[0]) && LegalRun(if ops[0].Dup? then n + 1 else n, ops[1..]))
  }

  ghost function RecordAll(hs: seq<seq<MapCall>>, ops: seq<Op>): (r: seq<seq<MapCall>>)
    requires LegalRun(|hs|, ops)
    ensures |r| >= |hs|
    decreases |ops|
  {
    if ops == [] then hs else RecordAll(Record(hs, ops[0]), ops[1..])
  }

  /** The tables share no memory, and each has the entries its history gives. */
  ghost predicate Represents(pts: seq<PageTable>, hs: seq<seq<MapCall>>)
    reads pts, set p | p in pts :: p.slots
  {
    && |pts| == |hs|
    && (forall i, j | 0 <= i < j < |pts| :: pts[i].slots != pts[j].slots)
    && forall i | 0 <= i < |pts| ::
      pts[i].Valid() && ValidCalls(hs[i]) && pts[i].View() == MapSections(EMPTY, hs[i])
  }

  lemma OneMoreCall(calls: seq<MapCall>, c: MapCall)
    ensures MapSections(EMPTY, calls + [c]) == MapSection(MapSections(EMPTY, calls), c)
  {
    assert (calls + [c])[..|calls|] == calls;
  }

  method PerformMap(pts: seq<PageTable>, ghost hs: seq<seq<MapCall>>, t: nat, c: MapCall)
    requires Represents(pts, hs) && Legal(|pts|, MapSec(t, c))
    modifies pts[t].slots
    ensures Represents(pts, Record(hs, MapSec(t, c)))
  {
    OneMoreCall(hs[t], c);
    hide MapSection, MapSections, Aligned;
    pts[t].VmMapSec(c.va, c.pa, c.attr);
  }

  method PerformDup(pts: seq<PageTable>, ghost hs: seq<seq<MapCall>>, t: nat, base: bv32) returns (pts': seq<PageTable>)
    requires Represents(pts, hs) && Legal(|pts|, Dup(t, base))
    ensures Represents(pts', Record(hs, Dup(t, base)))
    ensures |pts'| == |pts| + 1 && pts'[..|pts|] == pts && fresh(pts'[|pts|].slots)
  {
    hide MapSections, ValidCalls;
    var copy := pts[t].VmDup(base);
    pts' := pts + [copy];
  }

  /** Any run of mappings and duplications, starting with one empty table. */
  method PerformAll(base: bv32, ops: seq<Op>) returns (pts: seq<PageTable>)
    requires base & 0x3FFF == 0 && LegalRun(1, ops)
    ensures Represents(pts, RecordAll([[]], ops))
  {
    var first := new PageTable(base);
    pts := [first];
    ghost var hs: seq<seq<MapCall>> := [[]];
    assert Represents(pts, hs);
    assert ops[0..] == ops;
    hide Represents, Record;
    var i := 0;
    while i < |ops|
      invariant 0 <= i <= |ops| && |pts| == |hs| && Represents(pts, hs)
      invariant forall p | p in pts :: fresh(p.slots)
      invariant LegalRun(|hs|, ops[i..]) && RecordAll(hs, ops[i..]) == RecordAll([[]], ops)
    {
      assert ops[i..][1..] == ops[i + 1..];
      pts := PerformOne(pts, hs, ops[i]);
      hs := Record(hs, ops[i]);
      i := i + 1;
    }
  }

  method PerformOne(pts: seq<PageTable>, ghost hs: seq<seq<MapCall>>, op: Op) returns (pts': seq<PageTable>)
    requires Represents(pts, hs) && Legal(|pts|, op)
    modifies set p | p in pts :: p.slots
    ensures Represents(pts', Record(hs, op)) && |pts'| == |Record(hs, op)| == if op.Dup? then |pts| + 1 else |pts|
    ensures forall p | p in pts' :: p in pts || fresh(p.slots)
  {
    match op
    case MapSec(t, c) =>
      PerformMap(pts, hs, t, c);
      pts' := pts;
    case Dup(t, base) =>
      pts' := PerformDup(pts, hs, t, base);
      assert pts' == pts + [pts'[|pts|]];
  }

  /** What vm_xlate returns about a table with a history. */
  method Xlate(pts: seq<PageTable>, ghost hs: seq<seq<MapCall>>, t: nat, va: bv32) returns (pa: Option<bv32>)
    requires Represents(pts, hs) && t < |pts|
    ensures pa == match LastCall(hs[t], va) case None => None case Some(c) => Some(InSection(c.pa, va))
  {
    EntryTranslates(hs[t], va);
    hide MapSections, InSection, Index, LastCall, ValidCalls, WordRead, WordTag;
    pa := pts[t].VmXlate(va);
  }

  /** The entry of a history is empty or a section, and reads as the last mapping. */
  lemma EntryTranslates(calls: seq<MapCall>, va: bv32)
    requires ValidCalls(calls)
    ensures var w := MapSections(EMPTY, calls)[Index(va)];
      && (w != 0 ==> WordTag(w) == 2)
      && (match LastCall(calls, va)
          case None => WordRead(w, va) == Fault
          case Some(c) => WordRead(w, va).Mapped? && WordRead(w, va).pa == InSection(c.pa, va))
  {
    TableRefinesMap(calls, va);
    hide MapSections, InSection, SectionWord, Index, LastCall, ValidCalls;
  }

  /**
   * vm_xlate after any sequence of vm_map_sec and vm_dup: the base that was last mapped
   * for the section in the table's history, with the low 20 bits of the address kept,
   * and no entry if nothing was. Later mappings in other tables leave no trace.
   */
  method XlateAfter(base: bv32, ops: seq<Op>, t: nat, va: bv32) returns (pa: Option<bv32>)
    requires base & 0x3FFF == 0 && LegalRun(1, ops) && t < |RecordAll([[]], ops)|
    ensures pa == match LastCall(RecordAll([[]], ops)[t], va)
      case None => None
      case Some(c) => Some(InSection(c.pa, va))
  {
    var pts := PerformAll(base, ops);
    pa := Xlate(pts, RecordAll([[]], ops), t, va);
  }
}
