// Two implementations of the kernel's address space: TLB entries pinned through the
// lockdown registers (labs/15-pinned-vm) and a one-level page table
// (labs/16-vm-page-table), both built from one map of 1MB sections.
module VirtualMemory {
  import opened Common

  // ----- Attributes -----

  /** pin_t: what both implementations are told about a section. */
  datatype Attr = Attr(G: bv32, asid: bv32, dom: bv32, pagesize: bv32, apPerm: bv32, memAttr: bv32)
  {
    /** The ranges pin_mk and the enumerations allow, for 1MB pages. */
    predicate Valid() {
      G < 2 && asid < 256 && dom < 16 && pagesize == PAGE_1MB && apPerm < 8 && memAttr < 32
    }
  }

  const PAGE_1MB: bv32 := 3
  const PERM_RW_PRIV: bv32 := 1
  const MEM_DEVICE_ATTR: bv32 := 0      // TEX 0, C 0, B 0
  const MEM_UNCACHED_ATTR: bv32 := 4    // TEX 1, C 0, B 0
  const DOM_CLIENT: bv32 := 1
  const MB: bv32 := 0x10_0000

  datatype Kind = MemDevice | MemRw | MemRo

  /** pr_ent_t. */
  datatype Section = Section(addr: bv32, nbytes: bv32, kind: Kind, dom: bv32)
  {
    /** What pr_ent_mk, the attribute tables and the section mappers demand. */
    predicate Valid() {
      nbytes == MB && dom < 16 && kind != MemRo && Aligned(addr)
    }
  }

  predicate Aligned(a: bv32) {
    a & 0xF_FFFF == 0
  }

  /** attr_mk, and the switch in procmap_pin. */
  function AttrOf(e: Section): (a: Attr)
    requires e.Valid()
    ensures a.Valid()
  {
    match e.kind
    case MemDevice => Attr(1, 0, e.dom, PAGE_1MB, PERM_RW_PRIV, MEM_DEVICE_ATTR)
    case MemRw => Attr(1, 0, e.dom, PAGE_1MB, PERM_RW_PRIV, MEM_UNCACHED_ATTR)
  }

  // ----- What a translation is, whoever makes it -----

  datatype Xlat = Fault | Mapped(pa: bv32, dom: bv32, ap: bv32, tex: bv32, c: bv32, b: bv32, xn: bv32, global: bool)

  /** The section base with the offset of the address. */
  function InSection(base: bv32, va: bv32): bv32 {
    (base & 0xFFF0_0000) | (va & 0xF_FFFF)
  }

  predicate SameSection(a: bv32, b: bv32) {
    SectionNumber(a) == SectionNumber(b)
  }

  // ----- Pinned entries -----

  /** The three lockdown registers of one TLB entry. */
  datatype Lock = Lock(va: bv32, pa: bv32, attr: bv32)

  /** pin_mmu_sec's register values. */
  function LockOf(va: bv32, pa: bv32, e: Attr): Lock {
    Lock((va & 0xFFF0_0000) | (e.G << 9) | e.asid,
         (pa & 0xFFF0_0000) | (e.pagesize << 6) | (e.apPerm << 1) | 1,
         (e.dom << 7) | (e.memAttr << 1))
  }

  // The fields of the lockdown registers, where lockdown_print_entry finds them.
  function LockGlobal(va: bv32): bv32 { (va >> 9) & 1 }
  function LockAsid(va: bv32): bv32 { va & 0xFF }
  function LockSize(pa: bv32): bv32 { (pa >> 6) & 3 }
  function LockAp(pa: bv32): bv32 { (pa >> 1) & 7 }
  function LockV(pa: bv32): bv32 { pa & 1 }
  function LockDom(attr: bv32): bv32 { (attr >> 7) & 0xF }
  function LockXn(attr: bv32): bv32 { (attr >> 6) & 1 }
  function LockTex(attr: bv32): bv32 { (attr >> 3) & 7 }
  function LockC(attr: bv32): bv32 { (attr >> 2) & 1 }
  function LockB(attr: bv32): bv32 { (attr >> 1) & 1 }

  /** A valid 1MB entry translates its section, for every process or for its own. */
  predicate LockHits(l: Lock, va: bv32, asid: bv32) {
    && LockV(l.pa) == 1 && LockSize(l.pa) == PAGE_1MB
    && SameSection(l.va, va)
    && (LockGlobal(l.va) == 1 || LockAsid(l.va) == asid)
  }

  function LockRead(l: Lock, va: bv32): Xlat {
    Mapped(InSection(l.pa, va), LockDom(l.attr), LockAp(l.pa),
           LockTex(l.attr), LockC(l.attr), LockB(l.attr), LockXn(l.attr), LockGlobal(l.va) == 1)
  }

  /** The pinned translation: the first entry that hits. */
  function PinnedXlat(tlb: seq<Lock>, va: bv32, asid: bv32): Xlat {
    if tlb == [] then Fault
    else if LockHits(tlb[0], va, asid) then LockRead(tlb[0], va)
    else PinnedXlat(tlb[1..], va, asid)
  }

  // ----- Page table words -----

  /** vm_map_sec's descriptor: the bit fields of fld_t, each cut to its width. */
  function SectionWord(pa: bv32, e: Attr): bv32 {
    2
    | ((e.memAttr & 1) << 2) | (((e.memAttr >> 1) & 1) << 3)
    | ((e.dom & 0xF) << 5)
    | ((e.apPerm & 3) << 10) | (((e.memAttr >> 2) & 7) << 12) | (((e.apPerm >> 2) & 1) << 15)
    | ((if e.G == 0 then 1 else 0) << 17)
    | ((pa >> 20) << 20)
  }

  // The fields of a first-level descriptor.
  function WordTag(w: bv32): bv32 { w & 3 }
  function WordB(w: bv32): bv32 { (w >> 2) & 1 }
  function WordC(w: bv32): bv32 { (w >> 3) & 1 }
  function WordXn(w: bv32): bv32 { (w >> 4) & 1 }
  function WordDom(w: bv32): bv32 { (w >> 5) & 0xF }
  function WordAp(w: bv32): bv32 { (((w >> 15) & 1) << 2) | ((w >> 10) & 3) }   // APX above AP
  function WordTex(w: bv32): bv32 { (w >> 12) & 7 }
  function WordNg(w: bv32): bv32 { (w >> 17) & 1 }

  /** A first-level descriptor as the hardware walks it: only the section tag maps. */
  function WordRead(w: bv32, va: bv32): Xlat {
    if WordTag(w) != 2 then Fault
    else Mapped(InSection(w, va), WordDom(w), WordAp(w), WordTex(w), WordC(w), WordB(w), WordXn(w), WordNg(w) == 0)
  }

  function SectionNumber(va: bv32): bv32 {
    va >> 20
  }

  function ToNat(x: bv32): (i: nat)
    ensures i < 0x1_0000_0000
  {
    x as int
  }

  function FromNat(i: nat): bv32
    requires i < 0x1_0000_0000
  {
    i as bv32
  }

  lemma RoundTrip(x: bv32)
    ensures FromNat(ToNat(x)) == x
  {
  }

  /** The table index of an address. */
  function Index(va: bv32): (i: nat)
    ensures i < 4096
  {
    IndexFits(va);
    ToNat(SectionNumber(va))
  }

  lemma IndexFits(va: bv32)
    ensures ToNat(SectionNumber(va)) < 4096
  {
  }

  lemma IndexIsSection(a: bv32, b: bv32)
    ensures Index(a) == Index(b) <==> SameSection(a, b)
  {
    hide ToNat, FromNat, SectionNumber;
    RoundTrip(SectionNumber(a));
    RoundTrip(SectionNumber(b));
  }

  // ----- The two encodings carry the same information -----

  function AttrTex(e: Attr): bv32 { e.memAttr >> 2 }
  function AttrC(e: Attr): bv32 { (e.memAttr >> 1) & 1 }
  function AttrB(e: Attr): bv32 { e.memAttr & 1 }

  /** The translation an attribute record asks for. */
  function Asked(pa: bv32, va: bv32, e: Attr): Xlat {
    Mapped(InSection(pa, va), e.dom, e.apPerm, AttrTex(e), AttrC(e), AttrB(e), 0, e.G == 1)
  }

  lemma LockFields(sec: bv32, pa: bv32, va: bv32, e: Attr)
    requires e.Valid()
    ensures var l := LockOf(sec, pa, e);
      && LockV(l.pa) == 1 && LockSize(l.pa) == 3 && LockAp(l.pa) == e.apPerm
      && InSection(l.pa, va) == InSection(pa, va)
      && SectionNumber(l.va) == SectionNumber(sec) && LockGlobal(l.va) == e.G && LockAsid(l.va) == e.asid
      && LockDom(l.attr) == e.dom && LockXn(l.attr) == 0
      && LockTex(l.attr) == AttrTex(e) && LockC(l.attr) == AttrC(e) && LockB(l.attr) == AttrB(e)
      && l.va & 0xF_FD00 == 0 && l.pa & 0xF_FF30 == 0 && l.attr & 0xFFFF_F801 == 0   // reserved, NSA, NSTID
  {
  }

  lemma WordFields(pa: bv32, va: bv32, e: Attr)
    requires e.Valid()
    ensures var w := SectionWord(pa, e);
      && WordTag(w) == 2 && InSection(w, va) == InSection(pa, va)
      && WordDom(w) == e.dom && WordAp(w) == e.apPerm && WordXn(w) == 0
      && WordTex(w) == AttrTex(e) && WordC(w) == AttrC(e) && WordB(w) == AttrB(e)
      && (WordNg(w) == 0 <==> e.G == 1)
      && w & 0xD_0200 == 0   // [9] IMP, [16] S, [18] supersection, [19]
  {
  }

  lemma LockReads(sec: bv32, pa: bv32, va: bv32, e: Attr)
    requires e.Valid()
    ensures LockRead(LockOf(sec, pa, e), va) == Asked(pa, va, e)
  {
    LockFields(sec, pa, va, e);
    hide LockOf, InSection, LockGlobal, LockAsid, LockAp, LockDom, LockXn, LockTex, LockC, LockB, AttrTex, AttrC, AttrB;
  }

  /** A pinned entry hits in its own section only, for everyone or for its process. */
  lemma LockHitsItsSection(sec: bv32, pa: bv32, va: bv32, asid: bv32, e: Attr)
    requires e.Valid()
    ensures LockHits(LockOf(sec, pa, e), va, asid) <==> SameSection(sec, va) && (e.G == 1 || e.asid == asid)
  {
    LockFields(sec, pa, va, e);
    hide LockOf, InSection, SectionNumber, LockGlobal, LockAsid, LockSize, LockV;
  }

  lemma WordReads(pa: bv32, va: bv32, e: Attr)
    requires e.Valid()
    ensures WordRead(SectionWord(pa, e), va) == Asked(pa, va, e)
  {
    WordFields(pa, va, e);
    hide SectionWord, InSection, WordTag, WordDom, WordAp, WordXn, WordTex, WordC, WordB, WordNg, AttrTex, AttrC, AttrB;
  }

  /**
   * For every attribute record and every pair of addresses, the pinned entry and the
   * descriptor made from it read back as the same translation.
   */
  lemma EncodingsAgree(sec: bv32, pa: bv32, va: bv32, e: Attr)
    requires e.Valid()
    ensures LockRead(LockOf(sec, pa, e), va) == WordRead(SectionWord(pa, e), va)
  {
    hide *;
    LockReads(sec, pa, va, e);
    WordReads(pa, va, e);
  }

  // ----- The page table as a map from sections to entries -----

  /** One vm_map_sec. */
  datatype MapCall = MapCall(va: bv32, pa: bv32, attr: Attr)

  type Table = t: seq<bv32> | |t| == 4096 witness seq(4096, _ => 0)

  const EMPTY: Table := seq(4096, _ => 0)

  function MapSection(t: Table, c: MapCall): Table {
    t[Index(c.va) := SectionWord(c.pa, c.attr)]
  }

  function MapSections(t: Table, calls: seq<MapCall>): Table {
    if calls == [] then t
    else MapSection(MapSections(t, calls[..|calls| - 1]), calls[|calls| - 1])
  }

  /** The last call that mapped the section of `va`. */
  function LastCall(calls: seq<MapCall>, va: bv32): (r: Option<MapCall>)
    ensures r.Some? ==> r.value in calls && SameSection(r.value.va, va)
    ensures r.None? ==> forall c | c in calls :: !SameSection(c.va, va)
  {
    if calls == [] then None
    else if SameSection(calls[|calls| - 1].va, va) then Some(calls[|calls| - 1])
    else LastCall(calls[..|calls| - 1], va)
  }

  /** The call found is the last of the section, by whatever index. */
  lemma {:induction false} LastCallIsLast(calls: seq<MapCall>, va: bv32, i: nat)
    requires i < |calls| && SameSection(calls[i].va, va)
    requires forall j | i < j < |calls| :: !SameSection(calls[j].va, va)
    ensures LastCall(calls, va) == Some(calls[i])
    decreases |calls|
  {
    hide SameSection;
    if i < |calls| - 1 {
      LastCallIsLast(calls[..|calls| - 1], va, i);
    }
  }

  ghost predicate ValidCalls(calls: seq<MapCall>) {
    forall c | c in calls :: Aligned(c.va) && Aligned(c.pa) && c.attr.Valid()
  }

  /**
   * After any sequence of mappings a lookup sees the last one of its section, and a
   * section never mapped has an empty slot: later mappings of other sections, and
   * earlier ones of the same, leave no trace.
   */
  lemma {:induction false} TableRefinesMap(calls: seq<MapCall>, va: bv32)
    requires ValidCalls(calls)
    ensures var w := MapSections(EMPTY, calls)[Index(va)];
      match LastCall(calls, va)
      case None => w == 0
      case Some(c) => w == SectionWord(c.pa, c.attr) && WordRead(w, va) == Asked(c.pa, va, c.attr) && w != 0
  {
    hide SectionWord, WordRead, Asked, Index, SameSection;
    if calls != [] {
      var c := calls[|calls| - 1];
      TableRefinesMap(calls[..|calls| - 1], va);
      IndexIsSection(c.va, va);
      WordReads(c.pa, va, c.attr);
      WordNonzero(c.pa, c.attr);
    }
  }

  lemma WordNonzero(pa: bv32, e: Attr)
    requires e.Valid()
    ensures SectionWord(pa, e) != 0
  {
    WordFields(pa, 0, e);
    hide SectionWord;
  }

  /** The low 20 bits survive translation; the rest comes from the mapped base. */
  lemma TranslationKeepsOffset(pa: bv32, va: bv32)
    requires Aligned(pa)
    ensures InSection(pa, va) & 0xF_FFFF == va & 0xF_FFFF
    ensures SectionNumber(InSection(pa, va)) == SectionNumber(pa)
    ensures SameSection(pa, va) ==> InSection(pa, va) == va
  {
  }

  /** vm_map_sec's address of a section's descriptor. */
  function FldAddress(base: bv32, va: bv32): bv32 {
    base | (SectionNumber(va) << 2)
  }

  /** The slot of a table that an address inside it belongs to. */
  function SlotOf(base: bv32, addr: bv32): bv32 {
    (addr - base) >> 2
  }

  /** vm_pt_t: 4096 descriptors at a 16KB-aligned address. */
  class PageTable {
    const base: bv32
    const slots: array<bv32>

    ghost predicate Valid()
      reads this
    {
      base & 0x3FFF == 0 && slots.Length == 4096
    }

    ghost function View(): Table
      requires Valid()
      reads this, slots
    {
      slots[..]
    }

    /** vm_pt_alloc: the allocator's aligned block, zeroed. */
    constructor (base: bv32)
      requires base & 0x3FFF == 0
      ensures Valid() && this.base == base && fresh(slots) && View() == EMPTY
    {
      this.base := base;
      slots := new bv32[4096];
      new;
      var i := 0;
      while i < 4096
        modifies slots
        invariant 0 <= i <= 4096
        invariant forall j | 0 <= j < i :: slots[j] == 0
      {
        slots[i] := 0;
        i := i + 1;
      }
    }

    /** PUT32 to an address inside the table. */
    method Put32(addr: bv32, w: bv32)
      requires Valid() && ToNat(SlotOf(base, addr)) < 4096
      modifies slots
      ensures slots[..] == old(slots[..])[ToNat(SlotOf(base, addr)) := w]
    {
      slots[ToNat(SlotOf(base, addr))] := w;
    }

    /** vm_map_sec: the descriptor's address is assembled from the table base and the section number. */
    method VmMapSec(va: bv32, pa: bv32, attr: Attr)
      requires Valid() && Aligned(va) && Aligned(pa) && attr.Valid()
      modifies slots
      ensures View() == MapSection(old(View()), MapCall(va, pa, attr))
    {
      hide SectionWord, Aligned, SlotOf, FldAddress, SectionNumber, ToNat;
      SlotAddress(base, va);
      IndexFits(va);
      Put32(FldAddress(base, va), SectionWord(pa, attr));
    }

    /** vm_lookup: the slot of the address, if it is not zero. */
    method VmLookup(va: bv32) returns (pte: Option<nat>)
      requires Valid()
      ensures pte == if View()[Index(va)] != 0 then Some(Index(va)) else None
    {
      return if slots[Index(va)] != 0 then Some(Index(va)) else None;
    }

    /** vm_xlate, with "no entry" where the code means to test for it. */
    method VmXlate(va: bv32) returns (pa: Option<bv32>)
      requires Valid() && (View()[Index(va)] != 0 ==> WordTag(View()[Index(va)]) == 2)
      ensures pa == match WordRead(View()[Index(va)], va) case Fault => None case Mapped(p, _, _, _, _, _, _, _) => Some(p)
    {
      var pte := VmLookup(va);
      if pte.None? {
        return None;
      }
      return Some(InSection(slots[pte.value], va));
    }

    /** vm_dup: a second table with the same entries, sharing nothing. */
    method VmDup(base2: bv32) returns (pt2: PageTable)
      requires Valid() && base2 & 0x3FFF == 0
      ensures fresh(pt2) && fresh(pt2.slots) && pt2.Valid() && pt2.base == base2 && pt2.View() == View()
    {
      pt2 := new PageTable(base2);
      var i := 0;
      while i < 4096
        modifies pt2.slots
        invariant 0 <= i <= 4096
        invariant forall j | 0 <= j < i :: pt2.slots[j] == slots[j]
      {
        pt2.slots[i] := slots[i];
        i := i + 1;
      }
    }
  }

  /** Or-ing the section number into the aligned base addresses that section's slot. */
  lemma SlotAddress(base: bv32, va: bv32)
    requires base & 0x3FFF == 0
    ensures SlotOf(base, FldAddress(base, va)) == SectionNumber(va)
    ensures FldAddress(base, va) == base + (SectionNumber(va) << 2)
  {
  }
}
