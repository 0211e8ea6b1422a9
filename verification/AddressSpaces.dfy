// From one process map to two address spaces: procmap.h's pinning and pt-vm.c's
// vm_map_kernel, their domain register, and their agreement on every address.
module AddressSpaces {
  import opened Common
  import opened VirtualMemory

  const MAX_ENT := 8

  // ----- Domains -----

  /** Whether domain j is in a domain set. */
  predicate Used(doms: bv32, j: bv32)
    requires j < 16
  {
    doms & (1 << j) != 0
  }

  /** The two access bits of domain j. */
  function Access(mask: bv32, j: bv32): bv32
    requires j < 16
  {
    (mask >> (j << 1)) & 3
  }

  function Grant(mask: bv32, perm: bv32, j: bv32): bv32
    requires j < 16
  {
    mask | (perm << (j << 1))
  }

  lemma GrantReads(mask: bv32, perm: bv32, i: bv32, j: bv32)
    requires i < 16 && j < 16 && perm < 4 && Access(mask, i) == 0
    ensures Access(Grant(mask, perm, i), j) == if i == j then perm else Access(mask, j)
  {
  }

  /** The mask is right for the domains below i and empty from there on. */
  ghost predicate Granted(mask: bv32, doms: bv32, perm: bv32, i: bv32) {
    forall j: bv32 | j < 16 :: Access(mask, j) == if j < i && Used(doms, j) then perm else 0
  }

  lemma NothingGranted(doms: bv32, perm: bv32)
    ensures Granted(0, doms, perm, 0)
  {
  }

  lemma GrantNext(mask: bv32, doms: bv32, perm: bv32, i: bv32)
    requires i < 16 && perm < 4 && Granted(mask, doms, perm, i)
    ensures Granted(if Used(doms, i) then Grant(mask, perm, i) else mask, doms, perm, i + 1)
  {
    var next := if Used(doms, i) then Grant(mask, perm, i) else mask;
    assert !(i < i);
    assert Access(mask, i) == 0;
    hide Access, Grant, Used;
    forall j: bv32 | j < 16
      ensures Access(next, j) == if j < i + 1 && Used(doms, j) then perm else 0
    {
      GrantReads(mask, perm, i, j);
      BelowNext(j, i);
    }
  }

  lemma BelowNext(j: bv32, i: bv32)
    requires i < 16
    ensures j < i + 1 <==> j < i || j == i
  {
  }

  /** dom_perm: every domain in the set gets `perm`, every other one nothing. */
  method DomPerm(doms: bv32, perm: bv32) returns (mask: bv32)
    requires doms != 0 && doms >> 16 == 0 && perm <= 3
    ensures forall j: bv32 | j < 16 :: Access(mask, j) == if Used(doms, j) then perm else 0
  {
    var i: bv32 := 0;
    mask := 0;
    NothingGranted(doms, perm);
    hide Access, Grant, Used, Granted;
    while i < 16
      invariant i <= 16
      invariant Granted(mask, doms, perm, i)
      decreases 16 - i
    {
      GrantNext(mask, doms, perm, i);
      if Used(doms, i) {
        mask := Grant(mask, perm, i);
      }
      i := i + 1;
    }
    AllGranted(mask, doms, perm);
  }

  lemma AllGranted(mask: bv32, doms: bv32, perm: bv32)
    requires Granted(mask, doms, perm, 16)
    ensures forall j: bv32 | j < 16 :: Access(mask, j) == if Used(doms, j) then perm else 0
  {
  }

  function AddDomain(doms: bv32, d: bv32): bv32
    requires d < 16
  {
    doms | (1 << d)
  }

  lemma AddDomainReads(doms: bv32, d: bv32, j: bv32)
    requires d < 16 && j < 16
    ensures Used(AddDomain(doms, d), j) <==> Used(doms, j) || j == d
  {
    OneMoreBit(doms, d, j);
  }

  lemma OneMoreBit(doms: bv32, d: bv32, j: bv32)
    requires d < 16 && j < 16
    ensures (doms | (1 << d)) & (1 << j) != 0 <==> doms & (1 << j) != 0 || j == d
  {
  }

  lemma AddDomainFits(doms: bv32, d: bv32)
    requires d < 16 && doms >> 16 == 0
    ensures AddDomain(doms, d) >> 16 == 0 && AddDomain(doms, d) != 0
  {
  }

  // ----- The process map -----

  /** dom_ids holds exactly the domains of the entries. */
  ghost predicate DomainsOf(doms: bv32, secs: seq<Section>) {
    && doms >> 16 == 0
    && (secs != [] ==> doms != 0)
    && (forall e | e in secs :: e.dom < 16)
    && forall j: bv32 | j < 16 :: Used(doms, j) <==> exists e :: e in secs && e.dom == j
  }

  lemma PushKeepsDomains(doms: bv32, secs: seq<Section>, e: Section)
    requires DomainsOf(doms, secs) && e.dom < 16
    ensures DomainsOf(AddDomain(doms, e.dom), secs + [e])
  {
    hide Used, AddDomain;
    AddDomainFits(doms, e.dom);
    forall j: bv32 | j < 16
      ensures Used(AddDomain(doms, e.dom), j) <==> exists f :: f in secs + [e] && f.dom == j
    {
      AddDomainReads(doms, e.dom, j);
      assert e in secs + [e];
      if f :| f in secs + [e] && f.dom == j {
        assert f in secs || f == e;
      }
      if f :| f in secs && f.dom == j {
        assert f in secs + [e];
      }
    }
  }

  /** procmap_t. */
  class Procmap {
    var n: nat
    var domIds: bv32
    const entries: array<Section>

    ghost predicate Valid()
      reads this, entries
    {
      entries.Length == MAX_ENT && n <= MAX_ENT && DomainsOf(domIds, entries[..n])
    }

    ghost function View(): seq<Section>
      requires Valid()
      reads this, entries
    {
      entries[..n]
    }

    constructor ()
      ensures Valid() && View() == [] && fresh(entries)
    {
      n, domIds := 0, 0;
      entries := new Section[MAX_ENT](_ => Section(0, 0, MemDevice, 0));
      new;
      NoDomains();
    }

    method ProcmapPush(e: Section)
      requires Valid() && n < 8 && e.dom < 16
      modifies this, entries
      ensures Valid() && View() == old(View()) + [e]
    {
      PushKeepsDomains(domIds, entries[..n], e);
      hide DomainsOf;
      domIds := AddDomain(domIds, e.dom);
      entries[n] := e;
      n := n + 1;
      assert entries[..n] == old(entries[..n]) + [e];
    }

    /** procmap_lookup: the first entry that contains the address. */
    method ProcmapLookup(addr: bv32) returns (r: Option<nat>)
      requires Valid()
      ensures r.Some? ==> r.value < n && Contains(View()[r.value], addr)
      ensures r.Some? ==> forall j | 0 <= j < r.value :: !Contains(View()[j], addr)
      ensures r.None? ==> forall e | e in View() :: !Contains(e, addr)
    {
      hide DomainsOf, Contains;
      var i := 0;
      while i < n
        invariant 0 <= i <= n
        invariant forall j | 0 <= j < i :: !Contains(entries[j], addr)
      {
        if Contains(entries[i], addr) {
          return Some(i);
        }
        i := i + 1;
      }
      return None;
    }
  }

  lemma NoDomains()
    ensures DomainsOf(0, [])
  {
  }

  /** The pointer comparison of procmap_lookup, with the end computed in 32 bits. */
  predicate InRange(start: bv32, nbytes: bv32, addr: bv32) {
    addr >= start && addr < start + nbytes
  }

  predicate Contains(e: Section, addr: bv32) {
    InRange(e.addr, e.nbytes, addr)
  }

  /** It is membership in the section, except that the last megabyte contains nothing. */
  lemma ContainsIsSection(e: Section, addr: bv32)
    requires e.Valid()
    ensures Contains(e, addr) <==> SameSection(e.addr, addr) && e.addr != 0xFFF0_0000
  {
    hide InRange, Aligned, SameSection;
    RangeIsSection(e.addr, addr);
  }

  lemma RangeIsSection(a: bv32, addr: bv32)
    requires Aligned(a)
    ensures InRange(a, MB, addr) <==> SameSection(a, addr) && a != 0xFFF0_0000
  {
    hide InRange, SameSection, Aligned;
    if SameSection(a, addr) && a != 0xFFF0_0000 {
      SectionIsInRange(a, addr);
    }
    if InRange(a, MB, addr) {
      RangeIsInSection(a, addr);
      TopRangeIsEmpty(addr);
    }
  }

  lemma SectionIsInRange(a: bv32, addr: bv32)
    requires Aligned(a) && SameSection(a, addr) && a != 0xFFF0_0000
    ensures InRange(a, 0x10_0000, addr)
  {
  }

  lemma RangeIsInSection(a: bv32, addr: bv32)
    requires Aligned(a) && InRange(a, 0x10_0000, addr)
    ensures SameSection(a, addr)
  {
    RangeStaysInSection(a, addr);
  }

  lemma RangeStaysInSection(a: bv32, addr: bv32)
    requires a & 0xF_FFFF == 0 && addr >= a && addr < a + 0x10_0000
    ensures a >> 20 == addr >> 20
  {
    SectionsAreOrdered(a, addr);
    if (a >> 20) < (addr >> 20) {
      NextSectionIsBeyond(a, addr);
    }
  }

  lemma SectionsAreOrdered(a: bv32, addr: bv32)
    requires addr >= a
    ensures addr >> 20 >= a >> 20
  {
  }

  lemma NextSectionIsBeyond(a: bv32, addr: bv32)
    requires a & 0xF_FFFF == 0 && (a >> 20) < (addr >> 20)
    ensures addr >= a + 0x10_0000
  {
  }

  lemma TopRangeIsEmpty(addr: bv32)
    ensures !InRange(0xFFF0_0000, 0x10_0000, addr)
  {
  }

  // ----- Pinning -----

  /** The TLB's lockdown entries, written through an index register. */
  class LockdownTlb {
    const entries: array<Lock>
    var index: nat

    ghost predicate Valid()
      reads this
    {
      entries.Length == 8 && index < 8
    }

    constructor (initial: seq<Lock>)
      requires |initial| == 8
      ensures Valid() && entries[..] == initial && fresh(entries)
    {
      entries := new Lock[8](i requires 0 <= i < 8 => initial[i]);
      index := 0;
    }

    /** pin_mmu_sec: index, then va, attributes, pa; each write goes to the indexed entry. */
    method PinMmuSec(idx: nat, va: bv32, pa: bv32, e: Attr)
      requires Valid() && idx < 8 && Aligned(va) && Aligned(pa)
      modifies this, entries
      ensures Valid() && entries[..] == old(entries[..])[idx := LockOf(va, pa, e)]
    {
      var l := LockOf(va, pa, e);
      hide LockOf;
      index := idx;
      entries[index] := entries[index].(va := l.va);
      entries[index] := entries[index].(attr := l.attr);
      entries[index] := entries[index].(pa := l.pa);
      assert entries[index] == l;
    }

    /** procmap_pin. */
    method ProcmapPin(p: Procmap)
      requires Valid() && p.Valid() && forall e | e in p.View() :: e.Valid()
      modifies this, entries
      ensures Valid() && entries[..] == Locks(p.View()) + old(entries[..])[p.n..]
      ensures forall i | 0 <= i < p.n ::
        InSection(entries[i].va, 0) == p.View()[i].addr == InSection(entries[i].pa, 0)
    {
      LocksPinSections(p.View(), entries[..][p.n..]);
      PinEach(p);
      hide *;
    }

    /** The loop of procmap_pin. */
    method PinEach(p: Procmap)
      requires Valid() && p.Valid() && forall e | e in p.View() :: e.Valid()
      modifies this, entries
      ensures Valid() && entries[..] == Locks(p.View()) + old(entries[..])[p.n..]
    {
      ghost var secs, locks, before := p.View(), Locks(p.View()), entries[..];
      assert forall i | 0 <= i < p.n :: secs[i] in secs && locks[i] == LockOf(secs[i].addr, secs[i].addr, AttrOf(secs[i]));
      hide LockOf, AttrOf, DomainsOf, Section.Valid, Aligned, Locks;
      var i := 0;
      while i < p.n
        invariant 0 <= i <= p.n && Valid()
        invariant forall j | 0 <= j < 8 :: entries[j] == if j < i then locks[j] else before[j]
      {
        var e := p.entries[i];
        assert e == secs[i] && e in secs;
        ValidIsAligned(e);
        ghost var now := entries[..];
        PinMmuSec(i, e.addr, e.addr, AttrOf(e));
        assert entries[..] == now[i := locks[i]];
        i := i + 1;
      }
    }
  }

  lemma LocksPinSections(secs: seq<Section>, rest: seq<Lock>)
    requires forall e | e in secs :: e.Valid()
    ensures var all := Locks(secs) + rest;
      forall i | 0 <= i < |secs| :: InSection(all[i].va, 0) == secs[i].addr == InSection(all[i].pa, 0)
  {
    hide LockOf, AttrOf, InSection, Section.Valid;
    var all := Locks(secs) + rest;
    forall i | 0 <= i < |secs|
      ensures InSection(all[i].va, 0) == secs[i].addr == InSection(all[i].pa, 0)
    {
      assert all[i] == Locks(secs)[i] && secs[i] in secs;
      LockOfSection(secs[i]);
    }
  }

  lemma LockOfSection(e: Section)
    requires e.Valid()
    ensures var l := LockOf(e.addr, e.addr, AttrOf(e));
      InSection(l.va, 0) == e.addr == InSection(l.pa, 0)
  {
    var a := AttrOf(e);
    hide AttrOf;
    LockBases(e.addr, a);
  }

  lemma LockBases(base: bv32, a: Attr)
    requires a.Valid() && base & 0xF_FFFF == 0
    ensures InSection(LockOf(base, base, a).va, 0) == base == InSection(LockOf(base, base, a).pa, 0)
  {
  }

  lemma ValidIsAligned(e: Section)
    requires e.Valid()
    ensures Aligned(e.addr)
  {
  }

  /** The entries procmap_pin writes: every section onto itself. */
  ghost function Locks(secs: seq<Section>): (s: seq<Lock>)
    requires forall e | e in secs :: e.Valid()
    ensures |s| == |secs|
  {
    seq(|secs|, i requires 0 <= i < |secs| => LockOf(secs[i].addr, secs[i].addr, AttrOf(secs[i])))
  }

  // ----- The page table -----

  /** The calls vm_map_kernel makes: every section onto itself. */
  ghost function Calls(secs: seq<Section>): (s: seq<MapCall>)
    requires forall e | e in secs :: e.Valid()
    ensures |s| == |secs| && ValidCalls(s)
  {
    CallsAreValid(secs);
    seq(|secs|, i requires 0 <= i < |secs| => MapCall(secs[i].addr, secs[i].addr, AttrOf(secs[i])))
  }

  lemma CallsAreValid(secs: seq<Section>)
    requires forall e | e in secs :: e.Valid()
    ensures ValidCalls(seq(|secs|, i requires 0 <= i < |secs| => MapCall(secs[i].addr, secs[i].addr, AttrOf(secs[i]))))
  {
    hide AttrOf, Aligned;
    var calls := seq(|secs|, i requires 0 <= i < |secs| => MapCall(secs[i].addr, secs[i].addr, AttrOf(secs[i])));
    forall c | c in calls
      ensures Aligned(c.va) && Aligned(c.pa) && c.attr.Valid()
    {
      var i :| 0 <= i < |calls| && calls[i] == c;
      assert secs[i] in secs;
    }
  }

  /** The domain register gives client access, b01, to the map's domains and nothing to the others. */
  ghost predicate GrantsDomains(d: bv32, secs: seq<Section>) {
    forall j: bv32 | j < 16 :: Access(d, j) == if exists e :: e in secs && e.dom == j then 1 else 0
  }

  method DomainRegister(p: Procmap) returns (d: bv32)
    requires p.Valid() && p.n > 0
    ensures GrantsDomains(d, p.View())
  {
    d := DomPerm(p.domIds, DOM_CLIENT);
    hide Access, Used;
    forall j: bv32 | j < 16
      ensures Access(d, j) == if exists e :: e in p.View() && e.dom == j then 1 else 0
    {
      assert Used(p.domIds, j) <==> exists e :: e in p.View() && e.dom == j;
    }
  }

  /**
   * vm_map_kernel: the domain register, a fresh table at the allocator's address with
   * every section mapped onto itself, and the check that every entry is found again.
   */
  method VmMapKernel(p: Procmap, base: bv32) returns (pt: PageTable, d: bv32)
    requires p.Valid() && p.n > 0 && forall e | e in p.View() :: e.Valid()
    requires base & 0x3FFF == 0
    ensures fresh(pt) && fresh(pt.slots) && pt.Valid() && pt.View() == MapSections(EMPTY, Calls(p.View()))
    ensures GrantsDomains(d, p.View())
  {
    hide GrantsDomains, DomainsOf, Section.Valid, AttrOf, Index, SectionWord, Aligned;
    ghost var secs := p.View();
    d := DomainRegister(p);
    pt := new PageTable(base);
    MapAll(p, pt);
    var i := 0;
    while i < p.n
      invariant 0 <= i <= p.n
      invariant pt.View() == MapSections(EMPTY, Calls(secs))
    {
      var e := p.entries[i];
      assert e == secs[i];
      EntriesAreFound(secs, i);
      var pte := pt.VmLookup(e.addr);
      assert pte.Some?;
      i := i + 1;
    }
  }

  method MapAll(p: Procmap, pt: PageTable)
    requires p.Valid() && forall e | e in p.View() :: e.Valid()
    requires pt.Valid() && pt.View() == EMPTY
    modifies pt.slots
    ensures pt.View() == MapSections(EMPTY, Calls(p.View()))
  {
    hide DomainsOf, Section.Valid, AttrOf, Index, SectionWord, Aligned;
    ghost var secs := p.View();
    var i := 0;
    while i < p.n
      invariant 0 <= i <= p.n
      invariant pt.View() == MapSections(EMPTY, Calls(secs)[..i])
    {
      var e := p.entries[i];
      assert e == secs[i] && e in secs;
      ValidIsAligned(e);
      pt.VmMapSec(e.addr, e.addr, AttrOf(e));
      assert Calls(secs)[..i + 1][..i] == Calls(secs)[..i];
      i := i + 1;
    }
    assert Calls(secs)[..p.n] == Calls(secs);
  }

  lemma EntriesAreFound(secs: seq<Section>, i: nat)
    requires i < |secs| && forall e | e in secs :: e.Valid()
    ensures MapSections(EMPTY, Calls(secs))[Index(secs[i].addr)] != 0
  {
    hide Index, SectionWord, WordRead, Asked;
    TableRefinesMap(Calls(secs), secs[i].addr);
    assert Calls(secs)[i] in Calls(secs);
  }

  // ----- Agreement -----

  ghost predicate Disjoint(secs: seq<Section>) {
    forall i, j | 0 <= i < j < |secs| :: !SameSection(secs[i].addr, secs[j].addr)
  }

  /** The section of the map an address lies in. */
  ghost function SectionOf(secs: seq<Section>, va: bv32): (r: Option<Section>)
    ensures r.Some? ==> r.value in secs && SameSection(r.value.addr, va)
    ensures r.None? ==> forall e | e in secs :: !SameSection(e.addr, va)
  {
    if secs == [] then None
    else if SameSection(secs[0].addr, va) then Some(secs[0])
    else SectionOf(secs[1..], va)
  }

  /** The translation the map promises: its section's attributes, onto the address itself. */
  ghost function Promised(secs: seq<Section>, va: bv32): (x: Xlat)
    requires forall e | e in secs :: e.Valid()
    ensures x == Fault <==> forall e | e in secs :: !SameSection(e.addr, va)
  {
    match SectionOf(secs, va)
    case None => Fault
    case Some(e) => Asked(e.addr, va, AttrOf(e))
  }

  lemma {:induction false} PinnedKeepsPromise(secs: seq<Section>, rest: seq<Lock>, va: bv32, asid: bv32)
    requires forall e | e in secs :: e.Valid()
    requires forall l | l in rest :: LockV(l.pa) != 1
    ensures PinnedXlat(Locks(secs) + rest, va, asid) == Promised(secs, va)
  {
    hide LockOf, LockRead, Asked, SameSection, LockV;
    if secs == [] {
      assert Locks(secs) + rest == rest;
      InvalidEntriesMiss(rest, va, asid);
    } else {
      var e := secs[0];
      var l := LockOf(e.addr, e.addr, AttrOf(e));
      LockHitsItsSection(e.addr, e.addr, va, asid, AttrOf(e));
      LockReads(e.addr, e.addr, va, AttrOf(e));
      assert Locks(secs) + rest == [l] + (Locks(secs[1..]) + rest);
      assert ([l] + (Locks(secs[1..]) + rest))[1..] == Locks(secs[1..]) + rest;
      hide LockHits;
      PinnedKeepsPromise(secs[1..], rest, va, asid);
    }
  }

  lemma {:induction false} InvalidEntriesMiss(rest: seq<Lock>, va: bv32, asid: bv32)
    requires forall l | l in rest :: LockV(l.pa) != 1
    ensures PinnedXlat(rest, va, asid) == Fault
  {
    hide LockRead, LockV, LockSize, SameSection;
    if rest != [] {
      InvalidEntriesMiss(rest[1..], va, asid);
    }
  }

  lemma TableKeepsPromise(secs: seq<Section>, va: bv32)
    requires Disjoint(secs) && forall e | e in secs :: e.Valid()
    ensures WordRead(MapSections(EMPTY, Calls(secs))[Index(va)], va) == Promised(secs, va)
  {
    hide SectionWord, Asked, Index, SectionNumber;
    TableRefinesMap(Calls(secs), va);
    match LastCall(Calls(secs), va) {
      case None =>
        assert WordRead(0, va) == Fault;
        forall e | e in secs
          ensures !SameSection(e.addr, va)
        {
          var i :| 0 <= i < |secs| && secs[i] == e;
          assert Calls(secs)[i] in Calls(secs);
        }
      case Some(c) =>
        var i :| 0 <= i < |secs| && Calls(secs)[i] == c;
        assert secs[i] in secs;
        var e := SectionOf(secs, va).value;
        var j :| 0 <= j < |secs| && secs[j] == e;
        assert i == j;
    }
  }

  /** Of sections that overlap, the page table shows the last in the map: it is filled in the map's order. */
  lemma LastSectionWins(secs: seq<Section>, va: bv32, i: nat)
    requires i < |secs| && forall e | e in secs :: e.Valid()
    requires SameSection(secs[i].addr, va) && forall j | i < j < |secs| :: !SameSection(secs[j].addr, va)
    ensures WordRead(MapSections(EMPTY, Calls(secs))[Index(va)], va) == Asked(secs[i].addr, va, AttrOf(secs[i]))
  {
    hide SectionWord, Asked, Index, SectionNumber, AttrOf, WordRead, SameSection;
    TableRefinesMap(Calls(secs), va);
    assert forall j | 0 <= j < |secs| :: Calls(secs)[j].va == secs[j].addr;
    LastCallIsLast(Calls(secs), va, i);
  }

  /**
   * The two implementations agree: for every map of at most eight disjoint sections
   * of the handled kinds, every address and every process, the pinned entries and the
   * page table give the same translation with the same attributes, or both none.
   */
  lemma ImplementationsAgree(secs: seq<Section>, before: seq<Lock>, va: bv32, asid: bv32)
    requires |secs| <= 8 && Disjoint(secs) && forall e | e in secs :: e.Valid()
    requires |before| == 8 && forall l | l in before[|secs|..] :: LockV(l.pa) != 1
    ensures PinnedXlat(Locks(secs) + before[|secs|..], va, asid)
         == WordRead(MapSections(EMPTY, Calls(secs))[Index(va)], va)
         == Promised(secs, va)
  {
    PinnedKeepsPromise(secs, before[|secs|..], va, asid);
    TableKeepsPromise(secs, va);
  }

  /**
   * Both address spaces are the identity: an address of the map translates to itself,
   * in the domain its section names, for privileged access only, to every process; an
   * address outside it does not translate.
   */
  lemma AddressSpaceIsIdentity(secs: seq<Section>, va: bv32)
    requires forall e | e in secs :: e.Valid()
    ensures match SectionOf(secs, va)
      case None => Promised(secs, va) == Fault
      case Some(e) =>
        Promised(secs, va) == Mapped(va, e.dom, 1, if e.kind == MemRw then 1 else 0, 0, 0, 0, true)
  {
    hide Asked, AttrOf, SameSection;
    match SectionOf(secs, va) {
      case None =>
      case Some(e) =>
        AskedOnto(e, va);
    }
  }

  lemma AskedOnto(e: Section, va: bv32)
    requires e.Valid() && SameSection(e.addr, va)
    ensures Asked(e.addr, va, AttrOf(e))
         == Mapped(va, e.dom, 1, if e.kind == MemRw then 1 else 0, 0, 0, 0, true)
  {
    TranslationKeepsOffset(e.addr, va);
    hide InSection, SameSection, Aligned;
  }

  /** procmap_lookup finds an entry exactly for the addresses that translate, the last megabyte apart. */
  lemma LookupFindsMapped(secs: seq<Section>, va: bv32)
    requires forall e | e in secs :: e.Valid()
    ensures (exists e :: e in secs && Contains(e, va)) <==> Promised(secs, va) != Fault && SectionNumber(va) != 0xFFF
  {
    hide Promised, Contains;
    forall e | e in secs
      ensures Contains(e, va) <==> SameSection(e.addr, va) && SectionNumber(va) != 0xFFF
    {
      ContainsIsSection(e, va);
      TopSection(e.addr);
    }
    hide SectionNumber, SameSection;
  }

  lemma TopSection(a: bv32)
    requires Aligned(a)
    ensures SectionNumber(a) == 0xFFF <==> a == 0xFFF0_0000
  {
  }
}
