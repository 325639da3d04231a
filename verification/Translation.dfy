/** What the builder means to the hardware: the effect of a mapping call on every address
    translation, and the shape every run of calls keeps the tables in. */
module Translation {
  import opened Words
  import opened Sv39
  import opened Mapping
  import PageAlloc

  /** Flags that make a level-0 entry a usable leaf. */
  predicate LeafProt(prot: nat) { V(prot) && (R(prot) || X(prot)) && (R(prot) || !W(prot)) }

  /** The frames from phys on, cnt pages of them, lie in the 56-bit physical address space. */
  predicate Physical(phys: u64, cnt: nat) { phys + cnt * 4096 <= 0x100_0000_0000_0000 }

  /** The range a mapping call covers, in pages and without wrap-around. */
  ghost predicate Range(virt: u64, size: u64, lo: nat, cnt: nat) {
    && virt + size <= TWO_64
    && PageAlloc.AlignDown(virt) + cnt * 4096 == PageAlloc.AlignUp(virt + size)
    && lo == PageNumber(PageAlloc.AlignDown(virt)) && lo + cnt <= ROOT_PAGES
  }

  lemma EntryResult(pfn: nat, prot: nat)
    requires pfn < PFN_LIMIT && prot < 1024
    ensures LowResult(PfnEntry(pfn, prot)) == if LeafProt(prot) then Page(pfn, prot) else Fault
  {
    EntryFields(pfn, prot);
  }

  lemma PteResult(phys: u64, d: nat, prot: nat)
    requires phys % 4096 == 0 && d < ROOT_PAGES && Physical(phys, d + 1) && prot < 1024
    ensures LowResult(PteAt(phys, d, prot)) == if LeafProt(prot) then Page(phys / 4096 + d, prot) else Fault
  {
    assert (phys + d * 4096) / 4096 == phys / 4096 + d;
    EntryResult(phys / 4096 + d, prot);
  }

  /** An address of the range is d pages into it, and its page number is d past the first one. */
  lemma PageInRange(virt: u64, size: u64, lo: nat, cnt: nat, va: u64)
    requires Range(virt, size, lo, cnt) && PageAlloc.AlignDown(virt) <= va < PageAlloc.AlignUp(virt + size)
    ensures var d := (va - PageAlloc.AlignDown(virt)) / 4096;
            d < cnt && PageNumber(va) == lo + d && va % 4096 == (va - PageAlloc.AlignDown(virt)) % 4096
  {
    var base := PageAlloc.AlignDown(virt);
    var d := (va - base) / 4096;
    PageNumberAdd(base, d);
    assert va / 4096 == (base + d * 4096) / 4096;
  }

  /** Inside the range: va goes to the same offset from PAGE_ALIGN_DOWN(phys), with exactly the
      flags prot, provided those flags make a leaf at all. */
  lemma MappedAddress(a: Tree, b: Tree, r: nat, phys: u64, virt: u64, size: u64, prot: nat, lo: nat, cnt: nat, va: u64)
    requires IsTree(b.m, b.own) && IsRoot(b.own, r) && prot < 1024
    requires Range(virt, size, lo, cnt) && Physical(PageAlloc.AlignDown(phys), cnt)
    requires Built(a, b, r, lo, lo + cnt, PageAlloc.AlignDown(phys), prot)
    requires Canonical(va) && PageAlloc.AlignDown(virt) <= va < PageAlloc.AlignUp(virt + size)
    ensures Translate(b.m, r, va) ==
            if LeafProt(prot) then Reach(PageAlloc.AlignDown(phys) + (va - PageAlloc.AlignDown(virt)), prot)
            else PageFault
  {
    hide IsTree, View, Walk, PageNumber, LowResult, PteAt, LeafProt, Range;
    var p, v := PageAlloc.AlignDown(phys), PageAlloc.AlignDown(virt);
    var d := (va - v) / 4096;
    PageInRange(virt, size, lo, cnt, va);
    WalkIsView(b.m, b.own, r, lo + d);
    PteResult(p, d, prot);
    SameOffset(p, va, v);
  }

  lemma SameOffset(p: nat, va: nat, v: nat)
    requires v <= va && va % 4096 == (va - v) % 4096 && p % 4096 == 0
    ensures (p / 4096 + (va - v) / 4096) * 4096 + va % 4096 == p + (va - v)
  {
  }

  /** Outside the range: every other page translates as before, whether it was unmapped, a 4 KB page
      or part of a 2 MB section. */
  lemma OtherAddress(a: Tree, b: Tree, r: nat, lo: nat, hi: nat, phys: u64, prot: nat, va: u64)
    requires IsTree(a.m, a.own) && IsRoot(a.own, r) && IsTree(b.m, b.own) && IsRoot(b.own, r) && prot < 1024
    requires Built(a, b, r, lo, hi, phys, prot) && !(lo <= PageNumber(va) < hi)
    ensures Translate(b.m, r, va) == Translate(a.m, r, va)
  {
    hide IsTree, View, Walk;
    WalkIsView(a.m, a.own, r, PageNumber(va));
    WalkIsView(b.m, b.own, r, PageNumber(va));
  }

  /** The page number of a canonical address, in either half of the address space. */
  lemma CanonicalPage(va: u64)
    requires Canonical(va)
    ensures PageNumber(va) == if va < 0x40_0000_0000 then va / 4096 else va / 4096 - 0xF_FFFF_F800_0000
  {
    if va >= 0x40_0000_0000 {
      var n := va / 4096 - 0xF_FFFF_F800_0000;
      assert va / 4096 == 0x1FF_FFFF * 0x800_0000 + n && 0 <= n < 0x800_0000;
    }
  }

  /** Canonical addresses have distinct page numbers, so for a canonical range "outside" can be read
      off the addresses. */
  lemma CanonicalOutside(virt: u64, size: u64, lo: nat, cnt: nat, va: u64)
    requires Range(virt, size, lo, cnt) && 0 < cnt && Canonical(va)
    requires Canonical(PageAlloc.AlignDown(virt)) && Canonical(PageAlloc.AlignUp(virt + size) - 1)
    requires va < PageAlloc.AlignDown(virt) || PageAlloc.AlignUp(virt + size) <= va
    ensures !(lo <= PageNumber(va) < lo + cnt)
  {
    hide PageNumber;
    CanonicalPage(va);
    CanonicalPage(PageAlloc.AlignDown(virt));
  }

  /** A mapping call leaves every tree under another root alone. */
  lemma OtherRoot(a: Tree, b: Tree, r: nat, r': nat, lo: nat, hi: nat, phys: u64, prot: nat, n: nat)
    requires IsTree(a.m, a.own) && IsRoot(a.own, r') && r' != r && IsTree(b.m, b.own) && prot < 1024
    requires Built(a, b, r, lo, hi, phys, prot) && n < ROOT_PAGES
    ensures IsRoot(b.own, r') && Walk(b.m, r', n) == Walk(a.m, r', n)
  {
    hide IsTree, View, Walk, Maps, FillsSlots, FillsRoot;
    WalkIsView(a.m, a.own, r', n);
    WalkIsView(b.m, b.own, r', n);
  }

  /** Every table page is referred to by exactly one slot of one table page: distinct slots refer to
      distinct tables, and no slot refers to a root. */
  lemma OneParent(m: Memory, own: Tables, p: nat, k: nat, p': nat, k': nat)
    requires IsTree(m, own) && p in own && p' in own && own[p].level > 0 && own[p'].level > 0
    requires k < ENTRIES && k' < ENTRIES && Table(Ent(m, p, k)) && Table(Ent(m, p', k'))
    ensures PfnOf(Ent(m, p, k)) in own && own[PfnOf(Ent(m, p, k))].level < 2
    ensures PfnOf(Ent(m, p, k)) == PfnOf(Ent(m, p', k')) ==> p == p' && k == k'
  {
    assert GoodEntry(m, own, p, k) && GoodEntry(m, own, p', k');
  }

  /** And a table below a root is referred to by some slot. */
  lemma SomeParent(m: Memory, own: Tables, c: nat)
    requires IsTree(m, own) && c in own && own[c].level < 2
    ensures exists p: nat, k: nat :: p in own && own[p].level > 0 && k < ENTRIES && Ent(m, p, k) == TableEntry(c)
  {
    assert Linked(m, own, c);
  }
}
