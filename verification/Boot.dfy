/** The kernel's own address space: the 2 MB section mappings of boot.S, and the device mappings
    that paging_init (mmu.c) adds to the same tree. */
module Boot {
  import opened Words
  import opened Sv39
  import opened Mapping
  import opened Translation
  import PageAlloc

  const SECTION_KERNEL_RWX: nat :=
    PAGE_PRESENT + PAGE_ACCESSED + PAGE_READ + PAGE_EXEC + PAGE_WRITE + PAGE_DIRTY
  const PAGE_KERNEL: nat :=
    PAGE_READ + PAGE_WRITE + PAGE_PRESENT + PAGE_ACCESSED + PAGE_DIRTY + PAGE_GLOBAL

  lemma AddRoot(m: Memory, own: Tables, r: nat)
    requires IsTree(m, own) && r !in own && r < PFN_LIMIT && forall i: nat | i < ENTRIES :: Ent(m, r, i) == 0
    ensures IsTree(m, own[r := Node(2, r, 0)])
  {
    var own' := own[r := Node(2, r, 0)];
    forall p | p in own' && own'[p].level < 2 ensures Linked(m, own', p) {
      assert Linked(m, own, p);
    }
    forall p, k: nat | p in own' && own'[p].level > 0 && k < ENTRIES ensures GoodEntry(m, own', p, k) {
      if p != r {
        assert GoodEntry(m, own, p, k);
      }
    }
  }

  /** A section entry sends each of its 512 pages to the frame at the same offset. */
  lemma SectionResult(pfn: nat, prot: nat, n: nat)
    requires pfn < PFN_LIMIT && pfn % 512 == 0 && prot < 1024 && LeafProt(prot)
    ensures Leaf(PfnEntry(pfn, prot)) && !Table(PfnEntry(pfn, prot))
    ensures Stop(PfnEntry(pfn, prot), 1, n) == Page(pfn + n % 512, prot)
  {
    EntryFields(pfn, prot);
  }

  /** Pages lo up to hi of an otherwise empty tree go to consecutive frames from pfn. */
  ghost predicate OnlyMaps(m: Memory, r: nat, lo: nat, hi: nat, pfn: nat, prot: nat) {
    forall n | 0 <= n < ROOT_PAGES ::
      View(m, r, n) == if lo <= n < hi then Page(pfn + (n - lo), prot) else Fault
  }

  /** The loop of create_page_table: clears the two directory pages r and r + 1. */
  method ClearDirectory(k: Machine, r: nat)
    requires k.Valid() && r !in k.own && r + 1 !in k.own
    modifies k`mem
    ensures k.Valid()
    ensures forall p, i: nat | r <= p <= r + 1 && i < ENTRIES :: Ent(k.mem, p, i) == 0
    ensures forall p: nat, i: nat | p < r || r + 1 < p :: Ent(k.mem, p, i) == Ent(old(k.mem), p, i)
  {
    var a0, a1 := r * 4096, (r + 2) * 4096;
    ghost var j := 0;
    while a0 < a1
      invariant a0 == r * 4096 + 8 * j && j <= 1024
      invariant forall p, i: nat | r <= p <= r + 1 && i < ENTRIES && (p - r) * 512 + i < j :: Ent(k.mem, p, i) == 0
      invariant forall p: nat, i: nat | p < r || r + 1 < p :: Ent(k.mem, p, i) == Ent(old(k.mem), p, i)
    {
      SlotInPage(r + j / 512, j % 512);
      k.Store(a0, 0);
      a0 := a0 + 8;
      j := j + 1;
    }
    Frame(old(k.mem), k.mem, k.own);
  }

  /** create_page_table: the directory maps [virt0, end) to itself in 2 MB sections and nothing else. */
  method CreatePageTable(k: Machine, r: nat, virt0: u64, end: u64, ghost lo: nat, ghost cnt: nat)
    requires k.Valid() && r !in k.own && r + 1 !in k.own
    requires !k.IsFree(r) && !k.IsFree(r + 1) && r + 1 < k.alloc.start / 4096
    requires virt0 % 0x20_0000 == 0 && virt0 == lo * 4096 && lo % 512 == 0
    requires 0 < cnt && PmdIndex(virt0) + cnt <= ENTRIES && end == virt0 + cnt * 0x20_0000 <= ROOT_SIZE
    modifies k`mem, k`own
    ensures k.Valid() && IsRoot(k.own, r) && Grown(old(k.own)[r := Node(2, r, 0)], k.own)
    ensures OnlyMaps(k.mem, r, lo, lo + cnt * 512, lo, SECTION_KERNEL_RWX)
    ensures forall i: nat | i < ENTRIES && i != virt0 / 0x4000_0000 :: Ent(k.mem, r, i) == 0
  {
    ClearDirectory(k, r);
    AddRoot(k.mem, k.own, r);
    k.own := k.own[r := Node(2, r, 0)];
    CreateSectionMapping(k, r * 4096, virt0, virt0, end, SECTION_KERNEL_RWX, r, lo, cnt);
  }

  /** __create_section_mapping: one root entry, then one level-1 leaf for each 2 MB. */
  method CreateSectionMapping(k: Machine, base: nat, phys0: u64, virt0: u64, end: u64, prot: nat,
                              ghost r: nat, ghost lo: nat, ghost cnt: nat)
    requires k.Valid() && IsRoot(k.own, r) && base == r * 4096
    requires r + 1 !in k.own && !k.IsFree(r + 1) && r + 1 < k.alloc.start / 4096
    requires forall p, i: nat | r <= p <= r + 1 && i < ENTRIES :: Ent(k.mem, p, i) == 0
    requires phys0 % 0x20_0000 == 0 && virt0 % 0x20_0000 == 0 && virt0 == lo * 4096 && lo % 512 == 0
    requires 0 < cnt && PmdIndex(virt0) + cnt <= ENTRIES && end == virt0 + cnt * 0x20_0000 <= ROOT_SIZE
    requires phys0 + cnt * 0x20_0000 <= 0x100_0000_0000_0000 && prot < 1024 && LeafProt(prot)
    modifies k`mem, k`own
    ensures k.Valid() && IsRoot(k.own, r) && Grown(old(k.own), k.own)
    ensures OnlyMaps(k.mem, r, lo, lo + cnt * 512, phys0 / 4096, prot)
    ensures forall i: nat | i < ENTRIES && i != virt0 / 0x4000_0000 :: Ent(k.mem, r, i) == 0
  {
    hide OnlyMaps, View, IsTree, LeafProt, PmdIndex;
    SetRootEntry(k, base, virt0 / 0x4000_0000, r, r + 1);
    NothingMapped(k.mem, r, lo, phys0 / 4096, prot);
    FillSections(k, base + 4096, phys0, virt0, end, prot, r, r + 1, lo, cnt);
  }

  /** The one root entry: it refers to the page behind the root. */
  method SetRootEntry(k: Machine, base: nat, i: nat, ghost r: nat, ghost c: nat)
    requires k.Valid() && IsRoot(k.own, r) && base == r * 4096 && i < ENTRIES && c == r + 1
    requires c !in k.own && !k.IsFree(c) && c < k.alloc.start / 4096
    requires forall p, j: nat | r <= p <= c && j < ENTRIES :: Ent(k.mem, p, j) == 0
    modifies k`mem, k`own
    ensures k.Valid() && k.own == old(k.own)[c := Node(1, r, i)]
    ensures forall j: nat | j < ENTRIES :: Ent(k.mem, c, j) == 0
    ensures forall j: nat | j < ENTRIES && j != i :: Ent(k.mem, r, j) == 0
    ensures forall n | 0 <= n < ROOT_PAGES :: View(k.mem, r, n) == Fault
  {
    hide View, IsTree;
    ghost var m0 := k.mem;
    SlotInPage(r, i);
    EntryFields(c, PAGE_PRESENT);
    k.Store(base + 8 * i, PfnEntry(PfnDown(base + 4096), PAGE_PRESENT));
    AttachKeepsTree(m0, k.mem, k.own, r, i, c);
    AttachMid(m0, k.mem, k.own, r, i, c);
    EmptyRootFaults(m0, r);
    k.own := k.own[c := Node(1, r, i)];
  }

  lemma EmptyRootFaults(m: Memory, r: nat)
    requires forall j: nat | j < ENTRIES :: Ent(m, r, j) == 0
    ensures forall n | 0 <= n < ROOT_PAGES :: View(m, r, n) == Fault
  {
  }

  lemma NothingMapped(m: Memory, r: nat, lo: nat, pfn: nat, prot: nat)
    requires forall n | 0 <= n < ROOT_PAGES :: View(m, r, n) == Fault
    ensures OnlyMaps(m, r, lo, lo, pfn, prot)
  {
  }

  lemma SectionIndex(virt0: u64, t: nat, cnt: nat)
    requires virt0 % 0x20_0000 == 0 && PmdIndex(virt0) + cnt <= ENTRIES && t < cnt
    ensures var virt := virt0 + t * 0x20_0000;
            virt < TWO_64 && PmdIndex(virt) == PmdIndex(virt0) + t && virt / 0x4000_0000 == virt0 / 0x4000_0000
  {
    var virt := virt0 + t * 0x20_0000;
    assert virt / 0x20_0000 == virt0 / 0x20_0000 + t;
    assert virt / 0x4000_0000 == virt / 0x20_0000 / 512 && virt0 / 0x4000_0000 == virt0 / 0x20_0000 / 512;
  }

  /** The loop of __create_section_mapping over the entries of the level-1 table in page mid. */
  method FillSections(k: Machine, pmd: nat, phys0: u64, virt0: u64, end: u64, prot: nat,
                      ghost r: nat, ghost mid: nat, ghost lo: nat, ghost cnt: nat)
    requires k.Valid() && IsRoot(k.own, r) && pmd == mid * 4096
    requires mid in k.own && k.own[mid] == Node(1, r, virt0 / 0x4000_0000)
    requires forall j: nat | j < ENTRIES :: Ent(k.mem, mid, j) == 0
    requires OnlyMaps(k.mem, r, lo, lo, phys0 / 4096, prot)
    requires phys0 % 0x20_0000 == 0 && virt0 % 0x20_0000 == 0 && virt0 == lo * 4096 && lo % 512 == 0
    requires 0 < cnt && PmdIndex(virt0) + cnt <= ENTRIES && end == virt0 + cnt * 0x20_0000 <= ROOT_SIZE
    requires phys0 + cnt * 0x20_0000 <= 0x100_0000_0000_0000 && prot < 1024 && LeafProt(prot)
    modifies k`mem
    ensures k.Valid()
    ensures OnlyMaps(k.mem, r, lo, lo + cnt * 512, phys0 / 4096, prot)
    ensures forall p, i: nat | p != mid :: Ent(k.mem, p, i) == Ent(old(k.mem), p, i)
  {
    hide View, OnlyMaps, PmdIndex, LeafProt, IsTree;
    var virt, phys, more := virt0, phys0, true;
    ghost var t := 0;
    while more
      invariant k.Valid() && t <= cnt && more == (t < cnt)
      invariant virt == virt0 + t * 0x20_0000 && phys == phys0 + t * 0x20_0000
      invariant OnlyMaps(k.mem, r, lo, lo + t * 512, phys0 / 4096, prot)
      invariant forall j: nat | PmdIndex(virt0) + t <= j < ENTRIES :: Ent(k.mem, mid, j) == 0
      invariant forall p, i: nat | p != mid :: Ent(k.mem, p, i) == Ent(old(k.mem), p, i)
      decreases cnt - t
    {
      SectionIndex(virt0, t, cnt);
      StoreSection(k, pmd, phys, virt, prot, r, mid, lo, t, phys0);
      virt := virt + 0x20_0000;
      phys := phys + 0x20_0000;
      more := virt < end;
      t := t + 1;
    }
  }

  lemma SectionFrame(phys: u64, phys0: u64, t: nat)
    requires phys == phys0 + t * 0x20_0000 && phys0 % 0x20_0000 == 0
    ensures phys / 4096 == phys0 / 4096 + t * 512 && phys / 4096 % 512 == 0
  {
    var b := phys0 / 0x20_0000;
    assert phys == (b + t) * 512 * 4096 && phys0 == b * 512 * 4096;
  }

  lemma SectionPlace(virt: u64, lo: nat, t: nat)
    requires virt == lo * 4096 + t * 0x20_0000 && lo % 512 == 0 && virt < ROOT_SIZE
    ensures PmdIndex(virt) < ENTRIES
    ensures var q := virt / 0x20_0000; q == virt / 0x4000_0000 * 512 + PmdIndex(virt) && q * 512 == lo + t * 512
  {
    var q := lo / 512 + t;
    assert virt == q * 0x20_0000;
    assert virt / 0x20_0000 == q;
    assert virt / 0x4000_0000 == q / 512;
  }

  /** One turn of that loop. */
  method StoreSection(k: Machine, pmd: nat, phys: u64, virt: u64, prot: nat,
                      ghost r: nat, ghost mid: nat, ghost lo: nat, ghost t: nat, ghost phys0: u64)
    requires k.Valid() && IsRoot(k.own, r) && pmd == mid * 4096
    requires mid in k.own && k.own[mid] == Node(1, r, virt / 0x4000_0000) && virt < ROOT_SIZE
    requires Ent(k.mem, mid, PmdIndex(virt)) == 0
    requires virt == lo * 4096 + t * 0x20_0000 && lo % 512 == 0
    requires phys == phys0 + t * 0x20_0000 < 0x100_0000_0000_0000 && phys0 % 0x20_0000 == 0
    requires prot < 1024 && LeafProt(prot)
    requires OnlyMaps(k.mem, r, lo, lo + t * 512, phys0 / 4096, prot)
    modifies k`mem
    ensures k.Valid()
    ensures OnlyMaps(k.mem, r, lo, lo + (t + 1) * 512, phys0 / 4096, prot)
    ensures forall p, i: nat | !(p == mid && i == PmdIndex(virt)) :: Ent(k.mem, p, i) == Ent(old(k.mem), p, i)
  {
    hide View, Stop, IsTree, PmdIndex, LeafProt;
    var idx := PmdIndex(virt);
    ghost var m, q := k.mem, virt / 0x20_0000;
    SectionPlace(virt, lo, t);
    SectionFrame(phys, phys0, t);
    SlotInPage(mid, idx);
    k.Store(pmd + 8 * idx, PfnEntry(PfnDown(phys), prot));
    SectionResult(phys / 4096, prot, 0);
    SetSection(m, k.mem, k.own, mid, idx);
    forall n | 0 <= n < ROOT_PAGES && n / 512 == q
      ensures View(k.mem, r, n) == Page(phys0 / 4096 + (n - lo), prot)
    {
      SectionResult(phys / 4096, prot, n);
    }
  }

  // ----- paging_init

  const PLIC_BASE: nat := 0xc00_0000
  const PLIC_END: nat := 0x1000_0000
  const VIRT_CLINT_ADDR: nat := 0x200_0000
  const VIRT_CLINT_SIZE: nat := 0x1_0000
  const UART: nat := 0x1000_0000
  const UART_SIZE: nat := 4096

  lemma {:induction false} AllEmpty(m: Memory, r: nat, a: nat, b: nat)
    requires a <= b && forall q | a <= q < b :: Pmd(m, r, q) == 0
    ensures EmptySlots(m, r, a, b) == b - a
    decreases b - a
  {
    if a < b {
      AllEmpty(m, r, a + 1, b);
    }
  }

  /** What a range below 1 GB costs when none of its 2 MB slots is in use. */
  lemma LowRangeCost(m: Memory, r: nat, lo: nat, hi: nat)
    requires lo < hi <= 0x4_0000
    requires forall q | lo / 512 <= q < SlotEnd(lo, hi) :: Pmd(m, r, q) == 0
    ensures NoLeaf(m, r, lo, hi)
    ensures Cost(m, r, lo, hi) == (if Ent(m, r, 0) == 0 then 1 else 0) + SlotEnd(lo, hi) - lo / 512
  {
    AllEmpty(m, r, lo / 512, SlotEnd(lo, hi));
    assert EmptyRoot(m, r, 1, 1) == 0;
  }

  /** The pages of the three devices. */
  predicate Device(n: nat) {
    || PLIC_BASE / 4096 <= n < PLIC_END / 4096
    || VIRT_CLINT_ADDR / 4096 <= n < (VIRT_CLINT_ADDR + VIRT_CLINT_SIZE) / 4096
    || UART / 4096 <= n < (UART + UART_SIZE) / 4096
  }

  /** Pages lo up to hi of the first GB now map to themselves; the rest of the tree is as before. */
  ghost predicate Identity(a: Tree, b: Tree, r: nat, lo: nat, hi: nat) {
    var all :=
      && Grown(a.own, b.own) && OthersSame(a.m, b.m, a.own, r) && Ent(b.m, r, 0) != 0
      && (forall n | 0 <= n < ROOT_PAGES ::
            View(b.m, r, n) == if lo <= n < hi then Page(n, PAGE_KERNEL) else View(a.m, r, n))
      && (forall q | 0 <= q < ROOT_SLOTS && !(lo / 512 <= q < SlotEnd(lo, hi)) :: Pmd(b.m, r, q) == Pmd(a.m, r, q));
    all
  }

  lemma BuiltIdentity(a: Tree, b: Tree, r: nat, start: u64, hi: nat)
    requires start % 4096 == 0 && start <= 0x1000_0000 && start / 4096 < hi <= 0x4_0000
    requires Built(a, b, r, start / 4096, hi, start, PAGE_KERNEL)
    ensures Identity(a, b, r, start / 4096, hi)
  {
    hide View, LowResult, Pmd;
    forall n | start / 4096 <= n < hi ensures View(b.m, r, n) == Page(n, PAGE_KERNEL) {
      IdentityPage(start, n);
    }
  }

  lemma WholePages(start: u64, size: u64)
    requires start % 4096 == 0 && size % 4096 == 0 && start + size <= 0x4000_0000
    ensures PageAlloc.AlignDown(start) == start && PageAlloc.AlignUp(start + size) == start + size
    ensures Wrap(start + size) == start + size && PageNumber(start) == start / 4096
    ensures start / 4096 + size / 4096 == (start + size) / 4096
  {
  }

  /** One of the three calls: an identity mapping below 1 GB of slots not yet in use. */
  method MapDevice(k: Machine, start: u64, size: u64, r: nat)
    requires k.Valid() && IsRoot(k.own, r)
    requires start % 4096 == 0 && size % 4096 == 0 && 0 < size && start <= 0x1000_0000 && start + size <= 0x4000_0000
    requires forall q | start / 4096 / 512 <= q < SlotEnd(start / 4096, (start + size) / 4096) :: Pmd(k.mem, r, q) == 0
    requires k.FreePages() >= (if Ent(k.mem, r, 0) == 0 then 1 else 0)
                              + (SlotEnd(start / 4096, (start + size) / 4096) - start / 4096 / 512)
    modifies k`mem, k`own, k.alloc.memMap
    ensures k.Valid() && IsRoot(k.own, r)
    ensures Identity(old(Tree(k.mem, k.own)), Tree(k.mem, k.own), r, start / 4096, (start + size) / 4096)
    ensures k.FreePages() == old(k.FreePages()) - (if old(Ent(k.mem, r, 0)) == 0 then 1 else 0)
                             - (SlotEnd(start / 4096, (start + size) / 4096) - start / 4096 / 512)
  {
    hide Built, Cost, NoLeaf, Pmd, IsTree, Identity, SlotEnd, Wrap, PageNumber, PageAlloc.AlignDown, PageAlloc.AlignUp;
    WholePages(start, size);
    LowRangeCost(k.mem, r, start / 4096, (start + size) / 4096);
    k.CreatePgdMapping(r * 4096, start, start, size, PAGE_KERNEL, r, start / 4096, size / 4096);
    BuiltIdentity(old(Tree(k.mem, k.own)), Tree(k.mem, k.own), r, start, (start + size) / 4096);
  }

  lemma ThreeDevices(a: Tree, b: Tree, c: Tree, d: Tree, r: nat)
    requires Identity(a, b, r, PLIC_BASE / 4096, PLIC_END / 4096)
    requires Identity(b, c, r, VIRT_CLINT_ADDR / 4096, (VIRT_CLINT_ADDR + VIRT_CLINT_SIZE) / 4096)
    requires Identity(c, d, r, UART / 4096, (UART + UART_SIZE) / 4096)
    ensures Grown(a.own, d.own) && OthersSame(a.m, d.m, a.own, r)
    ensures forall n | 0 <= n < ROOT_PAGES ::
              View(d.m, r, n) == if Device(n) then Page(n, PAGE_KERNEL) else View(a.m, r, n)
  {
    hide View, Pmd;
    SameThen(a.m, b.m, c.m, a.own, b.own, r);
    SameThen(a.m, c.m, d.m, a.own, c.own, r);
  }

  lemma NothingBelow(m: Memory, r: nat, a: nat, b: nat)
    requires Ent(m, r, 0) == 0 && b <= 512
    ensures forall q | a <= q < b :: Pmd(m, r, q) == 0
  {
  }

  lemma StillEmpty(a: Tree, b: Tree, r: nat, lo: nat, hi: nat, q: nat)
    requires Identity(a, b, r, lo, hi) && q < 512 && !(lo / 512 <= q < SlotEnd(lo, hi)) && Pmd(a.m, r, q) == 0
    ensures Pmd(b.m, r, q) == 0 && Ent(b.m, r, 0) != 0
  {
  }

  /** create_mmio_mapping: on a tree with nothing below 1 GB, the three device ranges become
      identity mappings, every other page translates as before, and exactly 35 table pages are used. */
  method CreateMmioMapping(k: Machine, r: nat)
    requires k.Valid() && IsRoot(k.own, r) && Ent(k.mem, r, 0) == 0 && k.FreePages() >= 35
    modifies k`mem, k`own, k.alloc.memMap
    ensures k.Valid() && IsRoot(k.own, r) && OthersSame(old(k.mem), k.mem, old(k.own), r)
    ensures forall n | 0 <= n < ROOT_PAGES ::
              View(k.mem, r, n) == if Device(n) then Page(n, PAGE_KERNEL) else View(old(k.mem), r, n)
    ensures k.FreePages() == old(k.FreePages()) - 35
  {
    hide View, IsTree, Identity, Pmd, Device;
    ghost var a := Tree(k.mem, k.own);
    NothingBelow(a.m, r, 0, 512);
    MapDevice(k, PLIC_BASE, PLIC_END - PLIC_BASE, r);
    ghost var b := Tree(k.mem, k.own);
    StillEmpty(a, b, r, PLIC_BASE / 4096, PLIC_END / 4096, 16);
    StillEmpty(a, b, r, PLIC_BASE / 4096, PLIC_END / 4096, 128);
    MapDevice(k, VIRT_CLINT_ADDR, VIRT_CLINT_SIZE, r);
    ghost var c := Tree(k.mem, k.own);
    StillEmpty(b, c, r, VIRT_CLINT_ADDR / 4096, (VIRT_CLINT_ADDR + VIRT_CLINT_SIZE) / 4096, 128);
    MapDevice(k, UART, UART_SIZE, r);
    ThreeDevices(a, b, c, Tree(k.mem, k.own), r);
  }

  lemma IdentityPage(start: u64, n: nat)
    requires start % 4096 == 0 && start <= 0x1000_0000
    ensures start / 4096 <= n < 0x4_0000 ==>
              LowResult(PteAt(start, n - start / 4096, PAGE_KERNEL)) == Page(n, PAGE_KERNEL)
  {
    if start / 4096 <= n < 0x4_0000 {
      PteResult(start, n - start / 4096, PAGE_KERNEL);
    }
  }

  /** What the two sets of flags mean to the hardware: RAM is readable, writable and executable, a device
      readable and writable only; neither is a user page. */
  lemma KernelFlags()
    ensures SECTION_KERNEL_RWX == 0xcf && PAGE_KERNEL == 0xe7
    ensures V(0xcf) && R(0xcf) && W(0xcf) && X(0xcf) && !U(0xcf)
    ensures V(0xe7) && R(0xe7) && W(0xe7) && !X(0xe7) && !U(0xe7)
  {
  }

  /** The device pages: PLIC, CLINT and UART. */
  lemma DevicePages(n: nat)
    ensures Device(n) <==> 0xc000 <= n < 0x1_0000 || 0x2000 <= n < 0x2010 || n == 0x1_0000
  {
  }

  /** The kernel's address space after boot and paging_init, seen by the hardware: RAM from the
      kernel text to the end of memory and the three devices map to themselves, nothing else is mapped. */
  method KernelAddressSpace(k: Machine, r: nat)
    requires k.Valid() && r !in k.own && r + 1 !in k.own
    requires !k.IsFree(r) && !k.IsFree(r + 1) && r + 1 < k.alloc.start / 4096
    requires k.FreePages() >= 35
    modifies k`mem, k`own, k.alloc.memMap
    ensures k.Valid() && IsRoot(k.own, r)
    ensures forall n | 0 <= n < ROOT_PAGES ::
              Walk(k.mem, r, n) ==
              if 0x8_0200 <= n < 0x8_1000 then Page(n, 0xcf)
              else if 0xc000 <= n < 0x1_0000 || 0x2000 <= n < 0x2010 || n == 0x1_0000 then Page(n, 0xe7)
              else Fault
  {
    hide View, IsTree, Walk, Device;
    CreatePageTable(k, r, 0x8020_0000, 0x8100_0000, 0x8020_0000 / 4096, 7);
    CreateMmioMapping(k, r);
    KernelFlags();
    forall n | 0 <= n < ROOT_PAGES
      ensures Walk(k.mem, r, n) == View(k.mem, r, n)
      ensures Device(n) <==> 0xc000 <= n < 0x1_0000 || 0x2000 <= n < 0x2010 || n == 0x1_0000
    {
      WalkIsView(k.mem, k.own, r, n);
      DevicePages(n);
    }
    assert forall n | 0x8020_0000 / 4096 <= n < 0x8100_0000 / 4096 :: !Device(n) by {
      forall n | 0x8020_0000 / 4096 <= n < 0x8100_0000 / 4096 ensures !Device(n) {
        NotDevice(n);
      }
    }
  }

  lemma NotDevice(n: nat)
    requires n >= 0x8020_0000 / 4096
    ensures !Device(n)
  {
  }
}
