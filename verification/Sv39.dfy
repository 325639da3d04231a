/** The hardware's view of page tables: physical memory as 8-byte slots, the Sv39 walk
    (RISC-V Privileged Architecture 20211203, sections 4.3.2 and 4.4) and the Sv39x4 walk
    (section 8.5), together with the tree shape the kernel keeps its tables in. */
module Sv39 {
  import opened Words

  const ENTRIES: nat := 512              // PTRS_PER_PGD, PTRS_PER_PMD, PTRS_PER_PTE
  const ROOT_SLOTS: nat := 0x4_0000      // PMD slots below one root page (2^18)
  const ROOT_PAGES: nat := 0x800_0000    // 4 KB pages below one root page (2^27)
  const PFN_LIMIT: nat := 0x1000_0000_0000  // physical page numbers have 44 bits

  /** One aligned 8-byte cell of physical memory: page number and index in the page. */
  datatype Slot = Slot(pfn: nat, idx: nat)
  type Memory = map<Slot, u64>

  function SlotAt(pa: nat): Slot { Slot(pa / 4096, pa % 4096 / 8) }

  /** Entry k of the table in page p. */
  function Ent(m: Memory, p: nat, k: nat): u64 {
    if Slot(p, k) in m then m[Slot(p, k)] else 0
  }

  // ----- entry format (section 4.3.1): | reserved 63:54 | PPN 53:10 | RSW | D A G U X W R V |

  const PAGE_PRESENT: nat := 1
  const PAGE_READ: nat := 2
  const PAGE_WRITE: nat := 4
  const PAGE_EXEC: nat := 8
  const PAGE_USER: nat := 16
  const PAGE_GLOBAL: nat := 32
  const PAGE_ACCESSED: nat := 64
  const PAGE_DIRTY: nat := 128

  function PfnOf(e: u64): nat { e / 1024 }
  function Prot(e: u64): nat { e % 1024 }
  predicate V(prot: nat) { prot % 2 == 1 }
  predicate R(prot: nat) { prot / 2 % 2 == 1 }
  predicate W(prot: nat) { prot / 4 % 2 == 1 }
  predicate X(prot: nat) { prot / 8 % 2 == 1 }
  predicate U(prot: nat) { prot / 16 % 2 == 1 }

  /** Step 3 of the walk: not valid, the reserved W-without-R encoding, or reserved high bits set. */
  predicate Invalid(e: u64) {
    !V(Prot(e)) || (!R(Prot(e)) && W(Prot(e))) || PfnOf(e) >= PFN_LIMIT
  }

  /** What the kernel calls a leaf: present with any of R, W, X. */
  predicate Leaf(e: u64) {
    V(Prot(e)) && (R(Prot(e)) || W(Prot(e)) || X(Prot(e)))
  }

  predicate Table(e: u64) { e % 1024 == PAGE_PRESENT }

  function TableEntry(p: nat): u64
    requires p < PFN_LIMIT
  {
    p * 1024 + PAGE_PRESENT
  }

  // ----- the walk

  /** The outcome of translating one virtual page: the physical page and the low ten entry bits. */
  datatype Result = Fault | Page(pfn: nat, prot: nat)

  /** 4 KB pages below one entry of a table at this level. */
  function Span(level: nat): nat
    requires level <= 2
  {
    if level == 0 then 1 else if level == 1 then 512 else 0x4_0000
  }

  function Vpn(n: nat, level: nat): (k: nat)
    requires level <= 2
    ensures k < ENTRIES
  {
    n / Span(level) % 512
  }

  /** Steps 5 to 8 for a leaf entry: a superpage must be aligned, and the low page number comes
      from the address. */
  function LeafPage(e: u64, level: nat, n: nat): Result
    requires level <= 2
  {
    if PfnOf(e) % Span(level) != 0 then Fault
    else Page(PfnOf(e) + n % Span(level), Prot(e))
  }

  /** Steps 2 to 4, starting at the table in page t. */
  function WalkFrom(m: Memory, t: nat, level: nat, n: nat): Result
    requires level <= 2
    decreases level
  {
    var e := Ent(m, t, Vpn(n, level));
    if Invalid(e) then Fault
    else if R(Prot(e)) || X(Prot(e)) then LeafPage(e, level, n)
    else if level == 0 then Fault
    else WalkFrom(m, PfnOf(e), level - 1, n)
  }

  /** The Sv39 translation of the page with number n in [0, 2^27). */
  function Walk(m: Memory, root: nat, n: nat): Result { WalkFrom(m, root, 2, n) }

  /** Section 4.4.1: bits 63 to 39 of a virtual address must all equal bit 38. */
  predicate Canonical(va: u64) { va < 0x40_0000_0000 || va >= TWO_64 - 0x40_0000_0000 }

  /** The upper 26 bits, 63 to 38, are all zero or all one. */
  lemma CanonicalBits(va: u64)
    ensures Canonical(va) <==> va / 0x40_0000_0000 == 0 || va / 0x40_0000_0000 == 0x3ff_ffff
  {
  }

  function PageNumber(va: u64): (n: nat)
    ensures n < ROOT_PAGES
  {
    va / 4096 % 0x800_0000
  }

  /** What an Sv39 access to virtual address va reaches: a physical address and the entry's bits. */
  datatype Access = PageFault | Reach(pa: nat, prot: nat)

  function Reached(w: Result, va: nat): Access {
    match w case Fault => PageFault case Page(pfn, prot) => Reach(pfn * 4096 + va % 4096, prot)
  }

  function Translate(m: Memory, root: nat, va: u64): Access {
    if Canonical(va) then Reached(Walk(m, root, PageNumber(va)), va) else PageFault
  }

  /** Sv39x4: the root is four consecutive pages, indexed by eleven bits; a guest physical address
      with any of bits 63 to 41 set faults. */
  function TranslateGuest(m: Memory, root: nat, gpa: u64): Access {
    if gpa / 4096 >= 4 * ROOT_PAGES then PageFault
    else Reached(Walk(m, root + gpa / 4096 / 0x800_0000, PageNumber(gpa)), gpa)
  }

  // ----- the tree of table pages

  /** A page used as a table: its level (2 for a root) and the slot that refers to it. */
  datatype Node = Node(level: nat, parent: nat, idx: nat)
  type Tables = map<nat, Node>

  /** A table below the root is referred to by the slot its node names, one level up. */
  ghost predicate Linked(m: Memory, own: Tables, p: nat)
    requires p in own && p < PFN_LIMIT
  {
    var nd := own[p];
    && nd.parent in own && own[nd.parent].level == nd.level + 1
    && nd.idx < ENTRIES && Ent(m, nd.parent, nd.idx) == TableEntry(p)
  }

  /** An entry of a table above level 0: empty, a leaf, or the one reference to a child table. */
  ghost predicate GoodEntry(m: Memory, own: Tables, p: nat, k: nat)
    requires p in own
  {
    var e := Ent(m, p, k);
    || e == 0
    || Leaf(e)
    || (Table(e) && PfnOf(e) in own && own[p].level == own[PfnOf(e)].level + 1
        && own[PfnOf(e)].parent == p && own[PfnOf(e)].idx == k)
  }

  ghost predicate IsTree(m: Memory, own: Tables) {
    && (forall p <- own :: p < PFN_LIMIT && own[p].level <= 2 && (own[p].level == 2 ==> own[p] == Node(2, p, 0)))
    && (forall p {:trigger Linked(m, own, p)} :: p in own && own[p].level < 2 ==> Linked(m, own, p))
    && (forall p, k: nat {:trigger GoodEntry(m, own, p, k)} ::
          p in own && own[p].level > 0 && k < ENTRIES ==> GoodEntry(m, own, p, k))
  }

  ghost predicate IsRoot(own: Tables, r: nat) { r in own && own[r].level == 2 }

  // ----- the directory view the builder works on

  /** The level-1 entry covering 2 MB slot q of the tree under root r; the level-2 entry itself
      when that is empty or a leaf. */
  function Pmd(m: Memory, r: nat, q: nat): u64 {
    var e := Ent(m, r, q / 512);
    if Table(e) then Ent(m, PfnOf(e), q % 512) else e
  }

  /** Both directory levels under root r hold the same entries. */
  ghost predicate SameDirs(m: Memory, m': Memory, r: nat) {
    && (forall i | 0 <= i < ENTRIES :: Ent(m', r, i) == Ent(m, r, i))
    && (forall q | 0 <= q < ROOT_SLOTS :: Pmd(m', r, q) == Pmd(m, r, q))
  }

  ghost predicate SameViews(m: Memory, m': Memory, r: nat) {
    forall n | 0 <= n < ROOT_PAGES :: View(m', r, n) == View(m, r, n)
  }

  /** Nothing under any root other than r has changed. */
  ghost predicate OthersSame(m: Memory, m': Memory, own: Tables, r: nat) {
    forall r' | IsRoot(own, r') && r' != r :: SameDirs(m, m', r') && SameViews(m, m', r')
  }

  // ----- what one store does

  lemma EntryFields(p: nat, prot: nat)
    requires p < PFN_LIMIT && prot < 1024
    ensures var e := p * 1024 + prot; e < TWO_64 && PfnOf(e) == p && Prot(e) == prot
  {
  }

  /** The outcome when the walk stops at entry e. */
  function Stop(e: u64, level: nat, n: nat): Result
    requires level <= 2
  {
    if Invalid(e) || !(R(Prot(e)) || X(Prot(e))) then Fault else LeafPage(e, level, n)
  }

  /** The entries the walk of page n meets at levels 2, 1 and 0 (0 when it does not get there). */
  function Entry2(m: Memory, r: nat, n: nat): u64 { Ent(m, r, n / 0x4_0000) }

  function Entry1(m: Memory, r: nat, n: nat): u64 {
    var e := Entry2(m, r, n);
    if Table(e) then Ent(m, PfnOf(e), n / 512 % 512) else 0
  }

  function Entry0(m: Memory, r: nat, n: nat): u64 {
    var e := Entry1(m, r, n);
    if Table(e) then Ent(m, PfnOf(e), n % 512) else 0
  }

  function Outcome(e2: u64, e1: u64, e0: u64, n: nat): Result {
    if Table(e2) then if Table(e1) then Stop(e0, 0, n) else Stop(e1, 1, n) else Stop(e2, 2, n)
  }

  /** The translation of page n under root r, read off the three entries on its path. */
  function View(m: Memory, r: nat, n: nat): Result {
    Outcome(Entry2(m, r, n), Entry1(m, r, n), Entry0(m, r, n), n)
  }

  /** In a tree the hardware walk finds exactly the view. */
  lemma WalkIsView(m: Memory, own: Tables, r: nat, n: nat)
    requires IsTree(m, own) && IsRoot(own, r) && n < ROOT_PAGES
    ensures Walk(m, r, n) == View(m, r, n)
  {
    var i, j := n / 0x4_0000, n / 512 % 512;
    assert Vpn(n, 2) == i && Vpn(n, 1) == j && Vpn(n, 0) == n % 512;
    assert GoodEntry(m, own, r, i);
    var e2 := Ent(m, r, i);
    if Table(e2) {
      assert Walk(m, r, n) == WalkFrom(m, PfnOf(e2), 1, n);
      assert GoodEntry(m, own, PfnOf(e2), j);
    }
  }

  /** What a path's entries say about the tables it goes through. */
  lemma PathTables(m: Memory, own: Tables, r: nat, n: nat)
    requires IsTree(m, own) && IsRoot(own, r) && n < ROOT_PAGES
    ensures var e2, e1 := Entry2(m, r, n), Entry1(m, r, n);
            && (Table(e2) ==> PfnOf(e2) in own && own[PfnOf(e2)] == Node(1, r, n / 0x4_0000))
            && (Table(e1) ==> Table(e2) && PfnOf(e1) in own && own[PfnOf(e1)] == Node(0, PfnOf(e2), n / 512 % 512))
  {
    assert GoodEntry(m, own, r, n / 0x4_0000);
    var e2 := Entry2(m, r, n);
    if Table(e2) {
      assert GoodEntry(m, own, PfnOf(e2), n / 512 % 512);
    }
  }

  /** Every slot of every table page is as before. */
  ghost predicate TablesSame(m: Memory, m': Memory, own: Tables) {
    forall p, k: nat | p in own && k < ENTRIES :: Ent(m', p, k) == Ent(m, p, k)
  }

  lemma Frame(m: Memory, m': Memory, own: Tables)
    requires IsTree(m, own) && TablesSame(m, m', own)
    ensures IsTree(m', own)
    ensures forall r | IsRoot(own, r) :: SameDirs(m, m', r) && SameViews(m, m', r)
  {
    forall p | p in own && own[p].level < 2 ensures Linked(m', own, p) {
      assert Linked(m, own, p);
    }
    forall p, k: nat | p in own && own[p].level > 0 && k < ENTRIES ensures GoodEntry(m', own, p, k) {
      assert GoodEntry(m, own, p, k);
    }
    forall r | IsRoot(own, r) ensures SameDirs(m, m', r) {
      forall q | 0 <= q < ROOT_SLOTS ensures Pmd(m', r, q) == Pmd(m, r, q) {
        assert GoodEntry(m, own, r, q / 512);
      }
    }
    forall r, n | IsRoot(own, r) && 0 <= n < ROOT_PAGES ensures View(m', r, n) == View(m, r, n) {
      PathTables(m, own, r, n);
    }
  }

  /** Filling the empty slot k of table p with a reference to the zeroed page c. */
  ghost predicate Attached(m: Memory, m': Memory, p: nat, k: nat, c: nat)
    requires c < PFN_LIMIT
  {
    && (forall i: nat | i < ENTRIES :: Ent(m', c, i) == 0)
    && Ent(m', p, k) == TableEntry(c)
    && (forall p', i: nat | p' != c && i < ENTRIES && !(p' == p && i == k) :: Ent(m', p', i) == Ent(m, p', i))
  }

  lemma AttachKeepsTree(m: Memory, m': Memory, own: Tables, p: nat, k: nat, c: nat)
    requires IsTree(m, own) && p in own && own[p].level > 0 && k < ENTRIES && Ent(m, p, k) == 0
    requires c !in own && c < PFN_LIMIT && Attached(m, m', p, k, c)
    ensures IsTree(m', own[c := Node(own[p].level - 1, p, k)])
  {
    hide Linked, GoodEntry, Attached;
    var own' := own[c := Node(own[p].level - 1, p, k)];
    forall x | x in own' && own'[x].level < 2 ensures Linked(m', own', x) {
      AttachLinks(m, m', own, p, k, c, x);
    }
    forall x, i: nat | x in own' && own'[x].level > 0 && i < ENTRIES ensures GoodEntry(m', own', x, i) {
      AttachEntry(m, m', own, p, k, c, x, i);
    }
  }

  lemma AttachLinks(m: Memory, m': Memory, own: Tables, p: nat, k: nat, c: nat, x: nat)
    requires IsTree(m, own) && p in own && own[p].level > 0 && k < ENTRIES && Ent(m, p, k) == 0
    requires c !in own && c < PFN_LIMIT && Attached(m, m', p, k, c)
    requires x == c || (x in own && own[x].level < 2)
    ensures x < PFN_LIMIT && Linked(m', own[c := Node(own[p].level - 1, p, k)], x)
  {
    hide GoodEntry;
    if x != c {
      assert Linked(m, own, x);
    }
  }

  lemma AttachEntry(m: Memory, m': Memory, own: Tables, p: nat, k: nat, c: nat, x: nat, i: nat)
    requires IsTree(m, own) && p in own && own[p].level > 0 && k < ENTRIES && Ent(m, p, k) == 0
    requires c !in own && c < PFN_LIMIT && Attached(m, m', p, k, c)
    requires (x == c || (x in own && own[x].level > 0)) && i < ENTRIES
    ensures GoodEntry(m', own[c := Node(own[p].level - 1, p, k)], x, i)
  {
    hide Linked;
    if x != c {
      assert GoodEntry(m, own, x, i);
    }
  }

  /** The three entries of a path before and after an empty table is attached. */
  lemma AttachEntries(m: Memory, m': Memory, p: nat, k: nat, c: nat, r: nat, n: nat)
    requires k < ENTRIES && c < PFN_LIMIT && Ent(m, p, k) == 0 && Attached(m, m', p, k, c)
    requires n < ROOT_PAGES && r != c
    requires Table(Entry2(m, r, n)) ==> PfnOf(Entry2(m, r, n)) != c
    requires Table(Entry1(m, r, n)) ==> PfnOf(Entry1(m, r, n)) != c && PfnOf(Entry1(m, r, n)) != p
    ensures if r == p && n / 0x4_0000 == k then
              Entry2(m, r, n) == 0 && Entry2(m', r, n) == TableEntry(c) && Entry1(m', r, n) == 0
            else
              && Entry2(m', r, n) == Entry2(m, r, n)
              && if Entry1(m', r, n) == Entry1(m, r, n) then Entry0(m', r, n) == Entry0(m, r, n)
                 else Entry1(m, r, n) == 0 && Entry1(m', r, n) == TableEntry(c) && Entry0(m', r, n) == 0
  {
  }

  /** The entries of a level-1 table are the directory view's entries for its 512 slots. */
  lemma PmdOfTable(m: Memory, own: Tables, p: nat, j: nat)
    requires IsTree(m, own) && p in own && own[p].level == 1 && j < ENTRIES
    ensures IsRoot(own, own[p].parent) && own[p].idx < ENTRIES
    ensures Ent(m, own[p].parent, own[p].idx) == TableEntry(p)
    ensures Pmd(m, own[p].parent, own[p].idx * 512 + j) == Ent(m, p, j)
  {
    assert Linked(m, own, p);
  }

  /** Where the level-0 table of a level-1 entry sits. */
  lemma LowOfEntry(m: Memory, own: Tables, p: nat, j: nat)
    requires IsTree(m, own) && p in own && own[p].level == 1 && j < ENTRIES && Table(Ent(m, p, j))
    ensures var low := PfnOf(Ent(m, p, j));
            && low in own && low < PFN_LIMIT && own[low] == Node(0, p, j) && Ent(m, p, j) == TableEntry(low)
            && LowRoot(own, low) == own[p].parent
            && (forall k: nat :: LowPage(own, low, k) == (own[p].idx * 512 + j) * 512 + k)
  {
    assert GoodEntry(m, own, p, j);
  }

  /** A walk that stops at an empty entry faults. */
  lemma EmptyOutcome(e2: u64, e1: u64, e0: u64, n: nat)
    requires e2 == 0 || (Table(e2) && e1 == 0) || (Table(e2) && Table(e1) && e0 == 0)
    ensures Outcome(e2, e1, e0, n) == Fault
  {
  }

  lemma AttachPath(m: Memory, m': Memory, p: nat, k: nat, c: nat, r: nat, n: nat)
    requires k < ENTRIES && c < PFN_LIMIT && Ent(m, p, k) == 0 && Attached(m, m', p, k, c)
    requires n < ROOT_PAGES && r != c
    requires Table(Entry2(m, r, n)) ==> PfnOf(Entry2(m, r, n)) != c
    requires Table(Entry1(m, r, n)) ==> PfnOf(Entry1(m, r, n)) != c && PfnOf(Entry1(m, r, n)) != p
    ensures View(m', r, n) == View(m, r, n)
  {
    AttachEntries(m, m', p, k, c, r, n);
    var e2, e1, e0 := Entry2(m', r, n), Entry1(m', r, n), Entry0(m', r, n);
    if e2 != Entry2(m, r, n) || e1 != Entry1(m, r, n) {
      EmptyOutcome(e2, e1, e0, n);
      EmptyOutcome(Entry2(m, r, n), Entry1(m, r, n), Entry0(m, r, n), n);
    }
  }

  /** A table that has just been attached is empty, so no translation changes. */
  lemma AttachView(m: Memory, m': Memory, own: Tables, p: nat, k: nat, c: nat, r: nat, n: nat)
    requires IsTree(m, own) && p in own && own[p].level > 0 && k < ENTRIES && Ent(m, p, k) == 0
    requires c !in own && c < PFN_LIMIT && Attached(m, m', p, k, c)
    requires IsRoot(own, r) && n < ROOT_PAGES
    ensures View(m', r, n) == View(m, r, n)
  {
    PathTables(m, own, r, n);
    AttachPath(m, m', p, k, c, r, n);
  }

  lemma AttachPmd(m: Memory, m': Memory, own: Tables, p: nat, k: nat, c: nat, r: nat, q: nat)
    requires IsTree(m, own) && p in own && own[p].level > 0 && k < ENTRIES && Ent(m, p, k) == 0
    requires c !in own && c < PFN_LIMIT && Attached(m, m', p, k, c)
    requires IsRoot(own, r) && q < ROOT_SLOTS
    ensures Pmd(m', r, q) ==
            if own[p].level == 1 && own[p].parent == r && own[p].idx == q / 512 && k == q % 512
            then TableEntry(c) else Pmd(m, r, q)
  {
    assert GoodEntry(m, own, r, q / 512);
    if own[p].level == 1 {
      assert Linked(m, own, p);
    }
  }

  /** A new empty level-1 table changes one root entry and no translation. */
  lemma AttachMid(m: Memory, m': Memory, own: Tables, r: nat, i: nat, c: nat)
    requires IsTree(m, own) && IsRoot(own, r) && i < ENTRIES && Ent(m, r, i) == 0
    requires c !in own && c < PFN_LIMIT && Attached(m, m', r, i, c)
    ensures forall q | 0 <= q < ROOT_SLOTS :: Pmd(m', r, q) == Pmd(m, r, q)
    ensures forall r' | IsRoot(own, r') :: SameViews(m, m', r')
    ensures OthersSame(m, m', own, r)
  {
    forall r', q | IsRoot(own, r') && 0 <= q < ROOT_SLOTS ensures Pmd(m', r', q) == Pmd(m, r', q) {
      AttachPmd(m, m', own, r, i, c, r', q);
    }
    forall r', n | IsRoot(own, r') && 0 <= n < ROOT_PAGES ensures View(m', r', n) == View(m, r', n) {
      AttachView(m, m', own, r, i, c, r', n);
    }
  }

  /** A new empty level-0 table changes one level-1 entry and no translation. */
  lemma AttachLow(m: Memory, m': Memory, own: Tables, p: nat, j: nat, c: nat)
    requires IsTree(m, own) && p in own && own[p].level == 1 && j < ENTRIES && Ent(m, p, j) == 0
    requires c !in own && c < PFN_LIMIT && Attached(m, m', p, j, c)
    ensures var r := own[p].parent;
            && IsRoot(own, r) && own[p].idx < ENTRIES
            && (forall i | 0 <= i < ENTRIES :: Ent(m', r, i) == Ent(m, r, i))
            && (forall q | 0 <= q < ROOT_SLOTS ::
                  Pmd(m', r, q) == if q == own[p].idx * 512 + j then TableEntry(c) else Pmd(m, r, q))
            && OthersSame(m, m', own, r)
    ensures forall r' | IsRoot(own, r') :: SameViews(m, m', r')
  {
    assert Linked(m, own, p);
    forall r', q | IsRoot(own, r') && 0 <= q < ROOT_SLOTS
      ensures Pmd(m', r', q) ==
              if r' == own[p].parent && q == own[p].idx * 512 + j then TableEntry(c) else Pmd(m, r', q)
    {
      AttachPmd(m, m', own, p, j, c, r', q);
    }
    forall r', n | IsRoot(own, r') && 0 <= n < ROOT_PAGES ensures View(m', r', n) == View(m, r', n) {
      AttachView(m, m', own, p, j, c, r', n);
    }
  }

  /** What the walk makes of the level-0 entry e. */
  function LowResult(e: u64): Result { Stop(e, 0, 0) }

  /** The page whose translation is entry k of the level-0 table in page p. */
  ghost function LowPage(own: Tables, p: nat, k: nat): nat
    requires p in own && own[p].parent in own
  {
    own[own[p].parent].idx * 0x4_0000 + own[p].idx * 512 + k
  }

  ghost function LowRoot(own: Tables, p: nat): nat
    requires p in own && own[p].parent in own
  {
    own[own[p].parent].parent
  }

  /** m' differs from m at most in entry k of page p. */
  ghost predicate OnlyEntry(m: Memory, m': Memory, p: nat, k: nat) {
    forall p', i: nat | i < ENTRIES && !(p' == p && i == k) :: Ent(m', p', i) == Ent(m, p', i)
  }

  lemma SetLowTree(m: Memory, m': Memory, own: Tables, p: nat, k: nat)
    requires IsTree(m, own) && p in own && own[p].level == 0 && k < ENTRIES && OnlyEntry(m, m', p, k)
    ensures IsTree(m', own)
    ensures own[p].parent in own && own[own[p].parent].level == 1 && IsRoot(own, LowRoot(own, p))
    ensures own[p].idx < ENTRIES && own[own[p].parent].idx < ENTRIES
  {
    assert Linked(m, own, p);
    assert Linked(m, own, own[p].parent);
    forall p', i: nat | p' in own && own[p'].level > 0 && i < ENTRIES ensures GoodEntry(m', own, p', i) {
      assert GoodEntry(m, own, p', i);
    }
    forall p' | p' in own && own[p'].level < 2 ensures Linked(m', own, p') {
      assert Linked(m, own, p');
    }
  }

  /** The three entries of a path before and after a store to a level-0 table. */
  lemma SetLowEntries(m: Memory, m': Memory, p: nat, k: nat, r: nat, n: nat)
    requires k < ENTRIES && OnlyEntry(m, m', p, k) && n < ROOT_PAGES && r != p
    requires Table(Entry2(m, r, n)) ==> PfnOf(Entry2(m, r, n)) != p
    ensures Entry2(m', r, n) == Entry2(m, r, n) && Entry1(m', r, n) == Entry1(m, r, n)
    ensures Entry0(m', r, n) ==
            if Table(Entry1(m, r, n)) && PfnOf(Entry1(m, r, n)) == p && n % 512 == k then Ent(m', p, k)
            else Entry0(m, r, n)
  {
  }

  lemma SetLowPath(m: Memory, m': Memory, p: nat, k: nat, r: nat, n: nat)
    requires k < ENTRIES && OnlyEntry(m, m', p, k) && n < ROOT_PAGES && r != p
    requires Table(Entry2(m, r, n)) ==> PfnOf(Entry2(m, r, n)) != p
    requires Table(Entry1(m, r, n)) ==> Table(Entry2(m, r, n))
    ensures View(m', r, n) ==
            if Table(Entry1(m, r, n)) && PfnOf(Entry1(m, r, n)) == p && n % 512 == k then LowResult(Ent(m', p, k))
            else View(m, r, n)
  {
    SetLowEntries(m, m', p, k, r, n);
  }

  /** The pages that reach a level-0 table are those of the one 2 MB slot its node names. */
  lemma ReachesLow(m: Memory, own: Tables, p: nat, r: nat, n: nat)
    requires IsTree(m, own) && p in own && own[p].level == 0 && own[p].parent in own
    requires IsRoot(own, r) && n < ROOT_PAGES
    ensures (Table(Entry1(m, r, n)) && PfnOf(Entry1(m, r, n)) == p)
            <==> (r == LowRoot(own, p) && n / 512 == LowPage(own, p, 0) / 512)
  {
    PathTables(m, own, r, n);
    assert Linked(m, own, p);
    var mid := own[p].parent;
    assert Linked(m, own, mid);
    assert n / 512 == n / 0x4_0000 * 512 + n / 512 % 512;
    assert LowPage(own, p, 0) / 512 == own[mid].idx * 512 + own[p].idx;
    if r == LowRoot(own, p) && own[mid].idx == n / 0x4_0000 && own[p].idx == n / 512 % 512 {
      assert Entry2(m, r, n) == TableEntry(mid);
      assert Entry1(m, r, n) == TableEntry(p);
    }
  }

  lemma SetLowView(m: Memory, m': Memory, own: Tables, p: nat, k: nat, r: nat, n: nat)
    requires IsTree(m, own) && p in own && own[p].level == 0 && k < ENTRIES && OnlyEntry(m, m', p, k)
    requires IsRoot(own, r) && n < ROOT_PAGES && own[p].parent in own
    ensures View(m', r, n) ==
            if r == LowRoot(own, p) && n == LowPage(own, p, k) then LowResult(Ent(m', p, k)) else View(m, r, n)
  {
    PathTables(m, own, r, n);
    ReachesLow(m, own, p, r, n);
    SetLowPath(m, m', p, k, r, n);
    assert n == LowPage(own, p, k) <==> (n / 512 == LowPage(own, p, 0) / 512 && n % 512 == k);
  }

  /** Storing a level-0 entry changes the translation of exactly one page under one root. */
  lemma SetLow(m: Memory, m': Memory, own: Tables, p: nat, k: nat)
    requires IsTree(m, own) && p in own && own[p].level == 0 && k < ENTRIES && OnlyEntry(m, m', p, k)
    ensures IsTree(m', own) && own[p].parent in own && IsRoot(own, LowRoot(own, p))
    ensures var r := LowRoot(own, p);
            && SameDirs(m, m', r)
            && (forall n | 0 <= n < ROOT_PAGES ::
                  View(m', r, n) == if n == LowPage(own, p, k) then LowResult(Ent(m', p, k)) else View(m, r, n))
            && OthersSame(m, m', own, r)
  {
    SetLowTree(m, m', own, p, k);
    forall r, q | IsRoot(own, r) && 0 <= q < ROOT_SLOTS ensures Pmd(m', r, q) == Pmd(m, r, q) {
      assert GoodEntry(m, own, r, q / 512);
    }
    forall r, n | IsRoot(own, r) && 0 <= n < ROOT_PAGES
      ensures View(m', r, n) ==
              if r == LowRoot(own, p) && n == LowPage(own, p, k) then LowResult(Ent(m', p, k)) else View(m, r, n)
    {
      SetLowView(m, m', own, p, k, r, n);
    }
  }

  // ----- section leaves

  lemma SetSectionPath(m: Memory, m': Memory, p: nat, j: nat, r: nat, n: nat)
    requires j < ENTRIES && OnlyEntry(m, m', p, j) && n < ROOT_PAGES && r != p
    requires Table(Entry1(m, r, n)) ==> Table(Entry2(m, r, n)) && PfnOf(Entry1(m, r, n)) != p
    requires !Table(Ent(m, p, j)) && !Table(Ent(m', p, j))
    ensures View(m', r, n) ==
            if Table(Entry2(m, r, n)) && PfnOf(Entry2(m, r, n)) == p && n / 512 % 512 == j
            then Stop(Ent(m', p, j), 1, n) else View(m, r, n)
  {
    hide Stop;
  }

  /** The pages that go through a level-1 table are those of the root entry its node names. */
  lemma ReachesMid(m: Memory, own: Tables, p: nat, r: nat, n: nat)
    requires IsTree(m, own) && p in own && own[p].level == 1 && IsRoot(own, r) && n < ROOT_PAGES
    ensures Table(Entry2(m, r, n)) && PfnOf(Entry2(m, r, n)) == p
            <==> r == own[p].parent && n / 0x4_0000 == own[p].idx
  {
    PathTables(m, own, r, n);
    assert Linked(m, own, p);
  }

  /** Storing a leaf in an empty level-1 entry changes the translation of exactly the 512 pages of
      one 2 MB slot. */
  lemma SetSection(m: Memory, m': Memory, own: Tables, p: nat, j: nat)
    requires IsTree(m, own) && p in own && own[p].level == 1 && j < ENTRIES && OnlyEntry(m, m', p, j)
    requires Ent(m, p, j) == 0 && Leaf(Ent(m', p, j))
    ensures IsTree(m', own) && IsRoot(own, own[p].parent)
    ensures var r, q := own[p].parent, own[p].idx * 512 + j;
            && (forall n | 0 <= n < ROOT_PAGES ::
                  View(m', r, n) == if n / 512 == q then Stop(Ent(m', p, j), 1, n) else View(m, r, n))
            && OthersSame(m, m', own, r)
  {
    forall p', i: nat | p' in own && own[p'].level > 0 && i < ENTRIES ensures GoodEntry(m', own, p', i) {
      assert GoodEntry(m, own, p', i);
    }
    forall p' | p' in own && own[p'].level < 2 ensures Linked(m', own, p') {
      assert Linked(m, own, p');
    }
    assert Linked(m, own, p);
    forall r, n | IsRoot(own, r) && 0 <= n < ROOT_PAGES
      ensures View(m', r, n) ==
              if r == own[p].parent && n / 512 == own[p].idx * 512 + j then Stop(Ent(m', p, j), 1, n) else View(m, r, n)
    {
      SectionView(m, m', own, p, j, r, n);
    }
    forall r, q | IsRoot(own, r) && r != own[p].parent && 0 <= q < ROOT_SLOTS ensures Pmd(m', r, q) == Pmd(m, r, q) {
      assert GoodEntry(m, own, r, q / 512);
    }
  }

  lemma SectionView(m: Memory, m': Memory, own: Tables, p: nat, j: nat, r: nat, n: nat)
    requires IsTree(m, own) && p in own && own[p].level == 1 && j < ENTRIES && OnlyEntry(m, m', p, j)
    requires Ent(m, p, j) == 0 && Leaf(Ent(m', p, j)) && IsRoot(own, r) && n < ROOT_PAGES
    ensures View(m', r, n) ==
            if r == own[p].parent && n / 512 == own[p].idx * 512 + j then Stop(Ent(m', p, j), 1, n) else View(m, r, n)
  {
    hide View, Stop;
    PathTables(m, own, r, n);
    ReachesMid(m, own, p, r, n);
    SetSectionPath(m, m', p, j, r, n);
    assert Linked(m, own, p);
    assert n / 512 == n / 0x4_0000 * 512 + n / 512 % 512;
  }
}
