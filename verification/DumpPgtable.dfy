/** The table dump of dump_pgtable.c, with each call of print_pgtable as one record. */
module DumpPgtable {
  import opened Words
  import opened Sv39
  import opened Mapping

  /** One call of print_pgtable: the interval, the level (0 is PGD, 2 is PTE) and the entry. An empty
      entry is recorded although nothing is printed for it. */
  datatype Record = Record(start: u64, end: u64, level: nat, val: u64)

  /** The records are adjacent, non-empty intervals that cover [a, b) from left to right. */
  predicate Chain(recs: seq<Record>, a: u64, b: u64) {
    if recs == [] then a == b
    else
      var last := recs[|recs| - 1];
      last.end == b && last.start < Top(b) && Chain(recs[..|recs| - 1], a, last.start)
  }

  /** Every address of the interval translates as the recorded entry says: not at all when the entry
      is empty, to the leaf's frame when it is a leaf at the recorded level. */
  ghost predicate Faithful(m: Memory, r: nat, x: Record) {
    && x.level <= 2
    && forall va: u64 | x.start <= va < Top(x.end) ::
         View(m, r, PageNumber(va)) == Stop(x.val, 2 - x.level, PageNumber(va))
  }

  ghost predicate AllFaithful(m: Memory, r: nat, recs: seq<Record>) {
    forall x | x in recs :: Faithful(m, r, x)
  }

  lemma {:induction false} ChainThen(xs: seq<Record>, ys: seq<Record>, a: u64, b: u64, c: u64)
    requires Chain(xs, a, b) && Chain(ys, b, c)
    ensures Chain(xs + ys, a, c)
    decreases |ys|
  {
    if ys == [] {
      assert xs + ys == xs;
    } else {
      var k := |ys| - 1;
      ChainThen(xs, ys[..k], a, b, ys[k].start);
      assert (xs + ys)[..|xs + ys| - 1] == xs + ys[..k];
    }
  }

  lemma ChainOne(x: Record)
    requires x.start < Top(x.end)
    ensures Chain([x], x.start, x.end)
  {
    assert Chain([x][..0], x.start, x.start);
  }

  /** The addresses of c pages from addr on have the page numbers n up to n + c. */
  lemma PagesFrom(addr: u64, end: u64, n: nat, c: nat, va: u64)
    requires PageNumber(addr) == n && addr % 4096 == 0 && n + c <= ROOT_PAGES
    requires addr + c * 4096 <= TWO_64 && end == Wrap(addr + c * 4096) && 0 < c && addr <= va < Top(end)
    ensures n <= PageNumber(va) < n + c
  {
    var d := (va - addr) / 4096;
    PageNumberAdd(addr, d);
    assert va / 4096 == (addr + d * 4096) / 4096;
  }

  /** A record for c pages of one slot or one root entry is faithful when each of its pages is. */
  lemma RecordFaithful(m: Memory, r: nat, x: Record, n: nat, c: nat)
    requires PageNumber(x.start) == n && x.start % 4096 == 0 && n + c <= ROOT_PAGES && 0 < c && x.level <= 2
    requires x.start + c * 4096 <= TWO_64 && x.end == Wrap(x.start + c * 4096)
    requires forall p | n <= p < n + c :: View(m, r, p) == Stop(x.val, 2 - x.level, p)
    ensures Faithful(m, r, x) && Chain([x], x.start, x.end)
  {
    hide View, Stop, PageNumber;
    ChainOne(x);
    forall va: u64 | x.start <= va < Top(x.end)
      ensures View(m, r, PageNumber(va)) == Stop(x.val, 2 - x.level, PageNumber(va))
    {
      PagesFrom(x.start, x.end, n, c, va);
    }
  }

  /** Every page below an empty or leaf root entry, empty or leaf slot, or level-0 table translates as
      that one entry says. */
  lemma RootEntryPages(m: Memory, r: nat, n: nat, c: nat)
    requires InRootEntry(n, c) && n + c <= ROOT_PAGES && Ent(m, r, RootField(n)) == 0
    ensures forall p | n <= p < n + c :: View(m, r, p) == Stop(0, 2, p)
  {
    forall p | n <= p < n + c ensures View(m, r, p) == Stop(0, 2, p) {
      assert p / 0x4_0000 == n / 0x4_0000;
    }
  }

  lemma SlotPages(m: Memory, own: Tables, r: nat, n: nat, c: nat)
    requires IsTree(m, own) && IsRoot(own, r) && InSlot(n, c) && n + c <= ROOT_PAGES
    requires Table(Ent(m, r, RootField(n))) && !Table(Pmd(m, r, n / 512))
    ensures forall p | n <= p < n + c :: View(m, r, p) == Stop(Pmd(m, r, n / 512), 1, p)
  {
    hide Stop, IsTree;
    forall p | n <= p < n + c ensures View(m, r, p) == Stop(Pmd(m, r, n / 512), 1, p) {
      assert p / 512 == n / 512;
      FieldSplit(p);
      FieldSplit(n);
    }
  }

  lemma LowPageEntry(m: Memory, r: nat, n: nat)
    requires n < ROOT_PAGES && Table(Ent(m, r, RootField(n))) && Table(Pmd(m, r, n / 512))
    ensures View(m, r, n) == Stop(Ent(m, PfnOf(Pmd(m, r, n / 512)), n % 512), 0, n)
  {
    FieldSplit(n);
  }

  // ----- what the walks record

  /** cnt whole pages from start on, below one root page. */
  ghost predicate Span(start: u64, lo: nat, cnt: nat) {
    lo == PageNumber(start) && lo + cnt <= ROOT_PAGES && start % 4096 == 0 && start + cnt * 4096 <= TWO_64
  }

  /** What is left of the range after its first c pages. */
  lemma RestSpan(start: u64, lo: nat, cnt: nat, c: nat)
    requires Span(start, lo, cnt) && c < cnt
    ensures Wrap(start + c * 4096) == start + c * 4096 && Span(start + c * 4096, lo + c, cnt - c)
  {
    PageNumberAdd(start, c);
  }

  /** The page that the pointer-following macros take an entry to refer to. */
  function Sub(e: u64): nat { TablePaddr(e) / 4096 }

  /** Entry number i of a level-0 table, counted from the one for page lo. */
  function PteRecord(m: Memory, low: nat, start: u64, lo: nat, i: nat): Record
    requires start + (i + 1) * 4096 <= TWO_64
  {
    Record(start + i * 4096, Wrap(start + (i + 1) * 4096), 2, Ent(m, low, lo % 512 + i))
  }

  /** One record per page. */
  function PteRecords(m: Memory, low: nat, start: u64, lo: nat, cnt: nat): (r: seq<Record>)
    requires start + cnt * 4096 <= TWO_64
    ensures |r| == cnt && forall i | 0 <= i < cnt :: r[i] == PteRecord(m, low, start, lo, i)
  {
    seq(cnt, i requires 0 <= i < cnt => PteRecord(m, low, start, lo, i))
  }

  /** One record for an empty or leaf level-1 entry, else one for each of its pages. */
  function SlotRecords(m: Memory, mid: nat, start: u64, lo: nat, c: nat): seq<Record>
    requires 0 < c && start + c * 4096 <= TWO_64
  {
    var e := Ent(m, mid, PmdField(lo));
    if e == 0 || Leaf(e) then [Record(start, Wrap(start + c * 4096), 1, e)] else PteRecords(m, Sub(e), start, lo, c)
  }

  function PmdRecords(m: Memory, mid: nat, start: u64, lo: nat, cnt: nat): seq<Record>
    requires start + cnt * 4096 <= TWO_64
    decreases cnt
  {
    if cnt == 0 then []
    else
      var c := Min(512 - lo % 512, cnt);
      SlotRecords(m, mid, start, lo, c) + PmdRecords(m, mid, Wrap(start + c * 4096), lo + c, cnt - c)
  }

  /** One record for an empty root entry, else those of the table it refers to. */
  function EntryRecords(m: Memory, r: nat, start: u64, lo: nat, c: nat): seq<Record>
    requires 0 < c && start + c * 4096 <= TWO_64
  {
    var e := Ent(m, r, RootField(lo));
    if e == 0 then [Record(start, Wrap(start + c * 4096), 0, 0)] else PmdRecords(m, Sub(e), start, lo, c)
  }

  function PgdRecords(m: Memory, r: nat, start: u64, lo: nat, cnt: nat): seq<Record>
    requires start + cnt * 4096 <= TWO_64
    decreases cnt
  {
    if cnt == 0 then []
    else
      var c := Min(0x4_0000 - lo % 0x4_0000, cnt);
      EntryRecords(m, r, start, lo, c) + PgdRecords(m, r, Wrap(start + c * 4096), lo + c, cnt - c)
  }

  // ----- the walks, on any memory

  lemma SubIs(e: u64)
    ensures TablePaddr(e) == Sub(e) * 4096
  {
  }

  lemma Within(start: u64, d: nat, cnt: nat)
    requires d < cnt && start + cnt * 4096 <= TWO_64
    ensures start + d * 4096 < TWO_64 && Wrap(start + d * 4096) == start + d * 4096
  {
  }

  /** walk_pte. */
  method WalkPte(k: Machine, pmdp: nat, start: u64, end: u64, ghost lo: nat, ghost cnt: nat) returns (recs: seq<Record>)
    requires Span(start, lo, cnt) && InSlot(lo, cnt) && 0 < cnt && end == Wrap(start + cnt * 4096)
    ensures recs == PteRecords(k.mem, Sub(k.Load(pmdp)), start, lo, cnt)
  {
    hide Wrap, Sub, PteRecord;
    Indices(start);
    ghost var low := Sub(k.Load(pmdp));
    SubIs(k.Load(pmdp));
    var ptep := TablePaddr(k.Load(pmdp)) + 8 * PteIndex(start);
    var addr: u64, more := start, true;
    ghost var d := 0;
    recs := [];
    WrapSmall(start, start);
    while more
      invariant d <= cnt && more == (d < cnt) && addr == Wrap(start + d * 4096)
      invariant ptep == low * 4096 + 8 * (lo % 512 + d)
      invariant |recs| == d && forall i | 0 <= i < d :: recs[i] == PteRecord(k.mem, low, start, lo, i)
      decreases cnt - d
    {
      Within(start, d, cnt);
      AtEnd(start, d + 1, cnt);
      WrapAdd(start + d * 4096, 4096);
      SlotInPage(low, lo % 512 + d);
      var next: u64 := Wrap(addr + 4096);
      RecordOf(k.mem, low, start, lo, d);
      recs := recs + [Record(addr, next, 2, k.Load(ptep))];
      ptep := ptep + 8;
      addr := next;
      more := addr != end;
      d := d + 1;
    }
  }

  lemma RecordOf(m: Memory, low: nat, start: u64, lo: nat, i: nat)
    requires start + (i + 1) * 4096 <= TWO_64
    ensures PteRecord(m, low, start, lo, i)
            == Record(start + i * 4096, Wrap(start + (i + 1) * 4096), 2, Ent(m, low, lo % 512 + i))
  {
  }

  /** walk_pmd. */
  method WalkPmd(k: Machine, pgdp: nat, start: u64, end: u64, ghost lo: nat, ghost cnt: nat) returns (recs: seq<Record>)
    requires Span(start, lo, cnt) && InRootEntry(lo, cnt) && 0 < cnt && end == Wrap(start + cnt * 4096)
    ensures recs == PmdRecords(k.mem, Sub(k.Load(pgdp)), start, lo, cnt)
  {
    hide PageNumber, Wrap, RootField, PmdField, InRootEntry, InSlot, PmdAddrEnd, Sub, SlotRecords, PmdRecords;
    Indices(start);
    ghost var mid := Sub(k.Load(pgdp));
    SubIs(k.Load(pgdp));
    FieldIs(lo);
    var pmdp := TablePaddr(k.Load(pgdp)) + 8 * PmdIndex(start);
    var addr: u64, more := start, true;
    ghost var d := 0;
    recs := [];
    WrapSmall(start, start);
    while more
      invariant d <= cnt && more == (d < cnt) && addr == Wrap(start + d * 4096) && addr + (cnt - d) * 4096 <= TWO_64
      invariant more ==> pmdp == mid * 4096 + 8 * PmdField(lo + d)
      invariant recs + PmdRecords(k.mem, mid, addr, lo + d, cnt - d) == PmdRecords(k.mem, mid, start, lo, cnt)
      decreases cnt - d
    {
      var next := PmdAddrEnd(addr, end);
      ghost var c := PmdTurn(addr, next, end, start, lo, cnt, d);
      FieldIs(lo + d);
      SlotInPage(mid, PmdField(lo + d));
      PmdFirst(k.mem, mid, addr, lo + d, cnt - d, c);
      ghost var rest := PmdRecords(k.mem, mid, next, lo + d + c, cnt - d - c);
      var more' := SlotTurn(k, pmdp, addr, next, mid, lo + d, c);
      assert recs + (more' + rest) == recs + more' + rest;
      recs := recs + more';
      pmdp := pmdp + 8;
      addr := next;
      more := addr != end;
      d := d + c;
    }
    NoneAfter(k.mem, mid, addr, lo + d, recs);
  }

  lemma FieldIs(n: nat)
    ensures PmdField(n) == n / 512 % 512 < ENTRIES && RootField(n) == n / 0x4_0000
  {
  }

  lemma NoneAfter(m: Memory, p: nat, addr: u64, n: nat, recs: seq<Record>)
    ensures recs + PmdRecords(m, p, addr, n, 0) == recs && recs + PgdRecords(m, p, addr, n, 0) == recs
  {
  }

  lemma PmdFirst(m: Memory, mid: nat, addr: u64, n: nat, cnt: nat, c: nat)
    requires 0 < c <= cnt && addr + cnt * 4096 <= TWO_64 && c == Min(512 - n % 512, cnt)
    ensures Wrap(addr + c * 4096) + (cnt - c) * 4096 <= TWO_64
    ensures PmdRecords(m, mid, addr, n, cnt)
            == SlotRecords(m, mid, addr, n, c) + PmdRecords(m, mid, Wrap(addr + c * 4096), n + c, cnt - c)
  {
    hide SlotRecords;
  }

  /** One turn of walk_pmd. */
  method SlotTurn(k: Machine, pmdp: nat, addr: u64, next: u64, ghost mid: nat, ghost n: nat, ghost c: nat)
    returns (recs: seq<Record>)
    requires Span(addr, n, c) && InSlot(n, c) && 0 < c && next == Wrap(addr + c * 4096)
    requires k.Load(pmdp) == Ent(k.mem, mid, PmdField(n))
    ensures recs == SlotRecords(k.mem, mid, addr, n, c)
  {
    var pmd := k.Load(pmdp);
    if pmd == 0 || Leaf(pmd) {
      recs := [Record(addr, next, 1, pmd)];
    } else {
      recs := WalkPte(k, pmdp, addr, next, n, c);
    }
  }

  /** walk_pgd, on any memory: exactly these records. */
  method WalkPgd(k: Machine, pgd: nat, start: u64, size: u64, ghost r: nat, ghost lo: nat, ghost cnt: nat)
    returns (recs: seq<Record>)
    requires Span(start, lo, cnt) && 0 < cnt && size == cnt * 4096 && pgd == r * 4096
    ensures recs == PgdRecords(k.mem, r, start, lo, cnt)
  {
    hide PageNumber, Wrap, RootField, InRootEntry, PgdAddrEnd, EntryRecords, PgdRecords;
    Indices(start);
    FieldIs(lo);
    var pgdp := pgd + 8 * PgdIndex(start);
    var end: u64, addr: u64, more := Wrap(start + size), start, true;
    ghost var d := 0;
    recs := [];
    WrapSmall(start, start);
    while more
      invariant d <= cnt && more == (d < cnt) && addr == Wrap(start + d * 4096) && addr + (cnt - d) * 4096 <= TWO_64
      invariant more ==> pgdp == r * 4096 + 8 * RootField(lo + d)
      invariant recs + PgdRecords(k.mem, r, addr, lo + d, cnt - d) == PgdRecords(k.mem, r, start, lo, cnt)
      decreases cnt - d
    {
      var next := PgdAddrEnd(addr, end);
      ghost var c := PgdTurn(addr, next, end, start, lo, cnt, d);
      FieldIs(lo + d);
      SlotInPage(r, RootField(lo + d));
      PgdFirst(k.mem, r, addr, lo + d, cnt - d, c);
      ghost var rest := PgdRecords(k.mem, r, next, lo + d + c, cnt - d - c);
      var more' := EntryTurn(k, pgdp, addr, next, r, lo + d, c);
      assert recs + (more' + rest) == recs + more' + rest;
      recs := recs + more';
      pgdp := pgdp + 8;
      addr := next;
      more := addr != end;
      d := d + c;
    }
    NoneAfter(k.mem, r, addr, lo + d, recs);
  }

  lemma PgdFirst(m: Memory, r: nat, addr: u64, n: nat, cnt: nat, c: nat)
    requires 0 < c <= cnt && addr + cnt * 4096 <= TWO_64 && c == Min(0x4_0000 - n % 0x4_0000, cnt)
    ensures Wrap(addr + c * 4096) + (cnt - c) * 4096 <= TWO_64
    ensures PgdRecords(m, r, addr, n, cnt)
            == EntryRecords(m, r, addr, n, c) + PgdRecords(m, r, Wrap(addr + c * 4096), n + c, cnt - c)
  {
    hide EntryRecords;
  }

  /** One turn of walk_pgd. */
  method EntryTurn(k: Machine, pgdp: nat, addr: u64, next: u64, ghost r: nat, ghost n: nat, ghost c: nat)
    returns (recs: seq<Record>)
    requires Span(addr, n, c) && InRootEntry(n, c) && 0 < c && next == Wrap(addr + c * 4096)
    requires k.Load(pgdp) == Ent(k.mem, r, RootField(n))
    ensures recs == EntryRecords(k.mem, r, addr, n, c)
  {
    var pgd := k.Load(pgdp);
    if pgd == 0 {
      recs := [Record(addr, next, 0, pgd)];
    } else {
      recs := WalkPmd(k, pgdp, addr, next, n, c);
    }
  }

  // ----- the records cover the range, on any memory

  lemma {:induction false} PteChain(m: Memory, low: nat, start: u64, lo: nat, cnt: nat)
    requires 0 < cnt && start + cnt * 4096 <= TWO_64
    ensures Chain(PteRecords(m, low, start, lo, cnt), start, Wrap(start + cnt * 4096))
  {
    var recs := PteRecords(m, low, start, lo, cnt);
    var k := cnt - 1;
    assert recs[..k] == PteRecords(m, low, start, lo, k);
    assert recs[k] == PteRecord(m, low, start, lo, k);
    if k > 0 {
      PteChain(m, low, start, lo, k);
    } else {
      assert recs[..k] == [];
    }
  }

  lemma SlotChain(m: Memory, mid: nat, start: u64, lo: nat, c: nat)
    requires 0 < c <= ROOT_PAGES && start + c * 4096 <= TWO_64
    ensures Chain(SlotRecords(m, mid, start, lo, c), start, Wrap(start + c * 4096))
  {
    hide Leaf, PteRecords;
    var e := Ent(m, mid, PmdField(lo));
    PteChain(m, Sub(e), start, lo, c);
    ChainOne(Record(start, Wrap(start + c * 4096), 1, e));
  }

  lemma {:induction false} PmdChain(m: Memory, mid: nat, start: u64, lo: nat, cnt: nat)
    requires 0 < cnt <= ROOT_PAGES && start + cnt * 4096 <= TWO_64
    ensures Chain(PmdRecords(m, mid, start, lo, cnt), start, Wrap(start + cnt * 4096))
    decreases cnt
  {
    hide SlotRecords, Chain, PmdRecords;
    var c := Min(512 - lo % 512, cnt);
    var next := Wrap(start + c * 4096);
    PmdFirst(m, mid, start, lo, cnt, c);
    SlotChain(m, mid, start, lo, c);
    if c < cnt {
      PmdChain(m, mid, next, lo + c, cnt - c);
      ChainThen(SlotRecords(m, mid, start, lo, c), PmdRecords(m, mid, next, lo + c, cnt - c),
                start, next, Wrap(start + cnt * 4096));
    } else {
      NoneAfter(m, mid, next, lo + c, SlotRecords(m, mid, start, lo, c));
    }
  }

  lemma EntryChain(m: Memory, r: nat, start: u64, lo: nat, c: nat)
    requires 0 < c <= ROOT_PAGES && start + c * 4096 <= TWO_64
    ensures Chain(EntryRecords(m, r, start, lo, c), start, Wrap(start + c * 4096))
  {
    hide PmdRecords;
    PmdChain(m, Sub(Ent(m, r, RootField(lo))), start, lo, c);
    ChainOne(Record(start, Wrap(start + c * 4096), 0, 0));
  }

  /** The records are adjacent, non-empty intervals covering the dumped range, whatever memory holds. */
  lemma {:induction false} PgdChain(m: Memory, r: nat, start: u64, lo: nat, cnt: nat)
    requires 0 < cnt <= ROOT_PAGES && start + cnt * 4096 <= TWO_64
    ensures Chain(PgdRecords(m, r, start, lo, cnt), start, Wrap(start + cnt * 4096))
    decreases cnt
  {
    hide EntryRecords, Chain, PgdRecords;
    var c := Min(0x4_0000 - lo % 0x4_0000, cnt);
    var next := Wrap(start + c * 4096);
    PgdFirst(m, r, start, lo, cnt, c);
    EntryChain(m, r, start, lo, c);
    if c < cnt {
      PgdChain(m, r, next, lo + c, cnt - c);
      ChainThen(EntryRecords(m, r, start, lo, c), PgdRecords(m, r, next, lo + c, cnt - c),
                start, next, Wrap(start + cnt * 4096));
    } else {
      NoneAfter(m, r, next, lo + c, EntryRecords(m, r, start, lo, c));
    }
  }

  // ----- in a tree they tell the truth

  lemma FaithfulThen(m: Memory, r: nat, xs: seq<Record>, ys: seq<Record>)
    requires AllFaithful(m, r, xs) && AllFaithful(m, r, ys)
    ensures AllFaithful(m, r, xs + ys)
  {
    hide Faithful;
  }

  lemma SubOfTable(e: u64)
    requires PfnOf(e) < PFN_LIMIT
    ensures Sub(e) == PfnOf(e)
  {
  }

  /** Page i of a range within one slot. */
  lemma PageOfSlot(start: u64, lo: nat, cnt: nat, i: nat)
    requires Span(start, lo, cnt) && InSlot(lo, cnt) && i < cnt
    ensures lo + i < ROOT_PAGES && (lo + i) / 512 == lo / 512 && (lo + i) % 512 == lo % 512 + i
    ensures RootField(lo + i) == RootField(lo)
    ensures start + (i + 1) * 4096 <= TWO_64 && PageNumber(start + i * 4096) == lo + i
    ensures (start + i * 4096) % 4096 == 0
  {
    FieldSplit(lo + i);
    FieldSplit(lo);
    PageNumberAdd(start, i);
  }

  lemma PteFaithful(m: Memory, r: nat, start: u64, lo: nat, cnt: nat)
    requires Span(start, lo, cnt) && InSlot(lo, cnt) && 0 < cnt
    requires Table(Ent(m, r, RootField(lo))) && Table(Pmd(m, r, lo / 512))
    ensures AllFaithful(m, r, PteRecords(m, PfnOf(Pmd(m, r, lo / 512)), start, lo, cnt))
  {
    hide Pmd, View, Stop, Faithful, PageNumber, RootField, Table, PfnOf, InSlot;
    var low := PfnOf(Pmd(m, r, lo / 512));
    forall i | 0 <= i < cnt ensures Faithful(m, r, PteRecord(m, low, start, lo, i)) {
      PageOfSlot(start, lo, cnt, i);
      LowPageEntry(m, r, lo + i);
      RecordFaithful(m, r, PteRecord(m, low, start, lo, i), lo + i, 1);
    }
  }

  lemma SlotFaithful(m: Memory, own: Tables, r: nat, start: u64, lo: nat, c: nat)
    requires IsTree(m, own) && IsRoot(own, r) && Span(start, lo, c) && InSlot(lo, c) && 0 < c
    requires Table(Ent(m, r, RootField(lo)))
    ensures AllFaithful(m, r, SlotRecords(m, PfnOf(Ent(m, r, RootField(lo))), start, lo, c))
  {
    hide View, Stop, Faithful, PageNumber, PteRecords, Sub, IsTree;
    FieldSplit(lo);
    GoodOnPath(m, own, r, lo);
    if Table(Pmd(m, r, lo / 512)) {
      SubOfTable(Pmd(m, r, lo / 512));
      PteFaithful(m, r, start, lo, c);
    } else {
      SlotPages(m, own, r, lo, c);
      RecordFaithful(m, r, Record(start, Wrap(start + c * 4096), 1, Pmd(m, r, lo / 512)), lo, c);
    }
  }

  lemma GoodOnPath(m: Memory, own: Tables, r: nat, lo: nat)
    requires IsTree(m, own) && IsRoot(own, r) && lo < ROOT_PAGES && Table(Ent(m, r, RootField(lo)))
    ensures PfnOf(Ent(m, r, RootField(lo))) < PFN_LIMIT
    ensures var e := Ent(m, PfnOf(Ent(m, r, RootField(lo))), PmdField(lo));
            e == Pmd(m, r, lo / 512) && (e == 0 || Leaf(e) || (Table(e) && !Leaf(e) && PfnOf(e) < PFN_LIMIT))
  {
    FieldSplit(lo);
    assert GoodEntry(m, own, r, RootField(lo));
    assert GoodEntry(m, own, PfnOf(Ent(m, r, RootField(lo))), PmdField(lo));
  }

  /** The part of a range that lies in its first slot, and the rest. */
  lemma SlotPart(start: u64, lo: nat, cnt: nat, c: nat)
    requires Span(start, lo, cnt) && InRootEntry(lo, cnt) && 0 < cnt && c == Min(512 - lo % 512, cnt)
    ensures 0 < c <= cnt && start + cnt * 4096 <= TWO_64 && Span(start, lo, c) && InSlot(lo, c)
    ensures c < cnt ==> Span(Wrap(start + c * 4096), lo + c, cnt - c) && InRootEntry(lo + c, cnt - c)
    ensures c < cnt ==> RootField(lo + c) == RootField(lo)
  {
    hide PageNumber, RootField, Wrap;
    BlockPages(lo, cnt, 512);
    if c < cnt {
      RestSpan(start, lo, cnt, c);
      SameRoot(lo, cnt, c, cnt - c);
    }
  }

  lemma {:induction false} PmdFaithful(m: Memory, own: Tables, r: nat, start: u64, lo: nat, cnt: nat)
    requires IsTree(m, own) && IsRoot(own, r) && Span(start, lo, cnt) && InRootEntry(lo, cnt) && 0 < cnt
    requires Table(Ent(m, r, RootField(lo)))
    ensures AllFaithful(m, r, PmdRecords(m, PfnOf(Ent(m, r, RootField(lo))), start, lo, cnt))
    decreases cnt
  {
    hide IsTree, AllFaithful, PmdRecords, SlotRecords, RootField, Table, Wrap, InRootEntry, InSlot, Span;
    var mid, c := PfnOf(Ent(m, r, RootField(lo))), Min(512 - lo % 512, cnt);
    var next := Wrap(start + c * 4096);
    SlotPart(start, lo, cnt, c);
    PmdFirst(m, mid, start, lo, cnt, c);
    SlotFaithful(m, own, r, start, lo, c);
    if c < cnt {
      PmdFaithful(m, own, r, next, lo + c, cnt - c);
      FaithfulThen(m, r, SlotRecords(m, mid, start, lo, c), PmdRecords(m, mid, next, lo + c, cnt - c));
    } else {
      NoneAfter(m, mid, next, lo + c, SlotRecords(m, mid, start, lo, c));
    }
  }

  lemma EntryFaithful(m: Memory, own: Tables, r: nat, start: u64, lo: nat, c: nat)
    requires IsTree(m, own) && IsRoot(own, r) && Span(start, lo, c) && InRootEntry(lo, c) && 0 < c
    requires Ent(m, r, RootField(lo)) == 0 || Table(Ent(m, r, RootField(lo)))
    ensures AllFaithful(m, r, EntryRecords(m, r, start, lo, c))
  {
    hide View, Stop, Faithful, PageNumber, PmdRecords, Sub, IsTree;
    var e := Ent(m, r, RootField(lo));
    if e == 0 {
      RootEntryPages(m, r, lo, c);
      RecordFaithful(m, r, Record(start, Wrap(start + c * 4096), 0, 0), lo, c);
    } else {
      GoodOnPath(m, own, r, lo);
      SubOfTable(e);
      PmdFaithful(m, own, r, start, lo, c);
    }
  }

  /** In a tree without leaves among the root entries of the range, every record tells the translation
      of all its addresses. */
  lemma {:induction false} PgdFaithful(m: Memory, own: Tables, r: nat, start: u64, lo: nat, cnt: nat)
    requires IsTree(m, own) && IsRoot(own, r) && Span(start, lo, cnt) && 0 < cnt
    requires forall n | lo <= n < lo + cnt :: Ent(m, r, RootField(n)) == 0 || Table(Ent(m, r, RootField(n)))
    ensures AllFaithful(m, r, PgdRecords(m, r, start, lo, cnt))
    decreases cnt
  {
    hide IsTree, AllFaithful, PgdRecords, EntryRecords, RootField, Table, PageNumber, Wrap;
    var c := Min(0x4_0000 - lo % 0x4_0000, cnt);
    var next := Wrap(start + c * 4096);
    PgdFirst(m, r, start, lo, cnt, c);
    EntryFaithful(m, own, r, start, lo, c);
    if c < cnt {
      RestSpan(start, lo, cnt, c);
      PgdFaithful(m, own, r, next, lo + c, cnt - c);
      FaithfulThen(m, r, EntryRecords(m, r, start, lo, c), PgdRecords(m, r, next, lo + c, cnt - c));
    } else {
      NoneAfter(m, r, next, lo + c, EntryRecords(m, r, start, lo, c));
    }
  }

  // ----- with a leaf among the root entries they need not

  /** Every table page of the tree reads the same; the rest of memory is free. */
  ghost predicate TablesSame(m: Memory, m': Memory, own: Tables) {
    forall p, k: nat | p in own && k < ENTRIES :: Ent(m', p, k) == Ent(m, p, k)
  }

  lemma TreeKept(m: Memory, m': Memory, own: Tables)
    requires IsTree(m, own) && TablesSame(m, m', own)
    ensures IsTree(m', own)
  {
    forall p | p in own && own[p].level < 2 ensures Linked(m', own, p) {
      assert Linked(m, own, p);
    }
    forall p, k: nat | p in own && own[p].level > 0 && k < ENTRIES ensures GoodEntry(m', own, p, k) {
      assert GoodEntry(m, own, p, k);
    }
  }

  /** The first page of the range in the root entry of page n. */
  function BlockStart(lo: nat, n: nat): (b: nat)
    requires lo <= n
    ensures lo <= b <= n && RootField(b) == RootField(n) && (b == lo || b % 0x4_0000 == 0)
  {
    var b := n / 0x4_0000 * 0x4_0000;
    if b <= lo then lo else b
  }

  /** The record that starts at page n: it tells the entry val of a level-1 table. */
  ghost predicate Tells(x: Record, start: u64, lo: nat, n: nat, val: u64) {
    x.level == 1 && x.val == val && lo <= n && x.start == start + (n - lo) * 4096 < Top(x.end)
  }

  lemma SlotRecord(m: Memory, mid: nat, start: u64, lo: nat, cnt: nat) returns (x: Record)
    requires 0 < cnt && start + cnt * 4096 <= TWO_64
    requires Ent(m, mid, PmdField(lo)) == 0 || Leaf(Ent(m, mid, PmdField(lo)))
    ensures x in PmdRecords(m, mid, start, lo, cnt) && Tells(x, start, lo, lo, Ent(m, mid, PmdField(lo)))
  {
    var c := Min(512 - lo % 512, cnt);
    PmdFirst(m, mid, start, lo, cnt, c);
    x := Record(start, Wrap(start + c * 4096), 1, Ent(m, mid, PmdField(lo)));
    assert SlotRecords(m, mid, start, lo, c) == [x];
  }

  /** A non-empty root entry is followed: the first entry it reads for the block is recorded. */
  lemma {:induction false} BlockRecorded(m: Memory, r: nat, start: u64, lo: nat, cnt: nat, n: nat) returns (x: Record)
    requires Span(start, lo, cnt) && lo <= n < lo + cnt && (n == lo || n % 0x4_0000 == 0)
    requires Ent(m, r, RootField(n)) != 0
    requires var e := Ent(m, Sub(Ent(m, r, RootField(n))), PmdField(n)); e == 0 || Leaf(e)
    ensures x in PgdRecords(m, r, start, lo, cnt)
    ensures Tells(x, start, lo, n, Ent(m, Sub(Ent(m, r, RootField(n))), PmdField(n)))
    decreases cnt
  {
    hide PmdRecords, PgdRecords, Sub, RootField, PmdField, PageNumber, Leaf;
    var c := Min(0x4_0000 - lo % 0x4_0000, cnt);
    PgdFirst(m, r, start, lo, cnt, c);
    if n == lo {
      x := SlotRecord(m, Sub(Ent(m, r, RootField(lo))), start, lo, c);
    } else {
      NotBefore(lo, n);
      RestSpan(start, lo, cnt, c);
      x := BlockRecorded(m, r, Wrap(start + c * 4096), lo + c, cnt - c, n);
    }
  }

  lemma NotBefore(lo: nat, n: nat)
    requires lo < n && n % 0x4_0000 == 0
    ensures lo + (0x4_0000 - lo % 0x4_0000) <= n
  {
  }

  /** What makes the dump wrong about a root leaf e when its frame holds it: nothing when the leaf
      translates, a readable leaf when it faults. */
  function Contradiction(e: u64, n: nat): (x: u64)
    ensures x == 0 || Leaf(x)
    ensures Stop(x, 1, n) != Stop(e, 2, n)
  {
    EmptyOrReadable(n);
    if Stop(e, 2, n) == Fault then 3 else 0
  }

  lemma EmptyOrReadable(n: nat)
    ensures Stop(0, 1, n) == Fault && Stop(3, 1, n) != Fault && Leaf(3)
  {
  }

  /** From a root leaf whose first frame is no table page: the same tables with another word in that
      frame, and a record that is wrong. */
  lemma WrongRecord(m: Memory, own: Tables, r: nat, start: u64, lo: nat, cnt: nat, n: nat) returns (m': Memory)
    requires IsRoot(own, r) && Span(start, lo, cnt) && lo <= n < lo + cnt
    requires var e := Ent(m, r, RootField(n)); Leaf(e) && Sub(e) !in own
    ensures TablesSame(m, m', own) && !AllFaithful(m', r, PgdRecords(m', r, start, lo, cnt))
  {
    hide PgdRecords, Sub, Stop, Leaf, Faithful, PageNumber;
    var b, e := BlockStart(lo, n), Ent(m, r, RootField(n));
    NotEmpty(e);
    m' := m[Slot(Sub(e), PmdField(b)) := Contradiction(e, b)];
    assert Ent(m', r, RootField(b)) == e;
    var x := BlockRecorded(m', r, start, lo, cnt, b);
    RestPage(start, lo, cnt, b);
    LeafView(m', r, b);
    NotFaithful(m', r, x, x.start);
  }

  lemma NotEmpty(e: u64)
    requires Leaf(e)
    ensures e != 0 && !Table(e)
  {
  }

  lemma RestPage(start: u64, lo: nat, cnt: nat, n: nat)
    requires Span(start, lo, cnt) && lo <= n < lo + cnt
    ensures start + (n - lo) * 4096 < TWO_64 && PageNumber(start + (n - lo) * 4096) == n
  {
    PageNumberAdd(start, n - lo);
  }

  lemma LeafView(m: Memory, r: nat, n: nat)
    requires Leaf(Ent(m, r, RootField(n)))
    ensures View(m, r, n) == Stop(Ent(m, r, RootField(n)), 2, n)
  {
    hide Stop;
    NotEmpty(Ent(m, r, RootField(n)));
  }

  /** Exactly when a dump of a range can be trusted. The tables being what they are, all records tell the
      truth whatever the rest of memory holds, if and only if no root entry of the range is a leaf. (A
      leaf whose first frame is itself a table page is set aside: that frame is not free.) */
  lemma FaithfulIff(m: Memory, own: Tables, r: nat, start: u64, lo: nat, cnt: nat)
    requires IsTree(m, own) && IsRoot(own, r) && Span(start, lo, cnt) && 0 < cnt
    requires forall n | lo <= n < lo + cnt && Leaf(Ent(m, r, RootField(n))) :: Sub(Ent(m, r, RootField(n))) !in own
    ensures (forall m': Memory | TablesSame(m, m', own) :: AllFaithful(m', r, PgdRecords(m', r, start, lo, cnt)))
            <==> forall n | lo <= n < lo + cnt :: !Leaf(Ent(m, r, RootField(n)))
  {
    hide IsTree, AllFaithful, PgdRecords, Leaf, Table, Sub;
    if n :| lo <= n < lo + cnt && Leaf(Ent(m, r, RootField(n))) {
      var m' := WrongRecord(m, own, r, start, lo, cnt, n);
    } else {
      forall m': Memory | TablesSame(m, m', own) ensures AllFaithful(m', r, PgdRecords(m', r, start, lo, cnt)) {
        TreeKept(m, m', own);
        RootEntries(m, m', own, r, lo, cnt);
        PgdFaithful(m', own, r, start, lo, cnt);
      }
    }
  }

  lemma RootEntries(m: Memory, m': Memory, own: Tables, r: nat, lo: nat, cnt: nat)
    requires IsTree(m, own) && IsRoot(own, r) && lo + cnt <= ROOT_PAGES && TablesSame(m, m', own)
    requires forall n | lo <= n < lo + cnt :: !Leaf(Ent(m, r, RootField(n)))
    ensures forall n | lo <= n < lo + cnt :: Ent(m', r, RootField(n)) == 0 || Table(Ent(m', r, RootField(n)))
  {
    forall n | lo <= n < lo + cnt ensures Ent(m', r, RootField(n)) == 0 || Table(Ent(m', r, RootField(n))) {
      assert GoodEntry(m, own, r, RootField(n));
    }
  }

  /** A concrete tree: a root with a single 1 GB page, whose first frame is all zero, so that its first
      page is recorded as unmapped. */
  lemma RootLeafMisread()
    ensures var m: Memory, own: Tables := map[Slot(10, 0) := 0x1000_0003], map[10 := Node(2, 10, 0)];
            && IsTree(m, own) && IsRoot(own, 10) && Walk(m, 10, 0) == Page(0x4_0000, 3)
            && PgdRecords(m, 10, 0, 0, 1) == [Record(0, 4096, 1, 0)]
            && !AllFaithful(m, 10, PgdRecords(m, 10, 0, 0, 1))
  {
    hide View, PgdRecords, Faithful, IsTree, Walk;
    var m: Memory, own: Tables := map[Slot(10, 0) := 0x1000_0003], map[10 := Node(2, 10, 0)];
    var x := Record(0, 4096, 1, 0);
    MisreadTree(m, own);
    MisreadRecord(m);
    MisreadView(m);
    WalkIsView(m, own, 10, 0);
    NotFaithful(m, 10, x, 0);
    assert x in [x];
  }

  lemma MisreadTree(m: Memory, own: Tables)
    requires m == map[Slot(10, 0) := 0x1000_0003] && own == map[10 := Node(2, 10, 0)]
    ensures IsTree(m, own)
  {
    hide Leaf;
    LeafAndEmpty();
    forall p, k: nat | p in own && own[p].level > 0 && k < ENTRIES ensures GoodEntry(m, own, p, k) {
    }
  }

  lemma MisreadRecord(m: Memory)
    requires m == map[Slot(10, 0) := 0x1000_0003]
    ensures PgdRecords(m, 10, 0, 0, 1) == [Record(0, 4096, 1, 0)]
  {
    hide View;
    PgdFirst(m, 10, 0, 0, 1, 1);
    NoneAfter(m, 10, 4096, 1, EntryRecords(m, 10, 0, 0, 1));
    PmdFirst(m, 0x4_0000, 0, 0, 1, 1);
    NoneAfter(m, 0x4_0000, 4096, 1, SlotRecords(m, 0x4_0000, 0, 0, 1));
  }

  lemma MisreadView(m: Memory)
    requires m == map[Slot(10, 0) := 0x1000_0003]
    ensures View(m, 10, 0) == Page(0x4_0000, 3) && Stop(0, 1, 0) == Fault
  {
    hide Stop;
    LeafAndEmpty();
    assert Entry2(m, 10, 0) == 0x1000_0003;
  }

  lemma LeafAndEmpty()
    ensures Leaf(0x1000_0003) && !Table(0x1000_0003) && Stop(0x1000_0003, 2, 0) == Page(0x4_0000, 3)
    ensures Stop(0, 1, 0) == Fault
  {
  }

  lemma NotFaithful(m: Memory, r: nat, x: Record, va: u64)
    requires x.level <= 2 && x.start <= va < Top(x.end)
    requires View(m, r, PageNumber(va)) != Stop(x.val, 2 - x.level, PageNumber(va))
    ensures !Faithful(m, r, x)
  {
    hide View, Stop, PageNumber;
  }

  /** In hardware terms: each address of a record translates, by the Sv39 walk, to what the record's
      entry says. */
  lemma RecordIsWalk(m: Memory, own: Tables, r: nat, start: u64, lo: nat, cnt: nat, x: Record, va: u64)
    requires IsTree(m, own) && IsRoot(own, r) && Span(start, lo, cnt) && 0 < cnt
    requires forall n | lo <= n < lo + cnt :: Ent(m, r, RootField(n)) == 0 || Table(Ent(m, r, RootField(n)))
    requires x in PgdRecords(m, r, start, lo, cnt) && x.start <= va < Top(x.end)
    ensures x.level <= 2 && Walk(m, r, PageNumber(va)) == Stop(x.val, 2 - x.level, PageNumber(va))
    ensures x.val == 0 ==> Walk(m, r, PageNumber(va)) == Fault
  {
    hide IsTree, Walk, View, PgdRecords;
    PgdFaithful(m, own, r, start, lo, cnt);
    assert Faithful(m, r, x);
    WalkIsView(m, own, r, PageNumber(va));
  }

  /** Every address of the dumped range lies in a record. */
  lemma {:induction false} Covered(recs: seq<Record>, start: u64, end: u64, va: u64)
    requires Chain(recs, start, end) && start <= va < Top(end) && recs != []
    ensures exists x :: x in recs && x.start <= va < Top(x.end)
  {
    var last := recs[|recs| - 1];
    if va >= last.start {
      assert last in recs;
    } else {
      Covered(recs[..|recs| - 1], start, last.start, va);
    }
  }
}
