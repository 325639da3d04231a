/** The physical-memory-protection encoder of sbi_main.c and sbi_lib.c, against the decoding of section
    3.7.1 of the RISC-V Privileged Architecture. */
module Pmp {
  import opened Words
  import opened PmpBits

  const XLEN: nat := 64
  const MAX_CSR_PMP: nat := 8
  const CSR_PMPCFG0: nat := 0x3a0
  const CSR_PMPADDR0: nat := 0x3b0
  const PMP_SHIFT: nat := 2
  const ON_CONFIG: int := CSR_PMPCFG0 - CSR_PMPADDR0   // the index whose address register is pmpcfg0

  function Pow2(n: nat): (r: nat)
    ensures r > 0
  {
    if n == 0 then 1 else 2 * Pow2(n - 1)
  }

  /** The multiple of d at or below x. */
  function AlignTo(x: nat, d: nat): nat
    requires d > 0
  {
    x / d * d
  }

  // ----- what an entry means

  /** A field of pmpXcfg and the region that goes with pmpaddrX. */
  datatype Entry = Off(bits: bv64) | TopOfRange(bits: bv64) | Region(base: nat, size: nat, bits: bv64)

  function TrailingOnes(p: nat): nat { if p % 2 == 0 then 0 else 1 + TrailingOnes(p / 2) }

  /** Where byte i of pmpcfg0 starts. */
  function Shift(i: nat): (s: bv7)
    requires i < 8
    ensures s as int == 8 * i && s <= 56 && IsShift(s)
  {
    match i case 0 => 0 case 1 => 8 case 2 => 16 case 3 => 24 case 4 => 32 case 5 => 40 case 6 => 48 case _ => 56
  }

  /** NA4 is four bytes at pmpaddr; for NAPOT, y...y01...1 with n ones is the naturally aligned region of
      2^(n+3) bytes at y...y0...0. All other bits of the byte are reported as they are. */
  function Decode(cfg: bv64, addr: u64): Entry {
    var a, bits := cfg & 0x18, cfg & 0xe7;
    if a == 0 then Off(bits)
    else if a == 0x08 then TopOfRange(bits)
    else if a == 0x10 then Region(addr * 4, 4, bits)
    else Region(NapotBase(addr), NapotSize(addr), bits)
  }

  function NapotBase(addr: u64): nat {
    addr / Pow2(TrailingOnes(addr) + 1) * Pow2(TrailingOnes(addr) + 1) * 4
  }

  function NapotSize(addr: u64): nat { Pow2(TrailingOnes(addr) + 3) }

  // ----- powers of two

  lemma {:induction false} PowAdd(a: nat, b: nat)
    ensures Pow2(a + b) == Pow2(a) * Pow2(b)
  {
    if a > 0 {
      PowAdd(a - 1, b);
    }
  }

  /** y...y01...1 has as many trailing ones as it was built with. */
  lemma {:induction false} OnesBelow(q: nat, k: nat)
    requires k > 0
    ensures TrailingOnes(q * Pow2(k) + Pow2(k - 1) - 1) == k - 1
  {
    var p := q * Pow2(k) + Pow2(k - 1) - 1;
    if k == 1 {
      assert p == 2 * q;
    } else {
      var h := q * Pow2(k - 1) + Pow2(k - 2) - 1;
      HalfOf(q, k);
      OnesBelow(q, k - 1);
    }
  }

  lemma HalfOf(q: nat, k: nat)
    requires k > 1
    ensures q * Pow2(k) + Pow2(k - 1) - 1 == 2 * (q * Pow2(k - 1) + Pow2(k - 2) - 1) + 1
    ensures q * Pow2(k - 1) + Pow2(k - 2) - 1 >= 0
  {
    assert q * (2 * Pow2(k - 1)) == 2 * (q * Pow2(k - 1));
  }

  lemma QuotientOf(q: nat, r: nat, d: nat)
    requires r < d
    ensures (q * d + r) / d == q
  {
    var x := q * d + r;
    OneQuotient(x / d, x % d, q, r, d);
  }

  lemma OneQuotient(a: int, b: nat, q: int, r: nat, d: nat)
    requires a * d + b == q * d + r && b < d && r < d
    ensures a == q
  {
    if a > q {
      Apart(a, q, d);
    } else if a < q {
      Apart(q, a, d);
    }
  }

  lemma Apart(a: int, b: int, d: nat)
    requires a > b
    ensures a * d >= b * d + d
  {
    var c: nat := a - b - 1;
    Product(c, d);
    assert a == b + 1 + c;
    Spread(b, c, d);
  }

  lemma Product(c: nat, d: nat)
    ensures c * d >= 0
  {
  }

  lemma Spread(b: int, c: int, d: int)
    ensures (b + 1 + c) * d == b * d + d + c * d
  {
  }

  /** The address register for a region of 2^order bytes, 2 < order < 64: clear the low bits, then set all
      of them but the highest. On cleared bits, or is addition. */
  function Napot(start: u64, order: nat): nat
    requires PMP_SHIFT < order < XLEN
  {
    var mask := Pow2(order - PMP_SHIFT) - 1;
    var pmpaddr := start / 4;
    pmpaddr - pmpaddr % (mask + 1) + mask / 2
  }

  lemma NapotForm(start: u64, order: nat)
    requires PMP_SHIFT < order < XLEN
    ensures Napot(start, order) == start / 4 / Pow2(order - 2) * Pow2(order - 2) + Pow2(order - 3) - 1
  {
    var d := Pow2(order - 2);
    assert d == 2 * Pow2(order - 3);
    assert (d - 1) / 2 == Pow2(order - 3) - 1;
  }

  lemma Quarter(start: nat, order: nat)
    requires PMP_SHIFT < order
    ensures start / 4 / Pow2(order - 2) * Pow2(order - 2) * 4 == AlignTo(start, Pow2(order))
  {
    var d := Pow2(order - 2);
    assert Pow2(order) == 4 * d;
    var q, r := start / (4 * d), start % (4 * d);
    assert start == q * (4 * d) + r;
    assert q * (4 * d) == 4 * (q * d);
    assert start / 4 == q * d + r / 4;
    QuotientOf(q, r / 4, d);
  }

  /** Decoding gives back the naturally aligned region of 2^order bytes around start. */
  lemma NapotDecodes(start: u64, order: nat)
    requires PMP_SHIFT < order < XLEN
    ensures Napot(start, order) < TWO_64
    ensures NapotBase(Napot(start, order)) == AlignTo(start, Pow2(order))
    ensures NapotSize(Napot(start, order)) == Pow2(order)
  {
    hide Pow2, TrailingOnes, Napot, NapotBase;
    var k := order - 2;
    var q := start / 4 / Pow2(k);
    NapotForm(start, order);
    Small(start, q, k);
    OnesBelow(q, k);
    BaseOf(Napot(start, order), q, k);
    Quarter(start, order);
  }

  lemma BaseOf(p: u64, q: nat, k: nat)
    requires 0 < k && p == q * Pow2(k) + Pow2(k - 1) - 1 && TrailingOnes(p) == k - 1
    ensures NapotBase(p) == q * Pow2(k) * 4
  {
    HalfBelow(k);
    QuotientOf(q, Pow2(k - 1) - 1, Pow2(k));
  }

  lemma HalfBelow(k: nat)
    requires k > 0
    ensures Pow2(k - 1) - 1 < Pow2(k)
  {
  }

  lemma Small(start: u64, q: nat, k: nat)
    requires 0 < k < 62 && q == start / 4 / Pow2(k)
    ensures q * Pow2(k) + Pow2(k - 1) - 1 < TWO_64
  {
    PowBound(k - 1);
    assert q * Pow2(k) <= start / 4;
  }

  lemma PowBound(k: nat)
    requires k <= 62
    ensures Pow2(k) <= 0x4000_0000_0000_0000
  {
    hide Pow2;
    PowAdd(k, 62 - k);
    PowByte();
    PowAdd(8, 7);
    PowAdd(8, 8);
    PowAdd(16, 15);
    PowAdd(31, 31);
    var a, b := Pow2(k), Pow2(62 - k);
    assert a * b >= a;
  }

  lemma PowByte()
    ensures Pow2(7) == 128 && Pow2(8) == 256
  {
  }

  // ----- sbi_lib.c

  /** The least order whose power of two is at least x; 64 above 2^63. */
  function Order(x: u64, from: nat): (n: nat)
    requires from <= XLEN
    ensures from <= n <= XLEN
    decreases XLEN - from
  {
    if from == XLEN || x <= Pow2(from) then from else Order(x, from + 1)
  }

  lemma {:induction false} OrderIsLeast(x: u64, from: nat)
    requires from <= XLEN && (from > 0 ==> Pow2(from - 1) < x)
    ensures x <= Pow2(Order(x, from)) && (Order(x, from) > 0 ==> Pow2(Order(x, from) - 1) < x)
    ensures from == 0 ==> (Order(x, from) < PMP_SHIFT <==> x <= 2)
    decreases XLEN - from
  {
    if from == XLEN {
      WholeWord();
    } else if x > Pow2(from) {
      OrderIsLeast(x, from + 1);
      if from == 0 {
        assert Pow2(1) == 2;
      }
    }
  }

  lemma WholeWord()
    ensures Pow2(64) == TWO_64
  {
    hide Pow2;
    PowByte();
    PowAdd(8, 8);
    PowAdd(16, 16);
    PowAdd(32, 32);
  }

  /** log2roundup. */
  method Log2Roundup(x: u64) returns (ret: nat)
    ensures ret == Order(x, 0)
  {
    ret := 0;
    while ret < XLEN
      invariant ret <= XLEN && Order(x, 0) == Order(x, ret)
    {
      if x <= Pow2(ret) {
        break;
      }
      ret := ret + 1;
    }
  }

  // ----- sbi_main.c

  lemma ShiftIsDigit(c: bv64, i: nat)
    requires i < 8
    ensures GetByte(c, Shift(i)) == Digit(c, i)
  {
    hide GetByte, Digit;
    ByteIsDigit(c, i);
  }

  lemma ShiftsDiffer(i: nat, j: nat)
    requires i < 8 && j < 8 && i != j
    ensures Shift(i) != Shift(j)
  {
  }

  /** Masking a byte in at bit 8 * i sets digit i of the register and no other. */
  lemma OneByteSet(c: bv64, i: nat, j: nat, v: bv64)
    requires i < 8 && j < 8
    ensures Digit(SetByte(c, Shift(i), v), j) == if j == i then v & 0xff else Digit(c, j)
  {
    hide GetByte, SetByte, Shift, Digit;
    ShiftIsDigit(SetByte(c, Shift(i), v), j);
    ShiftIsDigit(c, j);
    if j != i {
      ShiftsDiffer(i, j);
    }
    if j == i {
      SameByte(c, Shift(i), v);
    } else {
      OtherByte(c, Shift(i), v, Shift(j));
    }
  }

  /** The byte that goes into the register for an accepted size. */
  function ConfigByte(size: u64, prot: bv64): bv64 { (prot & 0xe7) | if size <= 4 then 0x10 else 0x18 }

  lemma ByteFor(size: u64, prot: bv64, mode: bv64)
    requires Order(size, 0) >= PMP_SHIFT && mode == if Order(size, 0) == PMP_SHIFT then PMP_A_NA4 else PMP_A_NAPOT
    ensures WithMode(prot, mode) & 0xff == ConfigByte(size, prot)
  {
    hide WithMode, Order;
    ModeBits(prot, mode);
    OrderIsLeast(size, 0);
    assert Pow2(2) == 4;
    if Order(size, 0) > 2 {
      Grows(2, Order(size, 0) - 1);
    }
  }

  lemma {:induction false} Grows(a: nat, b: nat)
    requires a <= b
    ensures Pow2(a) <= Pow2(b)
  {
    if a < b {
      Grows(a, b - 1);
    }
  }

  /** The entry one call asks for: the aligned region of the rounded size around start, or everything. */
  function Wanted(start: u64, size: u64, prot: bv64): Entry {
    var order := Order(size, 0);
    if order == XLEN then Region(0, Pow2(XLEN + 3), prot & 0xe7)
    else Region(AlignTo(start, Pow2(order)), Pow2(order), prot & 0xe7)
  }

  /** pmpaddr for an accepted order. */
  function AddressFor(start: u64, order: nat): nat
    requires PMP_SHIFT <= order <= XLEN
  {
    if order == PMP_SHIFT then start / 4 else if order == XLEN then TWO_64 - 1 else Napot(start, order)
  }

  /** The address word as a register value. */
  function AddressWord(start: u64, size: u64): bv64 {
    var order := Order(size, 0);
    if PMP_SHIFT <= order <= XLEN && AddressFor(start, order) < TWO_64 then AddressFor(start, order) as bv64 else 0
  }

  lemma WordFor(start: u64, size: u64)
    requires PMP_SHIFT <= Order(size, 0) && AddressFor(start, Order(size, 0)) < TWO_64
    ensures AddressWord(start, size) == AddressFor(start, Order(size, 0)) as bv64
  {
  }

  lemma AddressDecodes(start: u64, size: u64, prot: bv64)
    requires Order(size, 0) >= PMP_SHIFT
    ensures var order := Order(size, 0);
            var mode := if order == PMP_SHIFT then PMP_A_NA4 else PMP_A_NAPOT;
            && AddressFor(start, order) < TWO_64
            && Decode(WithMode(prot, mode) & 0xff, AddressFor(start, order)) == Wanted(start, size, prot)
  {
    hide Napot, NapotBase, NapotSize, WithMode, Order, Pow2;
    var order := Order(size, 0);
    ModeBits(prot, if order == PMP_SHIFT then PMP_A_NA4 else PMP_A_NAPOT);
    if order == PMP_SHIFT {
      Four();
    } else if order == XLEN {
      AllOnes();
    } else {
      NapotDecodes(start, order);
    }
  }

  lemma Four()
    ensures Pow2(2) == 4
  {
  }

  lemma AllOnes()
    ensures NapotBase(TWO_64 - 1) == 0 && NapotSize(TWO_64 - 1) == Pow2(XLEN + 3)
  {
    hide Pow2;
    WholeWord();
    OnesBelow(0, 65);
    HalfBelow(65);
    QuotientOf(0, TWO_64 - 1, Pow2(65));
  }

  /** The control and status registers that sbi_lib.c can reach. */
  class Csrs {
    var pmpcfg0: bv64
    const pmpaddr: array<u64>

    constructor ()
      ensures pmpaddr.Length == 8 && fresh(pmpaddr) && pmpcfg0 == 0
    {
      pmpcfg0 := 0;
      pmpaddr := new u64[8](_ => 0);
    }

    ghost function EntryAt(i: nat): Entry
      requires i < 8 == pmpaddr.Length
      reads this, pmpaddr
    {
      Decode(Digit(pmpcfg0, i), pmpaddr[i])
    }

    /** All eight entries. */
    ghost function Entries(): (r: seq<Entry>)
      requires pmpaddr.Length == 8
      reads this, pmpaddr
      ensures |r| == 8 && forall i: nat | i < 8 :: r[i] == EntryAt(i)
    {
      [EntryAt(0), EntryAt(1), EntryAt(2), EntryAt(3), EntryAt(4), EntryAt(5), EntryAt(6), EntryAt(7)]
    }

    /** read_csr_num for a config register: 0 for one it does not know. */
    method ReadCfg(num: int) returns (v: bv64)
      ensures v == if num == CSR_PMPCFG0 then pmpcfg0 else 0
    {
      return if num == CSR_PMPCFG0 then pmpcfg0 else 0;
    }

    /** write_csr_num; numbers it does not know are ignored. */
    method WriteCfg(num: int, v: bv64)
      modifies this`pmpcfg0
      ensures pmpcfg0 == if num == CSR_PMPCFG0 then v else old(pmpcfg0)
    {
      if num == CSR_PMPCFG0 {
        pmpcfg0 := v;
      }
    }

    method WriteAddr(num: int, v: u64)
      requires pmpaddr.Length == 8
      modifies this`pmpcfg0, pmpaddr
      ensures pmpcfg0 == if num == CSR_PMPCFG0 then v as bv64 else old(pmpcfg0)
      ensures pmpaddr[..] == if CSR_PMPADDR0 <= num < CSR_PMPADDR0 + 8 then old(pmpaddr[..])[num - CSR_PMPADDR0 := v]
                             else old(pmpaddr[..])
    {
      if CSR_PMPADDR0 <= num < CSR_PMPADDR0 + 8 {
        pmpaddr[num - CSR_PMPADDR0] := v;
      } else if num == CSR_PMPCFG0 {
        pmpcfg0 := v as bv64;
      }
    }

    /** The register writes of sbi_set_pmp: the config byte of one entry, and its address. */
    method WriteEntry(regIdx: int, pmpaddr0: u64, prot: bv64)
      requires pmpaddr.Length == 8 && regIdx <= MAX_CSR_PMP
      modifies this`pmpcfg0, pmpaddr
      ensures regIdx != ON_CONFIG ==> forall j: nat | j < 8 && j != regIdx :: EntryAt(j) == old(EntryAt(j))
      ensures regIdx != ON_CONFIG ==>
                forall j: nat | j < 8 ::
                  Digit(pmpcfg0, j) == if j == regIdx then prot & 0xff else Digit(old(pmpcfg0), j)
      ensures 0 <= regIdx < 8 ==> EntryAt(regIdx) == Decode(prot & 0xff, pmpaddr0)
      ensures regIdx == ON_CONFIG ==> pmpcfg0 == pmpaddr0 as bv64 && pmpaddr[..] == old(pmpaddr[..])
    {
      hide Decode, SetByte, Shift, Digit;
      ghost var cfg0 := pmpcfg0;
      var n := CSR_PMPCFG0 + regIdx / 4;
      var pmpcfgCsr := n - n % 2;
      var shift := Shift(regIdx % 8);
      var pmpcfg := ReadCfg(pmpcfgCsr);
      WriteAddr(CSR_PMPADDR0 + regIdx, pmpaddr0);
      WriteCfg(pmpcfgCsr, SetByte(pmpcfg, shift, prot));
      if 0 <= regIdx < 8 {
        forall j: nat | j < 8
          ensures Digit(pmpcfg0, j) == if j == regIdx then prot & 0xff else Digit(cfg0, j)
        {
          OneByteSet(cfg0, regIdx, j, prot);
        }
      }
    }

    /** sbi_set_pmp: refuses an index above 8 and sizes of at most 2. It accepts index 8 and negative ones
        but sets nothing, except that index -16 replaces all eight config bytes by the address word. */
    method SetPmp(regIdx: int, start: u64, size: u64, prot0: bv64) returns (r: int)
      requires pmpaddr.Length == 8
      modifies this`pmpcfg0, pmpaddr
      ensures r == if regIdx > 8 || size <= 2 then -1 else 0
      ensures r != 0 || regIdx != ON_CONFIG ==>
                forall j: nat | j < 8 && (r != 0 || j != regIdx) :: EntryAt(j) == old(EntryAt(j))
      ensures r == 0 && 0 <= regIdx < 8 ==> EntryAt(regIdx) == Wanted(start, size, prot0)
      ensures r == 0 && regIdx != ON_CONFIG ==>
                forall j: nat | j < 8 ::
                  Digit(pmpcfg0, j) == if j == regIdx then ConfigByte(size, prot0) else Digit(old(pmpcfg0), j)
      ensures r == 0 && regIdx == ON_CONFIG ==>
                pmpcfg0 == AddressWord(start, size) && pmpaddr[..] == old(pmpaddr[..])
    {
      hide Decode, Digit, Wanted, Pow2, WithMode, ConfigByte, AddressFor, AddressWord;
      if regIdx > MAX_CSR_PMP {
        return -1;
      }
      var order := Log2Roundup(size);
      OrderIsLeast(size, 0);
      if order < PMP_SHIFT {
        return -1;
      }
      var mode := if order == PMP_SHIFT then PMP_A_NA4 else PMP_A_NAPOT;
      AddressDecodes(start, size, prot0);
      ByteFor(size, prot0, mode);
      WordFor(start, size);
      var addr := PmpAddr(start, order);
      WriteEntry(regIdx, addr, WithMode(prot0, mode));
      return 0;
    }
  }

  /** The address register of sbi_set_pmp. The low bits are cleared before the or, which then adds. */
  method PmpAddr(start: u64, order: nat) returns (pmpaddr: nat)
    requires PMP_SHIFT <= order <= XLEN
    ensures pmpaddr == AddressFor(start, order)
  {
    pmpaddr := start / 4;
    if order > PMP_SHIFT {
      if order == XLEN {
        pmpaddr := TWO_64 - 1;
      } else {
        var addrmask := Pow2(order - PMP_SHIFT) - 1;
        pmpaddr := pmpaddr - pmpaddr % (addrmask + 1);
        pmpaddr := pmpaddr + addrmask / 2;
      }
    }
  }

  /** The region asked for lies around start, naturally aligned, for every start. */
  lemma RegionAround(start: u64, size: u64, prot: bv64)
    requires size > 2 && Order(size, 0) < XLEN
    ensures var w := Wanted(start, size, prot);
            w.Region? && w.size > 0 && w.base <= start < w.base + w.size && exists q: nat :: w.base == q * w.size
  {
    hide Pow2, Order;
    var d := Pow2(Order(size, 0));
    assert Wanted(start, size, prot).base == start / d * d;
    Floor(start, d);
  }

  lemma Floor(x: nat, d: nat)
    requires d > 0
    ensures x / d * d <= x < x / d * d + d
  {
  }

  lemma LargestSize()
    ensures Order(TWO_64 - 1, 0) == XLEN && Pow2(XLEN + 3) == 8 * TWO_64
  {
    hide Pow2, Order;
    WholeWord();
    EightTimes();
    OrderIsLeast(TWO_64 - 1, 0);
    if Order(TWO_64 - 1, 0) < XLEN {
      Grows(Order(TWO_64 - 1, 0), 63);
    }
  }

  lemma EightTimes()
    ensures Pow2(67) == 8 * Pow2(64) && Pow2(64) == 2 * Pow2(63)
  {
    PowAdd(3, 64);
    PowAdd(1, 63);
    assert Pow2(3) == 8;
  }

  /** The call that the firmware makes: entry 1 opens the whole address space, entry 0 stays as it was. */
  method OpenMemory(csrs: Csrs) returns (r: int)
    requires csrs.pmpaddr.Length == 8
    modifies csrs`pmpcfg0, csrs.pmpaddr
    ensures r == 0 && Digit(csrs.pmpcfg0, 1) == 0x1f
    ensures forall j: nat | j < 8 && j != 1 :: Digit(csrs.pmpcfg0, j) == Digit(old(csrs.pmpcfg0), j)
    ensures csrs.EntryAt(1) == Region(0, 8 * TWO_64, 7) && csrs.EntryAt(0) == old(csrs.EntryAt(0))
  {
    hide Decode, Digit, Pow2;
    LargestSize();
    r := csrs.SetPmp(1, 0, TWO_64 - 1, 7);
  }

  // ----- runs

  datatype Call = Call(regIdx: int, start: u64, size: u64, prot: bv64)

  /** What the entries are after a run of calls. */
  function AfterCalls(e: seq<Entry>, calls: seq<Call>): (r: seq<Entry>)
    requires |e| == 8
    ensures |r| == 8
  {
    if calls == [] then e
    else
      var c, before := calls[|calls| - 1], AfterCalls(e, calls[..|calls| - 1]);
      if 0 <= c.regIdx < 8 && c.size > 2 then before[c.regIdx := Wanted(c.start, c.size, c.prot)] else before
  }

  /** A run of calls on the registers; index -16 would write the config register instead of an entry. */
  method Configure(csrs: Csrs, calls: seq<Call>)
    requires csrs.pmpaddr.Length == 8 && forall c <- calls :: c.regIdx != ON_CONFIG
    modifies csrs`pmpcfg0, csrs.pmpaddr
    ensures csrs.Entries() == AfterCalls(old(csrs.Entries()), calls)
  {
    hide Wanted, Decode;
    var i := 0;
    assert calls[..0] == [];
    while i < |calls|
      invariant 0 <= i <= |calls| && csrs.Entries() == AfterCalls(old(csrs.Entries()), calls[..i])
    {
      var c := calls[i];
      assert calls[..i + 1][..i] == calls[..i];
      var r := csrs.SetPmp(c.regIdx, c.start, c.size, c.prot);
      i := i + 1;
    }
    assert calls[..|calls|] == calls;
  }

  /** For a start aligned to the rounded size: the last accepted call for an entry decides it, the region
      starts where asked and is of the least power of two that covers the size asked for. */
  lemma {:induction false} LastCallDecides(e: seq<Entry>, calls: seq<Call>, k: nat)
    requires |e| == 8 && k < |calls| && 0 <= calls[k].regIdx < 8 && calls[k].size > 2
    requires forall j | k < j < |calls| :: calls[j].regIdx != calls[k].regIdx || calls[j].size <= 2
    ensures AfterCalls(e, calls)[calls[k].regIdx] == Wanted(calls[k].start, calls[k].size, calls[k].prot)
  {
    var n := |calls| - 1;
    if k < n {
      assert calls[..n][k] == calls[k];
      LastCallDecides(e, calls[..n], k);
    }
  }

  lemma AlignedRegion(start: u64, size: u64, prot: bv64)
    requires size > 2 && Order(size, 0) < XLEN && start % Pow2(Order(size, 0)) == 0
    ensures var w, n := Wanted(start, size, prot), Order(size, 0);
            && w == Region(start, Pow2(n), prot & 0xe7) && Pow2(n - 1) < size <= w.size
  {
    OrderIsLeast(size, 0);
  }
}
