/** The block memset of memset.c against the byte loop. */
module Memset {
  import opened Words

  const ALIGN: nat := 16

  /** The value C stores for an int argument converted to char. */
  function CharOf(c: int): byte { c % 256 }

  /** It is the one byte that differs from c by a multiple of 256: c itself when that is a byte. */
  lemma CharIsLowByte(c: int, b: byte)
    ensures b == CharOf(c) <==> (c - b) % 256 == 0
    ensures 0 <= c < 256 ==> CharOf(c) == c
  {
  }

  /** The count bytes from s on are b; nothing else changed. */
  ghost predicate Filled(was: seq<byte>, now: seq<byte>, s: nat, count: nat, b: byte) {
    && s + count <= |was| == |now|
    && (forall j | s <= j < s + count :: now[j] == b)
    && (forall j | 0 <= j < s || s + count <= j < |was| :: now[j] == was[j])
  }

  lemma FilledThen(was: seq<byte>, mid: seq<byte>, now: seq<byte>, s: nat, m: nat, n: nat, b: byte)
    requires Filled(was, mid, s, m, b) && Filled(mid, now, s + m, n, b)
    ensures Filled(was, now, s, m + n, b)
  {
  }

  /** __memset_1bytes. */
  method Memset1Bytes(mem: array<byte>, s: nat, c: int, count0: nat)
    requires s + count0 <= mem.Length
    modifies mem
    ensures Filled(old(mem[..]), mem[..], s, count0, CharOf(c))
    ensures forall j | s <= j < s + count0 :: (c - mem[j]) % 256 == 0 && (0 <= c < 256 ==> mem[j] == c)
  {
    CharIsLowByte(c, CharOf(c));
    var xs, count := s, count0;
    while count > 0
      invariant 0 <= count <= count0 && xs == s + (count0 - count)
      invariant Filled(old(mem[..]), mem[..], s, count0 - count, CharOf(c))
    {
      count := count - 1;
      mem[xs] := CharOf(c);
      xs := xs + 1;
    }
  }

  predicate Aligned(x: int, n: nat)
    requires n > 0
  {
    x % n == 0
  }

  lemma HalfBlocks(x: int, i: nat)
    requires Aligned(x, 16) && i % 16 == 0
    ensures Aligned(x + i, 8) && Aligned(x + i + 8, 8)
  {
  }

  /** sd: eight bytes, lowest first, to a naturally aligned address; mem[0] lies at base. */
  method StoreDouble(mem: array<byte>, p: nat, val: seq<byte>, ghost base: int)
    requires |val| == 8 && p + 8 <= mem.Length && Aligned(base + p, 8)
    modifies mem
    ensures mem[..] == old(mem[..p]) + val + old(mem[p + 8..])
  {
    forall j | 0 <= j < 8 {
      mem[p + j] := val[j];
    }
  }

  /** __memset_16bytes_inline_asm; count is a positive multiple of 16, and the address is aligned. */
  method Memset16Bytes(mem: array<byte>, p0: nat, val: seq<byte>, count: nat, ghost b: byte, ghost base: int)
    requires |val| == 8 && (forall i | 0 <= i < 8 :: val[i] == b)
    requires count > 0 && count % 16 == 0 && p0 + count <= mem.Length && Aligned(base + p0, 16)
    modifies mem
    ensures Filled(old(mem[..]), mem[..], p0, count, b)
  {
    hide Aligned;
    var i, p, more := 0, p0, true;
    while more
      invariant 0 <= i <= count && i % 16 == 0 && p == p0 + i && more == (i < count)
      invariant Filled(old(mem[..]), mem[..], p0, i, b)
      decreases count - i
    {
      ghost var mid := mem[..];
      HalfBlocks(base + p0, i);
      StoreDouble(mem, p, val, base);
      StoreDouble(mem, p + 8, val, base);
      FilledThen(old(mem[..]), mid, mem[..], p0, i, 16, b);
      i := i + 16;
      p := p + 16;
      more := i < count;
    }
  }

  /** __memset at address address, which is where mem[s] lies: the same bytes as the byte loop, for any
      alignment and any count below 2^31, with every eight-byte store naturally aligned. */
  method Memset(mem: array<byte>, s: nat, address: nat, c: int, count: nat)
    requires s + count <= mem.Length && count < 0x8000_0000
    modifies mem
    ensures Filled(old(mem[..]), mem[..], s, count, CharOf(c))
    ensures forall j | s <= j < s + count :: (c - mem[j]) % 256 == 0 && (0 <= c < 256 ==> mem[j] == c)
  {
    hide CharOf;
    CharIsLowByte(c, CharOf(c));
    var p, left := s, count;
    var data: seq<byte> := [0, 0, 0, 0, 0, 0, 0, 0];
    var i := 0;
    while i < 8
      invariant 0 <= i <= 8 && |data| == 8 && forall j | 0 <= j < i :: data[j] == CharOf(c)
    {
      data := data[i := CharOf(c)];
      i := i + 1;
    }
    ghost var was := mem[..];
    if address % 16 != 0 {
      var size := ALIGN - address % 16;
      if size > count {
        size := count;
      }
      Memset1Bytes(mem, p, c, size);
      p := p + size;
      left := count - size;
    }
    ghost var mid := mem[..];
    if left >= ALIGN {
      var n := left / ALIGN;
      left := left % ALIGN;
      Memset16Bytes(mem, p, data, 16 * n, CharOf(c), address - s);
      ghost var mid' := mem[..];
      if left > 0 {
        Memset1Bytes(mem, p + 16 * n, c, left);
      }
      FilledThen(mid, mid', mem[..], p, 16 * n, left, CharOf(c));
    } else {
      Memset1Bytes(mem, p, c, left);
    }
    FilledThen(was, mid, mem[..], s, p - s, count - (p - s), CharOf(c));
  }

  /** What early_pgtable_alloc uses it for: the whole page is zero, and nothing else is changed. */
  method ClearPage(mem: array<byte>, s: nat, address: nat)
    requires s + 4096 <= mem.Length
    modifies mem
    ensures forall j | 0 <= j < mem.Length :: mem[j] == if s <= j < s + 4096 then 0 else old(mem[j])
  {
    ghost var was := mem[..];
    Memset(mem, s, address, 0, 4096);
    forall j | 0 <= j < mem.Length ensures mem[j] == if s <= j < s + 4096 then 0 else was[j] {
      assert mem[..][j] == mem[j];
    }
  }
}
