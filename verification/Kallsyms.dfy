/** The kernel's symbol lookup (src/kallsyms.c) over the emitted tables. */
module Kallsyms {
  import opened Words
  import opened Tokens
  import opened KallsymsTool
  import opened KallsymsImage

  /** A little-endian unsigned int in memory. */
  function ReadU32(b: seq<byte>, o: nat): nat
    requires o + 4 <= |b|
  {
    (b[o] as nat) + (b[o + 1] as nat) * 0x100 + (b[o + 2] as nat) * 0x1_0000 + (b[o + 3] as nat) * 0x100_0000
  }

  /** The symbol that get_symbol_offset really finds for a position: the markers are 8 bytes apart but
      read 4 bytes apart, so block w is looked up in marker w / 2, or, in its upper half, as 0. */
  function SymbolRead(pos: nat): (r: nat)
    ensures r <= pos
  {
    var w := pos / 256;
    (if w % 2 == 0 then w / 2 * 256 else 0) + pos % 256
  }

  lemma QuadHalves(x: nat)
    requires x < 0x1_0000_0000
    ensures ReadU32(Quad(x), 0) == x && ReadU32(Quad(x), 4) == 0
  {
    assert x / 0x100 / 0x100 == x / 0x1_0000;
    assert x / 0x1_0000 / 0x100 == x / 0x100_0000;
  }

  lemma {:induction false} MarkerWord(syms: seq<Name>, n: nat, w: nat)
    requires n * 256 < |syms| + 256 && w < 2 * n && forall k | 0 <= k < |syms| :: |syms[k]| < 256
    requires |Stream(syms, |syms|)| < 0x8000_0000
    ensures ReadU32(Markers(syms, n), 4 * w) == if w % 2 == 0 then |Stream(syms, w / 2 * 256)| else 0
  {
    hide Stream, Quad;
    var x := |Stream(syms, (n - 1) * 256)|;
    StreamPrefix(syms, (n - 1) * 256, |syms|);
    QuadHalves(x);
    var m := Markers(syms, n);
    if w / 2 == n - 1 {
      assert m[8 * (n - 1)..] == Quad(x);
      HalfOfTail(m, 8 * (n - 1), w % 2);
    } else {
      MarkerWord(syms, n - 1, w);
      assert m[..8 * (n - 1)] == Markers(syms, n - 1);
      SameHead(m, Markers(syms, n - 1), 4 * w);
    }
  }

  /** The block in which SymbolRead looks is the one whose offset the kernel reads for the position. */
  lemma BlockRead(syms: seq<Name>, pos: nat)
    requires pos < |syms| && (forall k | 0 <= k < |syms| :: |syms[k]| < 256) && |Stream(syms, |syms|)| < 0x8000_0000
    ensures SymbolRead(pos) % 256 == pos % 256 && pos % 256 <= SymbolRead(pos)
    ensures |Stream(syms, SymbolRead(pos) - pos % 256)|
            == ReadU32(Markers(syms, (|syms| + 255) / 256), 4 * (pos / 256))
  {
    hide Markers, ReadU32;
    MarkerWord(syms, (|syms| + 255) / 256, pos / 256);
    EmptyStream(syms);
  }

  lemma EmptyStream(syms: seq<Name>)
    requires forall k | 0 <= k < |syms| :: |syms[k]| < 256
    ensures |Stream(syms, 0)| == 0
  {
  }

  lemma HalfOfTail(m: seq<byte>, o: nat, h: nat)
    requires |m| == o + 8 && h < 2
    ensures ReadU32(m, o + 4 * h) == ReadU32(m[o..], 4 * h)
  {
  }

  lemma SameHead(m: seq<byte>, p: seq<byte>, o: nat)
    requires o + 4 <= |p| <= |m| && m[..|p|] == p
    ensures ReadU32(m, o) == ReadU32(p, o)
  {
    assert forall j | o <= j < o + 4 :: m[j] == p[j];
  }

  /** get_symbol_offset. */
  method GetSymbolOffset(m: Image, pos: nat, ghost t: Codes, ghost syms: seq<Name>) returns (off: nat)
    requires IsImage(m, t, syms) && pos < |syms|
    ensures off == |Stream(syms, SymbolRead(pos))|
  {
    hide Stream, Markers, Acyclic, ExpandCode, TokenTable;
    MarkerWord(syms, (|syms| + 255) / 256, pos / 256);
    var name := ReadU32(m.markers, 4 * (pos / 256));
    ghost var first := SymbolRead(pos) - pos % 256;
    NoStream(syms);
    var i := 0;
    while i < pos % 256
      invariant 0 <= i <= pos % 256
      invariant name == |Stream(syms, first + i)|
    {
      SymbolAt(syms, first + i);
      name := name + (m.names[name] as nat) + 1;
      i := i + 1;
    }
    return name;
  }

  lemma NoStream(syms: seq<Name>)
    requires forall k | 0 <= k < |syms| :: |syms[k]| < 256
    ensures Stream(syms, 0) == []
  {
  }

  /** The offset is that of the symbol asked for exactly when it is one of the first 256. */
  lemma OffsetRightIff(syms: seq<Name>, pos: nat)
    requires pos < |syms| && forall k | 0 <= k < |syms| :: |syms[k]| < 256
    ensures |Stream(syms, SymbolRead(pos))| == |Stream(syms, pos)| <==> pos < 256
  {
    StreamPrefix(syms, SymbolRead(pos), pos);
    if pos >= 256 {
      assert SymbolRead(pos) < pos;
    }
  }

  /** With 257 symbols the last one is looked up as the first. */
  lemma OffsetWrongAt256(x: byte)
    ensures var syms := seq(257, i => [x]);
            SymbolRead(256) == 0 && |Stream(syms, SymbolRead(256))| != |Stream(syms, 256)|
  {
    OffsetRightIff(seq(257, i => [x]), 256);
  }

  /** A name without its type character. */
  function Tail(s: Name): Name { if s == [] then [] else s[1..] }

  /** The result buffer after the text was decoded: all of it but the first character. */
  ghost predicate Holds(now: seq<byte>, was: seq<byte>, out: nat, skipped: bool, text: Name) {
    var all :=
      && |now| == |was| && skipped == (text != []) && out == |Tail(text)| <= |now| && now[..out] == Tail(text)
      && forall j | out <= j < |now| :: now[j] == was[j];
    all
  }

  lemma HoldsMore(now: seq<byte>, now': seq<byte>, was: seq<byte>, out: nat, skipped: bool, text: Name, c: byte)
    requires Holds(now, was, out, skipped, text) && (skipped ==> out < |now|)
    requires now' == if skipped then now[out := c] else now
    ensures Holds(now', was, if skipped then out + 1 else out, true, text + [c])
  {
    if skipped {
      assert Tail(text + [c]) == Tail(text) + [c];
    } else {
      assert text + [c] == [c];
    }
  }

  /** The inner loop of kallsyms_expand_symbol: one token, up to its zero. It returns false instead of
      writing behind the buffer. */
  method CopyToken(table: seq<byte>, tptr0: nat, result: array<byte>, out0: nat, skipped0: bool,
                   ghost was: seq<byte>, ghost text: Name, ghost x: Name)
    returns (out: nat, skipped: bool, inside: bool)
    requires tptr0 + |x| < |table| && table[tptr0..tptr0 + |x|] == x && table[tptr0 + |x|] == 0 && 0 !in x
    requires Holds(result[..], was, out0, skipped0, text)
    modifies result
    ensures inside <==> |Tail(text + x)| <= result.Length
    ensures inside ==> Holds(result[..], was, out, skipped, text + x)
  {
    hide Holds, Tail;
    out, skipped := out0, skipped0;
    var tptr := tptr0;
    ghost var n := 0;
    assert text + x[..0] == text;
    while table[tptr] != 0
      invariant 0 <= n <= |x| && tptr == tptr0 + n
      invariant Holds(result[..], was, out, skipped, text + x[..n])
      decreases |x| - n
    {
      assert table[tptr] == x[n];
      ghost var now := result[..];
      assert text + x[..n] + [table[tptr]] == text + x[..n + 1];
      if skipped {
        if out >= result.Length {
          NoRoom(now, was, out, skipped, text, x, n);
          return out, skipped, false;
        }
        result[out] := table[tptr];
        HoldsMore(now, result[..], was, out, skipped, text + x[..n], table[tptr]);
        out := out + 1;
      } else {
        HoldsMore(now, result[..], was, out, skipped, text + x[..n], table[tptr]);
        skipped := true;
      }
      tptr := tptr + 1;
      n := n + 1;
    }
    assert x[..n] == x;
    TextFits(result[..], was, out, skipped, text + x);
    return out, skipped, true;
  }

  lemma TextFits(now: seq<byte>, was: seq<byte>, out: nat, skipped: bool, text: Name)
    requires Holds(now, was, out, skipped, text)
    ensures out == |Tail(text)| <= |now|
  {
  }

  lemma NoRoom(now: seq<byte>, was: seq<byte>, out: nat, skipped: bool, text: Name, x: Name, n: nat)
    requires n < |x| && Holds(now, was, out, skipped, text + x[..n]) && skipped && out >= |now|
    ensures |Tail(text + x)| > |now|
  {
  }

  /** kallsyms_expand_symbol on symbol k: its original name without the type character, with a closing
      zero; nothing else in the buffer changes. It returns false instead of writing behind the buffer,
      which the code would do exactly when the name and its zero do not fit. */
  method ExpandSymbol(m: Image, off: nat, result: array<byte>, ghost t: Codes, ghost syms: seq<Name>, ghost k: nat)
    returns (next: nat, inside: bool)
    requires IsImage(m, t, syms) && k < |syms| && off == |Stream(syms, k)|
    modifies result
    ensures inside <==> |Tail(Expand(t, syms[k]))| < result.Length
    ensures inside ==>
              var name := Tail(Expand(t, syms[k]));
              && result[..|name|] == name && result[|name|] == 0
              && (forall j | |name| < j < result.Length :: result[j] == old(result[j]))
              && next == |Stream(syms, k + 1)|
  {
    hide Holds, Stream, Markers, TokenTable, Acyclic, Expand, ExpandCode, Tail;
    SymbolAt(syms, k);
    var data: nat, len: nat, out: nat, skipped := off + 1, m.names[off] as nat, 0, false;
    next := off + len + 1;
    ghost var was, sym, text, i := result[..], syms[k], [], 0;
    NoText(was, t, sym);
    while len > 0
      invariant 0 <= i <= |sym| && data == off + 1 + i && len == |sym| - i
      invariant text + Expand(t, sym[i..]) == Expand(t, sym)
      invariant Holds(result[..], was, out, skipped, text)
    {
      var c := m.names[data];
      assert c == m.names[off + 1..off + 1 + |sym|][i] == sym[i];
      TokenAt(t, c);
      NextToken(t, sym, i, text);
      var ok;
      out, skipped, ok := CopyToken(m.tokenTable, m.tokenIndex[c], result, out, skipped, was, text, ExpandCode(t, c));
      if !ok {
        return next, false;
      }
      text := text + ExpandCode(t, c);
      data := data + 1;
      len := len - 1;
      i := i + 1;
    }
    Complete(result[..], was, out, skipped, text, t, sym);
    if out >= result.Length {
      return next, false;
    }
    result[out] := 0;
    return next, true;
  }

  lemma NoText(was: seq<byte>, t: Codes, sym: Name)
    requires Acyclic(t)
    ensures Holds(was, was, 0, false, []) && [] + Expand(t, sym[0..]) == Expand(t, sym)
  {
    assert sym[0..] == sym;
  }

  lemma NextToken(t: Codes, sym: Name, i: nat, text: Name)
    requires Acyclic(t) && i < |sym| && text + Expand(t, sym[i..]) == Expand(t, sym)
    ensures text + ExpandCode(t, sym[i]) + Expand(t, sym[i + 1..]) == Expand(t, sym)
    ensures |Tail(text + ExpandCode(t, sym[i]))| <= |Tail(Expand(t, sym))|
  {
    assert sym[i..][1..] == sym[i + 1..];
  }

  lemma Complete(now: seq<byte>, was: seq<byte>, out: nat, skipped: bool, text: Name, t: Codes, sym: Name)
    requires Acyclic(t) && Holds(now, was, out, skipped, text) && text + Expand(t, sym[|sym|..]) == Expand(t, sym)
    ensures text == Expand(t, sym) && out == |Tail(text)| <= |now| && now[..out] == Tail(text)
    ensures forall j | out <= j < |now| :: now[j] == was[j]
  {
  }

  // ----- kallsyms_lookup

  predicate Sorted(a: seq<u64>) { forall i, j | 0 <= i <= j < |a| :: a[i] <= a[j] }

  /** The first address above the one at low, or 0 when none is. */
  function NextAbove(a: seq<u64>, low: nat, i: nat): u64
    requires low < |a|
    decreases |a| - i
  {
    if i >= |a| then 0 else if a[i] > a[low] then a[i] else NextAbove(a, low, i + 1)
  }

  /** It is the least address above the one at low, when there is one. */
  lemma {:induction false} NextAboveMeaning(a: seq<u64>, low: nat, i: nat)
    requires Sorted(a) && low < i <= |a|
    ensures if forall j | i <= j < |a| :: a[j] == a[low] then NextAbove(a, low, i) == 0
            else NextAbove(a, low, i) > a[low]
                 && (exists j :: i <= j < |a| && a[j] == NextAbove(a, low, i))
                 && forall j | i <= j < |a| && a[j] > a[low] :: NextAbove(a, low, i) <= a[j]
    decreases |a| - i
  {
    if i < |a| && a[i] == a[low] {
      NextAboveMeaning(a, low, i + 1);
      if j :| i + 1 <= j < |a| && a[j] == NextAbove(a, low, i) && a[j] > a[low] {
        assert a[j] != a[low];
      }
    } else if i < |a| {
      assert a[i] > a[low];
    }
  }

  /** The binary search of kallsyms_lookup: everything above low is above addr, and low itself is not,
      unless addr lies below the first symbol. */
  method Search(addresses: seq<u64>, addr: u64) returns (low: nat)
    requires Sorted(addresses) && |addresses| > 0
    ensures low < |addresses| && forall j | low < j < |addresses| :: addresses[j] > addr
    ensures if addresses[0] <= addr then addresses[low] <= addr else low == 0
  {
    var high := |addresses|;
    low := 0;
    while high - low > 1
      invariant 0 <= low < high <= |addresses|
      invariant low == 0 || addresses[low] <= addr
      invariant forall j | high <= j < |addresses| :: addresses[j] > addr
    {
      var mid := (low + high) / 2;
      if addresses[mid] <= addr {
        low := mid;
      } else {
        high := mid;
      }
    }
  }

  /** What kallsyms_lookup comes to; TooLong where it would write behind namebuf. */
  datatype Found = Found(size: u64, offset: u64) | NotKernel | TooLong

  /** kallsyms_lookup. The low-th symbol is the last one at or below addr; the name written is that of
      SymbolRead(low), which fits namebuf exactly when it has at most KSYM_NAME_LEN bytes with its type. */
  method Lookup(m: Image, addresses: seq<u64>, stext: u64, etext: u64, addr: u64, namebuf: array<byte>,
                ghost t: Codes, ghost syms: seq<Name>)
    returns (r: Found, ghost low: nat)
    requires IsImage(m, t, syms) && |addresses| == |syms| > 0 && Sorted(addresses) && namebuf.Length == 128
    modifies namebuf
    ensures r.NotKernel? <==> !(stext <= addr <= etext)
    ensures r.NotKernel? ==> namebuf[0] == 0 && namebuf[127] == 0
    ensures low < |addresses| && forall j | low < j < |addresses| :: addresses[j] > addr
    ensures if addresses[0] <= addr then addresses[low] <= addr else low == 0
    ensures r.TooLong? <==> stext <= addr <= etext && |Expand(t, syms[SymbolRead(low)])| > 128
    ensures r.Found? ==>
              && r.offset == Wrap(addr - addresses[low])
              && r.size == Wrap(NextAbove(addresses, low, low + 1) - addresses[low])
              && Reads(namebuf[..], Tail(Expand(t, syms[SymbolRead(low)])))
  {
    hide IsImage, Expand, Stream;
    low := 0;
    namebuf[KSYM_NAME_LEN - 1] := 0;
    namebuf[0] := 0;
    var low' := Search(addresses, addr);
    low := low';
    if !(stext <= addr <= etext) {
      return NotKernel, low;
    }
    var symbolEnd: u64 := 0;
    var off := GetSymbolOffset(m, low', t, syms);
    var _, inside := ExpandSymbol(m, off, namebuf, t, syms, SymbolRead(low'));
    if !inside {
      return TooLong, low;
    }
    var i := low' + 1;
    while i < |addresses|
      invariant low' < i <= |addresses|
      invariant symbolEnd == 0 && NextAbove(addresses, low', low' + 1) == NextAbove(addresses, low', i)
    {
      if addresses[i] > addresses[low'] {
        symbolEnd := addresses[i];
        break;
      }
      i := i + 1;
    }
    return Found(Wrap(symbolEnd - addresses[low']), Wrap(addr - addresses[low'])), low;
  }

  /** For an address at or above the first symbol that is followed by a symbol at a larger address, the
      offset lies within the size. */
  lemma OffsetWithinSize(addresses: seq<u64>, addr: u64, low: nat)
    requires Sorted(addresses) && low < |addresses| && addresses[low] <= addr
    requires forall j | low < j < |addresses| :: addresses[j] > addr
    ensures (exists j :: low < j < |addresses| && addresses[j] > addresses[low]) <==> low + 1 < |addresses|
    ensures low + 1 < |addresses| ==>
              Wrap(addr - addresses[low]) < Wrap(NextAbove(addresses, low, low + 1) - addresses[low])
                                          == addresses[low + 1] - addresses[low]
    ensures low + 1 == |addresses| ==> NextAbove(addresses, low, low + 1) == 0
  {
    if low + 1 < |addresses| {
      assert addresses[low + 1] > addresses[low];
    }
  }

  /** Each compressed symbol stands for the original at the same position. */
  ghost predicate StandsFor(t: Codes, syms: seq<Name>, orig: seq<Name>) {
    Acyclic(t) && |syms| == |orig| && forall k: nat | k < |syms| :: Expand(t, syms[k]) == orig[k]
  }

  /** The symbol list as the tool accepts it: at least one symbol, none longer than read_symbol lets
      through, no zero bytes, less than 2 GB. */
  ghost predicate Accepted(orig: seq<Name>) {
    && orig != [] && (forall k | 0 <= k < |orig| :: |orig[k]| <= 129 && 0 !in orig[k])
    && TotalLength(orig) + |orig| < 0x8000_0000
  }

  ghost predicate AllShort(orig: seq<Name>) { forall k | 0 <= k < |orig| :: |orig[k]| < 128 }

  /** The compressor followed by the emitter. The emitter stays inside its buffer exactly when every code
      of the table expands to fewer than KSYM_NAME_LEN bytes. For that it is enough that every symbol is
      that short, and for lists so short that codes cannot run out it is necessary too. */
  method Build(tool: Tool) returns (e: Emission, ghost t: Codes, ghost syms: seq<Name>)
    requires tool.Valid() && Accepted(tool.Names()) && forall p | 0 <= p < NR_PAIRS :: tool.profit[p] == 0
    modifies tool, tool.profit, tool.table
    ensures tool.Valid() && t == tool.best && syms == tool.Names() && StandsFor(t, syms, old(tool.Names()))
    ensures Greedily(old(tool.Names()), t, syms)
    ensures e.Emitted? <==> CodesFit(t)
    ensures e.Emitted? ==> IsImage(e.image, t, syms)
    ensures AllShort(old(tool.Names())) ==> e.Emitted?
    ensures FewBytes(old(tool.Names())) ==> (e.Emitted? <==> AllShort(old(tool.Names())))
  {
    hide Lossless, TotalLength, Emittable, IsImage, StandsFor, CodesFit, Distinct, Total, Greedily;
    ghost var orig := tool.Names();
    var ok := tool.OptimizeTokenTable();
    var names := tool.Symbols();
    t, syms := tool.best, names;
    CompressedIsEmittable(t, syms, orig);
    Originals(t, syms, orig);
    e := WriteSrc(tool.best, names);
    if AllShort(orig) {
      ShortFits(t, syms, orig);
    }
    if FewBytes(orig) {
      FitsIff(t, syms, orig);
    }
  }

  /** A concrete input: from a single symbol of 128 or 129 x's, which read_symbol accepts, the emitter
      writes behind its buffer. */
  method LongSymbolOverruns(x: byte, n: nat) returns (e: Emission)
    requires x != 0 && 128 <= n <= 129
    ensures e.Overrun?
  {
    var sym := new byte[n + 1](i => if i < n then x else 0);
    var tool := new Tool([sym], [n]);
    ghost var orig := [seq(n, _ => x)];
    assert |tool.Names()| == 1 && tool.Names()[0] == sym[..n] == orig[0];
    assert tool.Names() == orig;
    LongSymbol(x, n);
    assert TotalLength(orig[1..]) == 0;
    var e', _, _ := Build(tool);
    e := e';
  }

  lemma Originals(t: Codes, syms: seq<Name>, orig: seq<Name>)
    requires Lossless(t, syms, orig, -1)
    ensures StandsFor(t, syms, orig)
  {
    hide Acyclic, Expand, ExpandCode, Part;
  }

  /** The buffer holds the name with a closing zero. */
  ghost predicate Reads(buf: seq<byte>, name: Name) {
    |name| < |buf| && buf[..|name|] == name && buf[|name|] == 0
  }

  /** What a lookup says about the original symbols. The low-th symbol is the last one at or below the
      address. The answer has its offset and size, with the offset inside the size when another symbol
      follows; the name is the one of SymbolRead(low), so the right one for the first 256 symbols. */
  ghost predicate Answers(r: Found, low: nat, buf: seq<byte>, orig: seq<Name>, addresses: seq<u64>,
                          stext: u64, etext: u64, addr: u64)
    requires |orig| == |addresses|
  {
    && low < |addresses| && (forall j | low < j < |addresses| :: addresses[j] > addr)
    && (if addresses[0] <= addr then addresses[low] <= addr else low == 0)
    && (r.NotKernel? <==> !(stext <= addr <= etext))
    && (r.TooLong? <==> stext <= addr <= etext && |orig[SymbolRead(low)]| > 128)
    && (r.Found? ==>
          && r.offset == Wrap(addr - addresses[low])
          && r.size == Wrap(NextAbove(addresses, low, low + 1) - addresses[low])
          && (addresses[0] <= addr && low + 1 < |addresses| ==>
                r.offset == addr - addresses[low] < r.size == addresses[low + 1] - addresses[low])
          && Reads(buf, Tail(orig[SymbolRead(low)])) && (low < 256 ==> Reads(buf, Tail(orig[low]))))
  }

  /** A lookup in the image of compressed symbols. */
  method LookupOriginal(m: Image, addresses: seq<u64>, stext: u64, etext: u64, addr: u64, namebuf: array<byte>,
                        ghost t: Codes, ghost syms: seq<Name>, ghost orig: seq<Name>)
    returns (r: Found, ghost low: nat)
    requires IsImage(m, t, syms) && StandsFor(t, syms, orig) && |addresses| == |orig| > 0 && Sorted(addresses)
    requires namebuf.Length == 128
    modifies namebuf
    ensures Answers(r, low, namebuf[..], orig, addresses, stext, etext, addr)
  {
    hide IsImage, Acyclic, Expand, Reads;
    r, low := Lookup(m, addresses, stext, etext, addr, namebuf, t, syms);
    assert Expand(t, syms[SymbolRead(low)]) == orig[SymbolRead(low)];
    if addresses[0] <= addr {
      OffsetWithinSize(addresses, addr, low);
    }
  }

  /** End to end: compress any sorted list of symbols without zero bytes, emit the tables, and look an
      address up. Emission stays inside its buffer exactly when the codes of the tool's table fit, and
      then the lookup answers in terms of the original symbols. Symbols shorter than KSYM_NAME_LEN never
      run over a buffer on the way. */
  method BuildAndLookup(tool: Tool, addresses: seq<u64>, stext: u64, etext: u64, addr: u64, namebuf: array<byte>)
    returns (e: Emission, r: Found, ghost low: nat)
    requires tool.Valid() && Accepted(tool.Names()) && forall p | 0 <= p < NR_PAIRS :: tool.profit[p] == 0
    requires |addresses| == |tool.table| > 0 && Sorted(addresses)
    requires namebuf.Length == 128 && namebuf !in tool.table
    modifies tool, tool.profit, tool.table, namebuf
    ensures tool.Valid() && StandsFor(tool.best, tool.Names(), old(tool.Names()))
    ensures e.Emitted? <==> CodesFit(tool.best)
    ensures FewBytes(old(tool.Names())) ==> (e.Emitted? <==> AllShort(old(tool.Names())))
    ensures e.Emitted? ==> Answers(r, low, namebuf[..], old(tool.Names()), addresses, stext, etext, addr)
    ensures AllShort(old(tool.Names())) ==> e.Emitted? && !r.TooLong?
  {
    hide TotalLength, IsImage, CodesFit, FewBytes, Accepted, StandsFor, Sorted, Tool.Valid;
    ghost var orig := tool.Names();
    ghost var t, syms;
    e, t, syms := Build(tool);
    r, low := TooLong, 0;
    if e.Emitted? {
      r, low := LookupOriginal(e.image, addresses, stext, etext, addr, namebuf, t, syms, orig);
    }
  }
}
