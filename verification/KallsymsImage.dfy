/** The tables that write_src of scripts/kallsyms/kallsyms.c emits. */
module KallsymsImage {
  import opened Words
  import opened Tokens
  import opened KallsymsTool

  const KSYM_NAME_LEN: nat := 128

  /** kallsyms_names for the first n symbols: each length byte followed by the symbol. */
  function Stream(syms: seq<Name>, n: nat): seq<byte>
    requires n <= |syms| && forall k | 0 <= k < |syms| :: |syms[k]| < 256
  {
    if n == 0 then [] else Stream(syms, n - 1) + [|syms[n - 1]|] + syms[n - 1]
  }

  /** kallsyms_token_table for the first c codes: each expansion with a closing zero. */
  function TokenTable(t: Codes, c: nat): seq<byte>
    requires Acyclic(t) && c <= 256
  {
    if c == 0 then [] else TokenTable(t, c - 1) + ExpandCode(t, c - 1) + [0]
  }

  /** One entry as .quad stores it, lowest byte first. */
  function Quad(x: nat): (r: seq<byte>)
    ensures |r| == 8
  {
    [x % 0x100, x / 0x100 % 0x100, x / 0x1_0000 % 0x100, x / 0x100_0000 % 0x100,
     x / 0x1_0000_0000 % 0x100, x / 0x100_0000_0000 % 0x100,
     x / 0x1_0000_0000_0000 % 0x100, x / 0x100_0000_0000_0000 % 0x100]
  }

  /** kallsyms_markers: every 256 symbols the offset in kallsyms_names, one .quad each. */
  function Markers(syms: seq<Name>, w: nat): (r: seq<byte>)
    requires w * 256 < |syms| + 256 && forall k | 0 <= k < |syms| :: |syms[k]| < 256
    ensures |r| == 8 * w
  {
    if w == 0 then [] else Markers(syms, w - 1) + Quad(|Stream(syms, (w - 1) * 256)|)
  }

  datatype Image = Image(names: seq<byte>, markers: seq<byte>, tokenTable: seq<byte>, tokenIndex: seq<nat>)

  /** What the emitted tables need: the symbols fit their length byte, expansions hold no zero, and
      offsets fit the integers they are kept in. */
  ghost predicate Emittable(t: Codes, syms: seq<Name>) {
    && Acyclic(t)
    && (forall k | 0 <= k < |syms| :: |syms[k]| < 256)
    && (forall c: byte :: 0 !in ExpandCode(t, c))
    && |Stream(syms, |syms|)| < 0x8000_0000
  }

  /** Every expansion fits the expansion buffer of write_src together with its zero. */
  ghost predicate CodesFit(t: Codes)
    requires Acyclic(t)
  {
    forall c: byte :: |ExpandCode(t, c)| < 128
  }

  /** The four tables for the given code table and symbols. */
  ghost predicate IsImage(m: Image, t: Codes, syms: seq<Name>) {
    && Emittable(t, syms) && CodesFit(t)
    && m.names == Stream(syms, |syms|)
    && m.markers == Markers(syms, (|syms| + 255) / 256)
    && m.tokenTable == TokenTable(t, |t|)
    && |m.tokenIndex| == 256 && forall c: byte :: m.tokenIndex[c] == |TokenTable(t, c)| < 0x1_0000
  }

  lemma {:induction false} StreamPrefix(syms: seq<Name>, k: nat, n: nat)
    requires k <= n <= |syms| && forall k | 0 <= k < |syms| :: |syms[k]| < 256
    ensures |Stream(syms, k)| + (n - k) <= |Stream(syms, n)| && Stream(syms, n)[..|Stream(syms, k)|] == Stream(syms, k)
  {
    if k < n {
      StreamPrefix(syms, k, n - 1);
    }
  }

  /** Symbol k in the stream. */
  lemma SymbolAt(syms: seq<Name>, k: nat)
    requires k < |syms| && forall k | 0 <= k < |syms| :: |syms[k]| < 256
    ensures var o, s := |Stream(syms, k)|, Stream(syms, |syms|);
            && o + 1 + |syms[k]| == |Stream(syms, k + 1)| <= |s|
            && s[o] == |syms[k]| && s[o + 1..o + 1 + |syms[k]|] == syms[k]
  {
    StreamPrefix(syms, k + 1, |syms|);
    var o, s := |Stream(syms, k)|, Stream(syms, |syms|);
    assert s[..o + 1 + |syms[k]|] == Stream(syms, k) + [|syms[k]|] + syms[k];
  }

  lemma {:induction false} TokenPrefix(t: Codes, c: nat, n: nat)
    requires Acyclic(t) && c <= n <= 256
    ensures |TokenTable(t, c)| <= |TokenTable(t, n)| && TokenTable(t, n)[..|TokenTable(t, c)|] == TokenTable(t, c)
  {
    if c < n {
      TokenPrefix(t, c, n - 1);
    }
  }

  lemma TokenNext(t: Codes, c: byte)
    requires Acyclic(t)
    ensures TokenTable(t, c + 1) == TokenTable(t, c) + ExpandCode(t, c) + [0]
  {
    hide Acyclic, ExpandCode;
  }

  lemma Slices(s: seq<byte>, before: seq<byte>, x: seq<byte>)
    requires |before| + |x| < |s| && s[..|before| + |x| + 1] == before + x + [0]
    ensures s[|before|..|before| + |x|] == x && s[|before| + |x|] == 0
  {
    assert s[|before|..|before| + |x|] == s[..|before| + |x| + 1][|before|..|before| + |x|];
  }

  /** Code c in the token table. */
  lemma TokenAt(t: Codes, c: byte)
    requires Acyclic(t)
    ensures var o, s, x := |TokenTable(t, c)|, TokenTable(t, |t|), ExpandCode(t, c);
            o + |x| < |s| && s[o..o + |x|] == x && s[o + |x|] == 0
  {
    hide Acyclic, ExpandCode, TokenTable;
    TokenPrefix(t, c + 1, |t|);
    TokenNext(t, c);
    Slices(TokenTable(t, |t|), TokenTable(t, c), ExpandCode(t, c));
  }

  lemma {:induction false} TokenOffsetsSmall(t: Codes, c: nat)
    requires Acyclic(t) && c <= 256 && forall d: byte | d < c :: |ExpandCode(t, d)| < KSYM_NAME_LEN
    ensures |TokenTable(t, c)| <= KSYM_NAME_LEN * c
  {
    if c > 0 {
      TokenOffsetsSmall(t, c - 1);
    }
  }

  /** The compressor's result can be emitted for all symbols that read_symbol accepts, a type character and
      up to 128 more, and that take less than 2 GB. */
  lemma CompressedIsEmittable(t: Codes, syms: seq<Name>, orig: seq<Name>)
    requires Lossless(t, syms, orig, -1) && TotalLength(syms) <= TotalLength(orig)
    requires forall k | 0 <= k < |orig| :: |orig[k]| <= 129 && 0 !in orig[k]
    requires TotalLength(orig) + |orig| < 0x8000_0000
    ensures Emittable(t, syms)
  {
    hide Acyclic, Expand, ExpandCode, TotalLength, Coded;
    forall k | 0 <= k < |syms| ensures |syms[k]| < 256 {
      ExpandsLonger(t, syms[k]);
    }
    forall c: byte ensures 0 !in ExpandCode(t, c) {
      CodeIsPart(t, syms, orig, c);
    }
    StreamLength(syms, |syms|);
    assert syms[..|syms|] == syms;
  }

  predicate Within(x: Name, s: Name) { |x| <= |s| && forall b | b in x :: b in s }

  /** Each code is made of an original symbol. */
  lemma CodeIsPart(t: Codes, syms: seq<Name>, orig: seq<Name>, c: byte)
    requires Lossless(t, syms, orig, -1)
    ensures ExpandCode(t, c) == [] || exists k: nat :: k < |orig| && Within(ExpandCode(t, c), orig[k])
  {
    hide Acyclic, Expand, ExpandCode, Coded;
    if t[c] == [] {
      EmptyCode(t, c);
    } else {
      var k: nat, pre: Name, post: Name :| k < |orig| && orig[k] == pre + ExpandCode(t, c) + post;
      PartOf(orig[k], pre, ExpandCode(t, c), post);
    }
  }

  /** Symbols shorter than KSYM_NAME_LEN, type character included, are enough for the buffer. */
  lemma ShortFits(t: Codes, syms: seq<Name>, orig: seq<Name>)
    requires Lossless(t, syms, orig, -1) && forall k | 0 <= k < |orig| :: |orig[k]| < 128
    ensures CodesFit(t)
  {
    hide ExpandCode, Part;
    forall c: byte ensures |ExpandCode(t, c)| < KSYM_NAME_LEN {
      CodeIsPart(t, syms, orig, c);
    }
  }

  /** When the compressor stopped because no pair was left, every symbol has become a single code, so
      the buffer suffices exactly when every symbol is shorter than KSYM_NAME_LEN. */
  lemma FitsIff(t: Codes, syms: seq<Name>, orig: seq<Name>)
    requires Lossless(t, syms, orig, -1) && forall p | 0 <= p < NR_PAIRS :: Total(syms, p) == 0
    ensures CodesFit(t) <==> forall k | 0 <= k < |orig| :: |orig[k]| < 128
  {
    hide ExpandCode, Part, Total, PairCount, Expand;
    if CodesFit(t) {
      forall k | 0 <= k < |orig| ensures |orig[k]| < KSYM_NAME_LEN {
        SingleCode(t, syms, k);
      }
    } else {
      var c: byte :| |ExpandCode(t, c)| >= KSYM_NAME_LEN;
      CodeIsPart(t, syms, orig, c);
    }
  }

  lemma SingleCode(t: Codes, syms: seq<Name>, k: nat)
    requires Acyclic(t) && k < |syms| && forall p | 0 <= p < NR_PAIRS :: Total(syms, p) == 0
    ensures Expand(t, syms[k]) == [] || exists c: byte :: Expand(t, syms[k]) == ExpandCode(t, c)
  {
    hide ExpandCode;
    var s := syms[k];
    if |s| >= 2 {
      FirstPair(syms, k);
    } else if |s| == 1 {
      assert Expand(t, s) == ExpandCode(t, s[0]) + Expand(t, s[1..]);
    }
  }

  lemma FirstPair(syms: seq<Name>, k: nat)
    requires k < |syms| && |syms[k]| >= 2
    ensures Total(syms, Pair(syms[k][0], syms[k][1])) > 0
  {
    TotalIsOccurrence(syms, Pair(syms[k][0], syms[k][1]));
    assert PairCount(syms[k], Pair(syms[k][0], syms[k][1])) > 0;
  }

  /** A list with so few bytes that the codes cannot run out. */
  ghost predicate FewBytes(orig: seq<Name>) { Distinct(orig, 0) + TotalLength(orig) < 256 }

  /** The longest symbols that read_symbol accepts, and symbols one shorter, do not fit: a single symbol of
      x's ends as one code for all of it. */
  lemma LongSymbol(x: byte, n: nat)
    requires 128 <= n <= 129
    ensures FewBytes([seq(n, _ => x)]) && |[seq(n, _ => x)][0]| >= 128
  {
    OneByteSeen([seq(n, _ => x)], x, 0);
    assert TotalLength([seq(n, _ => x)][1..]) == 0;
  }

  lemma {:induction false} OneByteSeen(names: seq<Name>, x: byte, c: nat)
    requires forall k, b | 0 <= k < |names| && b in names[k] :: b == x
    ensures Distinct(names, c) <= if c <= x then 1 else 0
    decreases 256 - c
  {
    if c < 256 {
      OneByteSeen(names, x, c + 1);
    }
  }

  lemma EmptyCode(t: Codes, c: byte)
    requires Acyclic(t) && t[c] == []
    ensures ExpandCode(t, c) == []
  {
  }

  lemma PartOf(s: Name, pre: Name, x: Name, post: Name)
    requires s == pre + x + post
    ensures Within(x, s)
  {
    forall b | b in x ensures b in s {
      var j :| 0 <= j < |x| && x[j] == b;
      assert s[|pre| + j] == b;
    }
  }

  lemma {:induction false} StreamLength(syms: seq<Name>, n: nat)
    requires n <= |syms| && forall k | 0 <= k < |syms| :: |syms[k]| < 256
    ensures |Stream(syms, n)| == TotalLength(syms[..n]) + n
  {
    if n > 0 {
      StreamLength(syms, n - 1);
      TotalLengthSnoc(syms, n);
    }
  }

  lemma {:induction false} TotalLengthSnoc(syms: seq<Name>, n: nat)
    requires 0 < n <= |syms|
    ensures TotalLength(syms[..n]) == TotalLength(syms[..n - 1]) + |syms[n - 1]|
  {
    if n > 1 {
      TotalLengthSnoc(syms[1..], n - 1);
      assert syms[1..][..n - 1] == syms[..n][1..] && syms[1..][..n - 2] == syms[..n - 1][1..];
    }
  }

  /** What write_src comes to; Overrun where it would write behind its expansion buffer. */
  datatype Emission = Emitted(image: Image) | Overrun

  /** The whole of write_src behind the addresses: it stays inside its buffer if and only if every code
      expands to fewer than KSYM_NAME_LEN bytes. */
  method WriteSrc(t: Codes, syms: seq<Name>) returns (r: Emission)
    requires Emittable(t, syms)
    ensures r.Emitted? <==> CodesFit(t)
    ensures r.Emitted? ==> IsImage(r.image, t, syms)
  {
    hide Acyclic, ExpandCode, Quad;
    var names, markers := WriteNames(syms);
    var image := WriteMarkers(syms, markers);
    var tokens, index, inside := WriteTokens(t);
    r := if inside then Emitted(Image(names, image, tokens, index)) else Overrun;
  }

  /** The kallsyms_names loop with the markers it notes down. */
  method WriteNames(syms: seq<Name>) returns (names: seq<byte>, markers: seq<nat>)
    requires forall k | 0 <= k < |syms| :: |syms[k]| < 256
    ensures names == Stream(syms, |syms|)
    ensures |markers| == (|syms| + 255) / 256 && forall w: nat | w < |markers| :: markers[w] == |Stream(syms, w * 256)|
  {
    var i, off := 0, 0;
    names, markers := [], [];
    while i < |syms|
      invariant 0 <= i <= |syms| && names == Stream(syms, i) && off == |names|
      invariant |markers| == (i + 255) / 256 && forall w: nat | w < |markers| :: markers[w] == |Stream(syms, w * 256)|
    {
      if i % 256 == 0 {
        markers := markers + [off];
      }
      names := names + [|syms[i]|] + syms[i];
      off := off + |syms[i]| + 1;
      i := i + 1;
    }
  }

  method WriteMarkers(syms: seq<Name>, markers: seq<nat>) returns (image: seq<byte>)
    requires forall k | 0 <= k < |syms| :: |syms[k]| < 256
    requires |markers| == (|syms| + 255) / 256 && forall w: nat | w < |markers| :: markers[w] == |Stream(syms, w * 256)|
    ensures image == Markers(syms, (|syms| + 255) / 256)
  {
    hide Quad, Stream;
    var i := 0;
    image := [];
    while i < (|syms| + 255) / 256
      invariant 0 <= i <= (|syms| + 255) / 256 && image == Markers(syms, i)
    {
      image := image + Quad(markers[i]);
      i := i + 1;
    }
  }

  lemma NoTokens(t: Codes)
    requires Acyclic(t)
    ensures TokenTable(t, 0) == []
  {
  }

  /** The kallsyms_token_table loop: expand_symbol into a buffer, then the buffer up to its zero. */
  method WriteTokens(t: Codes) returns (tokens: seq<byte>, index: seq<nat>, inside: bool)
    requires Acyclic(t) && forall c: byte :: 0 !in ExpandCode(t, c)
    ensures inside <==> CodesFit(t)
    ensures inside ==>
              && tokens == TokenTable(t, |t|)
              && |index| == 256 && forall c: byte :: index[c] == |TokenTable(t, c)| < 0x1_0000
  {
    hide Acyclic, ExpandCode, TokenTable;
    var buf := new byte[KSYM_NAME_LEN];
    NoTokens(t);
    var i, off := 0, 0;
    tokens, index := [], [];
    while i < 256
      invariant 0 <= i <= 256 && tokens == TokenTable(t, i) && off == |tokens|
      invariant forall c: byte | c < i :: |ExpandCode(t, c)| < KSYM_NAME_LEN
      invariant |index| == i && forall c: byte | c < i :: index[c] == |TokenTable(t, c)| < 0x1_0000
    {
      TokenOffsetsSmall(t, i);
      TokenNext(t, i);
      index := index + [off];
      var text, ok := TokenText(t, i, buf);
      if !ok {
        return tokens, index, false;
      }
      tokens := tokens + text + [0];
      off := off + |text| + 1;
      i := i + 1;
    }
    return tokens, index, true;
  }

  /** expand_symbol followed by strlen. */
  method TokenText(t: Codes, c: byte, buf: array<byte>) returns (text: seq<byte>, inside: bool)
    requires Acyclic(t) && buf.Length == KSYM_NAME_LEN && 0 !in ExpandCode(t, c)
    modifies buf
    ensures inside <==> |ExpandCode(t, c)| < 128
    ensures inside ==> text == ExpandCode(t, c)
  {
    hide Acyclic, Rank, ExpandCode, Expand;
    EntryExpands(t, c);
    var total, ok := ExpandSymbol(t, t[c], buf, 0, 257);
    assert Expand(t, t[c]) == ExpandCode(t, c);
    if !ok {
      return [], false;
    }
    ghost var x := buf[0..total];
    forall j | 0 <= j < total ensures buf[j] != 0 {
      assert buf[j] == x[j];
    }
    var n := 0;
    while buf[n] != 0
      invariant 0 <= n <= total
      decreases total - n
    {
      n := n + 1;
    }
    return buf[0..n], true;
  }

  lemma EntryExpands(t: Codes, c: byte)
    requires Acyclic(t)
    ensures Expand(t, t[c]) == ExpandCode(t, c) && forall x | x in t[c] :: Rank(t, x) < 257
  {
    EntryBelow(t, c);
    if t[c] == [c] {
      assert Expand(t, [c]) == ExpandCode(t, c) + Expand(t, [c][1..]);
    }
  }
}
