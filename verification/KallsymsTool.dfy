/** The symbol compressor of scripts/kallsyms/kallsyms.c, in place on the symbol buffers. */
module KallsymsTool {
  import opened Words
  import opened Tokens

  const NR_PAIRS: nat := 0x1_0000

  /** learn_symbol. */
  method LearnSymbol(sym: array<byte>, len: nat, profit: array<int>)
    requires len <= sym.Length && profit.Length == NR_PAIRS && sym as object != profit
    modifies profit
    ensures forall p | 0 <= p < NR_PAIRS :: profit[p] == old(profit[p]) + PairCount(sym[..len], p)
  {
    var i := 0;
    ghost var s := sym[..len];
    while i + 1 < len
      invariant 0 <= i <= len
      invariant sym[..len] == s
      invariant forall p | 0 <= p < NR_PAIRS :: profit[p] + PairCount(s[i..], p) == old(profit[p]) + PairCount(s, p)
    {
      CountFrom(s, i);
      var p := Pair(sym[i], sym[i + 1]);
      profit[p] := profit[p] + 1;
      i := i + 1;
    }
  }

  /** forget_symbol. */
  method ForgetSymbol(sym: array<byte>, len: nat, profit: array<int>)
    requires len <= sym.Length && profit.Length == NR_PAIRS && sym as object != profit
    modifies profit
    ensures forall p | 0 <= p < NR_PAIRS :: profit[p] == old(profit[p]) - PairCount(sym[..len], p)
  {
    var i := 0;
    ghost var s := sym[..len];
    while i + 1 < len
      invariant 0 <= i <= len
      invariant sym[..len] == s
      invariant forall p | 0 <= p < NR_PAIRS :: profit[p] - PairCount(s[i..], p) == old(profit[p]) - PairCount(s, p)
    {
      CountFrom(s, i);
      var p := Pair(sym[i], sym[i + 1]);
      profit[p] := profit[p] - 1;
      i := i + 1;
    }
  }

  lemma CountFrom(s: Name, i: nat)
    requires i + 1 < |s|
    ensures forall p :: PairCount(s[i..], p) == (if Pair(s[i], s[i + 1]) == p then 1 else 0) + PairCount(s[i + 1..], p)
  {
    assert s[i..][1..] == s[i + 1..];
  }

  /** find_token on the size bytes from position p1 on; -1 stands for NULL. */
  method FindToken(sym: array<byte>, p1: nat, size: nat, a: byte, b: byte) returns (r: int)
    requires p1 + size <= sym.Length
    ensures r == -1 || (p1 <= r && r + 1 < p1 + size && At(sym[..], a, b, r))
    ensures forall j: nat | p1 <= j && j + 1 < p1 + size && (r == -1 || j < r) :: !At(sym[..], a, b, j)
  {
    var i := 0;
    while i + 1 < size
      invariant 0 <= i
      invariant forall j: nat | p1 <= j < p1 + i :: !At(sym[..], a, b, j)
    {
      if sym[p1 + i] == a && sym[p1 + i + 1] == b {
        return p1 + i;
      }
      i := i + 1;
    }
    return -1;
  }

  /** memmove by one byte to the left. */
  method MoveDown(sym: array<byte>, dst: nat, size: nat)
    requires dst + 1 + size <= sym.Length
    modifies sym
    ensures forall j | 0 <= j < dst || dst + size <= j < sym.Length :: sym[j] == old(sym[j])
    ensures forall j | dst <= j < dst + size :: sym[j] == old(sym[j + 1])
  {
    forall j | dst <= j < dst + size {
      sym[j] := sym[j + 1];
    }
  }

  /** The first p1 bytes are final; the bytes up to len still have to be searched; the bytes from len to
      l are the zeros that the moves drag along, which size does not account for. */
  ghost predicate Halfway(s: Name, p1: nat, len: nat, l: nat, a: byte, b: byte, idx: byte, goal: Name) {
    var all :=
      && p1 <= len <= l < |s| && (forall j | len <= j <= l :: s[j] == 0)
      && s[..p1] + Replace(s[p1..len], a, b, idx) == goal;
    all
  }

  /** One turn of the loop: the pair at position j is replaced and the rest of the buffer moved down. */
  lemma OneReplaced(s: Name, s': Name, p1: nat, j: nat, len: nat, l: nat, a: byte, b: byte, idx: byte, goal: Name)
    requires a != 0 && b != 0 && Halfway(s, p1, len, l, a, b, idx, goal)
    requires p1 <= j && j + 1 < l && At(s, a, b, j)
    requires forall k: nat | p1 <= k && k + 1 < l && k < j :: !At(s, a, b, k)
    requires |s'| == |s|
    requires s'[j] == idx && forall k | 0 <= k < j || l <= k < |s| :: s'[k] == s[k]
    requires forall k | j < k < l :: s'[k] == s[k + 1]
    ensures j + 1 < len && Halfway(s', j + 1, len - 1, l, a, b, idx, goal)
  {
    hide Replace;
    assert j + 1 < len;
    FirstReplaced(s, p1, j, len, a, b, idx);
    assert s'[..j + 1] == s[..j] + [idx];
    assert s[..j] == s[..p1] + s[p1..j];
    assert s'[j + 1..len - 1] == s[j + 2..len];
  }

  lemma FirstReplaced(s: Name, p1: nat, j: nat, len: nat, a: byte, b: byte, idx: byte)
    requires p1 <= j && j + 1 < len <= |s| && At(s, a, b, j) && forall k: nat | p1 <= k < j :: !At(s, a, b, k)
    ensures Replace(s[p1..len], a, b, idx) == s[p1..j] + [idx] + Replace(s[j + 2..len], a, b, idx)
  {
    var t := s[p1..len];
    forall k: nat | k < j - p1 ensures !At(t, a, b, k) {
      assert !At(s, a, b, p1 + k);
    }
    ReplaceSkip(t, a, b, idx, j - p1);
    assert t[j - p1..] == s[j..len] && t[..j - p1] == s[p1..j];
    assert s[j..len][2..] == s[j + 2..len];
  }

  /** Nothing is left to replace when no occurrence starts in the window. */
  lemma NothingLeft(s: Name, p1: nat, len: nat, l: nat, a: byte, b: byte, idx: byte, goal: Name)
    requires Halfway(s, p1, len, l, a, b, idx, goal)
    requires forall k: nat | p1 <= k && k + 1 < l :: !At(s, a, b, k)
    ensures s[..len] == goal
  {
    var t := s[p1..len];
    forall k: nat | k < |t| ensures !At(t, a, b, k) {
      if k + 1 < |t| {
        assert !At(s, a, b, p1 + k);
      }
    }
    ReplaceSkip(t, a, b, idx, |t|);
    assert s[..len] == s[..p1] + t;
  }

  /** p2 is the next occurrence in the window from p1 to l, or negative when there is none. */
  ghost predicate Searching(s: Name, p1: nat, p2: int, len: nat, l: nat, a: byte, b: byte, idx: byte, goal: Name) {
    var all :=
      && Halfway(s, p1, len, l, a, b, idx, goal)
      && (p2 >= 0 ==> p1 <= p2 && p2 + 1 < l && At(s, a, b, p2))
      && forall j: nat | p1 <= j && j + 1 < l && (p2 < 0 || j < p2) :: !At(s, a, b, j);
    all
  }

  /** One turn of the loop of compress_symbols. */
  method ReplaceAt(sym: array<byte>, p1: nat, p2: nat, len: nat, size: nat, a: byte, b: byte, idx: byte,
                   ghost l: nat, ghost goal: Name)
    returns (p1': nat, p2': int, len': nat, size': nat)
    requires a != 0 && b != 0 && p1 + size == l
    requires Searching(sym[..], p1, p2, len, l, a, b, idx, goal)
    modifies sym
    ensures p1' + size' == l && len > 0 && len' == len - 1
    ensures Searching(sym[..], p1', p2', len', l, a, b, idx, goal)
  {
    hide Replace, At;
    ghost var s := sym[..];
    sym[p2] := idx;
    p1' := p2 + 1;
    size' := size - (p1' - p1);
    MoveDown(sym, p1', size');
    OneReplaced(s, sym[..], p1, p2, len, l, a, b, idx, goal);
    len' := len - 1;
    if size' < 2 {
      p2' := -1;
    } else {
      p2' := FindToken(sym, p1', size', a, b);
    }
  }

  /** The body of compress_symbols for one symbol: its bytes become the left-to-right replacement, all
      within the buffer, and token_profit follows. */
  method CompressSymbol(sym: array<byte>, len0: nat, profit: array<int>, a: byte, b: byte, idx: byte) returns (len: nat)
    requires len0 < sym.Length && sym[len0] == 0 && a != 0 && b != 0
    requires profit.Length == NR_PAIRS && sym as object != profit
    modifies sym, profit
    ensures len <= len0 && sym[len] == 0
    ensures sym[..len] == Replace(old(sym[..len0]), a, b, idx)
    ensures forall p | 0 <= p < NR_PAIRS ::
              profit[p] == old(profit[p]) - PairCount(old(sym[..len0]), p) + PairCount(sym[..len], p)
  {
    hide PairCount, Replace, Halfway, At, Searching;
    len := len0;
    ghost var goal := Replace(sym[..len0], a, b, idx);
    var p1 := 0;
    var p2 := FindToken(sym, 0, len, a, b);
    StartSearch(sym[..], p2, len0, a, b, idx);
    if p2 < 0 {
      AllReplaced(sym[..], 0, p2, len, len, a, b, idx, goal);
      return;
    }
    ForgetSymbol(sym, len, profit);
    label Forgotten:
    var size := len;
    while p2 >= 0
      invariant p1 + size == len0 && len <= len0
      invariant Searching(sym[..], p1, p2, len, len0, a, b, idx, goal)
      invariant forall p | 0 <= p < NR_PAIRS :: profit[p] == old@Forgotten(profit[p])
      decreases len
    {
      p1, p2, len, size := ReplaceAt(sym, p1, p2, len, size, a, b, idx, len0, goal);
    }
    AllReplaced(sym[..], p1, p2, len, len0, a, b, idx, goal);
    LearnSymbol(sym, len, profit);
  }

  lemma StartSearch(s: Name, p2: int, len: nat, a: byte, b: byte, idx: byte)
    requires len < |s| && s[len] == 0
    requires p2 >= 0 ==> p2 + 1 < len && At(s, a, b, p2)
    requires forall j: nat | 0 <= j && j + 1 < len && (p2 < 0 || j < p2) :: !At(s, a, b, j)
    ensures Searching(s, 0, p2, len, len, a, b, idx, Replace(s[..len], a, b, idx))
  {
    hide Replace, At;
    assert s[0..len] == s[..len];
  }

  lemma AllReplaced(s: Name, p1: nat, p2: int, len: nat, l: nat, a: byte, b: byte, idx: byte, goal: Name)
    requires Searching(s, p1, p2, len, l, a, b, idx, goal) && p2 < 0
    ensures len <= l < |s| && s[..len] == goal && s[len] == 0
  {
    hide Replace, At;
    NothingLeft(s, p1, len, l, a, b, idx, goal);
  }

  /** find_best_token: the first index of maximal profit. */
  method FindBestToken(profit: array<int>) returns (best: nat)
    requires profit.Length == NR_PAIRS
    ensures best < NR_PAIRS
    ensures if exists p :: 0 <= p < NR_PAIRS && profit[p] > -10000
            then (forall p | 0 <= p < NR_PAIRS :: profit[p] <= profit[best])
                 && forall p | 0 <= p < best :: profit[p] < profit[best]
            else best == 0
  {
    var i, bestProfit := 0, -10000;
    best := 0;
    while i < NR_PAIRS
      invariant 0 <= i <= NR_PAIRS && best < NR_PAIRS && bestProfit >= -10000
      invariant forall p | 0 <= p < i :: profit[p] <= bestProfit
      invariant if bestProfit > -10000
                then best < i && profit[best] == bestProfit && forall p | 0 <= p < best :: profit[p] < bestProfit
                else best == 0
    {
      if profit[i] > bestProfit {
        best := i;
        bestProfit := profit[i];
      }
      i := i + 1;
    }
  }

  /** The text stands at off, and nothing before off or after limit was changed. */
  ghost predicate Written(was: Name, now: Name, off: nat, text: Name, limit: nat) {
    var all :=
      && |was| == |now| && off + |text| <= limit < |now| && now[off..off + |text|] == text
      && forall j | 0 <= j < off || limit < j < |now| :: now[j] == was[j];
    all
  }

  lemma WrittenThen(was: Name, mid: Name, now: Name, off: nat, x: Name, y: Name, limit: nat)
    requires Written(was, mid, off, x, limit) && Written(mid, now, off + |x|, y, off + |x| + |y|)
    requires off + |x| + |y| <= limit
    ensures Written(was, now, off, x + y, limit)
  {
    assert now[off..off + |x|] == mid[off..off + |x|];
    assert now[off..off + |x + y|] == now[off..off + |x|] + now[off + |x|..off + |x| + |y|];
  }

  lemma WrittenOne(was: Name, now: Name, off: nat, c: byte)
    requires off + 1 < |was| && now == was[off := c]
    ensures Written(was, now, off, [c], off + 1)
  {
  }

  lemma WrittenNothing(was: Name, off: nat, limit: nat)
    requires off <= limit < |was|
    ensures Written(was, was, off, [], limit)
  {
  }

  /** expand_symbol: writes the expansion and a closing zero at off. The recursion ends because the
      codes of an entry rank below the entry. It returns false instead of writing behind the buffer,
      which the code would do exactly when the expansion and its zero do not fit. */
  method ExpandSymbol(t: Codes, data: Name, result: array<byte>, off: nat, ghost bound: nat)
    returns (total: nat, inside: bool)
    requires Acyclic(t) && (forall x | x in data :: Rank(t, x) < bound) && off <= result.Length
    modifies result
    ensures inside <==> off + |Expand(t, data)| < result.Length
    ensures inside ==>
              && total == |Expand(t, data)| && Written(old(result[..]), result[..], off, Expand(t, data), off + total)
              && result[off + total] == 0
    decreases bound
  {
    hide Acyclic, Rank, Expand, ExpandCode, Written;
    var k, out := 0, off;
    total := 0;
    ghost var was := result[..];
    ghost var goal: Name, text: Name := Expand(t, data), [];
    ghost var limit := off + |goal|;
    ghost var fits := limit < result.Length;
    assert data[0..] == data;
    if fits {
      WrittenNothing(result[..], off, limit);
    }
    while k < |data|
      invariant 0 <= k <= |data| && out == off + total <= result.Length && total == |text|
      invariant goal == text + Expand(t, data[k..]) && off + |text| <= limit == off + |goal|
      invariant fits ==> Written(was, result[..], off, text, limit)
    {
      var c := data[k];
      NextCode(t, data, k, goal, text);
      EntryBelow(t, c);
      ghost var mid := result[..];
      if t[c] == [c] {
        if out >= result.Length {
          return total, false;
        }
        result[out] := c;
        if fits {
          WrittenOne(mid, result[..], out, c);
        }
        out := out + 1;
        total := total + 1;
      } else {
        var rlen, ok := ExpandSymbol(t, t[c], result, out, Rank(t, c));
        if !ok {
          return total, false;
        }
        total := total + rlen;
        out := out + rlen;
      }
      if fits {
        WrittenThen(was, mid, result[..], off, text, ExpandCode(t, c), limit);
      }
      text := text + ExpandCode(t, c);
      k := k + 1;
    }
    NothingMore(t, data);
    assert goal == text;
    if out >= result.Length {
      return total, false;
    }
    ghost var written := result[..];
    result[out] := 0;
    Closed(was, written, result[..], off, goal);
    return total, true;
  }

  lemma Closed(was: Name, mid: Name, now: Name, off: nat, goal: Name)
    requires Written(was, mid, off, goal, off + |goal|) && now == mid[off + |goal| := 0]
    ensures Written(was, now, off, goal, off + |goal|)
  {
    assert now[off..off + |goal|] == mid[off..off + |goal|];
  }

  lemma NextCode(t: Codes, data: Name, k: nat, goal: Name, text: Name)
    requires Acyclic(t) && k < |data| && goal == text + Expand(t, data[k..])
    ensures goal == text + ExpandCode(t, data[k]) + Expand(t, data[k + 1..])
    ensures data[k] in data
  {
    assert data[k..][1..] == data[k + 1..];
  }

  lemma NothingMore(t: Codes, data: Name)
    requires Acyclic(t)
    ensures Expand(t, data[|data|..]) == []
  {
  }

  lemma EntryBelow(t: Codes, c: byte)
    requires Acyclic(t)
    ensures t[c] == [c] ==> ExpandCode(t, c) == [c]
    ensures t[c] != [c] ==> Expand(t, t[c]) == ExpandCode(t, c) && forall x | x in t[c] :: Rank(t, x) < Rank(t, c)
  {
    if |t[c]| == 2 {
      assert t[c] == [t[c][0], t[c][1]];
      ExpandPair(t, t[c][0], t[c][1]);
    }
  }

  /** The byte occurs in one of the names. */
  ghost predicate Seen(names: seq<Name>, c: byte) { exists k: nat :: k < |names| && c in names[k] }

  lemma SeenNext(names: seq<Name>, i: nat)
    requires i < |names|
    ensures forall c: byte :: Seen(names[..i + 1], c) <==> Seen(names[..i], c) || c in names[i]
  {
    forall c: byte ensures Seen(names[..i + 1], c) <==> Seen(names[..i], c) || c in names[i] {
      if Seen(names[..i], c) {
        var k: nat :| k < i && c in names[..i][k];
        assert c in names[..i + 1][k];
      }
      if c in names[i] {
        assert c in names[..i + 1][i];
      }
      if Seen(names[..i + 1], c) && c !in names[i] {
        var k: nat :| k < i + 1 && c in names[..i + 1][k];
        assert c in names[..i][k];
      }
    }
  }

  lemma SeenNothing()
    ensures forall c: byte :: !Seen([], c)
  {
  }

  /** The inner loop of insert_real_symbols_in_table. */
  method InsertSymbol(sym: array<byte>, len: nat, t: Codes) returns (t': Codes)
    requires len <= sym.Length
    ensures forall c: byte :: t'[c] == if c in sym[..len] then [c] else t[c]
  {
    t' := t;
    var j := 0;
    while j < len
      invariant 0 <= j <= len
      invariant forall c: byte :: t'[c] == if c in sym[..j] then [c] else t[c]
    {
      var c := sym[j];
      assert sym[..j + 1] == sym[..j] + [c];
      t' := t'[c := [c]];
      j := j + 1;
    }
  }

  // ----- the greedy choice

  /** The first pair of those that occur most often. */
  ghost predicate IsBest(names: seq<Name>, p: nat) {
    && p < NR_PAIRS
    && (forall q | 0 <= q < NR_PAIRS :: Total(names, q) <= Total(names, p))
    && (forall q | 0 <= q < p :: Total(names, q) < Total(names, p))
  }

  /** What one turn does to slot c: a byte that occurs keeps it; an empty one gets the best pair of the
      names there are, which is then replaced everywhere. */
  ghost predicate Turn(before: seq<Name>, after: seq<Name>, t: Codes, c: byte) {
    || (Literal(t, c) && after == before)
    || (&& |t[c]| == 2 && IsBest(before, Pair(t[c][0], t[c][1])) && Total(before, Pair(t[c][0], t[c][1])) > 0
        && after == ReplaceAll(before, t[c][0], t[c][1], c))
  }

  /** No pair occurs in these names. */
  ghost predicate Exhausted(names: seq<Name>) { forall p | 0 <= p < NR_PAIRS :: Total(names, p) == 0 }

  /** The names before slot 255 and after each turn so far, from there down. */
  ghost predicate Turns(orig: seq<Name>, t: Codes, hist: seq<seq<Name>>) {
    && 1 <= |hist| <= 257 && hist[0] == orig
    && (forall j | 1 <= j < |hist| :: Turn(hist[j - 1], hist[j], t, 256 - j))
  }

  /** A run of turns that ends at slot 0, or at an empty one when no pair occurs. */
  ghost predicate GreedyRun(orig: seq<Name>, t: Codes, hist: seq<seq<Name>>, names: seq<Name>) {
    && Turns(orig, t, hist) && hist[|hist| - 1] == names
    && (forall c: byte :: Literal(t, c) <==> Seen(orig, c))
    && (forall c: byte | c <= 256 - |hist| :: t[c] == [] || Literal(t, c))
    && (|hist| == 257 || Exhausted(names))
  }

  /** The table and the compressed names are what the greedy choice makes of the original ones. */
  ghost predicate Greedily(orig: seq<Name>, t: Codes, names: seq<Name>) {
    exists hist :: GreedyRun(orig, t, hist, names)
  }

  /** One turn has one outcome. */
  lemma TurnUnique(before: seq<Name>, after: seq<Name>, after': seq<Name>, t: Codes, t': Codes, c: byte)
    requires Turn(before, after, t, c) && Turn(before, after', t', c) && (Literal(t, c) <==> Literal(t', c))
    ensures after == after' && t[c] == t'[c]
  {
    if !Literal(t, c) {
      var p, p' := Pair(t[c][0], t[c][1]), Pair(t'[c][0], t'[c][1]);
      assert Total(before, p) == Total(before, p') && p == p';
      assert t[c] == [t[c][0], t[c][1]] && t'[c] == [t'[c][0], t'[c][1]];
    }
  }

  lemma {:induction false} RunsAgree(orig: seq<Name>, t: Codes, t': Codes,
                                     hist: seq<seq<Name>>, hist': seq<seq<Name>>, j: nat)
    requires Turns(orig, t, hist) && Turns(orig, t', hist') && j < |hist| && j < |hist'|
    requires forall c: byte :: Literal(t, c) <==> Literal(t', c)
    ensures hist[j] == hist'[j] && forall c: byte | 256 - j <= c :: t[c] == t'[c]
  {
    hide Turn, Literal;
    if j > 0 {
      RunsAgree(orig, t, t', hist, hist', j - 1);
      TurnUnique(hist[j - 1], hist[j], hist'[j], t, t', 256 - j);
    }
  }

  /** Where no pair occurs, further turns only pass over bytes that occur. */
  lemma {:induction false} NothingToPlace(orig: seq<Name>, t: Codes, hist: seq<seq<Name>>, k: nat, j: nat)
    requires Turns(orig, t, hist) && k <= j < |hist| && Exhausted(hist[k])
    ensures hist[j] == hist[k] && forall c: byte | 256 - j <= c < 256 - k :: Literal(t, c)
    decreases j
  {
    if k < j {
      NothingToPlace(orig, t, hist, k, j - 1);
      assert Turn(hist[j - 1], hist[j], t, 256 - j);
    }
  }

  lemma LongerAgrees(orig: seq<Name>, t: Codes, t': Codes, hist: seq<seq<Name>>, hist': seq<seq<Name>>,
                     names: seq<Name>, names': seq<Name>)
    requires GreedyRun(orig, t, hist, names) && GreedyRun(orig, t', hist', names') && |hist| <= |hist'|
    ensures t == t' && names == names'
  {
    hide Turn, Exhausted, Seen;
    var k := |hist| - 1;
    RunsAgree(orig, t, t', hist, hist', k);
    if |hist| < |hist'| {
      NothingToPlace(orig, t', hist', k, |hist'| - 1);
    }
    forall c: byte ensures t[c] == t'[c] {
      assert Literal(t, c) <==> Literal(t', c);
      if c < 256 - k {
        assert t[c] == [] || Literal(t, c);
        assert t'[c] == [] || Literal(t', c);
      }
    }
    SameCodes(t, t');
  }

  lemma SameCodes(t: Codes, t': Codes)
    requires forall c: byte :: t[c] == t'[c]
    ensures t == t'
  {
    forall i | 0 <= i < 256 ensures t[i] == t'[i] {
      var c: byte := i;
      assert t[c] == t'[c];
    }
  }

  /** The code table and the compressed names are determined by the original names. */
  lemma GreedyUnique(orig: seq<Name>, t: Codes, t': Codes, names: seq<Name>, names': seq<Name>)
    requires Greedily(orig, t, names) && Greedily(orig, t', names')
    ensures t == t' && names == names'
  {
    hide GreedyRun;
    var hist :| GreedyRun(orig, t, hist, names);
    var hist' :| GreedyRun(orig, t', hist', names');
    if |hist| <= |hist'| {
      LongerAgrees(orig, t, t', hist, hist', names, names');
    } else {
      LongerAgrees(orig, t', t, hist', hist, names', names);
    }
  }

  /** One more turn; the slots above are as they were. */
  lemma TurnsThen(orig: seq<Name>, t: Codes, t': Codes, hist: seq<seq<Name>>, names: seq<Name>)
    requires Turns(orig, t, hist) && |hist| < 257 && Turn(hist[|hist| - 1], names, t', 256 - |hist|)
    requires forall c: byte | c > 256 - |hist| :: t'[c] == t[c]
    ensures Turns(orig, t', hist + [names])
  {
    forall j | 1 <= j < |hist + [names]| ensures Turn((hist + [names])[j - 1], (hist + [names])[j], t', 256 - j) {
      if j < |hist| {
        assert Turn(hist[j - 1], hist[j], t, 256 - j);
      }
    }
  }

  lemma TurnsBegin(orig: seq<Name>, t: Codes)
    ensures Turns(orig, t, [orig])
  {
  }

  /** The program's global state: the symbol buffers with their lengths, token_profit and best_table. */
  class Tool {
    const table: seq<array<byte>>
    const profit: array<int>
    var lens: seq<nat>
    var best: Codes

    ghost predicate Valid()
      reads this, table
    {
      && |lens| == |table| && profit.Length == NR_PAIRS
      && (forall k | 0 <= k < |table| ::
            table[k] as object != profit && lens[k] < table[k].Length && table[k][lens[k]] == 0)
      && (forall j, k | 0 <= j < k < |table| :: table[j] != table[k])
    }

    /** The symbols as read_symbol leaves them: each buffer ends in a zero that its length excludes. */
    constructor (table: seq<array<byte>>, lens: seq<nat>)
      requires |lens| == |table| && forall k | 0 <= k < |table| :: lens[k] < table[k].Length && table[k][lens[k]] == 0
      requires forall j, k | 0 <= j < k < |table| :: table[j] != table[k]
      ensures Valid() && this.table == table && this.lens == lens && fresh(profit)
      ensures forall p | 0 <= p < NR_PAIRS :: profit[p] == 0
    {
      this.table := table;
      this.lens := lens;
      profit := new int[NR_PAIRS](_ => 0);
      best := seq(256, i => []);
    }

    /** The symbols as values. */
    ghost function Names(): (r: seq<Name>)
      requires Valid()
      reads this, table
      ensures |r| == |table| && forall k | 0 <= k < |table| :: r[k] == table[k][..lens[k]]
    {
      seq(|table|, k requires 0 <= k < |table| && k < |lens| && lens[k] <= table[k].Length reads this, table =>
        table[k][..lens[k]])
    }

    method Symbols() returns (r: seq<Name>)
      requires Valid()
      ensures r == Names()
    {
      r := [];
      while |r| < |table|
        invariant |r| <= |table| && forall k | 0 <= k < |r| :: r[k] == Names()[k]
      {
        r := r + [table[|r|][..lens[|r|]]];
      }
    }

    /** token_profit holds the true pair counts. */
    ghost predicate Counted()
      requires Valid()
      reads this, table, profit
    {
      forall p | 0 <= p < NR_PAIRS :: profit[p] == Total(Names(), p)
    }

    /** compress_symbols for one symbol. */
    method CompressOne(i: nat, a: byte, b: byte, idx: byte)
      requires Valid() && Counted() && a != 0 && b != 0 && i < |table|
      modifies this`lens, profit, table[i]
      ensures Valid() && Counted() && Names() == old(Names())[i := Replace(old(Names())[i], a, b, idx)]
    {
      hide Total, PairCount, Replace;
      ghost var before := Names();
      var len := CompressSymbol(table[i], lens[i], profit, a, b, idx);
      lens := lens[i := len];
      assert Names() == before[i := Replace(before[i], a, b, idx)];
      forall p | 0 <= p < NR_PAIRS ensures profit[p] == Total(Names(), p) {
        TotalUpdate(before, i, Names()[i], p);
      }
    }

    /** compress_symbols. */
    method CompressSymbols(a: byte, b: byte, idx: byte)
      requires Valid() && Counted() && a != 0 && b != 0
      modifies this`lens, profit, table
      ensures Valid() && Counted() && Names() == ReplaceAll(old(Names()), a, b, idx)
    {
      hide Total, PairCount, Replace, Valid, Counted;
      ghost var names := Names();
      var i := 0;
      while i < |table|
        invariant 0 <= i <= |table| && Valid() && Counted()
        invariant forall k | 0 <= k < i :: Names()[k] == Replace(names[k], a, b, idx)
        invariant forall k | i <= k < |table| :: Names()[k] == names[k]
      {
        CompressOne(i, a, b, idx);
        i := i + 1;
      }
      assert Names() == ReplaceAll(names, a, b, idx);
    }

    ghost predicate NoZeros()
      requires Valid()
      reads this, table
    {
      forall k | 0 <= k < |table| :: 0 !in Names()[k]
    }

    /** The counting part of build_initial_tok_table, for a table of kept symbols. */
    method LearnAll()
      requires Valid() && forall p | 0 <= p < NR_PAIRS :: profit[p] == 0
      modifies profit
      ensures Valid() && Counted() && Names() == old(Names())
    {
      hide PairCount;
      var i := 0;
      ghost var names := Names();
      while i < |table|
        invariant 0 <= i <= |table| && Valid() && Names() == names
        invariant forall p | 0 <= p < NR_PAIRS :: profit[p] + Total(names[i..], p) == Total(names, p)
      {
        LearnSymbol(table[i], lens[i], profit);
        assert names[i..][1..] == names[i + 1..];
        i := i + 1;
      }
    }

    /** insert_real_symbols_in_table: each byte that occurs in a symbol stands for itself; the other
        entries are empty. */
    method InsertRealSymbols()
      requires Valid()
      modifies this`best
      ensures forall c: byte :: best[c] == if Seen(Names(), c) then [c] else []
    {
      hide Seen;
      best := seq(256, i => []);
      ghost var names := Names();
      var i := 0;
      SeenNothing();
      while i < |table|
        invariant 0 <= i <= |table| && Names() == names
        invariant forall c: byte :: best[c] == if Seen(names[..i], c) then [c] else []
      {
        best := InsertSymbol(table[i], lens[i], best);
        SeenNext(names, i);
        i := i + 1;
      }
      assert names[..i] == names;
    }

    ghost predicate NoPairs()
      requires Valid()
      reads this, table
    {
      Exhausted(Names())
    }

    ghost predicate Filled(i: int)
      reads this
    {
      forall c: byte | i < c :: best[c] != []
    }

    /** The literals are the bytes that occur in the original symbols. */
    ghost predicate LiteralsOf(orig: seq<Name>)
      reads this
    {
      forall c: byte :: Literal(best, c) <==> Seen(orig, c)
    }

    /** What the compression ends with: nothing is lost, each entry was the best one at its turn, and it
        stopped because no pair is left or because every code is taken, by a byte that occurs or by a pair
        that made the table shorter. */
    ghost predicate Compressed(orig: seq<Name>)
      requires Valid()
      reads this, table
    {
      && Lossless(best, Names(), orig, -1) && TotalLength(Names()) <= TotalLength(orig)
      && Greedily(orig, best, Names())
      && (NoPairs() || (Filled(-1) && 256 <= Distinct(orig, 0) + TotalLength(orig) - TotalLength(Names())))
    }

    lemma Chosen(a: byte, b: byte)
      requires Valid() && Counted() && NoZeros() && profit[Pair(a, b)] != 0
      ensures Total(Names(), Pair(a, b)) > 0 && a != 0 && b != 0
    {
      TotalIsOccurrence(Names(), Pair(a, b));
      var k: nat :| k < |table| && PairCount(Names()[k], Pair(a, b)) > 0;
      CountIsOccurrence(Names()[k], a, b);
      var j: nat :| At(Names()[k], a, b, j);
      assert Names()[k][j] in Names()[k] && Names()[k][j + 1] in Names()[k];
    }

    /** The body of optimize_result for an empty entry: the entry gets the pair and every symbol is
        compressed with it. */
    method PlacePair(i: byte, token: nat, ghost orig: seq<Name>)
      requires Valid() && Counted() && NoZeros() && Lossless(best, Names(), orig, i)
      requires best[i] == [] && token < NR_PAIRS && profit[token] != 0
      modifies this`lens, this`best, profit, table
      ensures Valid() && Counted() && Lossless(best, Names(), orig, i - 1) && (i > 0 ==> NoZeros())
      ensures best == old(best)[i := [token % 256, token / 256]]
      ensures TotalLength(Names()) < TotalLength(old(Names())) && Total(Names(), token) == 0
      ensures Names() == ReplaceAll(old(Names()), token % 256, token / 256, i) && Total(old(Names()), token) > 0
    {
      hide Lossless, Total, TotalLength, PairCount, Replace;
      var a: byte, b: byte := token % 256, token / 256;
      assert token == Pair(a, b);
      Chosen(a, b);
      ghost var t, names := best, Names();
      best := best[i := [a, b]];
      assert Names() == names;
      CompressSymbols(a, b, i);
      StepKeepsLossless(t, best, names, orig, a, b, i);
      StillNoZeros(names, Names(), a, b, i);
    }

    lemma StillNoZeros(names: seq<Name>, names': seq<Name>, a: byte, b: byte, i: byte)
      requires names' == ReplaceAll(names, a, b, i) && forall k | 0 <= k < |names| :: 0 !in names[k]
      ensures i > 0 ==> forall k | 0 <= k < |names'| :: 0 !in names'[k]
    {
      forall k | 0 <= k < |names| ensures i > 0 ==> 0 !in names'[k] {
        ReplaceBytes(names[k], a, b, i);
      }
    }

    lemma Lower(t: Codes, names: seq<Name>, orig: seq<Name>, i: int)
      requires Lossless(t, names, orig, i)
      ensures Lossless(t, names, orig, i - 1) && (i >= -1 ==> Lossless(t, names, orig, -1))
    {
    }

    lemma ShortEntries(t: Codes, names: seq<Name>, orig: seq<Name>, i: byte)
      requires Lossless(t, names, orig, i)
      ensures t[i] == [] || Literal(t, i)
    {
    }

    /** The best token of a counted table is the best pair of its names. */
    lemma BestOfCounted(best: nat)
      requires Valid() && Counted() && best < NR_PAIRS
      requires forall p | 0 <= p < NR_PAIRS :: profit[p] <= profit[best]
      requires forall p | 0 <= p < best :: profit[p] < profit[best]
      ensures IsBest(Names(), best) && profit[best] == Total(Names(), best)
      ensures profit[best] == 0 ==> Exhausted(Names())
    {
      hide Total;
    }

    method BestToken() returns (token: nat)
      requires Valid() && Counted()
      ensures token < NR_PAIRS && IsBest(Names(), token) && profit[token] == Total(Names(), token)
      ensures profit[token] == 0 ==> Exhausted(Names())
    {
      hide Total, IsBest, Exhausted;
      token := FindBestToken(profit);
      assert profit[0] == Total(Names(), 0);
      BestOfCounted(token);
    }

    /** One turn of optimize_result; true stands for the break, at an empty entry when no pair occurs. */
    method FillEntry(i: byte, ghost orig: seq<Name>) returns (stop: bool)
      requires Valid() && Counted() && NoZeros() && Lossless(best, Names(), orig, i)
      modifies this`lens, this`best, profit, table
      ensures Valid() && Counted() && Lossless(best, Names(), orig, i - 1) && (i > 0 ==> NoZeros())
      ensures TotalLength(Names()) <= TotalLength(old(Names()))
      ensures if stop then NoPairs() else best[i] != [] && forall c: byte | c != i :: best[c] == old(best)[c]
      ensures !stop && !Literal(best, i) ==> TotalLength(Names()) < TotalLength(old(Names()))
      ensures if stop then best == old(best) && Names() == old(Names()) else Turn(old(Names()), Names(), best, i)
      ensures forall c: byte :: Literal(best, c) <==> Literal(old(best), c)
    {
      hide Lossless, Total, TotalLength, Counted, IsBest, Exhausted, NoZeros, ReplaceAll;
      ShortEntries(best, Names(), orig, i);
      stop := false;
      if best[i] == [] {
        var token := BestToken();
        if profit[token] == 0 {
          stop := true;
          Lower(best, Names(), orig, i);
        } else {
          PlacePair(i, token, orig);
        }
      } else {
        Lower(best, Names(), orig, i);
      }
    }

    /** optimize_result: fills the empty entries from 255 down. */
    method OptimizeResult(ghost orig: seq<Name>)
      requires Valid() && Counted() && NoZeros() && Names() == orig && Lossless(best, Names(), orig, 255)
      requires LiteralsOf(orig)
      modifies this`lens, this`best, profit, table
      ensures Valid() && Counted() && Compressed(orig)
    {
      hide Lossless, Total, TotalLength, Valid, Counted, NoZeros, NoPairs, Seen, Turn, Turns, Greedily;
      var i := 255;
      ghost var hist := [orig];
      TurnsBegin(orig, best);
      while i >= 0
        invariant -1 <= i <= 255 && Valid() && Counted() && (i >= 0 ==> NoZeros())
        invariant Lossless(best, Names(), orig, i) && TotalLength(Names()) <= TotalLength(orig)
        invariant Filled(i) && LiteralsOf(orig)
        invariant 255 - i <= Distinct(orig, i + 1) + TotalLength(orig) - TotalLength(Names())
        invariant |hist| == 256 - i && hist[255 - i] == Names() && Turns(orig, best, hist)
      {
        ghost var t := best;
        var stop := FillEntry(i, orig);
        if stop {
          StoppedRun(orig, hist, i);
          Lower(best, Names(), orig, i);
          return;
        }
        TurnsThen(orig, t, best, hist, Names());
        hist := hist + [Names()];
        i := i - 1;
      }
      FullRun(orig, hist);
    }

    lemma StoppedRun(orig: seq<Name>, hist: seq<seq<Name>>, i: byte)
      requires Valid() && Turns(orig, best, hist) && |hist| == 256 - i && hist[255 - i] == Names() && LiteralsOf(orig)
      requires NoPairs() && Lossless(best, Names(), orig, i)
      ensures Greedily(orig, best, Names())
    {
      hide Turns, Seen, Exhausted, Lossless, Valid;
      ShortBelow(best, Names(), orig, i);
      assert GreedyRun(orig, best, hist, Names());
    }

    lemma FullRun(orig: seq<Name>, hist: seq<seq<Name>>)
      requires Valid() && Turns(orig, best, hist) && |hist| == 257 && hist[256] == Names() && LiteralsOf(orig)
      ensures Greedily(orig, best, Names())
    {
      hide Turns, Seen;
      assert GreedyRun(orig, best, hist, Names());
    }

    lemma ShortBelow(t: Codes, names: seq<Name>, orig: seq<Name>, i: int)
      requires Lossless(t, names, orig, i)
      ensures forall c: byte | c <= i :: t[c] == [] || Literal(t, c)
    {
    }

    /** optimize_token_table on the kept symbols: false stands for the exit when there is none. From any
        list of symbols without zero bytes, decoding the compressed symbols with the table gives the
        original symbols back. */
    method OptimizeTokenTable() returns (ok: bool)
      requires Valid() && NoZeros() && forall p | 0 <= p < NR_PAIRS :: profit[p] == 0
      modifies this`lens, this`best, profit, table
      ensures Valid() && ok == (|table| > 0)
      ensures ok ==> Counted() && Compressed(old(Names()))
    {
      hide Lossless, Total, TotalLength, Seen;
      ghost var names := Names();
      LearnAll();
      InsertRealSymbols();
      assert Names() == names;
      if |table| == 0 {
        return false;
      }
      LiteralsLossless(best, names);
      OptimizeResult(names);
      return true;
    }
  }

  /** How many of the bytes from c on occur in the names. */
  ghost function Distinct(names: seq<Name>, c: nat): nat
    decreases 256 - c
  {
    if c >= 256 then 0 else (if Seen(names, c) then 1 else 0) + Distinct(names, c + 1)
  }

  lemma SeenBytes(names: seq<Name>, k: nat)
    requires k < |names|
    ensures forall x: byte | x in names[k] :: Seen(names, x)
  {
  }

  lemma SeenIsPart(names: seq<Name>, c: byte)
    requires Seen(names, c)
    ensures Part([c], names)
  {
    var k: nat :| k < |names| && c in names[k];
    var j: nat :| j < |names[k]| && names[k][j] == c;
    assert names[k] == names[k][..j] + [c] + names[k][j + 1..];
  }

  lemma LiteralsLossless(t: Codes, names: seq<Name>)
    requires forall c: byte :: t[c] == if Seen(names, c) then [c] else []
    ensures Lossless(t, names, names, 255)
  {
    hide Seen, Part, Expand, ExpandCode;
    forall k: nat | k < |names| ensures Coded(t, names[k]) && Expand(t, names[k]) == names[k] {
      SeenBytes(names, k);
      LiteralName(t, names[k]);
    }
    forall c: byte | t[c] != [] ensures Part(ExpandCode(t, c), names) {
      SeenIsPart(names, c);
      EntryBelow(t, c);
    }
  }

  lemma {:induction false} LiteralName(t: Codes, s: Name)
    requires Acyclic(t) && forall x | x in s :: Literal(t, x)
    ensures Expand(t, s) == s
  {
    if s != [] {
      assert Literal(t, s[0]) && s == [s[0]] + s[1..];
      LiteralName(t, s[1..]);
    }
  }
}
