/** Byte-pair compression of symbol names (scripts/kallsyms/kallsyms.c) on values: what replacing one
    pair does to a name, and what a code table makes of a compressed name. */
module Tokens {
  import opened Words

  type Name = seq<byte>

  /** The index of an adjacent pair in token_profit. */
  function Pair(a: byte, b: byte): (p: nat)
    ensures p < 0x1_0000 && p % 256 == a && p / 256 == b
  {
    a + b * 256
  }

  /** How often a pair occurs at adjacent positions, overlaps included. */
  function PairCount(s: Name, p: nat): nat {
    if |s| < 2 then 0 else (if Pair(s[0], s[1]) == p then 1 else 0) + PairCount(s[1..], p)
  }

  function Total(names: seq<Name>, p: nat): nat {
    if names == [] then 0 else PairCount(names[0], p) + Total(names[1..], p)
  }

  /** Left-to-right replacement of the non-overlapping occurrences of a pair. */
  function Replace(s: Name, a: byte, b: byte, i: byte): Name {
    if |s| < 2 then s
    else if s[0] == a && s[1] == b then [i] + Replace(s[2..], a, b, i)
    else [s[0]] + Replace(s[1..], a, b, i)
  }

  function ReplaceAll(names: seq<Name>, a: byte, b: byte, i: byte): (r: seq<Name>)
    ensures |r| == |names| && forall k | 0 <= k < |names| :: r[k] == Replace(names[k], a, b, i)
  {
    seq(|names|, k requires 0 <= k < |names| => Replace(names[k], a, b, i))
  }

  // ----- occurrences of the pair

  ghost predicate At(s: Name, a: byte, b: byte, k: nat) { k + 1 < |s| && s[k] == a && s[k + 1] == b }

  lemma {:induction false} CountIsOccurrence(s: Name, a: byte, b: byte)
    ensures PairCount(s, Pair(a, b)) > 0 <==> exists k: nat :: At(s, a, b, k)
  {
    if |s| >= 2 {
      CountIsOccurrence(s[1..], a, b);
      if Pair(s[0], s[1]) == Pair(a, b) {
        assert At(s, a, b, 0);
      } else if PairCount(s[1..], Pair(a, b)) > 0 {
        var k: nat :| At(s[1..], a, b, k);
        assert At(s, a, b, k + 1);
      } else {
        forall k: nat ensures !At(s, a, b, k) {
          if k > 0 {
            assert !At(s[1..], a, b, k - 1);
          }
        }
      }
    }
  }

  ghost function Places(s: Name, a: byte, b: byte): set<nat> { set k: nat | k < |s| && At(s, a, b, k) }

  ghost function Shifted(x: set<nat>): set<nat> { set k | k in x :: k + 1 }

  lemma {:induction false} ShiftedCount(x: set<nat>)
    ensures |Shifted(x)| == |x|
    decreases |x|
  {
    if x != {} {
      var k :| k in x;
      ShiftedCount(x - {k});
      forall y ensures y in Shifted(x) <==> y in Shifted(x - {k}) || y == k + 1 {
        if y in Shifted(x) && y != k + 1 {
          assert y - 1 in x - {k};
        }
      }
      assert Shifted(x) == Shifted(x - {k}) + {k + 1} && k + 1 !in Shifted(x - {k});
    }
  }

  /** The count is the number of positions at which the pair stands. */
  lemma {:induction false} CountIsPlaces(s: Name, a: byte, b: byte)
    ensures PairCount(s, Pair(a, b)) == |Places(s, a, b)|
  {
    hide Places, Shifted;
    PlacesFrom(s, a, b);
    if |s| >= 2 {
      CountIsPlaces(s[1..], a, b);
      ShiftedCount(Places(s[1..], a, b));
    }
  }

  lemma PlacesFrom(s: Name, a: byte, b: byte)
    ensures if |s| < 2 then Places(s, a, b) == {}
            else
              var rest := Shifted(Places(s[1..], a, b));
              0 !in rest && Places(s, a, b) == if Pair(s[0], s[1]) == Pair(a, b) then rest + {0} else rest
  {
    if |s| >= 2 {
      var rest := Shifted(Places(s[1..], a, b));
      assert Pair(s[0], s[1]) == Pair(a, b) <==> s[0] == a && s[1] == b;
      forall k: nat ensures k in Places(s, a, b) <==> (k == 0 && s[0] == a && s[1] == b) || k in rest {
        if k > 0 {
          assert At(s, a, b, k) <==> At(s[1..], a, b, k - 1);
          assert k in rest <==> k - 1 in Places(s[1..], a, b);
        }
      }
    }
  }

  lemma {:induction false} TotalIsOccurrence(names: seq<Name>, p: nat)
    ensures Total(names, p) > 0 <==> exists k: nat | k < |names| :: PairCount(names[k], p) > 0
  {
    if names != [] {
      TotalIsOccurrence(names[1..], p);
      if k: nat :| k < |names[1..]| && PairCount(names[1..][k], p) > 0 {
        assert PairCount(names[k + 1], p) > 0;
      }
      forall k: nat | k < |names| && PairCount(names[k], p) > 0 ensures Total(names, p) > 0 {
        if k > 0 {
          assert PairCount(names[1..][k - 1], p) > 0;
        }
      }
    }
  }

  lemma {:induction false} TotalUpdate(names: seq<Name>, k: nat, s: Name, p: nat)
    requires k < |names|
    ensures Total(names[k := s], p) == Total(names, p) - PairCount(names[k], p) + PairCount(s, p)
  {
    if k > 0 {
      TotalUpdate(names[1..], k - 1, s, p);
      assert names[k := s][1..] == names[1..][k - 1 := s];
    } else {
      assert names[k := s][1..] == names[1..];
    }
  }

  // ----- what replacement does

  /** No occurrence starts before position k: the first k bytes are kept. */
  lemma {:induction false} ReplaceSkip(s: Name, a: byte, b: byte, i: byte, k: nat)
    requires k <= |s| && forall j: nat | j < k :: !At(s, a, b, j)
    ensures Replace(s, a, b, i) == s[..k] + Replace(s[k..], a, b, i)
  {
    if k > 0 {
      forall j: nat | j < k - 1 ensures !At(s[1..], a, b, j) {
        assert !At(s, a, b, j + 1);
      }
      assert !At(s, a, b, 0);
      ReplaceSkip(s[1..], a, b, i, k - 1);
      assert s[1..][k - 1..] == s[k..] && [s[0]] + s[1..][..k - 1] == s[..k];
      if |s| < 2 {
        assert s[k..] == [];
      }
    } else {
      assert s[..0] == [] && s[0..] == s;
    }
  }

  /** Replacing a pair by a byte outside the pair leaves no occurrence of it. */
  lemma {:induction false} NoneLeft(s: Name, a: byte, b: byte, i: byte)
    requires i != a && i != b
    ensures PairCount(Replace(s, a, b, i), Pair(a, b)) == 0
    ensures s != [] ==> Replace(s, a, b, i) != [] && (Replace(s, a, b, i)[0] == s[0] || Replace(s, a, b, i)[0] == i)
  {
    if |s| >= 2 {
      if s[0] == a && s[1] == b {
        NoneLeft(s[2..], a, b, i);
        assert ([i] + Replace(s[2..], a, b, i))[1..] == Replace(s[2..], a, b, i);
      } else {
        NoneLeft(s[1..], a, b, i);
        assert ([s[0]] + Replace(s[1..], a, b, i))[1..] == Replace(s[1..], a, b, i);
      }
    }
  }

  /** The name gets shorter exactly when the pair occurs in it, and is unchanged otherwise. */
  lemma {:induction false} Shrinks(s: Name, a: byte, b: byte, i: byte)
    ensures |Replace(s, a, b, i)| <= |s| && (s != [] ==> Replace(s, a, b, i) != [])
    ensures |Replace(s, a, b, i)| < |s| <==> PairCount(s, Pair(a, b)) > 0
    ensures PairCount(s, Pair(a, b)) == 0 ==> Replace(s, a, b, i) == s
  {
    if |s| >= 2 {
      if s[0] == a && s[1] == b {
        Shrinks(s[2..], a, b, i);
      } else {
        Shrinks(s[1..], a, b, i);
      }
    }
  }

  function Repeated(a: byte, n: nat): (s: Name)
    ensures |s| == n && forall k | 0 <= k < n :: s[k] == a
  {
    seq(n, _ => a)
  }

  /** Overlapping occurrences are taken from the left: a run of n equal bytes becomes n / 2 codes, with the
      odd byte last. */
  lemma {:induction false} ReplaceFromLeft(a: byte, n: nat, i: byte)
    ensures Replace(Repeated(a, n), a, a, i) == Repeated(i, n / 2) + Repeated(a, n % 2)
  {
    var s := Repeated(a, n);
    if n >= 2 {
      ReplaceFromLeft(a, n - 2, i);
      assert s[2..] == Repeated(a, n - 2);
      assert [i] + Repeated(i, (n - 2) / 2) == Repeated(i, n / 2);
    } else {
      assert s == Repeated(i, n / 2) + Repeated(a, n % 2);
    }
  }

  lemma {:induction false} ReplaceBytes(s: Name, a: byte, b: byte, i: byte)
    ensures forall x | x in Replace(s, a, b, i) :: x == i || x in s
  {
    if |s| >= 2 {
      if s[0] == a && s[1] == b {
        ReplaceBytes(s[2..], a, b, i);
      } else {
        ReplaceBytes(s[1..], a, b, i);
      }
    }
  }

  function TotalLength(names: seq<Name>): nat {
    if names == [] then 0 else |names[0]| + TotalLength(names[1..])
  }

  /** The table gets strictly shorter when its profit for the pair is positive. */
  lemma {:induction false} TotalShrinks(names: seq<Name>, a: byte, b: byte, i: byte)
    ensures TotalLength(ReplaceAll(names, a, b, i)) <= TotalLength(names)
    ensures Total(names, Pair(a, b)) > 0 ==> TotalLength(ReplaceAll(names, a, b, i)) < TotalLength(names)
  {
    if names != [] {
      Shrinks(names[0], a, b, i);
      TotalShrinks(names[1..], a, b, i);
      assert ReplaceAll(names, a, b, i)[1..] == ReplaceAll(names[1..], a, b, i);
    }
  }

  // ----- the code table

  /** best_table with best_table_len: entry c is empty, the byte c itself, or a pair of codes. */
  type Codes = t: seq<Name> | |t| == 256 witness seq(256, i => [])

  predicate Literal(t: Codes, c: byte) { t[c] == [c] }

  /** Each pair entry refers only to literals and to pair entries of higher index. */
  ghost predicate Acyclic(t: Codes) {
    forall c: byte ::
      && |t[c]| <= 2
      && (|t[c]| == 1 ==> Literal(t, c))
      && (|t[c]| == 2 ==> forall x | x in t[c] :: Literal(t, x) || (x > c && |t[x]| == 2))
  }

  function Rank(t: Codes, c: byte): nat { if |t[c]| == 2 then 256 - c else 0 }

  function ExpandCode(t: Codes, c: byte): Name
    requires Acyclic(t)
    decreases Rank(t, c)
  {
    if |t[c]| == 2 then ExpandCode(t, t[c][0]) + ExpandCode(t, t[c][1]) else t[c]
  }

  /** What expand_symbol writes for a compressed name. */
  function Expand(t: Codes, s: Name): Name
    requires Acyclic(t)
  {
    if s == [] then [] else ExpandCode(t, s[0]) + Expand(t, s[1..])
  }

  lemma {:induction false} ExpandConcat(t: Codes, s: Name, u: Name)
    requires Acyclic(t)
    ensures Expand(t, s + u) == Expand(t, s) + Expand(t, u)
  {
    if s == [] {
      assert s + u == u;
    } else {
      assert (s + u)[1..] == s[1..] + u;
      ExpandConcat(t, s[1..], u);
    }
  }

  lemma ExpandPair(t: Codes, a: byte, b: byte)
    requires Acyclic(t)
    ensures Expand(t, [a, b]) == ExpandCode(t, a) + ExpandCode(t, b)
  {
    ExpandConcat(t, [a], [b]);
    assert [a] + [b] == [a, b];
  }

  /** Every byte of the name has an entry. */
  ghost predicate Coded(t: Codes, s: Name) { forall x | x in s :: t[x] != [] }

  /** The table after slot i was given a pair. */
  ghost predicate Extends(t: Codes, t': Codes, a: byte, b: byte, i: byte) {
    var all :=
      && Acyclic(t) && t[i] == [] && t' == t[i := [a, b]] && t[a] != [] && t[b] != []
      && forall c: byte | |t[c]| == 2 :: i < c;
    all
  }

  lemma ExtendsAcyclic(t: Codes, t': Codes, a: byte, b: byte, i: byte)
    requires Extends(t, t', a, b, i)
    ensures Acyclic(t')
  {
    forall c: byte | |t'[c]| == 2 ensures forall x | x in t'[c] :: Literal(t', x) || (x > c && |t'[x]| == 2) {
      forall x | x in t'[c] ensures Literal(t', x) || (x > c && |t'[x]| == 2) {
        assert x != i;
      }
    }
  }

  /** A new entry does not change the meaning of the old ones. */
  lemma {:induction false} ExtendsSameCode(t: Codes, t': Codes, a: byte, b: byte, i: byte, c: byte)
    requires Extends(t, t', a, b, i) && Acyclic(t') && c != i
    ensures ExpandCode(t', c) == ExpandCode(t, c)
    decreases Rank(t, c)
  {
    if |t[c]| == 2 {
      var x, y := t[c][0], t[c][1];
      assert x in t[c] && y in t[c];
      ExtendsSameCode(t, t', a, b, i, x);
      ExtendsSameCode(t, t', a, b, i, y);
    }
  }

  lemma {:induction false} ExtendsSame(t: Codes, t': Codes, a: byte, b: byte, i: byte, s: Name)
    requires Extends(t, t', a, b, i) && Acyclic(t') && Coded(t, s)
    ensures Expand(t', s) == Expand(t, s) && i !in s
  {
    if s != [] {
      ExtendsSameCode(t, t', a, b, i, s[0]);
      ExtendsSame(t, t', a, b, i, s[1..]);
    }
  }

  /** Replacing the pair by its new code does not change what the name expands to. */
  lemma {:induction false} ReplaceExpands(t: Codes, s: Name, a: byte, b: byte, i: byte)
    requires Acyclic(t) && t[i] == [a, b]
    ensures Expand(t, Replace(s, a, b, i)) == Expand(t, s)
  {
    if |s| >= 2 {
      if s[0] == a && s[1] == b {
        ReplaceExpands(t, s[2..], a, b, i);
        assert ([i] + Replace(s[2..], a, b, i))[1..] == Replace(s[2..], a, b, i);
        assert s[1..][1..] == s[2..];
      } else {
        ReplaceExpands(t, s[1..], a, b, i);
        assert ([s[0]] + Replace(s[1..], a, b, i))[1..] == Replace(s[1..], a, b, i);
      }
    }
  }

  /** A contiguous part of one of the names. */
  ghost predicate Part(x: Name, names: seq<Name>) {
    exists k: nat, pre: Name, post: Name :: k < |names| && names[k] == pre + x + post
  }

  lemma PairIsPart(t: Codes, names: seq<Name>, orig: seq<Name>, a: byte, b: byte)
    requires Acyclic(t) && |orig| == |names| && Total(names, Pair(a, b)) > 0
    requires forall k: nat | k < |names| :: Expand(t, names[k]) == orig[k]
    ensures Part(ExpandCode(t, a) + ExpandCode(t, b), orig)
    ensures exists k: nat :: k < |names| && a in names[k] && b in names[k]
  {
    hide Acyclic, Expand, ExpandCode, PairCount, Total;
    TotalIsOccurrence(names, Pair(a, b));
    var k: nat :| k < |names| && PairCount(names[k], Pair(a, b)) > 0;
    CountIsOccurrence(names[k], a, b);
    var j: nat :| At(names[k], a, b, j);
    ExpandAround(t, names[k], a, b, j);
    assert names[k][j] in names[k] && names[k][j + 1] in names[k];
  }

  lemma ExpandAround(t: Codes, s: Name, a: byte, b: byte, j: nat)
    requires Acyclic(t) && At(s, a, b, j)
    ensures Expand(t, s) == Expand(t, s[..j]) + (ExpandCode(t, a) + ExpandCode(t, b)) + Expand(t, s[j + 2..])
  {
    hide Acyclic, Expand, ExpandCode;
    assert s == s[..j] + [a, b] + s[j + 2..];
    ExpandConcat(t, s[..j] + [a, b], s[j + 2..]);
    ExpandConcat(t, s[..j], [a, b]);
    ExpandPair(t, a, b);
  }

  // ----- the state between two steps of optimize_result

  /** After slots above i were tried: decoding gives back the original names, bytes without an entry
      are used nowhere, pair codes lie above i, and each pair code stands for a part of an original
      name. */
  ghost predicate Lossless(t: Codes, names: seq<Name>, orig: seq<Name>, i: int) {
    && Acyclic(t) && |names| == |orig|
    && (forall k: nat | k < |names| :: Coded(t, names[k]) && Expand(t, names[k]) == orig[k])
    && (forall c: byte | |t[c]| == 2 :: i < c)
    && (forall c: byte | t[c] != [] :: Part(ExpandCode(t, c), orig))
  }

  /** One step of optimize_result keeps all of it, leaves no occurrence of the chosen pair, and makes
      the table strictly shorter. The new code occurs nowhere before. */
  lemma StepKeepsLossless(t: Codes, t': Codes, names: seq<Name>, orig: seq<Name>, a: byte, b: byte, i: byte)
    requires Lossless(t, names, orig, i) && t[i] == [] && Total(names, Pair(a, b)) > 0 && t' == t[i := [a, b]]
    ensures Lossless(t', ReplaceAll(names, a, b, i), orig, i - 1)
    ensures forall k: nat | k < |names| :: i !in names[k]
    ensures forall c: byte :: i !in t[c]
    ensures TotalLength(ReplaceAll(names, a, b, i)) < TotalLength(names)
    ensures Total(ReplaceAll(names, a, b, i), Pair(a, b)) == 0
  {
    hide Expand, ExpandCode, Replace, PairCount, Total, TotalLength, Part;
    PairIsPart(t, names, orig, a, b);
    assert Extends(t, t', a, b, i);
    ExtendsAcyclic(t, t', a, b, i);
    TotalShrinks(names, a, b, i);
    var names' := ReplaceAll(names, a, b, i);
    forall k: nat | k < |names|
      ensures Coded(t', names'[k]) && Expand(t', names'[k]) == orig[k] && i !in names[k]
    {
      ExtendsSame(t, t', a, b, i, names[k]);
      ReplaceExpands(t', names[k], a, b, i);
      ReplaceBytes(names[k], a, b, i);
    }
    PartsKept(t, t', orig, a, b, i);
    NoneLeftAll(names, a, b, i);
  }

  lemma PartsKept(t: Codes, t': Codes, orig: seq<Name>, a: byte, b: byte, i: byte)
    requires Extends(t, t', a, b, i) && Acyclic(t') && Part(ExpandCode(t, a) + ExpandCode(t, b), orig)
    requires forall c: byte | t[c] != [] :: Part(ExpandCode(t, c), orig)
    ensures forall c: byte | t'[c] != [] :: Part(ExpandCode(t', c), orig)
  {
    hide Acyclic, ExpandCode, Part;
    forall c: byte | t'[c] != [] ensures Part(ExpandCode(t', c), orig) {
      if c == i {
        NewCode(t, t', a, b, i);
      } else {
        ExtendsSameCode(t, t', a, b, i, c);
      }
    }
  }

  lemma NewCode(t: Codes, t': Codes, a: byte, b: byte, i: byte)
    requires Extends(t, t', a, b, i) && Acyclic(t')
    ensures ExpandCode(t', i) == ExpandCode(t, a) + ExpandCode(t, b)
  {
    ExtendsSameCode(t, t', a, b, i, a);
    ExtendsSameCode(t, t', a, b, i, b);
  }

  lemma NoneLeftAll(names: seq<Name>, a: byte, b: byte, i: byte)
    requires i != a && i != b
    ensures Total(ReplaceAll(names, a, b, i), Pair(a, b)) == 0
  {
    var names' := ReplaceAll(names, a, b, i);
    TotalIsOccurrence(names', Pair(a, b));
    forall k: nat | k < |names'| ensures PairCount(names'[k], Pair(a, b)) == 0 {
      NoneLeft(names[k], a, b, i);
    }
  }

  /** A compressed name is no longer than the name it stands for. */
  lemma {:induction false} ExpandsLonger(t: Codes, s: Name)
    requires Acyclic(t) && Coded(t, s)
    ensures |s| <= |Expand(t, s)|
  {
    if s != [] {
      CodeNotEmpty(t, s[0]);
      ExpandsLonger(t, s[1..]);
    }
  }

  lemma {:induction false} CodeNotEmpty(t: Codes, c: byte)
    requires Acyclic(t) && t[c] != []
    ensures ExpandCode(t, c) != []
    decreases Rank(t, c)
  {
    if |t[c]| == 2 {
      assert t[c][0] in t[c];
      CodeNotEmpty(t, t[c][0]);
    }
  }
}
