/** The vector strcmp against the scalar one (others/rvv/case_analysis_1_strcmp). Memory is a sequence of
    bytes; char is unsigned, as on RISC-V. */
module Strcmp {
  import opened Words

  /** Both strings stop mattering at position k: the first ends there, or they differ there. */
  predicate StopsAt(mem: seq<byte>, a: nat, b: nat, k: nat) {
    a + k < |mem| && b + k < |mem| && (mem[a + k] == 0 || mem[a + k] != mem[b + k])
  }

  /** n is the first such position; all bytes before it are readable, equal and not zero. */
  ghost predicate FirstStop(mem: seq<byte>, a: nat, b: nat, n: nat) {
    StopsAt(mem, a, b, n) && forall k: nat | k < n :: !StopsAt(mem, a, b, k)
  }

  /** strcmp of strcmp_test.c. */
  method Scalar(mem: seq<byte>, str1: nat, str2: nat, ghost n: nat) returns (r: int)
    requires FirstStop(mem, str1, str2, n)
    ensures r == mem[str1 + n] as int - mem[str2 + n] as int
  {
    var p1, p2 := str1, str2;
    var c1: byte, c2: byte, more := 0, 0, true;
    ghost var k := 0;
    while more
      invariant p1 == str1 + k && p2 == str2 + k && k <= n + 1
      invariant more ==> k <= n
      invariant !more ==> k == n + 1 && c1 == mem[str1 + n] && c2 == mem[str2 + n]
      decreases n + 1 - k
    {
      assert k < n ==> !StopsAt(mem, str1, str2, k);
      c1, c2 := mem[p1], mem[p2];
      p1, p2 := p1 + 1, p2 + 1;
      k := k + 1;
      more := c1 != 0 && c1 == c2;
    }
    return c1 as int - c2 as int;
  }

  /** vle8ff.v: at least one byte, at most avl, and no byte that is not readable. The hardware may load
      fewer than it could. */
  method LoadFirstFault(mem: seq<byte>, addr: nat, avl: nat) returns (v: seq<byte>, vl: nat)
    requires addr < |mem| && avl > 0
    ensures 1 <= vl <= avl && addr + vl <= |mem| && v == mem[addr..addr + vl]
  {
    vl :| 1 <= vl <= avl && addr + vl <= |mem|;
    v := mem[addr..addr + vl];
  }

  /** vmseq, vmsne, vmor and vfirst on the first vl elements. */
  method FirstFlag(v8: seq<byte>, v16: seq<byte>, vl: nat) returns (i: int)
    requires vl <= |v8| && vl <= |v16|
    ensures i == -1 || (0 <= i < vl && (v8[i] == 0 || v8[i] != v16[i]))
    ensures forall j | 0 <= j < (if i == -1 then vl else i) :: v8[j] != 0 && v8[j] == v16[j]
  {
    i := 0;
    while i < vl
      invariant 0 <= i <= vl && forall j | 0 <= j < i :: v8[j] != 0 && v8[j] == v16[j]
    {
      if v8[i] == 0 || v8[i] != v16[i] {
        return;
      }
      i := i + 1;
    }
    return -1;
  }

  /** strcmp_asm: whatever the vector length and however the loads are trimmed, the result is that of the
      scalar function. */
  method Vector(mem: seq<byte>, src1: nat, src2: nat, vlmax: nat, ghost n: nat) returns (r: int)
    requires FirstStop(mem, src1, src2, n) && vlmax > 0
    ensures r == mem[src1 + n] as int - mem[src2 + n] as int
  {
    var a0, a1, t1 := src1, src2, 0;
    var a2 := -1;
    ghost var k := 0;
    while a2 < 0
      invariant a0 + t1 == src1 + k && a1 + t1 == src2 + k && a0 >= src1 && t1 >= 0
      invariant a2 < 0 ==> k <= n
      invariant a2 >= 0 ==> a0 + a2 == src1 + n && a1 + a2 == src2 + n
      decreases a2 < 0, n + 1 - k
    {
      a0 := a0 + t1;
      var v8, vl := LoadFirstFault(mem, a0, vlmax);
      a1 := a1 + t1;
      var v16, vl' := LoadFirstFault(mem, a1, vl);
      a2 := FirstFlag(v8, v16, vl');
      t1 := vl';
      Searched(mem, src1, src2, n, k, v8, v16, vl', a2);
      k := k + vl';
    }
    r := mem[a0 + a2] as int - mem[a1 + a2] as int;
  }

  /** What one strip tells about the first stop. */
  lemma Searched(mem: seq<byte>, a: nat, b: nat, n: nat, k: nat, v8: seq<byte>, v16: seq<byte>, vl: nat, i: int)
    requires FirstStop(mem, a, b, n) && k <= n
    requires vl <= |v8| && vl == |v16| && a + k + |v8| <= |mem| && b + k + vl <= |mem|
    requires v8 == mem[a + k..a + k + |v8|] && v16 == mem[b + k..b + k + vl]
    requires i == -1 || (0 <= i < vl && (v8[i] == 0 || v8[i] != v16[i]))
    requires forall j | 0 <= j < (if i == -1 then vl else i) :: v8[j] != 0 && v8[j] == v16[j]
    ensures if i == -1 then k + vl <= n else k + i == n
  {
    if i != -1 {
      assert StopsAt(mem, a, b, k + i);
    }
    var all := if i == -1 then vl else i;
    forall m: nat | k <= m < k + all ensures !StopsAt(mem, a, b, m) {
      assert v8[m - k] == mem[a + m] && v16[m - k] == mem[b + m];
    }
  }

  // ----- what the result means

  /** The string at a, up to its zero. */
  ghost predicate IsString(mem: seq<byte>, a: nat, s: seq<byte>) {
    a + |s| < |mem| && mem[a..a + |s|] == s && mem[a + |s|] == 0 && forall i | 0 <= i < |s| :: s[i] != 0
  }

  /** Two strings always have a first stop; the difference there is zero exactly for equal strings, and
      otherwise has the sign of their order by unsigned bytes, a proper prefix being smaller. */
  lemma Meaning(mem: seq<byte>, a: nat, b: nat, s: seq<byte>, t: seq<byte>, n: nat)
    requires IsString(mem, a, s) && IsString(mem, b, t) && FirstStop(mem, a, b, n)
    ensures n <= |s| && n <= |t| && s[..n] == t[..n]
    ensures var r := mem[a + n] as int - mem[b + n] as int;
            && (r == 0 <==> s == t)
            && (r < 0 <==> n < |t| && (n == |s| || s[n] < t[n]))
            && (r > 0 <==> n < |s| && (n == |t| || t[n] < s[n]))
  {
    At(mem, a, s);
    At(mem, b, t);
    assert n > |s| ==> !StopsAt(mem, a, b, |s|);
    assert n > |t| ==> !StopsAt(mem, a, b, |t|);
    forall i | 0 <= i < n ensures s[i] == t[i] {
      assert !StopsAt(mem, a, b, i);
    }
  }

  lemma At(mem: seq<byte>, a: nat, s: seq<byte>)
    requires IsString(mem, a, s)
    ensures forall i | 0 <= i < |s| :: mem[a + i] == s[i]
  {
    forall i | 0 <= i < |s| ensures mem[a + i] == s[i] {
      assert mem[a..a + |s|][i] == mem[a + i];
    }
  }

  lemma {:induction false} StopExists(mem: seq<byte>, a: nat, b: nat, k: nat) returns (n: nat)
    requires StopsAt(mem, a, b, k)
    ensures FirstStop(mem, a, b, n) && n <= k
  {
    if j: nat :| j < k && StopsAt(mem, a, b, j) {
      n := StopExists(mem, a, b, j);
    } else {
      n := k;
    }
  }
}
