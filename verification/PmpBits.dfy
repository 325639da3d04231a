/** Bytes of a configuration register. */
module PmpBits {
  /** The byte that starts at bit s. */
  function GetByte(c: bv64, s: bv7): bv64
    requires s <= 56
  {
    (c >> s) & 0xff
  }

  /** The register with that byte replaced, as sbi_set_pmp masks it in. */
  function SetByte(c: bv64, s: bv7, v: bv64): bv64
    requires s <= 56
  {
    var cfgmask: bv64 := !(0xff << s);
    (c & cfgmask) | ((v << s) & !cfgmask)
  }

  /** Digit i of the register in base 256: where section 3.7 puts the fields of entry i. */
  function Digit(c: bv64, i: nat): bv64
    requires i < 8
  {
    match i
    case 0 => c % 0x100
    case 1 => c / 0x100 % 0x100
    case 2 => c / 0x1_0000 % 0x100
    case 3 => c / 0x100_0000 % 0x100
    case 4 => c / 0x1_0000_0000 % 0x100
    case 5 => c / 0x100_0000_0000 % 0x100
    case 6 => c / 0x1_0000_0000_0000 % 0x100
    case _ => c / 0x100_0000_0000_0000
  }

  lemma LowDigits(c: bv64)
    ensures c & 0xff == c % 0x100 && (c >> 8) & 0xff == c / 0x100 % 0x100
    ensures (c >> 16) & 0xff == c / 0x1_0000 % 0x100 && (c >> 24) & 0xff == c / 0x100_0000 % 0x100
  {
  }

  lemma HighDigits(c: bv64)
    ensures (c >> 32) & 0xff == c / 0x1_0000_0000 % 0x100 && (c >> 40) & 0xff == c / 0x100_0000_0000 % 0x100
    ensures (c >> 48) & 0xff == c / 0x1_0000_0000_0000 % 0x100 && (c >> 56) & 0xff == c / 0x100_0000_0000_0000
  {
  }

  lemma ByteIs(c: bv64)
    ensures GetByte(c, 0) == c & 0xff && GetByte(c, 8) == (c >> 8) & 0xff && GetByte(c, 16) == (c >> 16) & 0xff
    ensures GetByte(c, 24) == (c >> 24) & 0xff && GetByte(c, 32) == (c >> 32) & 0xff
    ensures GetByte(c, 40) == (c >> 40) & 0xff && GetByte(c, 48) == (c >> 48) & 0xff
    ensures GetByte(c, 56) == (c >> 56) & 0xff
  {
  }

  /** The byte that starts at bit 8 * i is digit i. */
  lemma ByteIsDigit(c: bv64, i: nat)
    requires i < 8
    ensures Digit(c, i) == match i
                           case 0 => GetByte(c, 0)
                           case 1 => GetByte(c, 8)
                           case 2 => GetByte(c, 16)
                           case 3 => GetByte(c, 24)
                           case 4 => GetByte(c, 32)
                           case 5 => GetByte(c, 40)
                           case 6 => GetByte(c, 48)
                           case _ => GetByte(c, 56)
  {
    hide GetByte;
    LowDigits(c);
    HighDigits(c);
    ByteIs(c);
  }

  /** The first bits of the eight bytes. */
  predicate IsShift(s: bv7) { s == 0 || s == 8 || s == 16 || s == 24 || s == 32 || s == 40 || s == 48 || s == 56 }

  function Mask(s: bv7): bv64
    requires s <= 56
  {
    0xff << s
  }

  function Both(v: bv64, w: bv64): bv64 { v & w }

  function Right(v: bv64, s: bv7): bv64
    requires s <= 56
  {
    v >> s
  }

  lemma SameByte(c: bv64, s: bv7, v: bv64)
    requires IsShift(s)
    ensures GetByte(SetByte(c, s, v), s) == v & 0xff
  {
    if s == 0 {
    } else if s == 8 {
    } else if s == 16 {
    } else if s == 24 {
    } else if s == 32 {
    } else if s == 40 {
    } else if s == 48 {
    } else {
    }
  }

  lemma ByteOf(c: bv64, s: bv7)
    requires IsShift(s)
    ensures GetByte(c, s) == Right(Both(c, Mask(s)), s)
  {
    if s == 0 {
    } else if s == 8 {
    } else if s == 16 {
    } else if s == 24 {
    } else if s == 32 {
    } else if s == 40 {
    } else if s == 48 {
    } else {
    }
  }

  lemma MasksDisjoint(s: bv7, u: bv7)
    requires IsShift(s) && IsShift(u) && s != u
    ensures Both(Mask(s), Mask(u)) == 0
  {
    if s == 0 {
    } else if s == 8 {
    } else if s == 16 {
    } else if s == 24 {
    } else if s == 32 {
    } else if s == 40 {
    } else if s == 48 {
    } else {
    }
  }

  lemma KeepsOthers(c: bv64, s: bv7, v: bv64, k: bv64)
    requires s <= 56 && Both(Mask(s), k) == 0
    ensures Both(SetByte(c, s, v), k) == Both(c, k)
  {
    Merge(c, v << s, Mask(s), k);
  }

  lemma Merge(c: bv64, w: bv64, m: bv64, k: bv64)
    requires m & k == 0
    ensures ((c & !m) | (w & !!m)) & k == c & k
  {
  }

  /** Setting a byte leaves the others as they are. */
  lemma OtherByte(c: bv64, s: bv7, v: bv64, u: bv7)
    requires IsShift(s) && IsShift(u) && s != u
    ensures GetByte(SetByte(c, s, v), u) == GetByte(c, u)
  {
    hide GetByte, SetByte, Both, Right, Mask;
    MasksDisjoint(s, u);
    KeepsOthers(c, s, v, Mask(u));
    ByteOf(SetByte(c, s, v), u);
    ByteOf(c, u);
  }

  const PMP_A: bv64 := 0x18
  const PMP_A_NA4: bv64 := 0x10
  const PMP_A_NAPOT: bv64 := 0x18

  /** prot with its address-matching field replaced. */
  function WithMode(prot: bv64, mode: bv64): bv64 { (prot & !PMP_A) | mode }

  /** The config byte keeps the other bits of prot and gets the mode. */
  lemma ModeBits(prot: bv64, mode: bv64)
    requires mode == PMP_A_NA4 || mode == PMP_A_NAPOT
    ensures WithMode(prot, mode) & 0xff == (prot & 0xe7) | mode
    ensures (WithMode(prot, mode) & 0xff) & 0x18 == mode && (WithMode(prot, mode) & 0xff) & 0xe7 == prot & 0xe7
  {
  }
}
