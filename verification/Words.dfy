/** Bytes and unsigned 64-bit words. */
module Words {
  const TWO_64: nat := 0x1_0000_0000_0000_0000

  type byte = x: int | 0 <= x < 256 witness 0
  type u64 = x: int | 0 <= x < 0x1_0000_0000_0000_0000

  /** An unsigned 64-bit sum or difference of two u64 values. */
  function Wrap(x: int): u64
    requires -0x1_0000_0000_0000_0000 <= x < 0x2_0000_0000_0000_0000
  {
    if x < 0 then x + TWO_64 else if x >= TWO_64 then x - TWO_64 else x
  }

  /** It differs from the exact value by a multiple of 2^64. */
  lemma WrapIsModular(x: int)
    requires -0x1_0000_0000_0000_0000 <= x < 0x2_0000_0000_0000_0000
    ensures Wrap(x) == x || Wrap(x) == x + 0x1_0000_0000_0000_0000 || Wrap(x) == x - 0x1_0000_0000_0000_0000
  {
  }
}
