/** Numbers, as several parts of the wrapper compare and bound them. */
module Numbers {

  /** Number of 32-bit words, the wrap-around and saturation point of `u32`. */
  const U32_SIZE: nat := 0x1_0000_0000
  const U32_MAX: nat := 0xFFFF_FFFF

  /** Negative, zero or positive, as a three-way comparison answers. */
  function CmpInt(a: int, b: int): int {
    if a < b then -1 else if a == b then 0 else 1
  }

  predicate Ascending(ns: seq<nat>) {
    forall i, j | 0 <= i < j < |ns| :: ns[i] < ns[j]
  }
}
