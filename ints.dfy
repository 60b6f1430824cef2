/**
 * Fixed-width unsigned integers of the Rust source, as subset types of int.
 */
module Ints {

  const U32_MAX: int := 0xFFFF_FFFF
  const U64_MAX: int := 0xFFFF_FFFF_FFFF_FFFF

  /** 2^64, the modulus of u64 arithmetic. */
  const TWO_TO_THE_64: int := 0x1_0000_0000_0000_0000

  type u32 = x: int | 0 <= x <= U32_MAX

  type u64 = x: int | 0 <= x <= U64_MAX

  /** Rust's `x as u64` on a non-negative wider integer: keeps the low 64 bits. */
  function TruncateToU64(x: nat): (r: u64)
    ensures x <= U64_MAX ==> r == x
  {
    x % TWO_TO_THE_64
  }

  /** Rust's `a + b` on u64 in a release build, where an overflow wraps around. */
  function WrappingAddU64(a: u64, b: u64): (r: u64)
    ensures a + b <= U64_MAX ==> r == a + b
    ensures a + b > U64_MAX ==> r == a + b - TWO_TO_THE_64 && r < a
  {
    (a + b) % TWO_TO_THE_64
  }
}
