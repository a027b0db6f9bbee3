/** Fixed-width unsigned integers of the Rust source and an Option type. */
module Primitives {

  datatype Option<T> = None | Some(value: T)

  const U16_LIMIT: int := 0x1_0000
  const U32_LIMIT: int := 0x1_0000_0000
  const U64_LIMIT: int := 0x1_0000_0000_0000_0000

  type U16 = x: int | 0 <= x < 0x1_0000
  type U32 = x: int | 0 <= x < 0x1_0000_0000
  type U64 = x: int | 0 <= x < 0x1_0000_0000_0000_0000

  /** `+=` on a `u32` in a release build: the sum wraps around modulo 2^32. */
  function WrapU32(x: nat): (r: U32)
    ensures x < U32_LIMIT ==> r == x
    ensures r < x || r == x
    ensures (x - r) % U32_LIMIT == 0
  {
    x % U32_LIMIT
  }

  /** `+= 1` on a `u64` in a release build. */
  function WrapU64(x: nat): (r: U64)
    ensures x < U64_LIMIT ==> r == x
    ensures r <= x && (x - r) % U64_LIMIT == 0
  {
    x % U64_LIMIT
  }

  /** Rust's `as u16` from a float that is already an integer: it saturates at both ends. */
  function SaturateU16(x: int): (r: U16)
    ensures 0 <= x < U16_LIMIT ==> r == x
    ensures x < 0 ==> r == 0
    ensures U16_LIMIT <= x ==> r == U16_LIMIT - 1
  {
    if x < 0 then 0 else if x >= U16_LIMIT then U16_LIMIT - 1 else x
  }
}
