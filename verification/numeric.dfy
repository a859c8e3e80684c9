/** Machine integer ranges and the few numeric conversions the renderer relies on. */
module Numeric {

  const U32_LIMIT: int := 0x1_0000_0000

  /** Rust's `u32`. */
  type U32 = x: int | 0 <= x < 0x1_0000_0000

  /** Rust's `u64`. */
  type U64 = x: int | 0 <= x < 0x1_0000_0000_0000_0000

  /** Rust's `u8`. */
  type Byte = x: int | 0 <= x < 256

  function Min(a: int, b: int): int {
    if a <= b then a else b
  }

  function Max(a: int, b: int): int {
    if a <= b then b else a
  }

  /** Rust's `as u8` on a float: truncation toward zero, saturating at both
      ends of the byte range. */
  function SaturatingByte(x: real): (b: Byte)
    ensures x <= 0.0 ==> b == 0
    ensures x >= 255.0 ==> b == 255
    ensures 0.0 <= x < 255.0 ==> b as real <= x < b as real + 1.0
  {
    if x <= 0.0 then 0 else if x >= 255.0 then 255 else x.Floor
  }
}
