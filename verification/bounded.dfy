/** Fixed-width unsigned and signed integers of the source, as subset types of
    `int`, with the saturating operations Rust provides on them. */
module Bounded {

  const U8_MAX: int := 0xFF
  const U16_MAX: int := 0xFFFF
  const USIZE_MAX: int := 0xFFFF_FFFF_FFFF_FFFF
  const I32_MIN: int := -0x8000_0000
  const I32_MAX: int := 0x7FFF_FFFF
  const I64_MIN: int := -0x8000_0000_0000_0000
  const I64_MAX: int := 0x7FFF_FFFF_FFFF_FFFF

  type u8 = x: int | 0 <= x <= U8_MAX
  type u16 = x: int | 0 <= x <= U16_MAX
  /** `usize` on a 64-bit target. */
  type usize = x: int | 0 <= x <= USIZE_MAX
  type i32 = x: int | I32_MIN <= x <= I32_MAX
  type i64 = x: int | I64_MIN <= x <= I64_MAX

  function Min(a: int, b: int): int {
    if a <= b then a else b
  }

  function Max(a: int, b: int): int {
    if a >= b then a else b
  }

  function SatAdd16(a: u16, b: u16): u16 {
    if a + b > U16_MAX then U16_MAX else a + b
  }

  function SatSub16(a: u16, b: u16): u16 {
    if a >= b then a - b else 0
  }

  function SatMul16(a: u16, b: u16): u16 {
    if a * b > U16_MAX then U16_MAX else a * b
  }

  function SatAddUsize(a: usize, b: usize): usize {
    if a + b > USIZE_MAX then USIZE_MAX else a + b
  }

  function SatSubUsize(a: usize, b: usize): usize {
    if a >= b then a - b else 0
  }
}
