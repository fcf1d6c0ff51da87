/** Fixed-width integer types of the target platform and the plain integer
    pair that stands for the terminal library's `Vec2`. */
module Primitives {

  const I32_MIN: int := -0x8000_0000
  const I32_MAX: int := 0x7FFF_FFFF
  const U64_MAX: int := 0xFFFF_FFFF_FFFF_FFFF
  /** `usize` is taken to be 64 bits wide, as on the usual desktop targets. */
  const USIZE_MAX: int := U64_MAX

  newtype i32 = x: int | I32_MIN <= x <= I32_MAX
  newtype u64 = x: int | 0 <= x <= U64_MAX
  newtype usize = x: int | 0 <= x <= USIZE_MAX

  /** A point or extent on the character grid; both components are `i32`. */
  datatype Vec2 = Vec2(x: i32, y: i32)
}
