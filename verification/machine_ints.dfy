/** The fixed-width integer types of the program, and the `as i32` truncation it performs. */
module MachineInts {

  const I32_MIN: int := -0x8000_0000
  const I32_MAX: int := 0x7FFF_FFFF
  const I64_MIN: int := -0x8000_0000_0000_0000
  const I64_MAX: int := 0x7FFF_FFFF_FFFF_FFFF
  const U32_MAX: int := 0xFFFF_FFFF

  type i32 = x: int | I32_MIN <= x <= I32_MAX
  type i64 = x: int | I64_MIN <= x <= I64_MAX
  type u32 = x: int | 0 <= x <= U32_MAX

  /** Two's-complement truncation to 32 bits (Rust's `x as i32` on a wider integer). */
  function WrapI32(x: int): (r: i32)
    ensures (r - x) % 0x1_0000_0000 == 0
    ensures I32_MIN <= x <= I32_MAX ==> r == x
  {
    (x - I32_MIN) % 0x1_0000_0000 + I32_MIN
  }

  /** Wrapping multiplication of two `u32` values (release-build `*`). */
  function WrappingMulU32(a: u32, b: u32): (r: u32)
    ensures (r - a * b) % 0x1_0000_0000 == 0
    ensures a * b <= U32_MAX ==> r == a * b
  {
    (a * b) % 0x1_0000_0000
  }

  /** `u32::saturating_sub`. */
  function SaturatingSubU32(a: u32, b: u32): (r: u32)
    ensures a >= b ==> r == a - b
    ensures a < b ==> r == 0
  {
    if a >= b then a - b else 0
  }

  /** Two values that agree modulo 2^32 and both lie in the `i32` range are equal,
      so `WrapI32` is the only in-range value congruent to its input. */
  lemma WrapI32Unique(x: int, y: int)
    requires I32_MIN <= y <= I32_MAX
    requires (y - x) % 0x1_0000_0000 == 0
    ensures y == WrapI32(x)
  {
    var r := WrapI32(x);
    assert (y - r) % 0x1_0000_0000 == 0 by {
      assert y - r == (y - x) - (r - x);
    }
    var d := (y - r) / 0x1_0000_0000;
    assert y - r == d * 0x1_0000_0000;
    assert -0x1_0000_0000 < y - r < 0x1_0000_0000;
    assert d == 0;
  }
}
