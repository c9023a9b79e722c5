/** The source's signed 32-bit integers and the `clamp` it applies to them. */
module Numeric {
  const I32_MIN: int := -0x8000_0000
  const I32_MAX: int := 0x7fff_ffff

  /** Rust's `i32`. An arithmetic result outside this range is an overflow
      (a panic in a debug build), so the model's operations require it away. */
  newtype i32 = x: int | -0x8000_0000 <= x < 0x8000_0000

  predicate InI32(v: int) {
    I32_MIN <= v <= I32_MAX
  }

  /** `v.clamp(lo, hi)`: the point of `[lo, hi]` nearest to `v`
      (Rust panics when `lo > hi`, hence the requires). */
  function Clamp(v: int, lo: int, hi: int): (r: int)
    requires lo <= hi
    ensures lo <= r <= hi
    ensures lo <= v <= hi ==> r == v
    ensures v < lo ==> r == lo
    ensures hi < v ==> r == hi
  {
    if v < lo then lo else if hi < v then hi else v
  }
}
