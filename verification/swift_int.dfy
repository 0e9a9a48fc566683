/** The range of Swift's `Int` on the 64-bit platforms the library targets. */
module SwiftInt {

  const IntMin: int := -0x8000_0000_0000_0000
  const IntMax: int := 0x7FFF_FFFF_FFFF_FFFF

  /** A value of Swift's `Int`. Dafny's `int` is unbounded, so the width is a subset constraint. */
  type Int = x: int | IntMin <= x <= IntMax
}
