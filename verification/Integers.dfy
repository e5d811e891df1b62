/** The program's machine integer. */
module Integers {
  const MAX_INT := 0x7FFF_FFFF_FFFF_FFFF

  /** Every operation on it is checked for overflow. */
  newtype Int = x: int | -MAX_INT - 1 <= x <= MAX_INT

  function Min(a: int, b: int): int {
    if a <= b then a else b
  }
}
