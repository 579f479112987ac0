/** Python's `max` and `min` on two integers. */
module Bounds {
  function Max(a: int, b: int): int { if a >= b then a else b }
  function Min(a: int, b: int): int { if a <= b then a else b }
}
