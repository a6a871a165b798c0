/** The built-in `min` and `max` of two integers. */
module Integers {
  function Min(a: int, b: int): int { if a < b then a else b }

  function Max(a: int, b: int): int { if a < b then b else a }
}
