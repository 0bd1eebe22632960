/** The limits of the unsigned machine integers that the program counts in, and a little arithmetic. */
module Integers {
  const U8_MAX: nat := 0xFF
  const U32_MAX: nat := 0xFFFF_FFFF
  const U64_MAX: nat := 0xFFFF_FFFF_FFFF_FFFF

  /** How many values a 64-bit counter takes before it wraps around. */
  const U64_RANGE: nat := U64_MAX + 1

  function Min(a: nat, b: nat): nat {
    if a <= b then a else b
  }

  function Max(a: nat, b: nat): nat {
    if a <= b then b else a
  }

  function Pow2(n: nat): (p: nat)
    ensures p >= 1
  {
    if n == 0 then 1 else 2 * Pow2(n - 1)
  }
}
