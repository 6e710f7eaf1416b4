/**
  `size_t` arithmetic of the earlier revision under Sorting/: values lie in
  [0, SIZE_MAX] and subtraction wraps around modulo SIZE_MAX + 1.
*/
module Unsigned {
  /** SIZE_MAX + 1 for a 64-bit `size_t`. */
  const SizeModulus: int := 0x1_0000_0000_0000_0000

  predicate IsSize(x: int) {
    0 <= x < SizeModulus
  }

  /** `x - 1` on a `size_t`: 0 wraps to SIZE_MAX. */
  function SizeDec(x: int): (r: int)
    requires IsSize(x)
    ensures IsSize(r)
    ensures x == 0 ==> r == SizeModulus - 1
    ensures x > 0 ==> r == x - 1
  {
    if x == 0 then SizeModulus - 1 else x - 1
  }

  /** `x + 1` on a `size_t`: SIZE_MAX wraps to 0. */
  function SizeInc(x: int): (r: int)
    requires IsSize(x)
    ensures IsSize(r)
    ensures x == SizeModulus - 1 ==> r == 0
    ensures x < SizeModulus - 1 ==> r == x + 1
  {
    if x == SizeModulus - 1 then 0 else x + 1
  }
}
