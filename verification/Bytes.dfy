/** The unsigned machine types shared by the models. */
module Bytes {
  newtype byte = x: int | 0 <= x < 256

  const TWO_16: nat := 0x1_0000
  const TWO_31: nat := 0x8000_0000
  const TWO_32: nat := 0x1_0000_0000

  /** The value a `uint32_t` holds after an operation whose exact result is `x`. */
  function U32(x: int): (r: nat)
    ensures r < TWO_32
    ensures 0 <= x < TWO_32 ==> r == x
    ensures x < 0 <= x + TWO_32 ==> r == x + TWO_32
  {
    x % TWO_32
  }
}
