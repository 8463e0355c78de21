/** The Go `uint32` type used for note ids and the store's id counter. */
module Uint32 {

  const MODULUS: int := 0x1_0000_0000

  newtype u32 = x: int | 0 <= x < MODULUS

  const MAX: u32 := 0xFFFF_FFFF

  /** Go's `n++` on a `uint32`: adds one and wraps around to zero at 2^32. */
  function Inc(n: u32): (r: u32)
    ensures r as int == (n as int + 1) % MODULUS
    ensures r == 0 <==> n == MAX
  {
    if n == MAX then 0 else n + 1
  }
}
