/** Java's 64-bit signed `long`, with its two's-complement addition written out. */
module Longs {

  const TwoTo63: int := 0x8000_0000_0000_0000
  const TwoTo64: int := 0x1_0000_0000_0000_0000

  newtype Long = x: int | -0x8000_0000_0000_0000 <= x < 0x8000_0000_0000_0000

  const MaxLong: Long := 0x7fff_ffff_ffff_ffff

  /** `a + b` on Java longs: the mathematical sum folded back into the 64-bit range. */
  function WrapAdd(a: Long, b: Long): (r: Long)
    ensures -TwoTo63 <= a as int + b as int < TwoTo63 ==> r as int == a as int + b as int
    ensures (a as int + b as int - r as int) % TwoTo64 == 0
  {
    ((a as int + b as int + TwoTo63) % TwoTo64 - TwoTo63) as Long
  }
}
