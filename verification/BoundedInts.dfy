/** The machine integer widths the source relies on, and the wrap-around
    of unsigned 32-bit arithmetic in a release build. */
module BoundedInts {

  const TWO_TO_THE_32: int := 0x1_0000_0000

  /** An octet of a pixel buffer or of an encoded file. */
  type byte = bv8

  type uint32 = x: int | 0 <= x < TWO_TO_THE_32
  type int32 = x: int | -0x8000_0000 <= x < 0x8000_0000

  /** The value a `u32` holds after an arithmetic result `x` is stored in
      it: the product wraps modulo 2^32. */
  function WrapU32(x: int): (r: uint32)
    ensures 0 <= x < TWO_TO_THE_32 ==> r == x
    ensures 0 <= x ==> r <= x
    ensures (x - r) % TWO_TO_THE_32 == 0
  {
    x % TWO_TO_THE_32
  }

  /** `x as u32` for an `i32`: the two's-complement bit pattern read back
      as unsigned, so a negative value becomes a large one. */
  function I32AsU32(x: int32): (r: uint32)
    ensures 0 <= x ==> r == x
    ensures x < 0 ==> r >= 0x8000_0000 && r - x == TWO_TO_THE_32
  {
    if x < 0 then x + TWO_TO_THE_32 else x
  }
}
