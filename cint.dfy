/** The widths of the C integer types the engine computes in (LP64: 32-bit `int`, 64-bit `long`). */
module CInt {
  /** 2^32 and 2^31: a C `int` holds values in [-2^31, 2^31). */
  const IntModulus: int := 0x1_0000_0000
  const IntBound: int := 0x8000_0000

  /** 2^64: `unsigned long` arithmetic wraps modulo this. */
  const ULongModulus: int := 0x1_0000_0000_0000_0000

  /**
   * Conversion of a `long` to `int`: keeps the low 32 bits as a two's
   * complement value (what gcc does; the C standard leaves it to the
   * implementation).
   */
  function ToInt(x: int): (r: int)
    ensures -IntBound <= r < IntBound
    ensures (x - r) % IntModulus == 0
  {
    var low := x % IntModulus;
    if low < IntBound then low else low - IntModulus
  }
}
