/**
 * Single-precision arithmetic as the ray tracer relies on it.
 *
 * Numbers are modelled as mathematical reals. The few operations whose
 * result has no exact real meaning (reinterpreting bits, the library's
 * square root, Math.Pow, a division by zero, an out-of-range byte cast)
 * are uninterpreted constants: the model knows nothing about their values,
 * so every property proved here holds whatever they return.
 */
module Float32 {

  /** An unsigned byte, the element type of the scanline buffer. */
  newtype byte = x: int | 0 <= x < 256

  /** float.MaxValue, the initial "closest distance" of the hit scan. */
  const MaxValue: real := 340282346638528859811704183484516925440.0

  /** The IEEE-754 single-precision bit pattern of the float nearest to a real. */
  const BitsOf: real -> bv32

  /** The value of a single-precision bit pattern read back as a float. */
  const FloatOfBits: bv32 -> real

  /** (float)(1.0 / Math.Sqrt(x)), the library's reciprocal square root, rounded. */
  const RecipSqrt: real -> real

  /** (float)Math.Pow(x, y). */
  const Pow: (real, real) -> real

  /** n / d for d == 0: an infinity or NaN in IEEE arithmetic, some real here. */
  const ZeroDivide: real -> real

  /** The unspecified result of casting an out-of-range float to byte. */
  const UncheckedByte: real -> byte

  /** C#'s `>>` on a 32-bit signed int: an arithmetic shift that copies the sign bit. */
  function Sar(a: bv32, n: bv32): (r: bv32)
    requires n < 32
    ensures a & 0x8000_0000 == 0 ==> r == a >> n
    ensures a & 0x8000_0000 != 0 ==> !r == (!a) >> n
  {
    if a & 0x8000_0000 == 0 then a >> n else !((!a) >> n)
  }

  /** The (int) cast of a float: truncation toward zero. */
  function Truncate(x: real): (n: int)
    ensures 0.0 <= x ==> n as real <= x < n as real + 1.0
    ensures x <= 0.0 ==> n as real - 1.0 < x <= n as real
  {
    if x >= 0.0 then x.Floor else -((-x).Floor)
  }

  /**
   * The (byte) cast of a float: truncation toward zero when the truncated
   * value fits, so (-1, 0) casts to 0; unspecified outside (-1, 256).
   */
  function ToByte(x: real): (b: byte)
    ensures -1.0 < x < 256.0 ==> b as int == Truncate(x)
    ensures 0.0 <= x < 256.0 ==> b as int == x.Floor
    ensures -1.0 < x < 1.0 ==> b == 0
  {
    if -1.0 < x < 256.0 then Truncate(x) as byte else UncheckedByte(x)
  }
}
