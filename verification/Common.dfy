/** Small shared vocabulary: optional values and C's integer operators. */
module Common {

  datatype Option<+T> = None | Some(value: T)

  function Abs(x: int): nat {
    if x < 0 then -x else x
  }

  /** C's `/`: the quotient is truncated toward zero. */
  function CDiv(a: int, b: int): int
    requires b > 0
  {
    if a >= 0 then a / b else -((-a) / b)
  }

  /** C's `%`: the remainder takes the sign of the dividend. */
  function CRem(a: int, b: int): (r: int)
    requires b > 0
    ensures -b < r < b
  {
    if a >= 0 then a % b else -((-a) % b)
  }

  const TWO_TO_THE_32: int := 0x1_0000_0000
  const INT32_MAX: int := 0x7FFF_FFFF
  const INT32_MIN: int := -0x8000_0000

  /** The values of C's `int`. */
  type CInt = x: int | -0x8000_0000 <= x <= 0x7FFF_FFFF

  /** C's `abs` on an int: the smallest one has no positive counterpart and stays as it is. */
  function CAbs(x: CInt): CInt {
    if x == INT32_MIN then x else Abs(x)
  }

  /** Conversion of an integer to `unsigned int`. */
  function ToUint32(x: int): nat {
    x % TWO_TO_THE_32
  }

  /** Conversion of an integer to `int`, wrapping as two's complement does. */
  function ToInt32(x: int): CInt {
    var u := x % TWO_TO_THE_32;
    if u <= INT32_MAX then u else u - TWO_TO_THE_32
  }
}
