/** Java's numeric conversions and operators, stated over Dafny's exact numbers.
    Doubles are modelled as exact reals; only the conversions back to `int`
    and the integer operators whose rounding differs from Dafny's are here. */
module JavaNum {

  /** The exact value of x rounded toward zero, with no bound on its size. */
  function TowardZero(x: real): (n: int)
    ensures 0.0 <= x ==> n as real <= x < n as real + 1.0
    ensures x < 0.0 ==> n as real - 1.0 < x <= n as real
  {
    if x >= 0.0 then x.Floor else -((-x).Floor)
  }

  /** Saturation into the range of a Java `int`, as a narrowing conversion from
      double does for values outside it. */
  function SaturateInt32(n: int): (c: int)
    ensures MinInt32 <= c <= MaxInt32
    ensures MinInt32 <= n <= MaxInt32 ==> c == n
    ensures n > MaxInt32 ==> c == MaxInt32
    ensures n < MinInt32 ==> c == MinInt32
  {
    if n > MaxInt32 then MaxInt32 else if n < MinInt32 then MinInt32 else n
  }

  /** Java's `(int)` cast of a double: it rounds toward zero, and a value beyond
      the int range becomes Integer.MIN_VALUE or Integer.MAX_VALUE. */
  function Trunc(x: real): (n: int)
    ensures MinInt32 <= n <= MaxInt32
    ensures 0.0 <= x < 0x8000_0000 as real ==> n as real <= x < n as real + 1.0
    ensures -0x8000_0001 as real < x < 0.0 ==> n as real - 1.0 < x <= n as real
    ensures x >= 0x8000_0000 as real ==> n == MaxInt32
    ensures x <= -0x8000_0001 as real ==> n == MinInt32
  {
    SaturateInt32(TowardZero(x))
  }

  /** `(int) Math.ceil(x)`: the least integer not below x, saturated into the int range. */
  function Ceil(x: real): (n: int)
    ensures MinInt32 <= n <= MaxInt32
    ensures MinInt32 as real - 1.0 < x <= MaxInt32 as real ==> n as real - 1.0 < x <= n as real
    ensures x > MaxInt32 as real ==> n == MaxInt32
    ensures x <= MinInt32 as real - 1.0 ==> n == MinInt32
  {
    SaturateInt32(-((-x).Floor))
  }

  /** Java's `a % 2` on a double (fmod): the remainder keeps the sign of the dividend. */
  function FMod2(a: real): (r: real)
    ensures 0.0 <= a ==> 0.0 <= r < 2.0
    ensures a < 0.0 ==> -2.0 < r <= 0.0
  {
    a - 2.0 * (TowardZero(a / 2.0) as real)
  }

  /** Java's `/` on ints: the quotient rounds toward zero. */
  function Div(a: int, d: int): (q: int)
    requires d > 0
    ensures 0 <= a ==> q * d <= a < q * d + d
    ensures a < 0 ==> q * d - d < a <= q * d
  {
    if a >= 0 then a / d else -((-a) / d)
  }

  const MinInt32: int := -0x8000_0000
  const MaxInt32: int := 0x7FFF_FFFF

  /** The value a Java `int` expression yields for the exact result v:
      two's-complement wrap-around into 32 bits. */
  function WrapInt32(v: int): (w: int)
    ensures MinInt32 <= w <= MaxInt32
    ensures (w - v) % 0x1_0000_0000 == 0
    ensures MinInt32 <= v <= MaxInt32 ==> w == v
  {
    (v - MinInt32) % 0x1_0000_0000 + MinInt32
  }
}
