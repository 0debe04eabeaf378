/** Kotlin numeric primitives the OCR pipeline and the reader rely on, over
    unbounded integers and exact reals. */
module Numeric {

  /** Kotlin's `Float.toInt()`: truncation toward zero. */
  function Trunc(x: real): (n: int)
    ensures 0.0 <= x ==> 0 <= n && n as real <= x < n as real + 1.0
    ensures x < 0.0 ==> n <= 0 && n as real - 1.0 < x <= n as real
  {
    if x >= 0.0 then x.Floor else -((-x).Floor)
  }

  /** Kotlin's `Int / 2`: the quotient is truncated toward zero. */
  function HalfTrunc(a: int): (q: int)
    ensures 0 <= a ==> 0 <= q && 2 * q <= a <= 2 * q + 1
    ensures a < 0 ==> q <= 0 && 2 * q - 1 <= a <= 2 * q
  {
    if a >= 0 then a / 2 else -((-a) / 2)
  }

  /** Kotlin's `Float.coerceIn(lo, hi)`; an empty range throws in Kotlin, so
      callers must supply an ordered range. */
  function ClampReal(x: real, lo: real, hi: real): (r: real)
    requires lo <= hi
    ensures lo <= r <= hi
    ensures lo <= x <= hi ==> r == x
    ensures x < lo ==> r == lo
    ensures hi < x ==> r == hi
  {
    if x < lo then lo else if x > hi then hi else x
  }

  /** Kotlin's `Int.coerceIn(lo, hi)`: the same clamp as `ClampReal`,
      written again because Dafny keeps `int` and `real` apart. */
  function ClampInt(x: int, lo: int, hi: int): (r: int)
    requires lo <= hi
    ensures lo <= r <= hi
    ensures lo <= x <= hi ==> r == x
    ensures x < lo ==> r == lo
    ensures hi < x ==> r == hi
  {
    if x < lo then lo else if x > hi then hi else x
  }

  function MinReal(a: real, b: real): real
  {
    if a <= b then a else b
  }

  function MaxReal(a: real, b: real): real
  {
    if a >= b then a else b
  }

  /** A Kotlin `Int` holding a packed ARGB colour. */
  type Int32 = x: int | -0x8000_0000 <= x < 0x8000_0000

  /* Dafny's `/` and `%` are Euclidean, so for a positive divisor `p / 2^k`
     is the arithmetic shift `p shr k` and `% 256` is `and 0xFF`, also for
     negative words (alpha >= 0x80). */

  /** `p shr 16 and 0xFF` */
  function Red(p: Int32): (c: int)
    ensures 0 <= c < 256
  {
    (p / 0x1_0000) % 0x100
  }

  /** `p shr 8 and 0xFF` */
  function Green(p: Int32): (c: int)
    ensures 0 <= c < 256
  {
    (p / 0x100) % 0x100
  }

  /** `p and 0xFF` */
  function Blue(p: Int32): (c: int)
    ensures 0 <= c < 256
  {
    p % 0x100
  }

  /** The channel of plane `c` (0 = R, 1 = G, 2 = B) of a pixel. */
  function Channel(p: Int32, c: nat): (v: int)
    requires c < 3
    ensures 0 <= v < 256
  {
    if c == 0 then Red(p) else if c == 1 then Green(p) else Blue(p)
  }

  /** The channels of a packed word are its three low bytes: packing them
      back (with the alpha byte) gives the word again. */
  lemma ChannelsRepack(p: Int32)
    ensures p % 0x100_0000 == Red(p) * 0x1_0000 + Green(p) * 0x100 + Blue(p)
  {
    var q := p / 0x100;
    assert p == q * 0x100 + Blue(p);
    assert q == (q / 0x100) * 0x100 + Green(p);
    assert q / 0x100 == p / 0x1_0000;
  }

  /** Products of non-negative factors grow with their factors. */
  lemma MulMonotone(a: real, b: real, c: real, d: real)
    requires 0.0 <= a <= c && 0.0 <= b <= d
    ensures a * b <= c * d
  {
    assert a * b <= c * b;
    assert c * b <= c * d;
  }

  /** Products of positive factors are positive. */
  lemma MulPositive(a: real, b: real)
    requires 0.0 < a && 0.0 < b
    ensures 0.0 < a * b
  {
  }

  /** A positive part of a whole is a ratio in (0, 1]. */
  lemma RatioInUnit(part: real, whole: real)
    requires 0.0 < part <= whole
    ensures 0.0 < part / whole <= 1.0
  {
    assert part / whole * whole == part;
  }

  /** A row-major index of a position inside a `width` x `height` grid lies
      inside the grid's buffer. */
  lemma RowMajorInBounds(row: int, col: int, width: int, height: int)
    requires 0 <= row < height && 0 <= col < width
    ensures 0 <= row * width + col < width * height
  {
    assert row * width <= (height - 1) * width;
  }
}
