/** Integer widths of C and C++, the conversions between them, C's truncating
    division, and an Option type for pointer arguments that may be null. */
module CTypes {

  type int8 = x: int | -0x80 <= x < 0x80
  type uint8 = x: int | 0 <= x < 0x100
  type int16 = x: int | -0x8000 <= x < 0x8000
  type uint16 = x: int | 0 <= x < 0x1_0000
  type int32 = x: int | -0x8000_0000 <= x < 0x8000_0000
  type int64 = x: int | -0x8000_0000_0000_0000 <= x < 0x8000_0000_0000_0000
  type uint64 = x: int | 0 <= x < 0x1_0000_0000_0000_0000

  const MinInt64: int := -0x8000_0000_0000_0000

  /** A pointer argument: None is the null pointer, Some(v) points to v. */
  datatype Option<T> = None | Some(value: T)

  /** Conversion to int8_t: the value modulo 2^8, read in two's complement. */
  function ToInt8(x: int): (r: int8)
    ensures -0x80 <= x < 0x80 ==> r == x
  {
    (x + 0x80) % 0x100 - 0x80
  }

  /** Conversion to uint8_t: the value modulo 2^8. */
  function ToUInt8(x: int): (r: uint8)
    ensures 0 <= x < 0x100 ==> r == x
  {
    x % 0x100
  }

  function ToInt16(x: int): (r: int16)
    ensures -0x8000 <= x < 0x8000 ==> r == x
  {
    (x + 0x8000) % 0x1_0000 - 0x8000
  }

  function ToUInt16(x: int): (r: uint16)
    ensures 0 <= x < 0x1_0000 ==> r == x
  {
    x % 0x1_0000
  }

  function ToInt32(x: int): (r: int32)
    ensures -0x8000_0000 <= x < 0x8000_0000 ==> r == x
  {
    (x + 0x8000_0000) % 0x1_0000_0000 - 0x8000_0000
  }

  function ToInt64(x: int): (r: int64)
    ensures -0x8000_0000_0000_0000 <= x < 0x8000_0000_0000_0000 ==> r == x
  {
    (x + 0x8000_0000_0000_0000) % 0x1_0000_0000_0000_0000 - 0x8000_0000_0000_0000
  }

  function ToUInt64(x: int): (r: uint64)
    ensures 0 <= x < 0x1_0000_0000_0000_0000 ==> r == x
  {
    x % 0x1_0000_0000_0000_0000
  }

  /** Euclidean division is determined by its defining equation. */
  lemma DivModUnique(a: int, m: int, d: int, r: int)
    requires m > 0 && a == d * m + r && 0 <= r < m
    ensures a / m == d && a % m == r
  {
    var x := d - a / m;
    assert x * m == a % m - r;
    if x >= 1 {
      MulAtLeast(x, m);
    } else if x <= -1 {
      MulAtLeast(-x, m);
    }
  }

  lemma MulAtLeast(x: int, m: int)
    requires x >= 1 && m > 0
    ensures x * m >= m
  {
  }

  /** Adding whole turns of 2^8 does not change an int8_t. */
  lemma ToInt8Periodic(x: int, q: int)
    ensures ToInt8(x + q * 0x100) == ToInt8(x)
  {
    var a := x + 0x80;
    DivModUnique(a + q * 0x100, 0x100, a / 0x100 + q, a % 0x100);
  }

  /** Adding whole turns of 2^32 does not change an int32_t. */
  lemma ToInt32Periodic(x: int, q: int)
    ensures ToInt32(x + q * 0x1_0000_0000) == ToInt32(x)
  {
    var a := x + 0x8000_0000;
    DivModUnique(a + q * 0x1_0000_0000, 0x1_0000_0000, a / 0x1_0000_0000 + q, a % 0x1_0000_0000);
  }

  /** Truncating to 32 bits before an addition changes nothing after it. */
  lemma ToInt32Plus(x: int, y: int)
    ensures ToInt32(ToInt32(x) + y) == ToInt32(x + y)
  {
    var q := (x + 0x8000_0000) / 0x1_0000_0000;
    assert ToInt32(x) + y == (x + y) + (-q) * 0x1_0000_0000;
    ToInt32Periodic(x + y, -q);
  }

  /** Adding whole turns of 2^64 does not change an int64_t. */
  lemma ToInt64Periodic(x: int, q: int)
    ensures ToInt64(x + q * 0x1_0000_0000_0000_0000) == ToInt64(x)
  {
    var a := x + 0x8000_0000_0000_0000;
    DivModUnique(a + q * 0x1_0000_0000_0000_0000, 0x1_0000_0000_0000_0000,
                 a / 0x1_0000_0000_0000_0000 + q, a % 0x1_0000_0000_0000_0000);
  }

  /** Truncating to 64 bits before an addition changes nothing after it. */
  lemma ToInt64Plus(x: int, y: int)
    ensures ToInt64(ToInt64(x) + y) == ToInt64(x + y)
  {
    var q := (x + 0x8000_0000_0000_0000) / 0x1_0000_0000_0000_0000;
    assert ToInt64(x) + y == (x + y) + (-q) * 0x1_0000_0000_0000_0000;
    ToInt64Periodic(x + y, -q);
  }

  /** The absolute value, without the bound of the C type it came from. */
  function Magnitude(x: int): nat
  {
    if x < 0 then -x else x
  }

  /** C's `/` on integers: the quotient truncated toward zero. */
  function TruncDiv(a: int, b: int): int
    requires b > 0
  {
    if a >= 0 then a / b else -((-a) / b)
  }

  /** C's `%` on integers: the remainder takes the sign of the dividend. */
  function TruncMod(a: int, b: int): (r: int)
    requires b > 0
    ensures -b < r < b
    ensures a >= 0 ==> 0 <= r
    ensures a <= 0 ==> r <= 0
  {
    if a >= 0 then a % b else -((-a) % b)
  }

  /** C's quotient and remainder recompose the dividend. */
  lemma TruncDivision(a: int, b: int)
    requires b > 0
    ensures a == TruncDiv(a, b) * b + TruncMod(a, b)
  {
    if a < 0 {
      var q := (-a) / b;
      var s := (-a) % b;
      assert -a == q * b + s;
      assert (-q) * b == -(q * b);
    }
  }
}
