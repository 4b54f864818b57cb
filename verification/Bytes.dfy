/** Octets, octet strings and the truncating division of C. */
module Bytes {

  type Byte = x: int | 0 <= x < 256
  type Bytes = seq<Byte>

  const TWO_32: int := 0x1_0000_0000
  const TWO_64: int := 0x1_0000_0000_0000_0000

  function U16(hi: Byte, lo: Byte): nat {
    hi * 256 + lo
  }

  function Encode16(n: nat): (d: Bytes)
    requires n < 0x1_0000
    ensures |d| == 2 && U16(d[0], d[1]) == n
  {
    [n / 256, n % 256]
  }

  /** C's `/`: the quotient is truncated toward zero. */
  function CDiv(a: int, b: int): int
    requires b > 0
  {
    if a >= 0 then a / b else -((-a) / b)
  }

  /** C's `%`: the remainder has the sign of the dividend. */
  function CMod(a: int, b: int): int
    requires b > 0
  {
    a - CDiv(a, b) * b
  }
}
