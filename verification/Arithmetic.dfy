/** Integer arithmetic of C. */
module Arithmetic {

  function Pow2(n: nat): (r: int)
    ensures r >= 1
  {
    if n == 0 then 1 else 2 * Pow2(n - 1)
  }

  /** Division: the quotient is truncated toward zero. */
  function TruncDiv(a: int, b: int): int
    requires b != 0
  {
    if a >= 0 then a / b else -((-a) / b)
  }

  /** The remainder is smaller than the divisor and has the sign of the dividend. */
  lemma TruncRemainder(a: int, b: int)
    requires b != 0
    ensures var r := a - b * TruncDiv(a, b);
            && (if b > 0 then -b < r < b else b < r < -b)
            && (a >= 0 ==> r >= 0) && (a <= 0 ==> r <= 0)
  {
    var q := TruncDiv(a, b);
    if a >= 0 {
      assert a == b * q + a % b;
    } else {
      assert -a == b * (-q) + (-a) % b;
      assert b * (-q) == -(b * q);
    }
  }

  /** Conversion to an int of 32 bits. */
  function AsInt(v: int): (r: int)
    ensures -0x8000_0000 <= r < 0x8000_0000 && (r - v) % 0x1_0000_0000 == 0
    ensures -0x8000_0000 <= v < 0x8000_0000 ==> r == v
  {
    (v + 0x8000_0000) % 0x1_0000_0000 - 0x8000_0000
  }
}
