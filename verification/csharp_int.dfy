/**
 * C# integer operators that differ from Dafny's. Dafny's `/` and `%` are
 * Euclidean; C# truncates the quotient toward zero, so the remainder takes the
 * sign of the dividend. C#'s `>>` on a signed integer is an arithmetic shift,
 * which rounds toward negative infinity.
 */
module CSharpInt {

  /** C#'s `a / b` for a positive divisor: the quotient rounded toward zero. */
  function TruncDiv(a: int, b: int): (q: int)
    requires b > 0
    ensures a >= 0 ==> q * b <= a < q * b + b
    ensures a < 0 ==> q * b - b < a <= q * b
  {
    if a >= 0 then a / b else -((-a) / b)
  }

  /** C#'s `a % b` for a positive divisor: what is left after the truncated quotient. */
  function TruncRem(a: int, b: int): (r: int)
    requires b > 0
    ensures -b < r < b
    ensures a >= 0 ==> r >= 0
    ensures a < 0 ==> r <= 0
    ensures TruncDiv(a, b) * b + r == a
  {
    a - TruncDiv(a, b) * b
  }

  /** C#'s `a >> 4` on a signed integer: division by 16 rounded toward negative infinity. */
  function ShiftRight4(a: int): (r: int)
    ensures r * 16 <= a < r * 16 + 16
  {
    if a >= 0 then a / 16 else -((-a + 15) / 16)
  }
}
