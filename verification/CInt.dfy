// C integer conventions: fixed ranges, and division that truncates toward zero.
module CInt {
  const INT_MAX: int := 0x7fff_ffff
  const INT_MIN: int := -0x8000_0000
  const TIME_MAX: int := 0x7fff_ffff_ffff_ffff
  const TIME_MIN: int := -0x8000_0000_0000_0000

  predicate IsInt(n: int) {
    INT_MIN <= n <= INT_MAX
  }

  predicate IsTime(n: int) {
    TIME_MIN <= n <= TIME_MAX
  }

  // C's `/` on a positive divisor.
  function TruncDiv(a: int, b: int): int
    requires b > 0
  {
    if a >= 0 then a / b else -((-a) / b)
  }

  // The quotient is the one nearest to zero: what remains is smaller than the
  // divisor and has the sign of the dividend.
  lemma TruncDivTowardZero(a: int, b: int)
    requires b > 0
    ensures a == TruncDiv(a, b) * b + TruncMod(a, b)
    ensures if a >= 0 then 0 <= TruncMod(a, b) < b else -b < TruncMod(a, b) <= 0
  {
    if a < 0 { assert (-a) == ((-a) / b) * b + (-a) % b; }
  }

  // C's `%` on a positive divisor: it takes the sign of the dividend.
  function TruncMod(a: int, b: int): int
    requires b > 0
  {
    a - TruncDiv(a, b) * b
  }
}
