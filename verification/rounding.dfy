/**
  Decimal rounding as done by `Math.Round(value, digits)`: round to the
  nearest multiple of 10^-digits, ties to the even neighbour. Values are
  exact reals here, so the binary representation of doubles plays no part.
 */
module Rounding {

  function Pow10(n: nat): (r: real)
    ensures r >= 1.0
  {
    if n == 0 then 1.0 else 10.0 * Pow10(n - 1)
  }

  /** Half of one unit in the last kept decimal place. */
  function HalfUnit(dp: nat): (r: real)
    ensures r > 0.0
  {
    0.5 / Pow10(dp)
  }

  /** The nearest integer to `s`, ties going to the even one. */
  function RoundHalfEven(s: real): (n: int)
    ensures -0.5 <= n as real - s <= 0.5
    ensures n as real - s == 0.5 ==> n % 2 == 0
    ensures n as real - s == -0.5 ==> n % 2 == 0
  {
    var f := s.Floor;
    var frac := s - f as real;
    if frac < 0.5 then f
    else if frac > 0.5 then f + 1
    else if f % 2 == 0 then f
    else f + 1
  }

  /** `Math.Round(x, dp)`: the result lies within half a unit of the last kept decimal of `x`. */
  function Round(x: real, dp: nat): (r: real)
    ensures -HalfUnit(dp) <= r - x <= HalfUnit(dp)
  {
    Unscale(RoundHalfEven(x * Pow10(dp)), x, Pow10(dp))
  }

  /** `n` units of size `1/p`, where `n` was obtained by rounding `x * p`. */
  function Unscale(n: int, x: real, p: real): (r: real)
    requires p >= 1.0
    requires -0.5 <= n as real - x * p <= 0.5
    ensures -(0.5 / p) <= r - x <= 0.5 / p
  {
    ScaleBack(n, x, p);
    n as real / p
  }

  lemma ScaleBack(n: int, x: real, p: real)
    requires p >= 1.0
    requires -0.5 <= n as real - x * p <= 0.5
    ensures -(0.5 / p) <= n as real / p - x <= 0.5 / p
  {
    var e := n as real - x * p;
    assert n as real / p - x == e / p;
    DivideBounds(e, 0.5, p);
  }

  lemma DivideBounds(e: real, h: real, p: real)
    requires p > 0.0
    requires -h <= e <= h
    ensures -(h / p) <= e / p <= h / p
  {
    assert h / p - e / p == (h - e) / p;
    assert e / p + h / p == (e + h) / p;
  }
}
