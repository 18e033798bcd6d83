/** Integer division and remainder facts for non-negative operands. */
module Arith {

  lemma MulNonNegative(a: int, b: int)
    requires a >= 0 && b >= 0
    ensures a * b >= 0
  {
  }

  /** Integer division pinned down by a range: `q * d <= n < (q + 1) * d` means `n / d == q`. */
  lemma DivOfRange(n: int, d: int, q: int)
    requires d > 0 && q * d <= n < (q + 1) * d
    ensures n / d == q
  {
    var q0, r0 := n / d, n % d;
    assert n == q0 * d + r0 && 0 <= r0 < d;
    if q0 < q {
      MulNonNegative(q - q0 - 1, d);
    } else if q0 > q {
      MulNonNegative(q0 - q - 1, d);
    }
  }

  /** The quotient of a non-negative `n` by a positive `d` brackets `n` between consecutive multiples of `d`. */
  lemma QuotientBounds(n: int, d: int)
    requires n >= 0 && d > 0
    ensures n / d >= 0
    ensures (n / d) * d <= n < (n / d + 1) * d
  {
    assert n == (n / d) * d + n % d;
  }

  /** Adding the divisor adds one to the quotient. */
  lemma QuotientShift(n: int, d: int)
    requires n >= 0 && d > 0
    ensures (n + d) / d == n / d + 1
  {
    QuotientBounds(n, d);
    DivOfRange(n + d, d, n / d + 1);
  }

  /** An offset inside line `y` of a buffer with lines of `stride` elements. */
  lemma LineOffset(y: int, stride: int, off: int)
    requires stride > 0 && 0 <= off < stride
    ensures (y * stride + off) / stride == y
    ensures (y * stride + off) % stride == off
  {
    DivOfRange(y * stride + off, stride, y);
  }

  /** A line before the last one of a buffer of `height` lines ends inside the buffer. */
  lemma LineInside(y: int, height: int, stride: int)
    requires stride > 0 && 0 <= y < height
    ensures (y + 1) * stride <= height * stride
  {
    MulNonNegative(height - y - 1, stride);
  }
}
