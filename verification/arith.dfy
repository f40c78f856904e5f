/** Java's integer arithmetic where it differs from Dafny's, and the few
    facts about multiplication and division the model's proofs lean on. */
module Arith {

  /** Java's `n / d` on `int`, and the `(int)` cast of the exact quotient
      `n / d`: both round toward zero, whereas Dafny's `/` is Euclidean and
      rounds a negative quotient down. */
  function TruncDiv(n: int, d: int): int
    requires d > 0
  {
    if n >= 0 then n / d else -((-n) / d)
  }

  /** The truncated quotient is the multiple of `d` nearest to `n` on the
      side of zero. */
  lemma TruncDivBounds(n: int, d: int)
    requires d > 0
    ensures var q := TruncDiv(n, d);
      && (0 <= n ==> 0 <= q * d <= n < q * d + d)
      && (n < 0 ==> q * d - d < n <= q * d <= 0)
  {
    if n >= 0 {
      DivBounds(n, d);
    } else {
      DivBounds(-n, d);
    }
  }

  /** Euclidean division of a non-negative number brackets it between two
      consecutive multiples of the divisor. */
  lemma DivBounds(m: int, d: int)
    requires m >= 0 && d > 0
    ensures 0 <= (m / d) * d <= m < (m / d) * d + d
  {
    assert m == (m / d) * d + m % d;
    assert m / d >= 0;
  }

  /** Truncation is symmetric about zero (floor division is not: in Dafny
      `-1 / 2 == -1`, while Java gives `0`). */
  lemma TruncDivNegate(n: int, d: int)
    requires d > 0
    ensures TruncDiv(-n, d) == -TruncDiv(n, d)
  {
  }

  /** On a non-negative dividend Java's division and Dafny's agree. */
  lemma TruncDivNonNegative(n: int, d: int)
    requires d > 0 && n >= 0
    ensures TruncDiv(n, d) == n / d
  {
  }

  function Max(a: int, b: int): int {
    if a >= b then a else b
  }

  function Min(a: int, b: int): int {
    if a <= b then a else b
  }

  lemma MulNonNegative(a: int, b: int)
    requires 0 <= a && 0 <= b
    ensures 0 <= a * b
  {
  }

  lemma MulMonotone(a: int, b: int, c: int)
    requires a <= b && 0 <= c
    ensures a * c <= b * c
  {
    assert b * c - a * c == (b - a) * c;
    MulNonNegative(b - a, c);
  }

  /** One more row of `b`. */
  lemma MulSucc(a: int, b: int)
    ensures a * b + b == (a + 1) * b
  {
  }

  /** The quotient and remainder of Euclidean division are the only pair
      with `n == q * d + r` and `0 <= r < d`. */
  lemma DivUnique(n: int, d: int, q: int, r: int)
    requires d > 0 && 0 <= r < d && n == q * d + r
    ensures n / d == q && n % d == r
  {
    var q' := n / d;
    var r' := n % d;
    assert n == q' * d + r';
    assert (q' - q) * d == r - r' by {
      assert (q' - q) * d == q' * d - q * d;
    }
    if q' > q {
      MulMonotone(1, q' - q, d);
    } else if q' < q {
      MulMonotone(1, q - q', d);
    }
  }

  /** Where pixel (x, y) of a row-major W×H buffer sits: index `y * W + x`,
      which `%` and `/` decode back to (x, y). */
  function RowMajorIndex(x: int, y: int, width: int, height: int): (i: int)
    requires 0 <= x < width && 0 <= y < height
    ensures 0 <= i < width * height
    ensures i % width == x && i / width == y
  {
    var i := y * width + x;
    assert 0 <= y * width by {
      MulNonNegative(y, width);
    }
    assert i < width * height by {
      MulMonotone(y + 1, height, width);
      assert (y + 1) * width == y * width + width;
    }
    DivUnique(i, width, y, x);
    i
  }

  /** A non-negative number between `lo * d` and `hi * d` has its quotient
      by `d` between `lo` and `hi`. */
  lemma QuotientBetween(n: int, d: int, lo: int, hi: int)
    requires d > 0 && 0 <= n && lo * d <= n <= hi * d
    ensures lo <= n / d <= hi
  {
    var q := n / d;
    DivBounds(n, d);
    if q < lo {
      MulMonotone(q + 1, lo, d);
    }
    if q > hi {
      MulMonotone(hi + 1, q, d);
    }
  }
}
