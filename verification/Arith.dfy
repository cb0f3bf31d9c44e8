/** The few nonlinear facts the proofs about rows and intervals need. */
module Arith {
  lemma ProductNonNegative(a: int, b: int)
    requires a >= 0 && b >= 0
    ensures a * b >= 0
  {
  }

  lemma ScaleUp(n: int, factor: int)
    requires n > 0 && factor > 0
    ensures n * factor >= n
  {
    ProductNonNegative(n, factor - 1);
    assert n * factor == n * (factor - 1) + n;
  }

  /** Scaling preserves the order. */
  lemma ScaleMonotone(n: int, a: int, b: int)
    requires n >= 0 && a <= b
    ensures n * a <= n * b
  {
    ProductNonNegative(n, b - a);
    assert n * b == n * (b - a) + n * a;
  }

  /** Quotient and remainder are unique. */
  lemma DivModUnique(x: int, n: int, q: int, r: int)
    requires n > 0 && x == n * q + r && 0 <= r < n
    ensures x / n == q && x % n == r
  {
    var d := q - x / n;
    assert x == n * (x / n) + x % n;
    assert n * d == n * q - n * (x / n);
    assert n * d == x % n - r;
    if d > 0 {
      ScaleUp(n, d);
    }
    if d < 0 {
      ScaleUp(n, -d);
    }
  }

  lemma QuotientAtLeast(x: nat, d: nat, q: nat)
    requires d > 0
    ensures q <= x / d <==> d * q <= x
  {
    assert x == d * (x / d) + x % d;
    if q > x / d {
      ScaleMonotone(d, x / d + 1, q);
    } else {
      ScaleMonotone(d, q, x / d);
    }
  }

  /** The quotient rounded up. */
  lemma RoundedUp(n: int, size: int, count: int)
    requires size > 0 && size * (count - 1) < n <= size * count
    ensures count == (n + size - 1) / size
  {
    assert size * (count - 1) == size * count - size;
    DivModUnique(n + size - 1, size, count, n + size - 1 - size * count);
  }

  lemma RoundedUpIff(n: int, size: int, count: int)
    requires n > 0 && size > 0
    ensures count == (n + size - 1) / size <==> size * (count - 1) < n <= size * count
  {
    if size * (count - 1) < n <= size * count {
      RoundedUp(n, size, count);
    }
    var c := (n + size - 1) / size;
    assert n + size - 1 == size * c + (n + size - 1) % size;
    assert size * (c - 1) == size * c - size;
  }
}
