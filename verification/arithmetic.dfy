/**
 * Integer facts the pixel addressing and the rasterisers rely on. The
 * solver does not find non-linear steps by itself; each lemma here states
 * one of them.
 */
module Arithmetic {
  /** A product with a non-zero integer factor is at least the other factor in size. */
  lemma MulAtLeast(d: int, w: int)
    requires w >= 0
    ensures d >= 1 ==> d * w >= w
    ensures d <= -1 ==> d * w <= -w
  {
  }

  /** Multiplying by a non-negative factor keeps order. */
  lemma MulMono(a: int, b: int, w: int)
    requires a <= b && w >= 0
    ensures a * w <= b * w
  {
    MulAtLeast(b - a, w);
    assert b * w - a * w == (b - a) * w;
  }

  /**
   * Row-major addressing in bytes is row-major addressing in pixels scaled
   * by the pixel size, whichever way the products are written.
   */
  lemma RowMajor(w: int, b: int, x: int, y: int)
    ensures (w * b) * y + b * x == b * (y * w + x)
    ensures y * (w * b) + x * b == b * (y * w + x)
  {
  }

  /** Euclidean division is determined by quotient and remainder. */
  lemma DivUnique(a: int, n: int, q: int, r: int)
    requires n > 0 && a == q * n + r && 0 <= r < n
    ensures a / n == q && a % n == r
  {
    var q', r' := a / n, a % n;
    assert (q - q') * n == r' - r;
    MulAtLeast(q - q', n);
  }

  /** Dividing an exact multiple gives the factor back. */
  lemma DivExact(b: int, k: int)
    requires b > 0
    ensures (b * k) / b == k
  {
    DivUnique(b * k, b, k, 0);
  }

  /** A quotient of a value in `[0, (m + 1) * n)` lies in `[0, m]`. */
  lemma DivBounds(a: int, n: int, m: int)
    requires n > 0 && 0 <= a < (m + 1) * n
    ensures 0 <= a / n <= m
  {
    var q, r := a / n, a % n;
    assert a == q * n + r;
    MulAtLeast(q - m, n);
    assert q * n - m * n == (q - m) * n;
    assert (m + 1) * n == m * n + n;
    MulAtLeast(q, n);
  }

  /** A value in `[0, n * m)` splits into a block index below `m` and an offset below `n`. */
  lemma DivSplit(a: int, n: int, m: int)
    requires n > 0 && 0 <= a < n * m
    ensures 0 <= a / n < m && 0 <= a % n < n && a == n * (a / n) + a % n
  {
    assert (m - 1 + 1) * n == n * m;
    DivBounds(a, n, m - 1);
  }
}
