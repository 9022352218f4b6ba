/** Facts about Euclidean division that the length laws of the conversions rest on. */
module Arithmetic {

  lemma MulAtLeast(n: int, x: int)
    requires n >= 1 && x >= 1
    ensures n * x >= n
  {
  }

  lemma DoubleShift(v: int, p: int, w: int, b: int)
    ensures 2 * (v * p + w) + b == v * (2 * p) + (2 * w + b)
  {
  }

  lemma MulSucc(n: int, k: int)
    ensures n * (k + 1) == n * k + n
  {
  }

  /** Quotient and remainder are determined by `a == n * q + r` with `0 <= r < n`. */
  lemma DivUnique(a: int, n: int, q: int, r: int)
    requires n >= 1 && 0 <= r < n && a == n * q + r
    ensures a / n == q && a % n == r
  {
    var q', r' := a / n, a % n;
    assert n * q' + r' == n * q + r;
    assert n * (q' - q) == r - r';
    if q' > q {
      MulAtLeast(n, q' - q);
    } else if q' < q {
      MulAtLeast(n, q - q');
    }
  }

  lemma DivStep(a: nat, n: nat)
    requires n >= 1
    ensures (a + n) / n == a / n + 1
  {
    DivUnique(a + n, n, a / n + 1, a % n);
  }
}
