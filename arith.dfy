/** Small facts about integer multiplication, division and remainder that the
    tile-index arithmetic relies on. Dafny's `/` and `%` are Euclidean; for a
    positive divisor they agree with Python's floor division `//` and `%`. */
module Arith {

  /** Division and remainder of `q * n + r` are `q` and `r` when `0 <= r < n`. */
  lemma DivModOf(q: int, r: int, n: int)
    requires n > 0 && 0 <= r < n
    ensures (q * n + r) / n == q && (q * n + r) % n == r
  {
    var a := q * n + r;
    var q', r' := a / n, a % n;
    assert a == q' * n + r';
    assert (q - q') * n == r' - r;
    if q > q' {
      MulAtLeast(q - q', n);
      assert false;
    } else if q < q' {
      MulAtLeast(q' - q, n);
      assert false;
    }
  }

  /** A multiple of `n` is its quotient times `n`. */
  lemma DivExact(x: int, n: int)
    requires n > 0 && x % n == 0
    ensures x == (x / n) * n
  {
  }

  /** A row-major position with a non-negative row is non-negative. */
  lemma RowMajorNonneg(q: int, r: int, n: int)
    requires q >= 0 && r >= 0 && n >= 0
    ensures q * n + r >= 0
  {
  }

  /** Dividing a non-negative number by a positive one gives a non-negative quotient. */
  lemma DivNonneg(x: int, n: int)
    requires x >= 0 && n > 0
    ensures x / n >= 0 && x % n >= 0
  {
  }

  /** A positive multiple of `n` is at least `n`. */
  lemma MulAtLeast(x: int, n: int)
    requires x >= 1 && n > 0
    ensures x * n >= n
  {
  }

  /** Multiplication by a non-negative number is monotonic. */
  lemma MulMono(a: int, b: int, n: int)
    requires a <= b && n >= 0
    ensures a * n <= b * n
  {
  }

  /** A row-major position `r * nc + c` inside an `nr` by `nc` grid lies in `[0, nr * nc)`. */
  lemma RowMajorBound(r: int, c: int, nr: int, nc: int)
    requires 0 <= r < nr && 0 <= c < nc
    ensures 0 <= r * nc + c < nr * nc
  {
    MulMono(r, nr - 1, nc);
    assert (nr - 1) * nc == nr * nc - nc;
  }

  /** Dividing something below `q * n` by `n` gives something below `q`. */
  lemma DivBelow(x: int, q: int, n: int)
    requires n > 0 && 0 <= x < q * n
    ensures 0 <= x / n < q
  {
    if x / n >= q {
      MulMono(q, x / n, n);
      assert false;
    }
  }

  /** The whole multiples of `n` in `x` do not exceed `x`. */
  lemma DivMulBelow(x: int, n: int)
    requires x >= 0 && n > 0
    ensures 0 <= (x / n) * n <= x
  {
    var q := x / n;
    assert x == q * n + x % n;
    DivNonneg(x, n);
    RowMajorNonneg(q, 0, n);
  }

  /** A digit `a` below `n` after a leading part below `q` stays below `q * n`. */
  lemma RowBelow(p: int, a: int, q: int, n: int)
    requires 0 <= p < q && 0 <= a < n
    ensures p * n + a < q * n
  {
    MulMono(p, q - 1, n);
    assert (q - 1) * n == q * n - n;
  }
}
