/** Facts about integer multiplication and Euclidean division that the
    layout, header and hue proofs lean on: quotient and remainder of
    q*d + lo, monotonicity and distribution of multiplication, bounds on
    quotients, and the lexicographic order of (row, column) offsets. */
module Arith {

  /** Euclidean division of q*d + lo by d, for 0 <= lo < d. */
  lemma DivMod(q: int, d: int, lo: int)
    requires 0 < d && 0 <= lo < d
    ensures (q * d + lo) / d == q && (q * d + lo) % d == lo
  {
    var n := q * d + lo;
    var k, r' := n / d - q, n % d;
    assert n == (n / d) * d + r';
    assert d * k == lo - r' by {
      assert d * k == d * (n / d) - d * q;
    }
    if k >= 1 {
      MulMonotone(d, 1, k);
      assert false;
    } else if k <= -1 {
      MulMonotone(d, k, -1);
      assert false;
    }
  }

  /** Multiplying by a non-negative factor keeps the order. */
  lemma MulMonotone(w: int, a: int, b: int)
    requires 0 <= w && a <= b
    ensures w * a <= w * b
  {
  }

  /** Multiplication distributes over addition. */
  lemma Distribute(x: int, y: int, z: int)
    ensures x * (y + z) == x * y + x * z && (y + z) * x == y * x + z * x
  {
  }

  /** A non-negative number below d*h has a quotient by d below h. */
  lemma DivBelow(n: int, d: int, h: int)
    requires 0 <= n < d * h && 0 < d
    ensures n / d < h
  {
    var q := n / d;
    assert n == q * d + n % d;
    assert q >= h ==> q * d >= h * d;
  }

  /** Row y of h rows of r units each, plus x <= r units, ends by unit h*r. */
  lemma RowBound(y: int, h: int, r: int, x: int)
    requires 0 <= y < h && 0 <= x <= r
    ensures y * r + x <= h * r
  {
    MulMonotone(r, y + 1, h);
    assert r * (y + 1) == r * y + r;
  }

  /** Quotient and remainder of a non-negative number by a positive one. */
  lemma DivNonneg(n: int, d: int)
    requires 0 <= n && 0 < d
    ensures 0 <= n / d <= n && 0 <= n % d < d && n == n / d * d + n % d
    ensures n % d <= n
  {
    var q := n / d;
    assert n == q * d + n % d;
    assert q < 0 ==> q * d <= -d by {
      if q < 0 { MulMonotone(d, q, -1); }
    }
    assert q > 0 ==> q * d >= q by {
      if q > 0 { MulMonotone(q, 1, d); }
    }
    assert q >= 0 ==> q * d >= 0 by {
      if q >= 0 { MulMonotone(d, 0, q); }
    }
  }

  /** Row-major offsets compare like (row, column) pairs, lexicographically. */
  lemma LexBelow(r: int, y1: int, p1: int, y2: int, p2: int)
    requires 0 < r && 0 <= p1 < r && 0 <= p2 < r
    requires y1 * r + p1 < y2 * r + p2
    ensures y1 < y2 || (y1 == y2 && p1 < p2)
  {
    assert r * (y2 + 1) == y2 * r + r;
    assert y2 < y1 ==> r * (y2 + 1) <= r * y1 by {
      if y2 < y1 { MulMonotone(r, y2 + 1, y1); }
    }
  }

  /** Stepping back by at most the remainder keeps the quotient. */
  lemma CutBack(e: int, d: int, c: int)
    requires 0 <= e && 0 < d && 0 <= c <= e % d
    ensures (e - c) % d == e % d - c
  {
    DivNonneg(e, d);
    DivMod(e / d, d, e % d - c);
  }
}
