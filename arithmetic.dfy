/** Small facts about integer division and multiplication used by the digest and interpolation proofs. */
module Arithmetic {

  /** Powers of two: 2^e. */
  function Pow2(e: nat): (r: nat)
    ensures r >= 1
  {
    if e == 0 then 1 else 2 * Pow2(e - 1)
  }

  /** The quotient and remainder of a division are determined by any decomposition a == q * p + r. */
  lemma DivUnique(a: int, p: int, q: int, r: int)
    requires p > 0 && 0 <= r < p && a == q * p + r
    ensures a / p == q && a % p == r
  {
    var q', r' := a / p, a % p;
    assert a == q' * p + r';
    if q' > q {
      MulAtLeast(q' - q, p);
      assert false;
    } else if q' < q {
      MulAtLeast(q - q', p);
      assert false;
    }
  }

  lemma MulAtLeast(m: int, p: int)
    requires m >= 1 && p >= 0
    ensures m * p >= p
  {
    assert m * p == (m - 1) * p + p;
    MulNonNegative(m - 1, p);
  }

  lemma MulNonNegative(a: int, b: int)
    requires a >= 0 && b >= 0
    ensures a * b >= 0
  {
  }

  /** Dividing by a positive number is monotone. */
  lemma DivMonotone(a: int, b: int, p: int)
    requires p > 0 && a <= b
    ensures a / p <= b / p
  {
    var qa, qb := a / p, b / p;
    assert a == qa * p + a % p && b == qb * p + b % p;
    if qa > qb {
      MulAtLeast(qa - qb, p);
      assert false;
    }
  }

  /** Multiplying by a non-negative number is monotone. */
  lemma MulMonotone(a: int, b: int, y: int)
    requires a <= b && y >= 0
    ensures a * y <= b * y
  {
    MulNonNegative(b - a, y);
    assert b * y - a * y == (b - a) * y;
  }
}
