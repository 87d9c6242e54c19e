/** The binomial coefficient that math.comb computes, defined by Pascal's rule. */
module Binomial {

  /** C(n, k), the number of k-element subsets of an n-element set; 0 when k > n, as math.comb. */
  function Comb(n: nat, k: nat): nat
  {
    if k == 0 then 1
    else if n == 0 then 0
    else Comb(n - 1, k - 1) + Comb(n - 1, k)
  }

  function Fact(n: nat): (r: nat)
    ensures r >= 1
  {
    if n == 0 then 1 else n * Fact(n - 1)
  }

  /** Pascal's rule agrees with the closed form n! / (k! (n-k)!) that math.comb documents. */
  lemma {:induction false} CombFactorial(n: nat, k: nat)
    requires k <= n
    ensures Comb(n, k) * Fact(k) * Fact(n - k) == Fact(n)
    decreases n
  {
    if k == n {
      CombAll(n);
    } else if 0 < k {
      CombFactorial(n - 1, k - 1);
      CombFactorial(n - 1, k);
      PascalStep(n, k, Comb(n - 1, k - 1), Comb(n - 1, k), Fact(k - 1), Fact(n - 1 - k), Fact(n - 1));
    }
  }

  /** The arithmetic of one Pascal step, with the factorials as plain numbers. */
  lemma PascalStep(n: nat, k: nat, a: nat, b: nat, fk1: nat, fnk1: nat, f: nat)
    requires 0 < k < n
    requires a * fk1 * ((n - k) * fnk1) == f
    requires b * (k * fk1) * fnk1 == f
    ensures (a + b) * (k * fk1) * ((n - k) * fnk1) == n * f
  {
    calc {
      (a + b) * (k * fk1) * ((n - k) * fnk1);
      k * (a * fk1 * ((n - k) * fnk1)) + (n - k) * (b * (k * fk1) * fnk1);
      k * f + (n - k) * f;
      n * f;
    }
  }

  /** C(n, k) is zero exactly when k > n. */
  lemma {:induction false} CombZero(n: nat, k: nat)
    ensures Comb(n, k) == 0 <==> k > n
    decreases n
  {
    if k > 0 && n > 0 {
      CombZero(n - 1, k - 1);
      CombZero(n - 1, k);
    }
  }

  /** C(n, n) == 1: one way to choose everything. */
  lemma {:induction false} CombAll(n: nat)
    ensures Comb(n, n) == 1
  {
    if n > 0 {
      CombAll(n - 1);
      CombZero(n - 1, n);
    }
  }

  /** C(x, k) does not decrease as x grows. */
  lemma CombStep(x: nat, k: nat)
    ensures Comb(x, k) <= Comb(x + 1, k)
  {
  }
}
