/**
 * Exact integer combinatorics: the factorial and binomial-coefficient
 * primitives that the Fock-basis size formulas are built from. Integers are
 * unbounded, so both are exact for every argument.
 */
module Combinatorics {

  /** The textbook definition of x!, the reference the model's factorial is measured against. */
  ghost function Fact(x: nat): (r: nat)
    ensures r >= 1
  {
    if x == 0 then 1 else x * Fact(x - 1)
  }

  /** lo * (lo + 1) * ... * hi; the empty product 1 when lo > hi. */
  function Product(lo: nat, hi: nat): nat
    decreases if lo <= hi then hi - lo + 1 else 0
  {
    if lo > hi then 1 else lo * Product(lo + 1, hi)
  }

  /**
   * The model's exact factorial, chosen as the running product 1 * 2 * ... * x;
   * only its value, x!, is what the library promises.
   */
  function Factorial(x: nat): nat
  {
    Product(1, x)
  }

  /**
   * The model's exact binomial coefficient, chosen to follow Pascal's rule;
   * only its value, n! / (k! (n - k)!), is what the library promises. It is 0
   * when k > n; the checked entry point in module Fock rejects such k instead.
   */
  function Binom(n: nat, k: nat): nat
  {
    if k == 0 then 1
    else if n == 0 then 0
    else Binom(n - 1, k - 1) + Binom(n - 1, k)
  }

  /** Appending one more factor on the right of a product. */
  lemma {:induction false} ProductExtend(lo: nat, hi: nat)
    requires lo <= hi + 1
    ensures Product(lo, hi + 1) == Product(lo, hi) * (hi + 1)
    decreases hi + 1 - lo
  {
    if lo <= hi {
      ProductExtend(lo + 1, hi);
      calc {
        Product(lo, hi + 1);
        lo * Product(lo + 1, hi + 1);
        lo * (Product(lo + 1, hi) * (hi + 1));
        (lo * Product(lo + 1, hi)) * (hi + 1);
        Product(lo, hi) * (hi + 1);
      }
    }
  }

  /** The model's factorial is x! for every natural x. */
  lemma {:induction false} FactorialIsFact(x: nat)
    ensures Factorial(x) == Fact(x)
  {
    if x > 0 {
      FactorialIsFact(x - 1);
      ProductExtend(1, x - 1);
    }
  }

  /** Choosing more elements than there are gives no way at all. */
  lemma {:induction false} BinomAbove(n: nat, k: nat)
    requires k > n
    ensures Binom(n, k) == 0
  {
    if n > 0 {
      BinomAbove(n - 1, k - 1);
      BinomAbove(n - 1, k);
    }
  }

  /** The edge coefficients: C(n, 0) == C(n, n) == 1. */
  lemma {:induction false} BinomEdges(n: nat)
    ensures Binom(n, 0) == 1
    ensures Binom(n, n) == 1
  {
    if n > 0 {
      BinomEdges(n - 1);
      BinomAbove(n - 1, n);
    }
  }

  /**
   * The arithmetic of the inductive step of BinomTimesFactorials, with
   * a, b the two Pascal terms, f = (k - 1)!, g = (n - 1 - k)! and j = n - k.
   */
  lemma PascalFactorialStep(a: int, b: int, k: int, j: int, f: int, g: int, prev: int)
    requires a * (f * (j * g)) == prev
    requires b * ((k * f) * g) == prev
    ensures (a + b) * ((k * f) * (j * g)) == (k + j) * prev
  {
  }

  /** C(n, k) * k! * (n - k)! == n! for every 0 <= k <= n. */
  lemma {:induction false} BinomTimesFactorials(n: nat, k: nat)
    requires k <= n
    ensures Binom(n, k) * (Fact(k) * Fact(n - k)) == Fact(n)
  {
    if k == 0 {
    } else if k == n {
      BinomEdges(n);
    } else {
      BinomTimesFactorials(n - 1, k - 1);
      BinomTimesFactorials(n - 1, k);
      var f, g := Fact(k - 1), Fact(n - 1 - k);
      assert Fact(k) == k * f;
      assert Fact(n - k) == (n - k) * g;
      PascalFactorialStep(Binom(n - 1, k - 1), Binom(n - 1, k), k, n - k, f, g, Fact(n - 1));
    }
  }

  /** A positive factor at least 1 does not shrink a positive number. */
  lemma MulAtLeast(x: int, d: int)
    requires x >= 1 && d > 0
    ensures x * d >= d
  {
  }

  /** An exact quotient: (b * d) / d == b for d > 0. */
  lemma ExactQuotient(b: nat, d: nat)
    requires d > 0
    ensures (b * d) / d == b
  {
    var q := (b * d) / d;
    var r := (b * d) % d;
    assert b * d == d * q + r && 0 <= r < d;
    assert (b - q) * d == r;
    if b > q {
      MulAtLeast(b - q, d);
    } else if b < q {
      MulAtLeast(q - b, d);
    }
  }

  /** The model's binomial coefficient is the standard n! / (k! (n - k)!) for 0 <= k <= n. */
  lemma BinomIsFactorialQuotient(n: nat, k: nat)
    requires k <= n
    ensures Binom(n, k) == Fact(n) / (Fact(k) * Fact(n - k))
  {
    BinomTimesFactorials(n, k);
    ExactQuotient(Binom(n, k), Fact(k) * Fact(n - k));
  }
}
