/**
 * Closed-form sizes of the ordinary and lossy Fock bases, computed from the
 * binomial coefficient alone, and their agreement with the generators.
 */
module SizeOracle {
  import opened Combinatorics
  import opened BasisGenerator
  import opened LossyGenerator

  /** basis_size(n, m): stars and bars, C(n + m - 1, m - 1). */
  function BasisSize(n: nat, m: nat): nat
    requires m >= 1
  {
    Binom(n + m - 1, m - 1)
  }

  /** lossy_basis_size(n, m): the hockey-stick closed form C(n + m, m). */
  function LossyBasisSize(n: nat, m: nat): nat
  {
    Binom(n + m, m)
  }

  /** basis_size(0, m) + basis_size(1, m) + ... + basis_size(n, m), term by term. */
  function SizeSum(n: nat, m: nat): nat
    requires m >= 1
  {
    BasisSize(n, m) + (if n == 0 then 0 else SizeSum(n - 1, m))
  }

  /** Hockey stick: summing the basis sizes over 0 .. n photons gives C(n + m, m). */
  lemma {:induction false} LossySizeIsSum(n: nat, m: nat)
    requires m >= 1
    ensures SizeSum(n, m) == LossyBasisSize(n, m)
  {
    if n == 0 {
      BinomEdges(m - 1);
      BinomEdges(m);
    } else {
      LossySizeIsSum(n - 1, m);
      assert Binom(n + m, m) == Binom(n + m - 1, m - 1) + Binom(n + m - 1, m);
    }
  }

  /** len(basis(n, m)) == basis_size(n, m): the generator and the closed form agree. */
  lemma {:induction false} BasisLength(n: nat, m: nat)
    requires m >= 1
    ensures |Basis(n, m)| == BasisSize(n, m)
    decreases m, 0
  {
    if m == 1 {
      BinomEdges(n);
    } else {
      BasisTailsAreLossy(n, m);
      assert |DropFirstMode(Basis(n, m))| == |Basis(n, m)|;
      LossyLength(n, m - 1);
    }
  }

  /** len(lossy_basis(n, m)) == lossy_basis_size(n, m) == C(n + m, m). */
  lemma {:induction false} LossyLength(n: nat, m: nat)
    requires m >= 1
    ensures |LossyBasis(n, m)| == LossyBasisSize(n, m)
    decreases m, n + 1
  {
    BasisLength(n, m);
    if n == 0 {
      BinomEdges(m - 1);
      BinomEdges(m);
    } else {
      LossyLength(n - 1, m);
      assert LossyBasis(n, m) == LossyBasis(n - 1, m) + Basis(n, m);
      assert Binom(n + m, m) == Binom(n + m - 1, m - 1) + Binom(n + m - 1, m);
    }
  }

  /** The lossy basis is as long as the bases it concatenates, summed. */
  lemma LossyLengthIsSumOfSizes(n: nat, m: nat)
    requires m >= 1
    ensures |LossyBasis(n, m)| == SizeSum(n, m)
  {
    LossyLength(n, m);
    LossySizeIsSum(n, m);
  }

  /** lossy_basis_size(2, 2) == basis_size(0, 2) + basis_size(1, 2) + basis_size(2, 2) == 6. */
  lemma SmallLossySize()
    ensures SizeSum(2, 2) == 6 && LossyBasisSize(2, 2) == 6
  {
  }
}
