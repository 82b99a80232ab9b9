/**
 * The library's entry points as its callers see them: integer arguments,
 * and an InvalidArgument error, raised before any work is done, for a
 * negative count, a mode count below one, or a k outside 0 .. n.
 */
module Fock {
  import C = Combinatorics
  import G = BasisGenerator
  import L = LossyGenerator
  import S = SizeOracle
  import T = BasisTable

  datatype Error = InvalidArgument

  datatype Result<V> = Ok(value: V) | Err(error: Error)

  /** factorial(x): x! exactly, or InvalidArgument for negative x. */
  function Factorial(x: int): (r: Result<nat>)
    ensures r.Err? <==> x < 0
    ensures r.Ok? ==> r.value == C.Fact(x)
  {
    if x < 0 then Err(InvalidArgument)
    else
      C.FactorialIsFact(x);
      Ok(C.Factorial(x))
  }

  /** binom(n, k): n! / (k! (n - k)!) exactly, or InvalidArgument unless 0 <= k <= n. */
  function Binom(n: int, k: int): (r: Result<nat>)
    ensures r.Err? <==> !(0 <= k <= n)
    ensures r.Ok? ==> 0 <= k <= n && r.value == C.Fact(n) / (C.Fact(k) * C.Fact(n - k))
    ensures r.Ok? && (k == 0 || k == n) ==> r.value == 1
  {
    if !(0 <= k <= n) then Err(InvalidArgument)
    else
      C.BinomIsFactorialQuotient(n, k);
      C.BinomEdges(n);
      Ok(C.Binom(n, k))
  }

  /**
   * basis(n, m): every state of n photons in m modes exactly once, strictly
   * descending in lexicographic order, from (n, 0, ..., 0) to (0, ..., 0, n).
   */
  function Basis(n: int, m: int): (r: Result<seq<seq<nat>>>)
    ensures r.Err? <==> n < 0 || m < 1
    ensures r.Ok? ==> 0 <= n && 1 <= m && (forall e :: e in r.value <==> G.IsState(e, n, m))
    ensures r.Ok? ==> G.StrictlyDescending(r.value) && G.Distinct(r.value)
    ensures r.Ok? ==>
      && 0 < |r.value|
      && r.value[0] == [n] + G.Zeros(m - 1)
      && r.value[|r.value| - 1] == G.Zeros(m - 1) + [n]
  {
    if n < 0 || m < 1 then Err(InvalidArgument)
    else
      G.BasisMembership(n, m);
      G.BasisDescending(n, m);
      G.BasisDistinct(n, m);
      G.BasisFirst(n, m);
      G.BasisLast(n, m);
      Ok(G.Basis(n, m))
  }

  /**
   * lossy_basis(n, m): every state of at most n photons in m modes exactly
   * once, fewest photons first, each photon count in the order of basis(k, m);
   * it is also basis(n, m + 1) with the first mode dropped.
   */
  function LossyBasis(n: int, m: int): (r: Result<seq<seq<nat>>>)
    ensures r.Err? <==> n < 0 || m < 1
    ensures r.Ok? ==>
      && 0 <= n && 1 <= m
      && (forall e :: e in r.value <==> |e| == m && G.Sum(e) <= n)
    ensures r.Ok? ==> G.Distinct(r.value)
    ensures r.Ok? ==> forall i, j :: 0 <= i < j < |r.value| ==> G.Sum(r.value[i]) <= G.Sum(r.value[j])
    ensures r.Ok? ==> forall i, j :: 0 <= i < j < |r.value| && G.Sum(r.value[i]) == G.Sum(r.value[j]) ==>
      G.LexGreater(r.value[i], r.value[j])
    ensures r.Ok? ==> r.value == L.DropFirstMode(G.Basis(n, m + 1))
  {
    if n < 0 || m < 1 then Err(InvalidArgument)
    else
      L.LossyMembership(n, m);
      L.LossyDistinct(n, m);
      L.LossyAscending(n, m);
      L.LossyLevelDescending(n, m);
      L.BasisTailsAreLossy(n, m + 1);
      Ok(L.LossyBasis(n, m))
  }

  /**
   * basis_size(n, m): C(n + m - 1, m - 1), computed without the generator,
   * failing exactly when basis(n, m) fails and otherwise equal to its length.
   */
  function BasisSize(n: int, m: int): (r: Result<nat>)
    ensures r.Err? <==> Basis(n, m).Err?
    ensures r.Ok? ==> r.value == |Basis(n, m).value|
    ensures r.Ok? ==> r.value == C.Fact(n + m - 1) / (C.Fact(m - 1) * C.Fact(n))
  {
    if n < 0 || m < 1 then Err(InvalidArgument)
    else
      S.BasisLength(n, m);
      C.BinomIsFactorialQuotient(n + m - 1, m - 1);
      assert n + m - 1 - (m - 1) == n;
      Ok(S.BasisSize(n, m))
  }

  /**
   * lossy_basis_size(n, m): C(n + m, m), failing exactly when lossy_basis(n, m)
   * fails, otherwise equal to its length and to the sum of basis_size(k, m)
   * over k = 0 .. n.
   */
  function LossyBasisSize(n: int, m: int): (r: Result<nat>)
    ensures r.Err? <==> LossyBasis(n, m).Err?
    ensures r.Ok? ==> r.value == |LossyBasis(n, m).value|
    ensures r.Ok? ==> r.value == S.SizeSum(n, m)
  {
    if n < 0 || m < 1 then Err(InvalidArgument)
    else
      S.LossyLength(n, m);
      S.LossySizeIsSum(n, m);
      Ok(S.LossyBasisSize(n, m))
  }

  /**
   * basis_array(n, m): the table with one row per element of basis(n, m) and
   * m columns, entry for entry equal to it; fails exactly when basis(n, m) fails.
   */
  function BasisArray(n: int, m: int): (r: Result<T.Table>)
    ensures r.Err? <==> Basis(n, m).Err?
    ensures r.Ok? ==>
      && r.value.Rectangular() && r.value.cols == m
      && r.value.rows == |Basis(n, m).value|
      && (forall i :: 0 <= i < r.value.rows ==> |Basis(n, m).value[i]| == m)
      && (forall i: nat, j: nat :: i < r.value.rows && j < r.value.cols ==>
            r.value.At(i, j) == Basis(n, m).value[i][j])
  {
    if n < 0 || m < 1 then Err(InvalidArgument)
    else
      T.BasisArrayMatchesBasis(n, m);
      Ok(T.BasisArray(n, m))
  }
}
