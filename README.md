# Fock-basis combinatorics of `bosonic.fock`, in Dafny

This project models the combinatorics layer of the `bosonic` photonic
simulator. The layer answers one question: in how many ways, and in which
order, can `n` indistinguishable photons sit in `m` modes?

It has four parts:

- the exact integer primitives `factorial` and `binom`;
- the Fock basis generator `basis(n, m)` and its table form `basis_array(n, m)`;
- the closed-form size oracle `basis_size(n, m)` and `lossy_basis_size(n, m)`;
- the lossy basis `lossy_basis(n, m)`, which holds every state of at most `n` photons.

The library's behaviour is known from its test suite, `tests/test_fock.py`,
and from its documented interface. Every property is proved for all
naturals. The tests only try `n` in `1..5` and `m` in `1..10`
(`tests/test_fock.py:9-10`), `x` in `0..15` for `factorial`, and random
`k` for `binom`.

Modules, leaves first:

- `Combinatorics` (`combinatorics.dfy`):
  - `Fact`, the textbook `x!`, used only as a reference;
  - `Factorial`, defined here as the running product `1 * 2 * ... * x`;
  - `Binom`, defined here by Pascal's rule, which is `0` when `k > n`.
  These are the model's chosen definitions; what is proved about them is their values.
- `BasisGenerator` (`basis_generator.dfy`):
  - `Basis(n, m)`, and `Block(n, m, k)`, the part of the basis whose first mode holds `k, k-1, ..., 0` photons;
  - the predicates `IsState`, `LexGreater`, `StrictlyDescending` and `Distinct`.
- `LossyGenerator` (`lossy_generator.dfy`): `LossyBasis(n, m)` is `Basis(0, m) + Basis(1, m) + ... + Basis(n, m)`, fewest photons first.
- `SizeOracle` (`size_oracle.dfy`):
  - `BasisSize(n, m) = C(n+m-1, m-1)`;
  - `LossyBasisSize(n, m) = C(n+m, m)`;
  - `SizeSum`, the term-by-term sum of basis sizes.
- `BasisTable` (`basis_table.dfy`): `basis_array` as a row-major `Table` of naturals. This is how a dense two-dimensional array stores it.
- `Fock` (`fock.dfy`): the entry points as callers see them. They take integer arguments and return `Result`, which is `Ok(value)` or `Err(InvalidArgument)`.

Main facts proved:

- Membership in both directions: `e` is in `basis(n, m)` exactly when `|e| == m` and `sum(e) == n`.
- `basis(n, m)` is strictly descending in lexicographic order, so it has no duplicates.
- The order determines the basis: any strictly descending sequence of exactly these states *is* `basis(n, m)`.
- First and last elements are `(n, 0, ..., 0)` and `(0, ..., 0, n)`.
- `len(basis(n, m)) == C(n+m-1, m-1)`.
- Dropping the first mode of `basis(n, m)` gives exactly `lossy_basis(n, m-1)`, in the same order.
- Within each photon count, `lossy_basis(n, m)` keeps the strictly descending order of `basis(k, m)`.
- `len(lossy_basis(n, m)) == C(n+m, m)`, which is the sum of the basis sizes (the hockey-stick identity).
- `basis_array` agrees with `basis` entry for entry.

## Model

| member | source | states |
|---|---|---|
| `Combinatorics.FactorialIsFact` | tests/test_fock.py:14-19 | the modelled factorial equals x! for every natural x, not only 0..15 |
| `Combinatorics.BinomEdges` | tests/test_fock.py:29-33 | binom(n, 0) == 1 and binom(n, n) == 1 for every n |
| `Combinatorics.BinomTimesFactorials` | tests/test_fock.py:35-39 | binom(n, k) * k! * (n-k)! == n! for all 0 <= k <= n |
| `Combinatorics.BinomIsFactorialQuotient` | tests/test_fock.py:35-39 | binom(n, k) == n! / (k! (n-k)!) exactly for all 0 <= k <= n |
| `BasisGenerator.BasisSound` | tests/test_fock.py:51-57 | every element of basis(n, m) has m entries summing to n |
| `BasisGenerator.BasisComplete` | tests/test_fock.py:51-57 | every m-tuple summing to n is an element of basis(n, m) |
| `BasisGenerator.BasisMembership` | tests/test_fock.py:51-57 | e in basis(n, m) if and only if len(e) == m and sum(e) == n |
| `BasisGenerator.BasisOfNoPhotons` | tests/test_fock.py:45-47 | the zero-photon basis is the single all-zero tuple (a fixed design choice; the tests start at n = 1) |
| `BasisGenerator.BasisFirst` | tests/test_fock.py:43-48 | basis(n, m) is non-empty and its first element is (n, 0, ..., 0), so basis[0][0] == n |
| `BasisGenerator.BasisLast` | tests/test_fock.py:43-49 | the last element of basis(n, m) is (0, ..., 0, n), so basis[-1][-1] == n |
| `BasisGenerator.BasisDescending` | tests/test_fock.py:43-49 | basis(n, m) is strictly decreasing in lexicographic order: the first mode's count runs from n down to 0 |
| `BasisGenerator.BasisDistinct` | tests/test_fock.py:47 | no state occurs twice in basis(n, m) |
| `BasisGenerator.BasisCanonical` | tests/test_fock.py:43-57 | any strictly descending sequence holding exactly the states of n photons in m modes is basis(n, m) |
| `BasisGenerator.SmallBases` | tests/test_fock.py:59-60 | basis(1, 1) == [(1,)], basis(2, 2) == [(2,0), (1,1), (0,2)], basis(1, 3) == [(1,0,0), (0,1,0), (0,0,1)] |
| `LossyGenerator.LossyMembership` | tests/test_fock.py:72-78 | e in lossy_basis(n, m) if and only if len(e) == m and sum(e) <= n |
| `LossyGenerator.LossyAscending` | tests/test_fock.py:76 | photon counts never decrease along lossy_basis(n, m): fewest photons first |
| `LossyGenerator.LossyLevelDescending` | tests/test_fock.py:76 | states with the same photon count appear in lossy_basis(n, m) strictly descending, in the order of basis(k, m) |
| `LossyGenerator.LossyDistinct` | tests/test_fock.py:76 | no state occurs twice in lossy_basis(n, m) |
| `LossyGenerator.BasisTailsAreLossy` | tests/test_fock.py:64-78 | dropping the first mode of every element of basis(n, m) gives exactly lossy_basis(n, m-1), in order |
| `SizeOracle.LossySizeIsSum` | tests/test_fock.py:72-78 | basis_size(0, m) + ... + basis_size(n, m) == lossy_basis_size(n, m) == C(n+m, m) (hockey stick) |
| `SizeOracle.BasisLength` | tests/test_fock.py:64-70 | len(basis(n, m)) == basis_size(n, m) == C(n+m-1, m-1) for every n and every m >= 1 |
| `SizeOracle.LossyLength` | tests/test_fock.py:72-78 | len(lossy_basis(n, m)) == lossy_basis_size(n, m) for every n and every m >= 1 |
| `SizeOracle.LossyLengthIsSumOfSizes` | tests/test_fock.py:72-78 | len(lossy_basis(n, m)) is the sum of basis_size(k, m) over k = 0..n |
| `SizeOracle.SmallLossySize` | tests/test_fock.py:77 | lossy_basis_size(2, 2) == 1 + 2 + 3 == 6 |
| `BasisTable.BasisArrayMatchesBasis` | tests/test_fock.py:80-87 | basis_array(n, m) is rectangular, has one row per basis element and m columns, and every entry equals the basis entry |
| `Fock.Factorial` | tests/test_fock.py:17-19 | InvalidArgument exactly for negative x; otherwise x! |
| `Fock.Binom` | tests/test_fock.py:31-38 | InvalidArgument exactly when k is outside 0..n; otherwise n! / (k! (n-k)!), and 1 at k = 0 and k = n |
| `Fock.Basis` | tests/test_fock.py:47-57 | InvalidArgument exactly when n < 0 or m < 1; otherwise exactly the states, strictly descending, distinct, first (n,0,...,0), last (0,...,0,n) |
| `Fock.LossyBasis` | tests/test_fock.py:76 | InvalidArgument exactly when n < 0 or m < 1; otherwise exactly the states of at most n photons, distinct, fewest photons first, strictly descending within each photon count, and equal to basis(n, m+1) with the first mode dropped |
| `Fock.BasisSize` | tests/test_fock.py:68-70 | fails exactly when basis fails; otherwise equals len(basis(n, m)) and (n+m-1)! / ((m-1)! n!) |
| `Fock.LossyBasisSize` | tests/test_fock.py:76-78 | fails exactly when lossy_basis fails; otherwise equals len(lossy_basis(n, m)) and the sum of basis sizes over 0..n |
| `Fock.BasisArray` | tests/test_fock.py:84-87 | fails exactly when basis fails; otherwise a rectangular table equal entry for entry to basis(n, m) |

## Left out

- The implementation file `bosonic/fock.py` is not part of this model.
  - `basis` (first mode from `n` down to `0`, then recursion on the remaining modes) follows the library's documented behaviour; `lossy_basis` is the concatenation of the bases for `0..n` photons, and its direction is fixed below.
  - Any loop or cache inside the library's own code is not modelled.
- `Combinatorics.Factorial`, `Combinatorics.Binom`: the library's own algorithms for `factorial` and `binom` are not shown, so only their values are modelled. The model chooses a running product and Pascal's rule, and proves that they give `x!` and `n! / (k! (n-k)!)`.
- SciPy's floating-point `factorial` and `binom`, which the tests use as oracles, are replaced by the exact reference `Combinatorics.Fact` and the exact quotient `n! / (k! (n-k)!)`. SciPy's rounding is not modelled.
- The tests draw `n` and `k` with `np.random.randint`. Randomness is replaced by quantifying over all `0 <= k <= n`.
- NumPy arrays are not modelled; `basis_array` is modelled as a row-major `Table` of naturals. The test computes `np.sum(np.abs(b1 - b2)) == 0`; the model states the equivalent entry-by-entry equality instead.
- The `unittest` harness is not modelled. The empty `test_basis_spot_checks` is not modelled either; `SmallBases` gives three spot checks in its place.
- The tests do not exercise `n = 0` or the direction of `lossy_basis`. The model fixes both:
  - `basis(0, m)` is the single all-zero tuple;
  - `lossy_basis` runs over photon counts `0, 1, ..., n`, ascending.
- The `InvalidArgument` error conditions come from the library's documented interface, not from the tests.
  - `lossy_basis_size` is given the same validity conditions as `lossy_basis` (`n >= 0`, `m >= 1`).
  - `SizeOracle.LossyBasisSize` on its own would give `C(n, 0) = 1` for `m = 0`; the entry point rejects `m = 0`.
- Memory and time growth of the generator for large `(n, m)` are not modelled; integers are unbounded.
