/**
 * The Fock basis: every way to put n indistinguishable photons into m modes,
 * as tuples of occupation numbers, in the library's canonical order (the
 * first mode's count runs from n down to 0, and for each such count the
 * remaining photons are distributed over the remaining modes in the same
 * order).
 */
module BasisGenerator {

  /** Total number of photons in an occupation tuple. */
  function Sum(e: seq<nat>): nat
  {
    if e == [] then 0 else e[0] + Sum(e[1..])
  }

  /** The occupation tuple of len empty modes. */
  function Zeros(len: nat): seq<nat>
  {
    seq(len, _ => 0)
  }

  /** e is a Fock state of n photons in m modes: m occupation numbers adding up to n. */
  predicate IsState(e: seq<nat>, n: nat, m: nat)
  {
    |e| == m && Sum(e) == n
  }

  /** Every tuple of b, with a new first mode holding k photons put in front. */
  function PrependAll(k: nat, b: seq<seq<nat>>): seq<seq<nat>>
  {
    seq(|b|, i requires 0 <= i < |b| => [k] + b[i])
  }

  /** basis(n, m): the Fock basis of n photons in m >= 1 modes, in canonical order. */
  function Basis(n: nat, m: nat): seq<seq<nat>>
    requires m >= 1
    decreases m, n + 1
  {
    if m == 1 then [[n]] else Block(n, m, n)
  }

  /**
   * The tail of Basis(n, m) whose first mode holds k, k - 1, ..., 0 photons,
   * in that order; Basis(n, m) itself is Block(n, m, n).
   */
  function Block(n: nat, m: nat, k: nat): seq<seq<nat>>
    requires 2 <= m && k <= n
    decreases m, k
  {
    PrependAll(k, Basis(n - k, m - 1)) + (if k == 0 then [] else Block(n, m, k - 1))
  }

  /** a comes strictly before b in descending lexicographic order. */
  predicate LexGreater(a: seq<nat>, b: seq<nat>)
    decreases |a|
  {
    0 < |a| && 0 < |b| && (a[0] > b[0] || (a[0] == b[0] && LexGreater(a[1..], b[1..])))
  }

  /** s is strictly decreasing in lexicographic order. */
  predicate StrictlyDescending(s: seq<seq<nat>>)
  {
    forall i, j :: 0 <= i < j < |s| ==> LexGreater(s[i], s[j])
  }

  /** No tuple occurs twice in s. */
  predicate Distinct(s: seq<seq<nat>>)
  {
    forall i, j :: 0 <= i < j < |s| ==> s[i] != s[j]
  }

  lemma SumPrepend(k: nat, t: seq<nat>)
    ensures Sum([k] + t) == k + Sum(t)
  {
  }

  // ---------------------------------------------------------------------
  // Every element is a state, and every state is an element
  // ---------------------------------------------------------------------

  /** Each tuple of Basis(n, m) has m entries adding up to n. */
  lemma {:induction false} BasisSound(n: nat, m: nat)
    requires m >= 1
    ensures forall e :: e in Basis(n, m) ==> IsState(e, n, m)
    decreases m, n + 1
  {
    if m == 1 {
      assert [n][1..] == [];
      assert Sum([n]) == n;
      assert Basis(n, 1) == [[n]];
    } else {
      BlockSound(n, m, n);
    }
  }

  /** Each tuple of Block(n, m, k) is a state of n photons in m modes with at most k in the first. */
  lemma {:induction false} BlockSound(n: nat, m: nat, k: nat)
    requires 2 <= m && k <= n
    ensures forall e :: e in Block(n, m, k) ==> IsState(e, n, m) && e[0] <= k
    decreases m, k
  {
    var b := Basis(n - k, m - 1);
    BasisSound(n - k, m - 1);
    forall i | 0 <= i < |b|
      ensures IsState(PrependAll(k, b)[i], n, m) && PrependAll(k, b)[i][0] == k
    {
      assert b[i] in b;
      SumPrepend(k, b[i]);
    }
    if k > 0 {
      BlockSound(n, m, k - 1);
    }
  }

  /** Every state of n photons in m modes occurs in Basis(n, m). */
  lemma {:induction false} BasisComplete(n: nat, m: nat, e: seq<nat>)
    requires m >= 1 && IsState(e, n, m)
    ensures e in Basis(n, m)
    decreases m, n + 1
  {
    if m == 1 {
      assert e[1..] == [];
      assert Sum(e) == e[0] + Sum(e[1..]);
      assert e == [n];
      assert Basis(n, 1) == [[n]];
    } else {
      BlockComplete(n, m, n, e);
    }
  }

  /** Every state with at most k photons in its first mode occurs in Block(n, m, k). */
  lemma {:induction false} BlockComplete(n: nat, m: nat, k: nat, e: seq<nat>)
    requires 2 <= m && k <= n && IsState(e, n, m) && e[0] <= k
    ensures e in Block(n, m, k)
    decreases m, k
  {
    var t := e[1..];
    assert e == [e[0]] + t;
    SumPrepend(e[0], t);
    if e[0] == k {
      BasisComplete(n - k, m - 1, t);
      var b := Basis(n - k, m - 1);
      var i :| 0 <= i < |b| && b[i] == t;
      assert PrependAll(k, b)[i] == e;
      assert e in PrependAll(k, b);
    } else {
      BlockComplete(n, m, k - 1, e);
    }
  }

  /** The basis holds exactly the states: e in basis(n, m) iff |e| == m and sum(e) == n. */
  lemma BasisMembership(n: nat, m: nat)
    requires m >= 1
    ensures forall e :: e in Basis(n, m) <==> IsState(e, n, m)
  {
    BasisSound(n, m);
    forall e | IsState(e, n, m)
      ensures e in Basis(n, m)
    {
      BasisComplete(n, m, e);
    }
  }

  /** The all-zero tuple is the only state without photons. */
  lemma {:induction false} BasisOfNoPhotons(m: nat)
    requires m >= 1
    ensures Basis(0, m) == [Zeros(m)]
  {
    if m == 1 {
      assert Zeros(1) == [0];
    } else {
      BasisOfNoPhotons(m - 1);
      assert Zeros(m) == [0] + Zeros(m - 1);
      assert Basis(0, m) == PrependAll(0, Basis(0, m - 1));
    }
  }

  // ---------------------------------------------------------------------
  // First and last elements
  // ---------------------------------------------------------------------

  /** The first element is (n, 0, ..., 0). */
  lemma {:induction false} BasisFirst(n: nat, m: nat)
    requires m >= 1
    ensures |Basis(n, m)| > 0 && Basis(n, m)[0] == [n] + Zeros(m - 1)
    decreases m
  {
    if m > 1 {
      BasisFirst(0, m - 1);
      assert Basis(n, m)[0] == PrependAll(n, Basis(0, m - 1))[0];
      assert Zeros(m - 1) == [0] + Zeros(m - 2);
    }
  }

  /** The last element of Block(n, m, k) is that of the block whose first mode is empty. */
  lemma {:induction false} BlockLast(n: nat, m: nat, k: nat)
    requires 2 <= m && k <= n && |Basis(n, m - 1)| > 0
    ensures |Block(n, m, k)| > 0
    ensures Block(n, m, k)[|Block(n, m, k)| - 1] == [0] + Basis(n, m - 1)[|Basis(n, m - 1)| - 1]
    decreases k
  {
    if k > 0 {
      BlockLast(n, m, k - 1);
    }
  }

  /** The last element is (0, ..., 0, n). */
  lemma {:induction false} BasisLast(n: nat, m: nat)
    requires m >= 1
    ensures |Basis(n, m)| > 0 && Basis(n, m)[|Basis(n, m)| - 1] == Zeros(m - 1) + [n]
    decreases m
  {
    if m > 1 {
      BasisLast(n, m - 1);
      BlockLast(n, m, n);
      assert Zeros(m - 1) + [n] == [0] + (Zeros(m - 2) + [n]);
    }
  }

  // ---------------------------------------------------------------------
  // Canonical order
  // ---------------------------------------------------------------------

  lemma {:induction false} LexIrreflexive(a: seq<nat>)
    ensures !LexGreater(a, a)
    decreases |a|
  {
    if |a| > 0 {
      LexIrreflexive(a[1..]);
    }
  }

  lemma {:induction false} LexAsymmetric(a: seq<nat>, b: seq<nat>)
    requires LexGreater(a, b)
    ensures !LexGreater(b, a)
    decreases |a|
  {
    if a[0] == b[0] {
      LexAsymmetric(a[1..], b[1..]);
    }
  }

  /** A common first mode keeps the order of the rest. */
  lemma DescendingPrepend(k: nat, b: seq<seq<nat>>)
    requires StrictlyDescending(b)
    ensures StrictlyDescending(PrependAll(k, b))
  {
  }

  /** Two descending runs, every element of the first above every element of the second. */
  lemma DescendingConcat(a: seq<seq<nat>>, b: seq<seq<nat>>)
    requires StrictlyDescending(a) && StrictlyDescending(b)
    requires forall i, j :: 0 <= i < |a| && 0 <= j < |b| ==> LexGreater(a[i], b[j])
    ensures StrictlyDescending(a + b)
  {
  }

  /** Basis(n, m) is strictly decreasing in lexicographic order. */
  lemma {:induction false} BasisDescending(n: nat, m: nat)
    requires m >= 1
    ensures StrictlyDescending(Basis(n, m))
    decreases m, n + 1
  {
    if m > 1 {
      BlockDescending(n, m, n);
    }
  }

  lemma {:induction false} BlockDescending(n: nat, m: nat, k: nat)
    requires 2 <= m && k <= n
    ensures StrictlyDescending(Block(n, m, k))
    decreases m, k
  {
    var b := Basis(n - k, m - 1);
    var p := PrependAll(k, b);
    BasisDescending(n - k, m - 1);
    DescendingPrepend(k, b);
    if k > 0 {
      var rest := Block(n, m, k - 1);
      BlockDescending(n, m, k - 1);
      BlockSound(n, m, k - 1);
      forall i, j | 0 <= i < |p| && 0 <= j < |rest|
        ensures LexGreater(p[i], rest[j])
      {
        assert rest[j] in rest;
      }
      DescendingConcat(p, rest);
    }
  }

  /** No state occurs twice in the basis. */
  lemma BasisDistinct(n: nat, m: nat)
    requires m >= 1
    ensures Distinct(Basis(n, m))
  {
    var b := Basis(n, m);
    BasisDescending(n, m);
    forall i, j | 0 <= i < j < |b|
      ensures b[i] != b[j]
    {
      LexIrreflexive(b[i]);
    }
  }

  /** Two strictly descending sequences with the same elements are equal. */
  lemma {:induction false} DescendingUnique(a: seq<seq<nat>>, b: seq<seq<nat>>)
    requires StrictlyDescending(a) && StrictlyDescending(b)
    requires forall e :: e in a <==> e in b
    ensures a == b
    decreases |a|
  {
    assert |a| > 0 ==> a[0] in b;
    assert |b| > 0 ==> b[0] in a;
    if |a| > 0 || |b| > 0 {
      assert a[0] in b;
      var j :| 0 <= j < |b| && b[j] == a[0];
      assert b[0] in a;
      var i :| 0 <= i < |a| && a[i] == b[0];
      if j > 0 {
        assert LexGreater(b[0], b[j]);
        if i == 0 {
          LexIrreflexive(a[0]);
        } else {
          LexAsymmetric(a[0], a[i]);
        }
      }
      assert a[0] == b[0];
      forall e
        ensures e in a[1..] <==> e in b[1..]
      {
        if e in a[1..] {
          var x :| 1 <= x < |a| && a[x] == e;
          LexIrreflexive(a[0]);
          assert e in b && e != b[0];
        }
        if e in b[1..] {
          var y :| 1 <= y < |b| && b[y] == e;
          LexIrreflexive(b[0]);
          assert e in a && e != a[0];
        }
      }
      DescendingUnique(a[1..], b[1..]);
      assert a == [a[0]] + a[1..] && b == [b[0]] + b[1..];
    }
  }

  /**
   * The canonical order determines the basis: any strictly lexicographically
   * descending sequence holding exactly the states of n photons in m modes is
   * Basis(n, m).
   */
  lemma BasisCanonical(n: nat, m: nat, s: seq<seq<nat>>)
    requires m >= 1 && StrictlyDescending(s)
    requires forall e :: e in s <==> IsState(e, n, m)
    ensures s == Basis(n, m)
  {
    BasisMembership(n, m);
    BasisDescending(n, m);
    DescendingUnique(s, Basis(n, m));
  }

  // ---------------------------------------------------------------------
  // Concrete cases
  // ---------------------------------------------------------------------

  lemma PrependConcat(k: nat, a: seq<seq<nat>>, b: seq<seq<nat>>)
    ensures PrependAll(k, a + b) == PrependAll(k, a) + PrependAll(k, b)
  {
  }

  lemma PrependSingle(k: nat, t: seq<nat>)
    ensures PrependAll(k, [t]) == [[k] + t]
  {
  }

  /** basis(1, 1) == [(1,)], basis(2, 2) == [(2, 0), (1, 1), (0, 2)] and basis(1, 3) in full. */
  lemma SmallBases()
    ensures Basis(1, 1) == [[1]]
    ensures Basis(2, 2) == [[2, 0], [1, 1], [0, 2]]
    ensures Basis(1, 3) == [[1, 0, 0], [0, 1, 0], [0, 0, 1]]
  {
    PrependSingle(0, [0]);
    PrependSingle(0, [1]);
    PrependSingle(0, [2]);
    PrependSingle(1, [0]);
    PrependSingle(1, [1]);
    PrependSingle(2, [0]);
    assert [2] + [0] == [2, 0] && [1] + [1] == [1, 1] && [0] + [2] == [0, 2];
    assert [1] + [0] == [1, 0] && [0] + [1] == [0, 1] && [0] + [0] == [0, 0];
    assert Basis(2, 2) == PrependAll(2, [[0]]) + (PrependAll(1, [[1]]) + PrependAll(0, [[2]]));
    assert Basis(1, 2) == PrependAll(1, [[0]]) + PrependAll(0, [[1]]);
    assert Basis(1, 2) == [[1, 0]] + [[0, 1]];
    assert Basis(0, 2) == PrependAll(0, [[0]]);
    PrependSingle(1, [0, 0]);
    PrependSingle(0, [1, 0]);
    PrependSingle(0, [0, 1]);
    PrependConcat(0, [[1, 0]], [[0, 1]]);
    assert [1] + [0, 0] == [1, 0, 0] && [0] + [1, 0] == [0, 1, 0] && [0] + [0, 1] == [0, 0, 1];
    var p := PrependAll(1, Basis(0, 2));
    var q := PrependAll(0, Basis(1, 2));
    assert p == [[1, 0, 0]];
    assert q == [[0, 1, 0], [0, 0, 1]];
    assert Basis(1, 3) == p + q;
  }
}
