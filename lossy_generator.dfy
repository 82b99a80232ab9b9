/**
 * The lossy basis: the Fock bases for 0, 1, ..., n photons in m modes,
 * concatenated in that order (fewest photons first), so that every state
 * reachable from n photons by loss has one index.
 */
module LossyGenerator {
  import opened BasisGenerator

  /** Basis(lo, m) + Basis(lo + 1, m) + ... + Basis(n, m). */
  function LossyRange(lo: nat, n: nat, m: nat): seq<seq<nat>>
    requires lo <= n && m >= 1
    decreases n - lo
  {
    if n == lo then Basis(lo, m) else LossyRange(lo, n - 1, m) + Basis(n, m)
  }

  /** lossy_basis(n, m): the bases for photon counts 0 .. n, in ascending photon count. */
  function LossyBasis(n: nat, m: nat): seq<seq<nat>>
    requires m >= 1
  {
    LossyRange(0, n, m)
  }

  /** Every tuple of s without its first mode. */
  function DropFirstMode(s: seq<seq<nat>>): seq<seq<nat>>
  {
    seq(|s|, i requires 0 <= i < |s| => if s[i] == [] then [] else s[i][1..])
  }

  /** A range of bases also splits off its lowest photon count at the front. */
  lemma {:induction false} LossyRangeFront(lo: nat, n: nat, m: nat)
    requires lo < n && m >= 1
    ensures LossyRange(lo, n, m) == Basis(lo, m) + LossyRange(lo + 1, n, m)
    decreases n - lo
  {
    if n > lo + 1 {
      LossyRangeFront(lo, n - 1, m);
      calc {
        LossyRange(lo, n, m);
        LossyRange(lo, n - 1, m) + Basis(n, m);
        (Basis(lo, m) + LossyRange(lo + 1, n - 1, m)) + Basis(n, m);
        Basis(lo, m) + (LossyRange(lo + 1, n - 1, m) + Basis(n, m));
        Basis(lo, m) + LossyRange(lo + 1, n, m);
      }
    }
  }

  /** The range holds exactly the tuples of m entries whose photon count lies in lo .. n. */
  lemma {:induction false} LossyRangeMembership(lo: nat, n: nat, m: nat)
    requires lo <= n && m >= 1
    ensures forall e :: e in LossyRange(lo, n, m) <==> |e| == m && lo <= Sum(e) <= n
    decreases n - lo
  {
    BasisMembership(n, m);
    if n > lo {
      LossyRangeMembership(lo, n - 1, m);
    }
  }

  /** e in lossy_basis(n, m) iff e has m entries and at most n photons. */
  lemma LossyMembership(n: nat, m: nat)
    requires m >= 1
    ensures forall e :: e in LossyBasis(n, m) <==> |e| == m && Sum(e) <= n
  {
    LossyRangeMembership(0, n, m);
  }

  /** The photon count never decreases along the range. */
  lemma {:induction false} LossyRangeAscending(lo: nat, n: nat, m: nat)
    requires lo <= n && m >= 1
    ensures forall i, j :: 0 <= i < j < |LossyRange(lo, n, m)| ==>
      Sum(LossyRange(lo, n, m)[i]) <= Sum(LossyRange(lo, n, m)[j])
    decreases n - lo
  {
    var s := LossyRange(lo, n, m);
    BasisSound(n, m);
    if n == lo {
      forall i | 0 <= i < |s|
        ensures Sum(s[i]) == n
      {
        assert s[i] in Basis(n, m);
      }
    } else {
      var a, b := LossyRange(lo, n - 1, m), Basis(n, m);
      LossyRangeAscending(lo, n - 1, m);
      LossyRangeMembership(lo, n - 1, m);
      forall i, j | 0 <= i < j < |s|
        ensures Sum(s[i]) <= Sum(s[j])
      {
        if j < |a| {
          assert s[i] == a[i] && s[j] == a[j];
        } else {
          assert s[j] == b[j - |a|];
          assert s[j] in b;
          if i < |a| {
            assert s[i] == a[i] && a[i] in a;
          } else {
            assert s[i] == b[i - |a|] && s[i] in b;
          }
        }
      }
    }
  }

  /** Photon counts ascend through lossy_basis(n, m): fewest photons first. */
  lemma LossyAscending(n: nat, m: nat)
    requires m >= 1
    ensures forall i, j :: 0 <= i < j < |LossyBasis(n, m)| ==>
      Sum(LossyBasis(n, m)[i]) <= Sum(LossyBasis(n, m)[j])
  {
    LossyRangeAscending(0, n, m);
  }

  /** Within one photon count the range keeps the basis order: strictly descending. */
  lemma {:induction false} LossyRangeLevelDescending(lo: nat, n: nat, m: nat)
    requires lo <= n && m >= 1
    ensures forall i, j ::
      0 <= i < j < |LossyRange(lo, n, m)| && Sum(LossyRange(lo, n, m)[i]) == Sum(LossyRange(lo, n, m)[j]) ==>
      LexGreater(LossyRange(lo, n, m)[i], LossyRange(lo, n, m)[j])
    decreases n - lo
  {
    BasisDescending(n, m);
    if n > lo {
      var s, a, b := LossyRange(lo, n, m), LossyRange(lo, n - 1, m), Basis(n, m);
      LossyRangeLevelDescending(lo, n - 1, m);
      LossyRangeMembership(lo, n - 1, m);
      BasisSound(n, m);
      forall i, j | 0 <= i < |a| <= j < |s|
        ensures Sum(s[i]) < Sum(s[j])
      {
        assert s[i] == a[i] && a[i] in a;
        assert s[j] == b[j - |a|] && s[j] in b;
      }
      forall i, j | 0 <= i < j < |s| && Sum(s[i]) == Sum(s[j]) && (j < |a| || |a| <= i)
        ensures LexGreater(s[i], s[j])
      {
        if j < |a| {
          assert s[i] == a[i] && s[j] == a[j];
        } else {
          assert s[i] == b[i - |a|] && s[j] == b[j - |a|];
        }
      }
    }
  }

  /** States with the same photon count appear in lossy_basis(n, m) in the order of basis(k, m). */
  lemma LossyLevelDescending(n: nat, m: nat)
    requires m >= 1
    ensures forall i, j ::
      0 <= i < j < |LossyBasis(n, m)| && Sum(LossyBasis(n, m)[i]) == Sum(LossyBasis(n, m)[j]) ==>
      LexGreater(LossyBasis(n, m)[i], LossyBasis(n, m)[j])
  {
    LossyRangeLevelDescending(0, n, m);
  }

  /** No tuple occurs twice in a range of bases. */
  lemma {:induction false} LossyRangeDistinct(lo: nat, n: nat, m: nat)
    requires lo <= n && m >= 1
    ensures Distinct(LossyRange(lo, n, m))
    decreases n - lo
  {
    BasisDistinct(n, m);
    if n > lo {
      var s, a, b := LossyRange(lo, n, m), LossyRange(lo, n - 1, m), Basis(n, m);
      LossyRangeDistinct(lo, n - 1, m);
      LossyRangeMembership(lo, n - 1, m);
      BasisSound(n, m);
      forall i, j | 0 <= i < j < |s|
        ensures s[i] != s[j]
      {
        if j < |a| {
          assert s[i] == a[i] && s[j] == a[j];
        } else if i < |a| {
          assert s[i] == a[i] && a[i] in a;
          assert s[j] == b[j - |a|] && s[j] in b;
        } else {
          assert s[i] == b[i - |a|] && s[j] == b[j - |a|];
        }
      }
    }
  }

  /** No state occurs twice in lossy_basis(n, m). */
  lemma LossyDistinct(n: nat, m: nat)
    requires m >= 1
    ensures Distinct(LossyBasis(n, m))
  {
    LossyRangeDistinct(0, n, m);
  }

  lemma DropFirstModeConcat(a: seq<seq<nat>>, b: seq<seq<nat>>)
    ensures DropFirstMode(a + b) == DropFirstMode(a) + DropFirstMode(b)
  {
  }

  lemma DropFirstModePrepend(k: nat, b: seq<seq<nat>>)
    ensures DropFirstMode(PrependAll(k, b)) == b
  {
  }

  /** Without its first mode, Block(n, m, k) is the range of bases for n - k .. n photons. */
  lemma {:induction false} BlockTails(n: nat, m: nat, k: nat)
    requires 2 <= m && k <= n
    ensures DropFirstMode(Block(n, m, k)) == LossyRange(n - k, n, m - 1)
    decreases k
  {
    var p := PrependAll(k, Basis(n - k, m - 1));
    DropFirstModePrepend(k, Basis(n - k, m - 1));
    if k == 0 {
      assert Block(n, m, 0) == p;
    } else {
      BlockTails(n, m, k - 1);
      DropFirstModeConcat(p, Block(n, m, k - 1));
      LossyRangeFront(n - k, n, m - 1);
    }
  }

  /**
   * Forgetting the first mode of basis(n, m) leaves exactly lossy_basis(n, m - 1),
   * in the same order: the first mode absorbs the photons the other modes lack.
   */
  lemma BasisTailsAreLossy(n: nat, m: nat)
    requires m >= 2
    ensures DropFirstMode(Basis(n, m)) == LossyBasis(n, m - 1)
  {
    BlockTails(n, m, n);
  }
}
