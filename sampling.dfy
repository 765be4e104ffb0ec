/** Membership test and random index sampling (isMember and randomInts in app.go). */
module Sampling {

  /** No value occurs twice in s. */
  predicate Distinct<T(==)>(s: seq<T>)
  {
    forall i, j :: 0 <= i < j < |s| ==> s[i] != s[j]
  }

  /** The values occurring in s. */
  function Items<T>(s: seq<T>): set<T>
  {
    set x | x in s
  }

  /**
   * isMember: a linear scan over the slice that returns as soon as it meets n.
   */
  method IsMember(ints: seq<int>, n: int) returns (found: bool)
    ensures found <==> n in ints
  {
    var i := 0;
    while i < |ints|
      invariant 0 <= i <= |ints|
      invariant n !in ints[..i]
    {
      if ints[i] == n {
        return true;
      }
      i := i + 1;
    }
    assert ints[..i] == ints;
    return false;
  }

  /** The arrangement 0, 1, ..., total - 1 that a random permutation shuffles. */
  function Iota(total: nat): seq<int>
  {
    seq(total, i => i)
  }

  /**
   * p is a permutation of 0 .. total - 1, as rand.Perm(total) returns.
   * The random source itself is not modelled: the permutation is an input.
   */
  ghost predicate IsPermutation(p: seq<int>, total: nat)
  {
    multiset(p) == multiset(Iota(total))
  }

  /** Every index below total occurs exactly once in Iota(total), and nothing else does. */
  lemma {:induction false} IotaCount(total: nat, x: int)
    ensures multiset(Iota(total))[x] == if 0 <= x < total then 1 else 0
  {
    if total > 0 {
      assert Iota(total) == Iota(total - 1) + [total - 1];
      IotaCount(total - 1, x);
    }
  }

  /** A value at two different positions of s occurs at least twice in multiset(s). */
  lemma TwiceInMultiset<T>(s: seq<T>, i: nat, j: nat)
    requires i < j < |s| && s[i] == s[j]
    ensures multiset(s)[s[i]] >= 2
  {
    assert s == s[..i] + [s[i]] + s[i + 1..j] + [s[j]] + s[j + 1..];
  }

  /** A permutation of 0 .. total - 1 has total entries, all in range and pairwise distinct. */
  lemma PermutationFacts(p: seq<int>, total: nat)
    requires IsPermutation(p, total)
    ensures |p| == total
    ensures forall i :: 0 <= i < |p| ==> 0 <= p[i] < total
    ensures Distinct(p)
  {
    calc {
      |p|;
      |multiset(p)|;
      |multiset(Iota(total))|;
      |Iota(total)|;
    }
    forall i | 0 <= i < |p|
      ensures 0 <= p[i] < total
    {
      assert p[i] in multiset(p);
      IotaCount(total, p[i]);
    }
    forall i, j | 0 <= i < j < |p|
      ensures p[i] != p[j]
    {
      if p[i] == p[j] {
        TwiceInMultiset(p, i, j);
        IotaCount(total, p[i]);
      }
    }
  }

  /**
   * randomInts: the first n entries of a random permutation of 0 .. total - 1.
   * The slice p[:n] is out of bounds when n > total, hence the precondition.
   */
  function RandomInts(total: nat, n: nat, perm: seq<int>): (r: seq<int>)
    requires IsPermutation(perm, total)
    requires n <= total
    ensures |r| == n && r <= perm
    ensures forall i :: 0 <= i < |r| ==> 0 <= r[i] < total
    ensures Distinct(r)
  {
    PermutationFacts(perm, total);
    perm[..n]
  }

  /** Asking for the whole population returns every index. */
  lemma SampleWhole(total: nat, perm: seq<int>)
    requires IsPermutation(perm, total)
    ensures forall k :: 0 <= k < total <==> k in RandomInts(total, total, perm)
  {
    PermutationFacts(perm, total);
    assert RandomInts(total, total, perm) == perm;
    forall k | 0 <= k < total
      ensures k in perm
    {
      IotaCount(total, k);
      assert k in multiset(perm);
    }
  }

  /** A sequence without repeats has as many distinct values as entries. */
  lemma {:induction false} DistinctCardinality<T>(s: seq<T>)
    requires Distinct(s)
    ensures |Items(s)| == |s|
  {
    if s != [] {
      var init := s[..|s| - 1];
      assert Distinct(init);
      DistinctCardinality(init);
      assert Items(s) == Items(init) + {s[|s| - 1]};
      assert s[|s| - 1] !in init;
    }
  }
}
