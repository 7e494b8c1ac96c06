/** Facts about sequences of distinct values and permutations of 0..n-1. */
module Sequences {

  predicate Distinct<T(==)>(s: seq<T>) {
    forall i, j :: 0 <= i < j < |s| ==> s[i] != s[j]
  }

  /** The sequence 0, 1, ..., n-1 (what `np.arange(n)` yields). */
  function Range(n: nat): (r: seq<int>)
    ensures |r| == n && forall i :: 0 <= i < n ==> r[i] == i
  {
    seq(n, i => i)
  }

  /** `p` lists every integer of [0, n) once: what `np.random.permutation(n)` returns. */
  predicate IsPermutation(p: seq<int>, n: nat) {
    |p| == n && (forall i :: 0 <= i < n ==> 0 <= p[i] < n) && Distinct(p)
  }

  lemma {:induction false} DistinctOccursOnce<T>(s: seq<T>, x: T)
    requires Distinct(s)
    ensures multiset(s)[x] <= 1
  {
    if s != [] {
      var t, y := s[..|s| - 1], s[|s| - 1];
      assert s == t + [y];
      assert Distinct(t);
      DistinctOccursOnce(t, x);
      if x == y {
        assert x !in t;
      }
    }
  }

  lemma RepeatOccursTwice<T>(s: seq<T>, i: nat, j: nat)
    requires i < j < |s| && s[i] == s[j]
    ensures multiset(s)[s[i]] >= 2
  {
    assert s == s[..j] + s[j..];
    assert s[i] in s[..j];
    assert s[j] in s[j..];
  }

  /** A sequence whose values all occur once is distinct, and conversely. */
  lemma DistinctIffOccursOnce<T>(s: seq<T>)
    ensures Distinct(s) <==> forall i :: 0 <= i < |s| ==> multiset(s)[s[i]] == 1
  {
    if Distinct(s) {
      forall i | 0 <= i < |s| ensures multiset(s)[s[i]] == 1 {
        DistinctOccursOnce(s, s[i]);
      }
    } else {
      var i, j :| 0 <= i < j < |s| && s[i] == s[j];
      RepeatOccursTwice(s, i, j);
    }
  }

  lemma {:induction false} DistinctSetSize<T>(s: seq<T>)
    requires Distinct(s)
    ensures |set x | x in s| == |s|
  {
    if s != [] {
      var t, y := s[..|s| - 1], s[|s| - 1];
      assert s == t + [y];
      assert Distinct(t);
      DistinctSetSize(t);
      assert y !in t;
      assert (set x | x in s) == (set x | x in t) + {y};
    }
  }

  /** Pigeonhole: n distinct values drawn from [0, n) use up every value of [0, n) exactly once. */
  lemma {:induction false} PermutationCovers(p: seq<int>, n: nat)
    requires IsPermutation(p, n)
    ensures forall v :: 0 <= v < n ==> multiset(p)[v] == 1
  {
    var used := set x | x in p;
    var all := set v | v in Range(n);
    forall x | x in used ensures x in all {
      var i :| 0 <= i < |p| && p[i] == x;
      assert Range(n)[x] == x;
    }
    DistinctSetSize(p);
    DistinctSetSize(Range(n));
    assert all == used + (all - used);
    assert |all - used| == 0;
    forall v | 0 <= v < n ensures multiset(p)[v] == 1 {
      assert Range(n)[v] == v;
      assert v in all;
      assert v in used;
      DistinctOccursOnce(p, v);
    }
  }

  /** A sequence has at least as many elements as it has distinct values. */
  lemma {:induction false} SetSizeAtMostLength<T>(s: seq<T>)
    ensures |set x | x in s| <= |s|
  {
    if s != [] {
      var t, y := s[..|s| - 1], s[|s| - 1];
      assert s == t + [y];
      SetSizeAtMostLength(t);
      assert (set x | x in s) == (set x | x in t) + {y};
    }
  }

  /** Every permutation of [0, n) holds the same values as 0, 1, ..., n-1. */
  lemma {:induction false} PermutationMultiset(p: seq<int>, n: nat)
    requires IsPermutation(p, n)
    ensures multiset(p) == multiset(Range(n))
  {
    assert IsPermutation(Range(n), n);
    PermutationCovers(p, n);
    PermutationCovers(Range(n), n);
    forall x ensures multiset(p)[x] == multiset(Range(n))[x] {
      if !(0 <= x < n) {
        assert x !in p;
        assert x !in Range(n);
      }
    }
  }
}
