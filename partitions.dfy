/** Partitions (a dictionary from cluster key to its items, in insertion order) and the
    two ways the core counts equal items between two item lists. */
module Partitions {
  import opened Sequences

  /** One dictionary entry: a cluster key and the items of that cluster, in order. */
  datatype Cluster<T> = Cluster(key: int, items: seq<T>)

  /** A dictionary of clusters, in insertion order. */
  type Partition<T> = seq<Cluster<T>>

  function KeysOf<T>(p: Partition<T>): (keys: seq<int>)
    ensures |keys| == |p| && forall i :: 0 <= i < |p| ==> keys[i] == p[i].key
  {
    seq(|p|, i requires 0 <= i < |p| => p[i].key)
  }

  /** Sum of the cluster lengths. */
  function TotalSize<T>(p: Partition<T>): nat
  {
    if p == [] then 0 else TotalSize(p[..|p| - 1]) + |p[|p| - 1].items|
  }

  /** All items of all clusters, cluster after cluster. */
  function Flatten<T>(p: Partition<T>): seq<T>
  {
    if p == [] then [] else Flatten(p[..|p| - 1]) + p[|p| - 1].items
  }

  lemma {:induction false} FlattenLength<T>(p: Partition<T>)
    ensures |Flatten(p)| == TotalSize(p)
  {
    if p != [] {
      FlattenLength(p[..|p| - 1]);
    }
  }

  lemma {:induction false} FlattenSplit<T>(p: Partition<T>, k: nat)
    requires k <= |p|
    ensures Flatten(p) == Flatten(p[..k]) + Flatten(p[k..])
  {
    if k < |p| {
      var q := p[..|p| - 1];
      FlattenSplit(q, k);
      assert q[..k] == p[..k];
      assert p[k..][..|p| - k - 1] == q[k..];
    } else {
      assert p[..k] == p;
      assert p[k..] == [];
    }
  }

  /** Exact-match count: how many positions of `values1` hold an item equal to SOME item of
      `values2` (each position counts at most once, the first match ending the search). */
  function MatchCount<T(==)>(values1: seq<T>, values2: seq<T>): (count: nat)
    ensures count <= |values1|
    ensures values2 == [] ==> count == 0
  {
    if values1 == [] then 0
    else MatchCount(values1[..|values1| - 1], values2) + (if values1[|values1| - 1] in values2 then 1 else 0)
  }

  /** Number of equal pairs (value1, value2), every pair counted. */
  function EqualPairs<T(==)>(values1: seq<T>, values2: seq<T>): nat
  {
    if values1 == [] then 0
    else EqualPairs(values1[..|values1| - 1], values2) + multiset(values2)[values1[|values1| - 1]]
  }

  /** Every item of `values1` is matched exactly when all of them occur in `values2`. */
  lemma {:induction false} MatchCountFull<T>(values1: seq<T>, values2: seq<T>)
    ensures MatchCount(values1, values2) == |values1| <==> forall i :: 0 <= i < |values1| ==> values1[i] in values2
  {
    if values1 != [] {
      var front := values1[..|values1| - 1];
      MatchCountFull(front, values2);
      if forall i :: 0 <= i < |values1| ==> values1[i] in values2 {
        assert forall i :: 0 <= i < |front| ==> front[i] in values2 by {
          forall i | 0 <= i < |front| ensures front[i] in values2 {
            assert front[i] == values1[i];
          }
        }
      } else if values1[|values1| - 1] in values2 {
        var i :| 0 <= i < |values1| && values1[i] !in values2;
        assert front[i] == values1[i];
      }
    }
  }

  /** Matching a cluster against itself matches all of its items. */
  lemma MatchCountSelf<T>(values: seq<T>)
    ensures MatchCount(values, values) == |values|
  {
    MatchCountFull(values, values);
  }

  /** Adding an element not yet in `a` grows the intersection with `b` by one exactly when the
      element is in `b`. */
  lemma IntersectionAddOne<T>(a: set<T>, b: set<T>, x: T)
    requires x !in a
    ensures |(a + {x}) * b| == |a * b| + (if x in b then 1 else 0)
  {
    if x in b {
      assert (a + {x}) * b == a * b + {x};
    } else {
      assert (a + {x}) * b == a * b;
    }
  }

  /** Over items of `values1` without repeats, the exact-match count is the size of the
      intersection of the two item sets. */
  lemma {:induction false} MatchCountOfDistinct<T>(values1: seq<T>, values2: seq<T>)
    requires Distinct(values1)
    ensures MatchCount(values1, values2) == |(set x | x in values1) * (set y | y in values2)|
  {
    if values1 != [] {
      var front, last := values1[..|values1| - 1], values1[|values1| - 1];
      assert values1 == front + [last];
      assert Distinct(front);
      MatchCountOfDistinct(front, values2);
      var a, b := set x | x in front, set y | y in values2;
      assert (set x | x in values1) == a + {last};
      assert last !in a by {
        forall k | 0 <= k < |front| ensures front[k] != last {
          assert front[k] == values1[k];
        }
      }
      IntersectionAddOne(a, b, last);
    }
  }

  /** With no repeated item on the left, the exact-match count is also at most the length of
      the right side. */
  lemma {:induction false} MatchCountAtMostRight<T>(values1: seq<T>, values2: seq<T>)
    requires Distinct(values1)
    ensures MatchCount(values1, values2) <= |values2|
  {
    MatchCountOfDistinct(values1, values2);
    var a, b := set x | x in values1, set y | y in values2;
    assert b == (a * b) + (b - a * b);
    assert |b| == |a * b| + |b - a * b|;
    SetSizeAtMostLength(values2);
  }

  /** When neither side repeats an item, exact matching is symmetric. */
  lemma MatchCountSymmetricWhenDistinct<T>(values1: seq<T>, values2: seq<T>)
    requires Distinct(values1) && Distinct(values2)
    ensures MatchCount(values1, values2) == MatchCount(values2, values1)
  {
    MatchCountOfDistinct(values1, values2);
    MatchCountOfDistinct(values2, values1);
    var a, b := set x | x in values1, set y | y in values2;
    assert a * b == b * a;
  }

  /** With a repeated item, exact matching is not symmetric: [x, x] against [x] counts 2,
      [x] against [x, x] counts 1. */
  lemma MatchCountAsymmetric<T>(x: T)
    ensures MatchCount([x, x], [x]) == 2
    ensures MatchCount([x], [x, x]) == 1
  {
    assert [x, x][..1] == [x];
    assert [x][..0] == [];
  }

  /** The exact-match count never exceeds the number of equal pairs. */
  lemma {:induction false} MatchCountAtMostEqualPairs<T>(values1: seq<T>, values2: seq<T>)
    ensures MatchCount(values1, values2) <= EqualPairs(values1, values2)
  {
    if values1 != [] {
      MatchCountAtMostEqualPairs(values1[..|values1| - 1], values2);
    }
  }

  lemma {:induction false} EqualPairsAppendLeft<T>(a1: seq<T>, a2: seq<T>, b: seq<T>)
    ensures EqualPairs(a1 + a2, b) == EqualPairs(a1, b) + EqualPairs(a2, b)
  {
    if a2 == [] {
      assert a1 + a2 == a1;
    } else {
      var front := a2[..|a2| - 1];
      EqualPairsAppendLeft(a1, front, b);
      assert (a1 + a2)[..|a1 + a2| - 1] == a1 + front;
    }
  }

  lemma {:induction false} EqualPairsAppendRight<T>(a: seq<T>, b1: seq<T>, b2: seq<T>)
    ensures EqualPairs(a, b1 + b2) == EqualPairs(a, b1) + EqualPairs(a, b2)
  {
    if a != [] {
      EqualPairsAppendRight(a[..|a| - 1], b1, b2);
      assert multiset(b1 + b2) == multiset(b1) + multiset(b2);
    }
  }

  lemma {:induction false} EqualPairsSingletonRight<T>(a: seq<T>, x: T)
    ensures EqualPairs(a, [x]) == multiset(a)[x]
  {
    if a != [] {
      var front := a[..|a| - 1];
      EqualPairsSingletonRight(front, x);
      assert a == front + [a[|a| - 1]];
    }
  }

  lemma {:induction false} EqualPairsEmptyRight<T>(a: seq<T>)
    ensures EqualPairs(a, []) == 0
  {
    if a != [] {
      EqualPairsEmptyRight(a[..|a| - 1]);
    }
  }

  /** Counting equal pairs is symmetric in its two arguments. */
  lemma {:induction false} EqualPairsSymmetric<T>(a: seq<T>, b: seq<T>)
    ensures EqualPairs(a, b) == EqualPairs(b, a)
  {
    if a != [] {
      var front, last := a[..|a| - 1], a[|a| - 1];
      assert a == front + [last];
      calc {
        EqualPairs(a, b);
        EqualPairs(front, b) + multiset(b)[last];
        { EqualPairsSymmetric(front, b); EqualPairsSingletonRight(b, last); }
        EqualPairs(b, front) + EqualPairs(b, [last]);
        { EqualPairsAppendRight(b, front, [last]); }
        EqualPairs(b, front + [last]);
      }
    } else {
      EqualPairsEmptyRight(b);
    }
  }

  /** Equal pairs depend only on the multisets of the two sides: not on order, and so not on
      how the items were grouped into clusters. */
  lemma {:induction false} EqualPairsRightMultiset<T>(a: seq<T>, b: seq<T>, b': seq<T>)
    requires multiset(b) == multiset(b')
    ensures EqualPairs(a, b) == EqualPairs(a, b')
  {
    if a != [] {
      EqualPairsRightMultiset(a[..|a| - 1], b, b');
    }
  }

  lemma EqualPairsMultiset<T>(a: seq<T>, a': seq<T>, b: seq<T>, b': seq<T>)
    requires multiset(a) == multiset(a') && multiset(b) == multiset(b')
    ensures EqualPairs(a, b) == EqualPairs(a', b')
  {
    EqualPairsRightMultiset(a, b, b');
    EqualPairsSymmetric(a, b');
    EqualPairsRightMultiset(b', a, a');
    EqualPairsSymmetric(b', a');
  }
}
