/** Sums over the overlap matrix, re-indexed by the clusters that own its rows and columns:
    the bounds that tie the matrix to the partitions' sizes and to `count_maximal_overlap`. */
module OverlapSums {
  import opened Outcomes
  import opened Sequences
  import opened Partitions
  import opened Matrices
  import opened Overlap

  /** The weight of the cluster owning row r (the last key selecting r), or 0 for a row no
      key selects. */
  function Gather(keys: seq<int>, n: nat, g: nat -> int, r: int): int
  {
    match LastIndex(keys, n, r)
    case Some(i) => g(i)
    case None => 0
  }

  /** Sum of Gather over rows 0..k-1. */
  function SumGather(keys: seq<int>, n: nat, g: nat -> int, k: nat): int
  {
    if k == 0 then 0 else SumGather(keys, n, g, k - 1) + Gather(keys, n, g, k - 1)
  }

  /** g(0) + ... + g(k-1). */
  function SumWeights(g: nat -> int, k: nat): int
  {
    if k == 0 then 0 else SumWeights(g, k - 1) + g(k - 1)
  }

  /** Appending a key changes the owner of its own row only. */
  lemma {:induction false} SumGatherAppend(keys: seq<int>, x: int, n: nat, g: nat -> int, k: nat)
    ensures SumGather(keys + [x], n, g, k) ==
              SumGather(keys, n, g, k) + (if 0 <= Norm(x, n) < k then g(|keys|) - Gather(keys, n, g, Norm(x, n)) else 0)
  {
    if k > 0 {
      SumGatherAppend(keys, x, n, g, k - 1);
      assert (keys + [x])[..|keys|] == keys;
    }
  }

  lemma {:induction false} SumGatherNoKeys(n: nat, g: nat -> int, k: nat)
    ensures SumGather([], n, g, k) == 0
  {
    if k > 0 {
      SumGatherNoKeys(n, g, k - 1);
    }
  }

  /** Summing the owners' weights over the rows counts each cluster at most once, and exactly
      once when no two keys select the same row. */
  lemma {:induction false} Reindex(keys: seq<int>, n: nat, g: nat -> int)
    requires AllIndexable(keys, n)
    requires forall i :: 0 <= i < |keys| ==> g(i) >= 0
    ensures SumGather(keys, n, g, n) <= SumWeights(g, |keys|)
    ensures DistinctRows(keys, n) ==> SumGather(keys, n, g, n) == SumWeights(g, |keys|)
  {
    if keys != [] {
      var front, x := keys[..|keys| - 1], keys[|keys| - 1];
      assert keys == front + [x];
      assert AllIndexable(front, n);
      Reindex(front, n, g);
      SumGatherAppend(front, x, n, g, n);
      assert Gather(front, n, g, Norm(x, n)) >= 0;
      if DistinctRows(keys, n) {
        assert DistinctRows(front, n);
        assert LastIndex(front, n, Norm(x, n)).None?;
      }
    } else {
      SumGatherNoKeys(n, g, n);
    }
  }

  lemma {:induction false} SumWeightsIsTotalSize<T>(p: Partition<T>, g: nat -> int, k: nat)
    requires k <= |p|
    requires forall i :: 0 <= i < |p| ==> g(i) == |p[i].items|
    ensures SumWeights(g, k) == TotalSize(p[..k])
  {
    if k > 0 {
      SumWeightsIsTotalSize(p, g, k - 1);
      assert p[..k][..k - 1] == p[..k - 1];
    }
  }

  /** Every assignment's score on the overlap matrix is bounded by the row owners' sizes. */
  lemma {:induction false} ScoreAtMostRowSizes<T>(p1: Partition<T>, p2: Partition<T>, n: nat, cols: seq<int>, g: nat -> int)
    requires |cols| <= n && forall i :: 0 <= i < |cols| ==> 0 <= cols[i] < n
    requires forall i :: 0 <= i < |p1| ==> g(i) == |p1[i].items|
    ensures Selects(OverlapMatrix(p1, p2, n), cols)
    ensures Score(OverlapMatrix(p1, p2, n), cols) <= SumGather(KeysOf(p1), n, g, |cols|)
  {
    if cols != [] {
      var k := |cols| - 1;
      ScoreAtMostRowSizes(p1, p2, n, cols[..k], g);
    }
  }

  /** `create_optimal_alignment`'s score on a matrix built from `p1` never exceeds the number
      of items of `p1`. */
  lemma ScoreAtMostTotal<T>(p1: Partition<T>, p2: Partition<T>, n: nat, cols: seq<int>)
    requires AllIndexable(KeysOf(p1), n)
    requires |cols| <= n && forall i :: 0 <= i < |cols| ==> 0 <= cols[i] < n
    ensures Selects(OverlapMatrix(p1, p2, n), cols)
    ensures Score(OverlapMatrix(p1, p2, n), cols) <= TotalSize(p1)
  {
    var g := (i: nat) => if i < |p1| then |p1[i].items| else 0;
    ScoreAtMostRowSizes(p1, p2, n, cols, g);
    SumGatherMonotone(KeysOf(p1), n, g, |cols|, n);
    Reindex(KeysOf(p1), n, g);
    SumWeightsIsTotalSize(p1, g, |p1|);
    assert p1[..|p1|] == p1;
  }

  /** w(s[0]) + ... + w(s[|s| - 1]). */
  function SumAt(w: int -> int, s: seq<int>): int
  {
    if s == [] then 0 else SumAt(w, s[..|s| - 1]) + w(s[|s| - 1])
  }

  lemma {:induction false} SumAtAppend(w: int -> int, a: seq<int>, b: seq<int>)
    ensures SumAt(w, a + b) == SumAt(w, a) + SumAt(w, b)
  {
    if b != [] {
      SumAtAppend(w, a, b[..|b| - 1]);
      assert (a + b)[..|a + b| - 1] == a + b[..|b| - 1];
    } else {
      assert a + b == a;
    }
  }

  /** Taking out the element at position j removes one occurrence of it. */
  lemma {:induction false} MultisetRemove(t: seq<int>, j: nat)
    requires j < |t|
    ensures multiset(t) == multiset(t[..j] + t[j + 1..]) + multiset{t[j]}
  {
    var a, b := t[..j], t[j + 1..];
    assert t == (a + [t[j]]) + b;
    assert multiset(t) == multiset(a) + multiset{t[j]} + multiset(b);
    assert multiset(a + b) == multiset(a) + multiset(b);
  }

  lemma {:induction false} SumAtSingleton(w: int -> int, x: int)
    ensures SumAt(w, [x]) == w(x)
  {
    assert [x][..0] == [];
  }

  /** Taking out the element at position j removes its weight from the sum. */
  lemma {:induction false} SumAtRemove(w: int -> int, t: seq<int>, j: nat)
    requires j < |t|
    ensures SumAt(w, t) == SumAt(w, t[..j] + t[j + 1..]) + w(t[j])
  {
    var a, b, x := t[..j], t[j + 1..], t[j];
    var ax := a + [x];
    assert t == ax + b;
    SumAtAppend(w, ax, b);
    SumAtAppend(w, a, [x]);
    SumAtAppend(w, a, b);
    SumAtSingleton(w, x);
  }

  /** The sum of weights over a sequence depends only on which values it holds, and how often. */
  lemma {:induction false} SumAtMultiset(w: int -> int, s: seq<int>, t: seq<int>)
    requires multiset(s) == multiset(t)
    ensures SumAt(w, s) == SumAt(w, t)
    decreases |s|
  {
    if s != [] {
      var front, x := s[..|s| - 1], s[|s| - 1];
      assert s == front + [x];
      assert x in multiset(t);
      var j :| 0 <= j < |t| && t[j] == x;
      var rest := t[..j] + t[j + 1..];
      MultisetRemove(t, j);
      SumAtRemove(w, t, j);
      assert multiset(s) == multiset(front) + multiset{x};
      forall y ensures multiset(front)[y] == multiset(rest)[y] {
        assert (multiset(front) + multiset{x})[y] == (multiset(rest) + multiset{x})[y];
      }
      assert multiset(front) == multiset(rest);
      SumAtMultiset(w, front, rest);
    } else {
      assert |t| == |multiset(t)|;
    }
  }

  /** A score is at most the sum of column weights that bound the selected entries. */
  lemma {:induction false} ScoreAtMostColumnWeights(m: Matrix, cols: seq<int>, w: int -> int)
    requires Selects(m, cols)
    requires forall i :: 0 <= i < |cols| ==> m[i][cols[i]] <= w(cols[i])
    ensures Score(m, cols) <= SumAt(w, cols)
  {
    if cols != [] {
      ScoreAtMostColumnWeights(m, cols[..|cols| - 1], w);
    }
  }

  lemma {:induction false} SumAtRangeIsGather(keys: seq<int>, n: nat, g: nat -> int, w: int -> int, k: nat)
    requires k <= n
    requires forall c :: w(c) == Gather(keys, n, g, c)
    ensures SumAt(w, Range(n)[..k]) == SumGather(keys, n, g, k)
  {
    if k > 0 {
      SumAtRangeIsGather(keys, n, g, w, k - 1);
      assert Range(n)[..k][..k - 1] == Range(n)[..k - 1];
    }
  }

  /** When no cluster of `p1` repeats an item, a cell never exceeds the size of the cluster
      owning its column. */
  lemma {:induction false} CellAtMostColumnOwner<T>(p1: Partition<T>, p2: Partition<T>, n: nat, r: int, c: int, g: nat -> int)
    requires forall i :: 0 <= i < |p1| ==> Distinct(p1[i].items)
    requires forall j :: 0 <= j < |p2| ==> g(j) == |p2[j].items|
    ensures Cell(p1, p2, n, r, c) <= Gather(KeysOf(p2), n, g, c)
  {
    var o1 := LastIndex(KeysOf(p1), n, r);
    var o2 := LastIndex(KeysOf(p2), n, c);
    if o1.Some? && o2.Some? {
      MatchCountAtMostRight(p1[o1.value].items, p2[o2.value].items);
    }
  }

  /** When no cluster of `p1` repeats an item, the score of any permutation on the overlap
      matrix is also bounded by the number of items of `p2`. */
  lemma {:induction false} ScoreAtMostSecondTotal<T>(p1: Partition<T>, p2: Partition<T>, n: nat, cols: seq<int>)
    requires AllIndexable(KeysOf(p2), n)
    requires forall i :: 0 <= i < |p1| ==> Distinct(p1[i].items)
    requires IsPermutation(cols, n)
    ensures Selects(OverlapMatrix(p1, p2, n), cols)
    ensures Score(OverlapMatrix(p1, p2, n), cols) <= TotalSize(p2)
  {
    var m := OverlapMatrix(p1, p2, n);
    var g := (j: nat) => if j < |p2| then |p2[j].items| else 0;
    var w := (c: int) => Gather(KeysOf(p2), n, g, c);
    forall i | 0 <= i < |cols| ensures m[i][cols[i]] <= w(cols[i]) {
      CellAtMostColumnOwner(p1, p2, n, i, cols[i], g);
    }
    ScoreAtMostColumnWeights(m, cols, w);
    PermutationMultiset(cols, n);
    SumAtMultiset(w, cols, Range(n));
    ColumnOwnersAtMostTotal(p2, n, g, w);
  }

  /** Summing, over all columns, the size of the cluster owning the column counts each cluster
      of `p2` at most once. */
  lemma {:induction false} ColumnOwnersAtMostTotal<T>(p2: Partition<T>, n: nat, g: nat -> int, w: int -> int)
    requires AllIndexable(KeysOf(p2), n)
    requires forall j :: 0 <= j < |p2| ==> g(j) == |p2[j].items|
    requires forall c :: w(c) == Gather(KeysOf(p2), n, g, c)
    ensures SumAt(w, Range(n)) <= TotalSize(p2)
  {
    SumAtRangeIsGather(KeysOf(p2), n, g, w, n);
    assert Range(n)[..n] == Range(n);
    Reindex(KeysOf(p2), n, g);
    SumWeightsIsTotalSize(p2, g, |p2|);
    assert p2[..|p2|] == p2;
  }

  lemma {:induction false} SumGatherMonotone(keys: seq<int>, n: nat, g: nat -> int, k: nat, k': nat)
    requires k <= k'
    requires forall i :: 0 <= i < |keys| ==> g(i) >= 0
    ensures SumGather(keys, n, g, k) <= SumGather(keys, n, g, k')
  {
    if k < k' {
      SumGatherMonotone(keys, n, g, k, k' - 1);
    }
  }

  lemma {:induction false} IdentityScoreIsRowSizes<T>(p: Partition<T>, n: nat, k: nat, g: nat -> int)
    requires k <= n
    requires forall i :: 0 <= i < |p| ==> g(i) == |p[i].items|
    ensures Selects(OverlapMatrix(p, p, n), Range(n)[..k])
    ensures Score(OverlapMatrix(p, p, n), Range(n)[..k]) == SumGather(KeysOf(p), n, g, k)
  {
    if k > 0 {
      IdentityScoreIsRowSizes(p, n, k - 1, g);
      assert Range(n)[..k][..k - 1] == Range(n)[..k - 1];
      var o := LastIndex(KeysOf(p), n, k - 1);
      if o.Some? {
        MatchCountSelf(p[o.value].items);
      }
    }
  }

  /** Matching a partition against itself: pairing every row with its own column scores the
      total item count, when no two keys select the same row. */
  lemma IdentityScoreIsTotal<T>(p: Partition<T>, n: nat)
    requires AllIndexable(KeysOf(p), n) && DistinctRows(KeysOf(p), n)
    ensures IsPermutation(Range(n), n)
    ensures Score(OverlapMatrix(p, p, n), Range(n)) == TotalSize(p)
  {
    var g := (i: nat) => if i < |p| then |p[i].items| else 0;
    IdentityScoreIsRowSizes(p, n, n, g);
    assert Range(n)[..n] == Range(n);
    Reindex(KeysOf(p), n, g);
    SumWeightsIsTotalSize(p, g, |p|);
    assert p[..|p|] == p;
  }

  lemma {:induction false} RowSumIsGather<T>(p1: Partition<T>, p2: Partition<T>, n: nat, i: nat, h: nat -> int, row: seq<int>, k: nat)
    requires i < |p1| && k <= |row| <= n
    requires forall c :: 0 <= c < |row| ==> row[c] == Cell(p1, p2, n, Norm(p1[i].key, n), c)
    requires LastIndex(KeysOf(p1), n, Norm(p1[i].key, n)) == Some(i)
    requires forall j :: 0 <= j < |p2| ==> h(j) == MatchCount(p1[i].items, p2[j].items)
    ensures RowSum(row[..k]) == SumGather(KeysOf(p2), n, h, k)
  {
    if k > 0 {
      RowSumIsGather(p1, p2, n, i, h, row, k - 1);
      assert row[..k][..k - 1] == row[..k - 1];
    }
  }

  lemma {:induction false} RowSumZero(row: seq<int>)
    requires forall c :: 0 <= c < |row| ==> row[c] == 0
    ensures RowSum(row) == 0
  {
    if row != [] {
      RowSumZero(row[..|row| - 1]);
    }
  }

  lemma {:induction false} MatchesAtMostPairs<T>(values: seq<T>, p2: Partition<T>, h: nat -> int, k: nat)
    requires k <= |p2|
    requires forall j :: 0 <= j < |p2| ==> h(j) == MatchCount(values, p2[j].items)
    ensures SumWeights(h, k) <= EqualPairs(values, Flatten(p2[..k]))
  {
    if k == 0 {
      EqualPairsEmptyRight(values);
    } else {
      MatchesAtMostPairs(values, p2, h, k - 1);
      assert p2[..k][..k - 1] == p2[..k - 1];
      EqualPairsAppendRight(values, Flatten(p2[..k - 1]), p2[k - 1].items);
      MatchCountAtMostEqualPairs(values, p2[k - 1].items);
    }
  }

  /** Row int(key) of the overlap matrix sums to at most the equal pairs between that
      cluster and the whole second partition. */
  lemma RowAtMostPairs<T>(p1: Partition<T>, p2: Partition<T>, n: nat, r: nat, g: nat -> int)
    requires r < n
    requires AllIndexable(KeysOf(p2), n)
    requires forall i :: 0 <= i < |p1| ==> g(i) == EqualPairs(p1[i].items, Flatten(p2))
    ensures RowSum(OverlapMatrix(p1, p2, n)[r]) <= Gather(KeysOf(p1), n, g, r)
  {
    var row := OverlapMatrix(p1, p2, n)[r];
    match LastIndex(KeysOf(p1), n, r)
    case None =>
      RowSumZero(row);
    case Some(i) =>
      var h := (j: nat) => if j < |p2| then MatchCount(p1[i].items, p2[j].items) else 0;
      RowSumIsGather(p1, p2, n, i, h, row, n);
      assert row[..n] == row;
      Reindex(KeysOf(p2), n, h);
      MatchesAtMostPairs(p1[i].items, p2, h, |p2|);
      assert p2[..|p2|] == p2;
  }

  lemma {:induction false} SumAllAtMostRows<T>(p1: Partition<T>, p2: Partition<T>, n: nat, k: nat, g: nat -> int)
    requires k <= n
    requires AllIndexable(KeysOf(p2), n)
    requires forall i :: 0 <= i < |p1| ==> g(i) == EqualPairs(p1[i].items, Flatten(p2))
    ensures SumAll(OverlapMatrix(p1, p2, n)[..k]) <= SumGather(KeysOf(p1), n, g, k)
  {
    if k > 0 {
      SumAllAtMostRows(p1, p2, n, k - 1, g);
      assert OverlapMatrix(p1, p2, n)[..k][..k - 1] == OverlapMatrix(p1, p2, n)[..k - 1];
      RowAtMostPairs(p1, p2, n, k - 1, g);
    }
  }

  lemma {:induction false} PairsOfClusters<T>(p1: Partition<T>, all2: seq<T>, g: nat -> int, k: nat)
    requires k <= |p1|
    requires forall i :: 0 <= i < |p1| ==> g(i) == EqualPairs(p1[i].items, all2)
    ensures SumWeights(g, k) == EqualPairs(Flatten(p1[..k]), all2)
  {
    if k > 0 {
      PairsOfClusters(p1, all2, g, k - 1);
      assert p1[..k][..k - 1] == p1[..k - 1];
      EqualPairsAppendLeft(Flatten(p1[..k - 1]), p1[k - 1].items, all2);
    }
  }

  /** All cells of the overlap matrix together never exceed `count_maximal_overlap` for the
      same two partitions. */
  lemma MatrixSumAtMostMaximalOverlap<T>(p1: Partition<T>, p2: Partition<T>, n: nat)
    requires AllIndexable(KeysOf(p1), n) && AllIndexable(KeysOf(p2), n)
    ensures SumAll(OverlapMatrix(p1, p2, n)) <= EqualPairs(Flatten(p1), Flatten(p2))
  {
    var g := (i: nat) => if i < |p1| then EqualPairs(p1[i].items, Flatten(p2)) else 0;
    SumAllAtMostRows(p1, p2, n, n, g);
    assert OverlapMatrix(p1, p2, n)[..n] == OverlapMatrix(p1, p2, n);
    Reindex(KeysOf(p1), n, g);
    PairsOfClusters(p1, Flatten(p2), g, |p1|);
    assert p1[..|p1|] == p1;
  }

  /** The best alignment score between two partitions lies between 0 and the item count of
      the first; matching a partition against itself, it is exactly that count, when no two
      keys select the same row. */
  lemma MaxScoreWithinItems<T>(p1: Partition<T>, p2: Partition<T>, n: nat, s: int)
    requires AllIndexable(KeysOf(p1), n)
    requires IsMaxScore(OverlapMatrix(p1, p2, n), n, s)
    ensures 0 <= s <= TotalSize(p1)
    ensures p1 == p2 && DistinctRows(KeysOf(p1), n) ==> s == TotalSize(p1)
    ensures (forall i :: 0 <= i < |p1| ==> Distinct(p1[i].items)) && AllIndexable(KeysOf(p2), n) ==>
              s <= TotalSize(p2)
  {
    var m := OverlapMatrix(p1, p2, n);
    var p :| IsPermutation(p, n) && Score(m, p) == s;
    assert NonNegative(m);
    ScoreWithinTotal(m, p);
    ScoreAtMostTotal(p1, p2, n, p);
    if p1 == p2 && DistinctRows(KeysOf(p1), n) {
      IdentityScoreIsTotal(p1, n);
    }
    if (forall i :: 0 <= i < |p1| ==> Distinct(p1[i].items)) && AllIndexable(KeysOf(p2), n) {
      ScoreAtMostSecondTotal(p1, p2, n, p);
    }
  }
}
