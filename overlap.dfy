/** `create_clustering_matrix` and `count_maximal_overlap`: exact-match counts between the
    clusters of two partitions. */
module Overlap {
  import opened Outcomes
  import opened Sequences
  import opened Partitions
  import opened Matrices

  /** Whether `int(key)` can index a dimension of length n: numpy accepts -n..n-1. */
  predicate Indexable(key: int, n: nat) {
    -(n as int) <= key < n
  }

  /** The row or column that `int(key)` selects: a negative key counts from the end. */
  function Norm(key: int, n: nat): int {
    if key < 0 then key + n else key
  }

  predicate AllIndexable(keys: seq<int>, n: nat) {
    forall i :: 0 <= i < |keys| ==> Indexable(keys[i], n)
  }

  /** No two keys select the same row (true of distinct keys in 0..n-1). */
  predicate DistinctRows(keys: seq<int>, n: nat) {
    forall i, j :: 0 <= i < j < |keys| ==> Norm(keys[i], n) != Norm(keys[j], n)
  }

  /** The position of the last key that selects row (or column) r, if any: writes happen in
      key order, so the last such key's cluster is the one whose count stays in the matrix. */
  function LastIndex(keys: seq<int>, n: nat, r: int): (o: Option<nat>)
    ensures o.Some? ==> o.value < |keys| && Norm(keys[o.value], n) == r
    ensures o.Some? ==> forall i :: o.value < i < |keys| ==> Norm(keys[i], n) != r
    ensures o.None? ==> forall i :: 0 <= i < |keys| ==> Norm(keys[i], n) != r
  {
    if keys == [] then None
    else if Norm(keys[|keys| - 1], n) == r then Some(|keys| - 1)
    else LastIndex(keys[..|keys| - 1], n, r)
  }

  lemma LastIndexExtend(keys: seq<int>, k: nat, n: nat, r: int)
    requires k < |keys|
    ensures LastIndex(keys[..k + 1], n, r) ==
              if Norm(keys[k], n) == r then Some(k) else LastIndex(keys[..k], n, r)
  {
    assert keys[..k + 1][..k] == keys[..k];
  }

  /** The count held in a cell once the clusters at positions `row` and `col` (if any) were
      the last written there. */
  function CellFrom<T(==)>(clusters1: Partition<T>, clusters2: Partition<T>, row: Option<nat>, col: Option<nat>): int
  {
    if row.Some? && row.value < |clusters1| && col.Some? && col.value < |clusters2| then
      MatchCount(clusters1[row.value].items, clusters2[col.value].items)
    else 0
  }

  /** Cell [r][c] of the finished overlap matrix. */
  function Cell<T(==)>(clusters1: Partition<T>, clusters2: Partition<T>, n: nat, r: int, c: int): int
  {
    CellFrom(clusters1, clusters2, LastIndex(KeysOf(clusters1), n, r), LastIndex(KeysOf(clusters2), n, c))
  }

  /** The finished matrix as a value. Its entries are counts: never negative, 0 in a row no
      key selects, and never more than the size of the cluster owning the row. */
  function OverlapMatrix<T(==)>(clusters1: Partition<T>, clusters2: Partition<T>, n: nat): (m: Matrix)
    ensures IsSquare(m, n)
    ensures forall r, c :: 0 <= r < n && 0 <= c < n ==> m[r][c] == Cell(clusters1, clusters2, n, r, c)
    ensures NonNegative(m)
    ensures forall r, c :: 0 <= r < n && 0 <= c < n && LastIndex(KeysOf(clusters1), n, r).None? ==> m[r][c] == 0
    ensures forall r, c :: 0 <= r < n && 0 <= c < n && LastIndex(KeysOf(clusters1), n, r).Some? ==>
              m[r][c] <= |clusters1[LastIndex(KeysOf(clusters1), n, r).value].items|
  {
    seq(n, r => seq(n, c => Cell(clusters1, clusters2, n, r, c)))
  }

  /** When no two keys select the same row or column, the cell selected by key1 and key2
      holds the exact-match count of exactly those two clusters. */
  lemma CellOfKeyPair<T>(p1: Partition<T>, p2: Partition<T>, n: nat, i: nat, j: nat)
    requires i < |p1| && j < |p2|
    requires DistinctRows(KeysOf(p1), n) && DistinctRows(KeysOf(p2), n)
    ensures Cell(p1, p2, n, Norm(p1[i].key, n), Norm(p2[j].key, n)) == MatchCount(p1[i].items, p2[j].items)
  {
    assert KeysOf(p1)[i] == p1[i].key && KeysOf(p2)[j] == p2[j].key;
  }

  /** A cell that no key selects, as row or as column, stays 0. */
  lemma CellOutsideKeysIsZero<T>(p1: Partition<T>, p2: Partition<T>, n: nat, r: int, c: int)
    requires (forall i :: 0 <= i < |p1| ==> Norm(p1[i].key, n) != r) || (forall j :: 0 <= j < |p2| ==> Norm(p2[j].key, n) != c)
    ensures Cell(p1, p2, n, r, c) == 0
  {
    if forall i :: 0 <= i < |p1| ==> Norm(p1[i].key, n) != r {
      assert forall i :: 0 <= i < |p1| ==> Norm(KeysOf(p1)[i], n) != r;
    } else {
      assert forall j :: 0 <= j < |p2| ==> Norm(KeysOf(p2)[j], n) != c;
    }
  }

  /** The two inner loops of `create_clustering_matrix`: each item of `values1` counts once
      if some item of `values2` equals it, the search stopping at the first match. */
  method ExactMatchCount<T(==)>(values1: seq<T>, values2: seq<T>) returns (exactMatchCount: nat)
    ensures exactMatchCount == MatchCount(values1, values2)
  {
    exactMatchCount := 0;
    for i := 0 to |values1|
      invariant exactMatchCount == MatchCount(values1[..i], values2)
    {
      assert values1[..i + 1][..i] == values1[..i];
      ghost var before := exactMatchCount;
      for j := 0 to |values2|
        invariant exactMatchCount == before
        invariant values1[i] !in values2[..j]
      {
        if values1[i] == values2[j] {
          exactMatchCount := exactMatchCount + 1;
          break;
        }
      }
    }
    assert values1[..|values1|] == values1;
  }

  /** One pass of the middle loop of `create_clustering_matrix`: for cluster i of the first
      partition, write its count against every cluster of the second partition into row
      int(key1). `ok` is false when a write raised IndexError. */
  method FillRow<T(==)>(clusterOverlap: array2<int>, clusters1: Partition<T>, i: nat, clusters2: Partition<T>)
    returns (ok: bool)
    requires i < |clusters1|
    requires clusterOverlap.Length0 == clusterOverlap.Length1
    modifies clusterOverlap
    ensures ok <==> |clusters2| == 0 ||
                    (Indexable(clusters1[i].key, clusterOverlap.Length0) && AllIndexable(KeysOf(clusters2), clusterOverlap.Length0))
    ensures ok ==> forall r, c :: 0 <= r < clusterOverlap.Length0 && 0 <= c < clusterOverlap.Length0 ==>
              clusterOverlap[r, c] ==
                if r == Norm(clusters1[i].key, clusterOverlap.Length0) && LastIndex(KeysOf(clusters2), clusterOverlap.Length0, c).Some?
                then CellFrom(clusters1, clusters2, Some(i), LastIndex(KeysOf(clusters2), clusterOverlap.Length0, c))
                else old(clusterOverlap[r, c])
  {
    var n := clusterOverlap.Length0;
    ghost var keys2 := KeysOf(clusters2);
    var key1, values1 := clusters1[i].key, clusters1[i].items;
    ghost var row := Norm(key1, n);
    for j := 0 to |clusters2|
      invariant forall r, c :: 0 <= r < n && 0 <= c < n && r != row ==> clusterOverlap[r, c] == old(clusterOverlap[r, c])
      invariant 0 <= row < n ==> forall c :: 0 <= c < n ==>
                  clusterOverlap[row, c] ==
                    if LastIndex(keys2[..j], n, c).Some?
                    then CellFrom(clusters1, clusters2, Some(i), LastIndex(keys2[..j], n, c))
                    else old(clusterOverlap[row, c])
      invariant j > 0 ==> Indexable(key1, n) && AllIndexable(keys2[..j], n)
    {
      var key2, values2 := clusters2[j].key, clusters2[j].items;
      var exactMatchCount := ExactMatchCount(values1, values2);
      if !Indexable(key1, n) || !Indexable(key2, n) {
        assert keys2[j] == key2;
        return false;
      }
      clusterOverlap[Norm(key1, n), Norm(key2, n)] := exactMatchCount;
      forall c | 0 <= c < n
        ensures LastIndex(keys2[..j + 1], n, c) == if Norm(key2, n) == c then Some(j) else LastIndex(keys2[..j], n, c)
      {
        LastIndexExtend(keys2, j, n, c);
      }
      assert AllIndexable(keys2[..j + 1], n) by {
        assert forall k :: 0 <= k < j ==> keys2[..j + 1][k] == keys2[..j][k];
      }
    }
    assert keys2[..|clusters2|] == keys2;
    return true;
  }

  /** Fill a zero matrix of side `maxLength`: cell [int(key1)][int(key2)] gets the exact-match
      count of the two clusters. A write fails with IndexError on a key numpy cannot use as
      an index; no write (and so no failure) happens when either partition is empty. */
  method CreateClusteringMatrix<T(==)>(clusters1: Partition<T>, clusters2: Partition<T>, maxLength: nat)
    returns (result: Result<array2<int>>)
    ensures result.Err? <==>
              |clusters1| > 0 && |clusters2| > 0 &&
              !(AllIndexable(KeysOf(clusters1), maxLength) && AllIndexable(KeysOf(clusters2), maxLength))
    ensures result.Err? ==> result.error == IndexError
    ensures result.Ok? ==> result.value.Length0 == maxLength && result.value.Length1 == maxLength
    ensures result.Ok? ==> forall r, c :: 0 <= r < maxLength && 0 <= c < maxLength ==>
              result.value[r, c] == Cell(clusters1, clusters2, maxLength, r, c)
  {
    var n := maxLength;
    var clusterOverlap := new int[n, n]((_, _) => 0);
    ghost var keys1, keys2 := KeysOf(clusters1), KeysOf(clusters2);
    for i := 0 to |clusters1|
      invariant forall r, c :: 0 <= r < n && 0 <= c < n ==>
                  clusterOverlap[r, c] == CellFrom(clusters1, clusters2, LastIndex(keys1[..i], n, r), LastIndex(keys2, n, c))
      invariant i > 0 && |clusters2| > 0 ==> AllIndexable(keys1[..i], n) && AllIndexable(keys2, n)
    {
      var ok := FillRow(clusterOverlap, clusters1, i, clusters2);
      if !ok {
        assert keys1[i] == clusters1[i].key;
        return Err(IndexError);
      }
      forall r | 0 <= r < n
        ensures LastIndex(keys1[..i + 1], n, r) == if Norm(keys1[i], n) == r then Some(i) else LastIndex(keys1[..i], n, r)
      {
        LastIndexExtend(keys1, i, n, r);
      }
      if |clusters2| > 0 {
        assert AllIndexable(keys1[..i + 1], n) by {
          assert forall k :: 0 <= k < i ==> keys1[..i + 1][k] == keys1[..i][k];
        }
      }
    }
    assert keys1[..|clusters1|] == keys1;
    return Ok(clusterOverlap);
  }

  /** The two inner loops of `count_maximal_overlap`: every equal pair counts. */
  method CountEqualPairs<T(==)>(values1: seq<T>, values2: seq<T>) returns (count: nat)
    ensures count == EqualPairs(values1, values2)
  {
    count := 0;
    for k := 0 to |values1|
      invariant count == EqualPairs(values1[..k], values2)
    {
      var value1 := values1[k];
      ghost var before := count;
      for l := 0 to |values2|
        invariant count == before + multiset(values2[..l])[value1]
      {
        if values2[l] == value1 {
          count := count + 1;
        }
        assert values2[..l + 1] == values2[..l] + [values2[l]];
      }
      assert values2[..|values2|] == values2;
      assert values1[..k + 1][..k] == values1[..k];
    }
    assert values1[..|values1|] == values1;
  }

  /** `count_maximal_overlap`: every equal (value1, value2) pair across the two partitions,
      no early stop. The count is that of the two flattened partitions. */
  method CountMaximalOverlap<T(==)>(clusters1: Partition<T>, clusters2: Partition<T>) returns (sumOfMatches: nat)
    ensures sumOfMatches == EqualPairs(Flatten(clusters1), Flatten(clusters2))
  {
    sumOfMatches := 0;
    ghost var all2 := Flatten(clusters2);
    for i := 0 to |clusters1|
      invariant sumOfMatches == EqualPairs(Flatten(clusters1[..i]), all2)
    {
      var values1 := clusters1[i].items;
      ghost var before := sumOfMatches;
      EqualPairsEmptyRight(values1);
      for j := 0 to |clusters2|
        invariant sumOfMatches == before + EqualPairs(values1, Flatten(clusters2[..j]))
      {
        var values2 := clusters2[j].items;
        var pairs := CountEqualPairs(values1, values2);
        sumOfMatches := sumOfMatches + pairs;
        assert clusters2[..j + 1][..j] == clusters2[..j];
        EqualPairsAppendRight(values1, Flatten(clusters2[..j]), values2);
      }
      assert clusters2[..|clusters2|] == clusters2;
      assert clusters1[..i + 1][..i] == clusters1[..i];
      EqualPairsAppendLeft(Flatten(clusters1[..i]), values1, all2);
    }
    assert clusters1[..|clusters1|] == clusters1;
  }
}
