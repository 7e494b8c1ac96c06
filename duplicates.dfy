/** `verify_no_repeats`: a diagnostic that counts repeated items across a partition. */
module Duplicates {
  import opened Sequences
  import opened Partitions

  /** The outcome of the check: silent, or the "PANIC! There were d duplicates in t total"
      message (printing it is not modelled). */
  datatype Diagnostic = Silent | Panic(duplicates: nat, total: nat)

  /** The sum, over the first k positions of `values`, of how many OTHER positions hold an
      equal value: the scan allows one match (the position itself) and counts the rest. */
  function DuplicatesIn<T(==)>(values: seq<T>, k: nat): nat
    requires k <= |values|
  {
    if k == 0 then 0
    else
      assert values[k - 1] in multiset(values);
      DuplicatesIn(values, k - 1) + multiset(values)[values[k - 1]] - 1
  }

  /** The count the check reports for the whole list. */
  function DuplicateCount<T(==)>(values: seq<T>): nat
  {
    DuplicatesIn(values, |values|)
  }

  /** The first loop of `verify_no_repeats`: append every item of every cluster, in order. */
  method FlattenClusters<T>(cluster: Partition<T>) returns (listOfValues: seq<T>)
    ensures listOfValues == Flatten(cluster)
  {
    listOfValues := [];
    for c := 0 to |cluster|
      invariant listOfValues == Flatten(cluster[..c])
    {
      var values1 := cluster[c].items;
      ghost var before := listOfValues;
      for v := 0 to |values1|
        invariant listOfValues == before + values1[..v]
      {
        listOfValues := listOfValues + [values1[v]];
        assert values1[..v + 1] == values1[..v] + [values1[v]];
      }
      assert values1[..|values1|] == values1;
      assert cluster[..c + 1][..c] == cluster[..c];
    }
    assert cluster[..|cluster|] == cluster;
  }

  /** The inner scan of `verify_no_repeats` for one value: the first match is allowed (the
      value itself), every further match counts. */
  method CountRepeats<T(==)>(listOfValues: seq<T>, value: T) returns (repeats: nat)
    requires value in listOfValues
    ensures repeats == multiset(listOfValues)[value] - 1
  {
    repeats := 0;
    var seenRepeat := false;
    for j := 0 to |listOfValues|
      invariant seenRepeat <==> multiset(listOfValues[..j])[value] > 0
      invariant repeats == (if seenRepeat then multiset(listOfValues[..j])[value] - 1 else 0)
    {
      assert listOfValues[..j + 1] == listOfValues[..j] + [listOfValues[j]];
      if listOfValues[j] == value {
        if seenRepeat {
          repeats := repeats + 1;
        } else {
          seenRepeat := true;
        }
      }
    }
    assert listOfValues[..|listOfValues|] == listOfValues;
  }

  /** The source's loops: flatten the partition, then for every value scan the whole list,
      allowing one match for the value itself and counting every further one. */
  method VerifyNoRepeats<T(==)>(cluster: Partition<T>) returns (report: Diagnostic)
    ensures report == if DuplicateCount(Flatten(cluster)) == 0 then Silent
                      else Panic(DuplicateCount(Flatten(cluster)), TotalSize(cluster))
    ensures report.Silent? <==> Distinct(Flatten(cluster))
    ensures report.Panic? ==> report.duplicates == EqualPairs(Flatten(cluster), Flatten(cluster)) - TotalSize(cluster)
  {
    var listOfValues := FlattenClusters(cluster);
    FlattenLength(cluster);
    var numValues := |listOfValues|;
    var numDuplicates := 0;
    for i := 0 to |listOfValues|
      invariant numDuplicates == DuplicatesIn(listOfValues, i)
    {
      var repeats := CountRepeats(listOfValues, listOfValues[i]);
      numDuplicates := numDuplicates + repeats;
    }
    SilentIffDistinct(listOfValues);
    DuplicatesAreEqualPairs(listOfValues, |listOfValues|);
    assert listOfValues[..|listOfValues|] == listOfValues;
    if numDuplicates != 0 {
      report := Panic(numDuplicates, numValues);
    } else {
      report := Silent;
    }
  }

  /** The reported count is the number of equal (value, value) pairs of the list minus its
      length: every ordered pair of distinct positions holding equal values counts once. */
  lemma {:induction false} DuplicatesAreEqualPairs<T>(values: seq<T>, k: nat)
    requires k <= |values|
    ensures DuplicatesIn(values, k) == EqualPairs(values[..k], values) - k
  {
    if k > 0 {
      DuplicatesAreEqualPairs(values, k - 1);
      assert values[..k][..k - 1] == values[..k - 1];
    }
  }

  lemma {:induction false} DuplicatesInNonNegativeTerms<T>(values: seq<T>, k: nat)
    requires k <= |values|
    ensures DuplicatesIn(values, k) == 0 <==> forall i :: 0 <= i < k ==> multiset(values)[values[i]] == 1
  {
    if k > 0 {
      DuplicatesInNonNegativeTerms(values, k - 1);
      assert values[k - 1] in values;
    }
  }

  /** The check stays silent exactly when no value occurs twice. */
  lemma SilentIffDistinct<T>(values: seq<T>)
    ensures DuplicateCount(values) == 0 <==> Distinct(values)
  {
    DuplicatesInNonNegativeTerms(values, |values|);
    DistinctIffOccursOnce(values);
  }

  lemma {:induction false} DuplicatesInAtLeast<T>(values: seq<T>, k: nat, i: nat, j: nat)
    requires k <= |values| && i < j < |values| && values[i] == values[j]
    ensures DuplicatesIn(values, k) >= (if i < k then 1 else 0) + (if j < k then 1 else 0)
  {
    if k > 0 {
      DuplicatesInAtLeast(values, k - 1, i, j);
      DuplicatesInNonNegativeTerms(values, k - 1);
      RepeatOccursTwice(values, i, j);
      assert values[k - 1] in values;
    }
  }

  /** A value held at two positions is reported from both: it adds at least 2. */
  lemma PairCountsTwice<T>(values: seq<T>, i: nat, j: nat)
    requires i < j < |values| && values[i] == values[j]
    ensures DuplicateCount(values) >= 2
  {
    DuplicatesInAtLeast(values, |values|, i, j);
  }
}
