/** `create_random_allocation`: slice a permutation of 0..total-1 into consecutive runs, one
    run per cluster, in the dictionary's key order. */
module Allocation {
  import opened Sequences
  import opened Partitions

  /** One entry of the `clusters_to_sizes` dictionary. */
  datatype SizeEntry = SizeEntry(key: int, size: nat)

  /** The keys of `clusters_to_sizes`. This mirrors `Partitions.KeysOf` on the size
      dictionary: the input maps each key to a count, the allocation maps it to items, and
      `IsAllocationOf` relates the two through these projections. */
  function SizeKeys(sizes: seq<SizeEntry>): (keys: seq<int>)
    ensures |keys| == |sizes| && forall i :: 0 <= i < |sizes| ==> keys[i] == sizes[i].key
  {
    seq(|sizes|, i requires 0 <= i < |sizes| => sizes[i].key)
  }

  /** `sum([val for key, val in clusters_to_sizes.items()])`: the size dictionary's counterpart of
      `Partitions.TotalSize`, which `PrefixSizes` proves it agrees with. */
  function SizeTotal(sizes: seq<SizeEntry>): nat
  {
    if sizes == [] then 0 else SizeTotal(sizes[..|sizes| - 1]) + sizes[|sizes| - 1].size
  }

  /** `allocation` has the keys of `sizes` in the same order, cluster k has exactly
      sizes[k].size items, and the clusters laid end to end are `perm`. */
  predicate IsAllocationOf(allocation: Partition<int>, sizes: seq<SizeEntry>, perm: seq<int>) {
    && |allocation| == |sizes|
    && KeysOf(allocation) == SizeKeys(sizes)
    && (forall k :: 0 <= k < |sizes| ==> |allocation[k].items| == sizes[k].size)
    && Flatten(allocation) == perm
  }

  lemma {:induction false} SizeTotalPrefix(sizes: seq<SizeEntry>, k: nat)
    requires k <= |sizes|
    ensures SizeTotal(sizes[..k]) <= SizeTotal(sizes)
  {
    if k < |sizes| {
      var front := sizes[..|sizes| - 1];
      SizeTotalPrefix(front, k);
      assert front[..k] == sizes[..k];
    } else {
      assert sizes[..k] == sizes;
    }
  }

  /** The inner loop of `create_random_allocation`: take `numItems` consecutive integers of
      the permutation, advancing the index past them. */
  method TakeItems(permutedInts: seq<int>, start: nat, numItems: nat) returns (itemsForKey: seq<int>, intIdx: nat)
    requires start + numItems <= |permutedInts|
    ensures itemsForKey == permutedInts[start..start + numItems]
    ensures intIdx == start + numItems
  {
    intIdx := start;
    itemsForKey := [];
    for i := 0 to numItems
      invariant intIdx == start + i
      invariant itemsForKey == permutedInts[start..intIdx]
    {
      itemsForKey := itemsForKey + [permutedInts[intIdx]];
      intIdx := intIdx + 1;
    }
  }

  /** The source's loops, with the random permutation `permutedInts` passed in. */
  method CreateRandomAllocation(clustersToSizes: seq<SizeEntry>, permutedInts: seq<int>)
    returns (allocation: Partition<int>)
    requires Distinct(SizeKeys(clustersToSizes))
    requires IsPermutation(permutedInts, SizeTotal(clustersToSizes))
    ensures IsAllocationOf(allocation, clustersToSizes, permutedInts)
    ensures Distinct(KeysOf(allocation))
  {
    var intIdx := 0;
    allocation := [];
    for k := 0 to |clustersToSizes|
      invariant |allocation| == k
      invariant forall c :: 0 <= c < k ==>
                  allocation[c].key == clustersToSizes[c].key && |allocation[c].items| == clustersToSizes[c].size
      invariant intIdx == SizeTotal(clustersToSizes[..k]) <= |permutedInts|
      invariant Flatten(allocation) == permutedInts[..intIdx]
    {
      var numItems := clustersToSizes[k].size;
      assert clustersToSizes[..k + 1][..k] == clustersToSizes[..k];
      SizeTotalPrefix(clustersToSizes, k + 1);
      var itemsForKey, next := TakeItems(permutedInts, intIdx, numItems);
      assert permutedInts[..next] == permutedInts[..intIdx] + itemsForKey;
      intIdx := next;
      var entry := Cluster(clustersToSizes[k].key, itemsForKey);
      assert (allocation + [entry])[..k] == allocation;
      allocation := allocation + [entry];
    }
    assert clustersToSizes[..|clustersToSizes|] == clustersToSizes;
    assert KeysOf(allocation) == SizeKeys(clustersToSizes);
  }

  lemma {:induction false} PrefixSizes(allocation: Partition<int>, sizes: seq<SizeEntry>, k: nat)
    requires |allocation| == |sizes| && k <= |sizes|
    requires forall c :: 0 <= c < |sizes| ==> |allocation[c].items| == sizes[c].size
    ensures TotalSize(allocation[..k]) == SizeTotal(sizes[..k])
  {
    if k > 0 {
      PrefixSizes(allocation, sizes, k - 1);
      assert allocation[..k][..k - 1] == allocation[..k - 1];
      assert sizes[..k][..k - 1] == sizes[..k - 1];
    }
  }

  /** Cluster k receives the run of `perm` between the sizes of the clusters before it and
      those up to and including it. */
  lemma AllocationSlices(allocation: Partition<int>, sizes: seq<SizeEntry>, perm: seq<int>, k: nat)
    requires IsAllocationOf(allocation, sizes, perm)
    requires k < |sizes|
    ensures SizeTotal(sizes[..k]) <= SizeTotal(sizes[..k + 1]) <= |perm|
    ensures allocation[k].items == perm[SizeTotal(sizes[..k])..SizeTotal(sizes[..k + 1])]
  {
    var before, upTo := allocation[..k], allocation[..k + 1];
    PrefixSizes(allocation, sizes, k);
    PrefixSizes(allocation, sizes, k + 1);
    FlattenLength(before);
    FlattenLength(upTo);
    FlattenSplit(allocation, k);
    FlattenSplit(allocation, k + 1);
    assert upTo[..k] == before;
    assert Flatten(upTo) == Flatten(before) + allocation[k].items;
    var a, b := |Flatten(before)|, |Flatten(upTo)|;
    assert perm[..b] == Flatten(upTo);
    assert perm[..a] == Flatten(before);
    assert perm[a..b] == Flatten(upTo)[a..];
  }

  /** The clusters together hold the total size's worth of items. */
  lemma AllocationTotal(allocation: Partition<int>, sizes: seq<SizeEntry>, perm: seq<int>)
    requires IsAllocationOf(allocation, sizes, perm)
    ensures TotalSize(allocation) == SizeTotal(sizes)
  {
    PrefixSizes(allocation, sizes, |sizes|);
    assert allocation[..|sizes|] == allocation;
    assert sizes[..|sizes|] == sizes;
  }

  /** From a permutation of 0..total-1, every integer of that range is allocated exactly once
      and nothing else is allocated. */
  lemma AllocationCoversRange(allocation: Partition<int>, sizes: seq<SizeEntry>, perm: seq<int>)
    requires IsAllocationOf(allocation, sizes, perm)
    requires IsPermutation(perm, SizeTotal(sizes))
    ensures forall v :: 0 <= v < SizeTotal(sizes) ==> multiset(Flatten(allocation))[v] == 1
    ensures forall x :: x in Flatten(allocation) ==> 0 <= x < SizeTotal(sizes)
  {
    PermutationCovers(perm, SizeTotal(sizes));
  }

  /** The sizes and the permutation determine the allocation: the same permutation twice
      gives the same partition twice. */
  lemma AllocationDeterministic(a: Partition<int>, b: Partition<int>, sizes: seq<SizeEntry>, perm: seq<int>)
    requires IsAllocationOf(a, sizes, perm) && IsAllocationOf(b, sizes, perm)
    ensures a == b
  {
    forall k | 0 <= k < |sizes| ensures a[k] == b[k] {
      AllocationSlices(a, sizes, perm, k);
      AllocationSlices(b, sizes, perm, k);
      assert KeysOf(a)[k] == KeysOf(b)[k];
    }
  }
}
