/** `run_cluster_simulation`: one baseline trial. Two random allocations of the same cluster
    sizes are compared through the overlap matrix and the optimal alignment. */
module Simulation {
  import opened Outcomes
  import opened Sequences
  import opened Partitions
  import opened Matrices
  import opened Allocation
  import opened Overlap
  import opened OverlapSums
  import opened Alignment

  /** The two random permutations and the assignment solver are passed in. Errors propagate as
      the Python exceptions do. Otherwise the result is the best alignment score of the overlap
      matrix of the two allocations, and it never exceeds the item count. Given the same
      permutation twice (the "perfect overlap" sanity check), it equals the item count,
      provided no two keys select the same matrix row. */
  method RunClusterSimulation(clusterSizes: seq<SizeEntry>, perm1: seq<int>, perm2: seq<int>,
                              solver: Matrix -> (seq<int>, seq<int>))
    returns (result: Result<int>)
    requires Distinct(SizeKeys(clusterSizes))
    requires IsPermutation(perm1, SizeTotal(clusterSizes)) && IsPermutation(perm2, SizeTotal(clusterSizes))
    requires SolverContract(solver)
    ensures result == Err(ValueError) <==> |clusterSizes| == 0
    ensures result == Err(IndexError) <==> |clusterSizes| > 0 && !AllIndexable(SizeKeys(clusterSizes), |clusterSizes|)
    ensures result.Ok? ==> 0 <= result.value <= SizeTotal(clusterSizes)
    ensures result.Ok? && perm1 == perm2 && DistinctRows(SizeKeys(clusterSizes), |clusterSizes|) ==>
              result.value == SizeTotal(clusterSizes)
    ensures result.Ok? ==>
              forall a1, a2 :: IsAllocationOf(a1, clusterSizes, perm1) && IsAllocationOf(a2, clusterSizes, perm2) ==>
                IsMaxScore(OverlapMatrix(a1, a2, |clusterSizes|), |clusterSizes|, result.value)
  {
    var clusters1 := CreateRandomAllocation(clusterSizes, perm1);
    var clusters2 := CreateRandomAllocation(clusterSizes, perm2);
    var maxLength := if |clusters1| >= |clusters2| then |clusters1| else |clusters2|;
    var overlap := CreateClusteringMatrix(clusters1, clusters2, maxLength);
    if overlap.Err? {
      return Err(overlap.error);
    }
    RowsOf(overlap.value, OverlapMatrix(clusters1, clusters2, maxLength), maxLength);
    result := CreateOptimalAlignment(overlap.value, maxLength, solver);
    if result.Ok? {
      AllocationTotal(clusters1, clusterSizes, perm1);
      if perm1 == perm2 {
        AllocationDeterministic(clusters1, clusters2, clusterSizes, perm1);
      }
      MaxScoreWithinItems(clusters1, clusters2, maxLength, result.value);
      forall a1, a2 | IsAllocationOf(a1, clusterSizes, perm1) && IsAllocationOf(a2, clusterSizes, perm2)
        ensures a1 == clusters1 && a2 == clusters2
      {
        AllocationDeterministic(a1, clusters1, clusterSizes, perm1);
        AllocationDeterministic(a2, clusters2, clusterSizes, perm2);
      }
    }
  }
}
