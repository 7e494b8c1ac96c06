# Cluster comparison: allocation, overlap matrix, optimal alignment

This project models the cluster-comparison routines of `analysis/clustering_utils.py`. They compare two
clusterings of the same items, for example the image clusters of two training runs. A clustering is a
dictionary from cluster key to the list of items in that cluster. The routines are:

- `create_random_allocation` builds a random clustering with given cluster sizes. It slices a random
  permutation of `0..total-1` into consecutive runs, one run per key, in key order.
- `create_clustering_matrix` builds a square matrix. Cell `[key1][key2]` counts the items of cluster `key1`
  that exactly equal some item of cluster `key2`.
- `create_optimal_alignment` works out the best one-to-one pairing of clusters and sums the overlap along
  it. It turns overlap into cost as `max_value - overlap` and hands the cost matrix to an assignment
  solver.
- `verify_no_repeats` is a duplicate diagnostic over all items of a clustering.
- `count_maximal_overlap` counts every equal pair of items across two clusterings.
- `run_cluster_simulation` chains allocation, matrix and alignment for two random clusterings of the same
  sizes.

The model is imperative where the source is. The matrix is an `array2<int>` filled in place. Counters,
flags and the flattened list are loop variables with invariants. Each method is proved against a
specification function:

| specification function | defines |
|---|---|
| `Partitions.MatchCount` | the exact-match count |
| `Partitions.EqualPairs` | the number of equal pairs |
| `Overlap.Cell` | the matrix cell numpy ends up holding |
| `Matrices.Score` | the overlap summed along a column choice |
| `Duplicates.DuplicateCount` | the duplicate count |

Lemmas then relate these functions to one another:

- Minimum cost is the same as maximum overlap.
- The matrix total is bounded by the equal-pair count.
- Matching a clustering against itself gives perfect overlap.

Modelling choices:

- **Clusterings.** A dictionary is a `Partition<T>`: a sequence of `Cluster(key, items)` in insertion
  order. Keys are integers, and items are any type with equality.
- **Inputs from outside.** The permutation from `np.random.permutation` is a parameter. The assignment
  solver `linear_sum_assignment` is a function parameter, and its contract (`Matrices.SolverContract`)
  says it returns row indices `0..n-1` and a permutation of minimum total cost.
- **Matrix indexing follows numpy.** `int(key)` may be any value in `-n..n-1`, and a negative key counts
  from the end. A key outside that range raises `IndexError`, but only at a write, so only when both
  clusterings are nonempty. When two keys select the same row or column, the later write wins.
- **Errors.** They are `Result` values. `IndexError` comes from a bad key. `ValueError` comes from `max`
  over the empty matrix when `max_length == 0`.
- **Diagnostic.** The printed message of `verify_no_repeats` is returned as a `Diagnostic` value.

## Model

| member | source | states |
|---|---|---|
| Allocation.CreateRandomAllocation | analysis/clustering_utils.py:11-23 | The result has the input's keys in the input's order, so its keys are distinct. Cluster k has exactly the size given for k. The clusters concatenated in key order equal the permutation. |
| Allocation.TakeItems | analysis/clustering_utils.py:18-21 | The inner loop takes the next `num_items` integers of the permutation, in order, and advances the index past them. |
| Allocation.AllocationSlices | analysis/clustering_utils.py:15-22 | Cluster k is the slice of the permutation between the running totals of the sizes before k and through k. |
| Allocation.AllocationTotal | analysis/clustering_utils.py:12 | The allocation holds as many items as the sizes add up to. |
| Allocation.AllocationCoversRange | analysis/clustering_utils.py:12-22 | Every integer in `0..total-1` appears exactly once across the allocation, and nothing else appears. |
| Allocation.AllocationDeterministic | analysis/clustering_utils.py:11-23 | Two allocations of the same sizes from the same permutation are identical. |
| Overlap.ExactMatchCount | analysis/clustering_utils.py:29-35 | The count with the early `break` is the number of positions of `values1` whose item occurs in `values2`. |
| Partitions.MatchCount | analysis/clustering_utils.py:29-35 | The exact-match count is at most `len(values1)`, and it is 0 when `values2` is empty. |
| Partitions.MatchCountFull | analysis/clustering_utils.py:29-35 | The count equals `len(values1)` if and only if every item of `values1` occurs in `values2`. |
| Partitions.MatchCountSelf | analysis/clustering_utils.py:29-35 | A cluster matched against itself counts all of its items. |
| Partitions.MatchCountOfDistinct | analysis/clustering_utils.py:29-35 | For distinct items, the count is the size of the intersection of the two item sets. |
| Partitions.MatchCountSymmetricWhenDistinct | analysis/clustering_utils.py:29-35 | For distinct items the count is symmetric. |
| Partitions.MatchCountAsymmetric | analysis/clustering_utils.py:29-35 | With repeated items the count is not symmetric: `[x, x]` against `[x]` gives 2, and `[x]` against `[x, x]` gives 1. |
| Overlap.LastIndex | analysis/clustering_utils.py:27-36 | The cluster whose count stays in a row or column is the last one, in key order, whose key selects it. |
| Overlap.CreateClusteringMatrix | analysis/clustering_utils.py:25-37 | It fails with IndexError exactly when both clusterings are nonempty and some key cannot index a side of length `max_length`. Otherwise it returns a `max_length` square matrix whose every cell is `Cell`: the exact-match count of the last clusters selecting that row and column, and 0 where no key selects them. |
| Overlap.FillRow | analysis/clustering_utils.py:28-36 | One pass of the middle loop writes row `int(key1)` for every key of the second clustering. It leaves every other cell unchanged, and it reports the IndexError case exactly. |
| Overlap.OverlapMatrix | analysis/clustering_utils.py:26-36 | Every entry of the finished matrix is a count: at least 0, exactly 0 in a row that no key selects (the `np.zeros` start), and at most the size of the cluster that owns the row. |
| Overlap.CellOfKeyPair | analysis/clustering_utils.py:36 | When no two keys collide, cell `[int(key1)][int(key2)]` holds the exact-match count of exactly those two clusters. |
| Overlap.CellOutsideKeysIsZero | analysis/clustering_utils.py:26 | A cell whose row, or whose column, no key selects stays 0. |
| Matrices.MaxEntry | analysis/clustering_utils.py:43 | `max_value` is an entry of the matrix, and no entry exceeds it. |
| Matrices.RowMax | analysis/clustering_utils.py:43 | The maximum of a row is in the row, and no entry of the row exceeds it. |
| Matrices.CostMatrix | analysis/clustering_utils.py:44 | Each cost is `max_value - overlap` at the same position. When `max_value` bounds the entries, every cost is at least 0. |
| Matrices.CostScoreDuality | analysis/clustering_utils.py:44-47 | For any column choice, the total cost is `n * max_value` minus the total overlap. |
| Matrices.MinCostIffMaxScore | analysis/clustering_utils.py:41-47 | A permutation has minimum cost if and only if it has maximum overlap. |
| Matrices.MinCostAssignmentMaximizesScore | analysis/clustering_utils.py:47-56 | The solver's answer has rows `0..n-1`. Its columns form a permutation whose overlap is the maximum, and for a non-negative matrix that overlap lies between 0 and the sum of all entries. |
| Matrices.ScoreWithinTotal | analysis/clustering_utils.py:52-56 | For a non-negative matrix, the overlap along any column choice lies between 0 and the sum of all entries. |
| Matrices.SolverAnswers | analysis/clustering_utils.py:47 | Under the solver's contract, `linear_sum_assignment` on a square cost matrix returns rows `0..n-1` and a column permutation of minimum total cost. The predicates `SolverContract` and `IsMinCostAssignment` state this contract. |
| Alignment.SumSelected | analysis/clustering_utils.py:52-55 | The summing loop adds up the overlap at `(row_ind[i], col_ind[i])` for every i. With rows `0..n-1`, that is the score of the column choice. |
| Alignment.CreateOptimalAlignment | analysis/clustering_utils.py:39-56 | It fails with ValueError exactly when `max_length == 0`. Otherwise the summing loop returns the maximum total overlap over all one-to-one pairings of rows and columns. With non-negative entries that value lies between 0 and the sum of all entries. |
| OverlapSums.ScoreAtMostTotal | analysis/clustering_utils.py:25-37 | Along any choice of distinct-row positions, the overlap never exceeds the number of items in the first clustering. |
| OverlapSums.IdentityScoreIsTotal | analysis/clustering_utils.py:25-37 | A clustering matched against itself with the identity pairing scores its total item count, when no two keys collide. |
| OverlapSums.MaxScoreWithinItems | analysis/clustering_utils.py:90-99 | The optimal alignment lies between 0 and the item count of the first clustering. It is also at most the item count of the second when no cluster of the first repeats an item. For a clustering against itself it equals the item count, which is the "perfect overlap" sanity check of analysis/compare_image_clusters.py:17-18. |
| OverlapSums.ScoreAtMostSecondTotal | analysis/clustering_utils.py:25-56 | When no cluster of the first clustering repeats an item, any one-to-one pairing scores at most the item count of the second clustering. |
| Partitions.MatchCountAtMostRight | analysis/clustering_utils.py:29-35 | When `values1` has no repeated item, the exact-match count is also at most `len(values2)`. |
| Scenarios.RepeatedItemScenario | analysis/clustering_utils.py:25-56 | `{0: [x, x]}` against `{0: [x]}` gives the matrix `[[2]]` with best alignment 2, although the second clustering holds 1 item. So the bound by the second clustering needs clusters without repeats. |
| OverlapSums.MatrixSumAtMostMaximalOverlap | analysis/clustering_utils.py:79-88 | The cells of the overlap matrix together never exceed `count_maximal_overlap` for the same two clusterings. |
| Partitions.MatchCountAtMostEqualPairs | analysis/clustering_utils.py:30-35 | The exact-match count, which stops at the first match, is at most the equal-pair count, which does not stop. |
| Overlap.CountEqualPairs | analysis/clustering_utils.py:83-87 | The two inner loops count every equal `(value1, value2)` pair. |
| Overlap.CountMaximalOverlap | analysis/clustering_utils.py:79-88 | The result is the number of equal pairs between the two flattened clusterings. |
| Partitions.EqualPairsSymmetric | analysis/clustering_utils.py:79-88 | The equal-pair count is symmetric in its two arguments. |
| Partitions.EqualPairsMultiset | analysis/clustering_utils.py:79-88 | The equal-pair count depends only on the multisets of items, so it does not depend on the grouping into clusters or on their order. |
| Partitions.EqualPairsAppendLeft | analysis/clustering_utils.py:81-83 | Counting cluster by cluster on the left adds up to counting the concatenation. |
| Partitions.EqualPairsAppendRight | analysis/clustering_utils.py:82-84 | Counting cluster by cluster on the right adds up to counting the concatenation. |
| Partitions.EqualPairsSingletonRight | analysis/clustering_utils.py:83-87 | Pairs against one item number that item's occurrences. |
| Partitions.FlattenLength | analysis/clustering_utils.py:59-63 | The flattened list has as many items as the clusters together. |
| Duplicates.VerifyNoRepeats | analysis/clustering_utils.py:58-77 | The diagnostic is silent if and only if all items are distinct. Otherwise it reports the duplicate count and the total number of items, and that count is the number of equal pairs minus the number of items. |
| Duplicates.FlattenClusters | analysis/clustering_utils.py:59-62 | The first loop builds the list of all items, cluster after cluster. |
| Duplicates.CountRepeats | analysis/clustering_utils.py:65-72 | For one value, the `seen_repeat` scan adds that value's number of occurrences minus one. |
| Duplicates.DuplicatesAreEqualPairs | analysis/clustering_utils.py:64-72 | Over the first k positions, the duplicate count is the number of equal pairs with those positions minus k. Each position contributes its value's occurrences minus one. |
| Duplicates.SilentIffDistinct | analysis/clustering_utils.py:64-74 | The duplicate count is 0 if and only if the flattened list has no repeated item. |
| Duplicates.PairCountsTwice | analysis/clustering_utils.py:64-72 | A value at two positions adds at least 2 to the count: one for each position. |
| Sequences.PermutationCovers | analysis/clustering_utils.py:14 | A permutation of `0..n-1` holds each value in range exactly once. |
| Simulation.RunClusterSimulation | analysis/clustering_utils.py:90-99 | It fails with ValueError exactly when there are no sizes. It fails with IndexError exactly when some key cannot index a matrix of side "number of keys". Otherwise the result is the best alignment score of the overlap matrix of the two allocations that the sizes and the two permutations determine. It lies between 0 and the total item count, and it equals the total item count when both permutations are the same and no two keys collide. |
| Scenarios.CrossLabelScenario | analysis/clustering_utils.py:25-56 | `{0: [a, b], 1: [c]}` against `{0: [c], 1: [a, b]}` gives the matrix `[[0, 2], [1, 0]]`, whose best alignment scores 3. |

## Left out

- `np.random.permutation` is a parameter `permutedInts`, with the precondition that it is a permutation
  of `0..total-1`. The random source and the seed are not modelled.
- `linear_sum_assignment` is a function parameter constrained by `SolverContract` (rows `0..n-1`, columns
  a minimum-cost permutation). The Hungarian algorithm and its tie-breaking are not modelled, so the model
  does not say which of several optimal pairings is chosen.
- Alignment.CreateOptimalAlignment: requires a `max_length` square matrix. numpy broadcasting of other
  shapes in `max_value * np.ones(...) - cluster_overlap` is not modelled.
- The `print_alignment` output (lines 48-50) is not modelled: it has no effect on the result.
- Duplicates.VerifyNoRepeats: the printed PANIC line is returned as `Panic(duplicates, total)`, and the
  silent case as `Silent`. Text formatting is not modelled.
- `run_baselines` (lines 101-120) is not modelled: hard-coded sizes, floating-point statistics, a
  histogram and plotting.
- Item equality is Dafny `==`. numpy's element-wise `np.all(value1 == value2)` on image arrays, including
  shape and broadcasting, is not modelled.
- The matrix is `int`, not float. `np.zeros` is float, but every stored value is an integer count.
- Keys are Dafny `int`s. Other key types and their `int(...)` conversion, such as the string keys of
  directory names in `analysis/compare_image_clusters.py`, are not modelled.
- Allocation.CreateRandomAllocation: sizes are `nat`. A negative size, for which `range` runs zero times
  but the total still subtracts, is not modelled.
- The scripts `analysis/compare_image_clusters.py`, `analysis/construct_amt.py` and
  `analysis/sample_obs_images.py` (file system, image and CSV I/O) are not part of this model. The overlap
  loop in the first repeats `create_clustering_matrix`.
- Keys need not lie in `0..max_length-1`: negative keys down to `-max_length` wrap around as numpy does.
  The source code accepts them, so the model does too.
- OverlapSums.MaxScoreWithinItems: the alignment score is bounded by the item count of the second
  clustering only when no cluster of the first repeats an item. Without that, the bound fails:
  `{0: [x, x]}` against `{0: [x]}` scores 2 with one item on the right (`Scenarios.RepeatedItemScenario`).
  So the bound by the smaller of the two item counts is proved only under that condition.
- A value that occurs twice adds 2 to the duplicate count, not 1. The loop counts every position after
  the first match for that position. The model follows the code (`Duplicates.PairCountsTwice`).
