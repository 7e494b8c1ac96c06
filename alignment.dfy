/** `create_optimal_alignment`: turn the overlap matrix into costs, let the assignment solver
    pick a minimum-cost permutation, and sum the overlap it selects. */
module Alignment {
  import opened Outcomes
  import opened Sequences
  import opened Matrices

  /** The contents of a two-dimensional array, row by row. */
  function Rows(a: array2<int>): (m: Matrix)
    reads a
    ensures |m| == a.Length0
    ensures forall i, j :: 0 <= i < a.Length0 && 0 <= j < a.Length1 ==> |m[i]| == a.Length1 && m[i][j] == a[i, j]
  {
    seq(a.Length0, i requires 0 <= i < a.Length0 reads a => seq(a.Length1, j requires 0 <= j < a.Length1 reads a => a[i, j]))
  }

  lemma RowsOf(a: array2<int>, m: Matrix, n: nat)
    requires a.Length0 == n && a.Length1 == n && IsSquare(m, n)
    requires forall r, c :: 0 <= r < n && 0 <= c < n ==> a[r, c] == m[r][c]
    ensures Rows(a) == m
  {
    var rows := Rows(a);
    forall r | 0 <= r < n ensures rows[r] == m[r] {
      assert forall c :: 0 <= c < n ==> rows[r][c] == m[r][c];
    }
  }

  /** The summing loop of `create_optimal_alignment`: add up the entries at
      (row_ind[i], col_ind[i]), where row_ind is 0, 1, 2, ... */
  method SumSelected(clusterOverlap: array2<int>, rowInd: seq<int>, colInd: seq<int>) returns (sumOfMatches: int)
    requires |rowInd| == |colInd| <= clusterOverlap.Length0
    requires forall i :: 0 <= i < |colInd| ==> rowInd[i] == i && 0 <= colInd[i] < clusterOverlap.Length1
    ensures Selects(Rows(clusterOverlap), colInd)
    ensures sumOfMatches == Score(Rows(clusterOverlap), colInd)
  {
    ghost var overlap := Rows(clusterOverlap);
    sumOfMatches := 0;
    for i := 0 to |rowInd|
      invariant sumOfMatches == Score(overlap, colInd[..i])
    {
      var rowIdx, colIdx := rowInd[i], colInd[i];
      sumOfMatches := sumOfMatches + clusterOverlap[rowIdx, colIdx];
      assert colInd[..i + 1][..i] == colInd[..i];
    }
    assert colInd[..|rowInd|] == colInd;
  }

  /** The solver stands for `scipy.optimize.linear_sum_assignment`; the printing of the
      alignment is not modelled. The result is the largest total overlap any pairing of rows
      with columns achieves; on an empty matrix `max` raises ValueError. */
  method CreateOptimalAlignment(clusterOverlap: array2<int>, maxLength: nat, solver: Matrix -> (seq<int>, seq<int>))
    returns (result: Result<int>)
    requires clusterOverlap.Length0 == maxLength && clusterOverlap.Length1 == maxLength
    requires SolverContract(solver)
    ensures result.Err? <==> maxLength == 0
    ensures result.Err? ==> result.error == ValueError
    ensures result.Ok? ==> IsMaxScore(Rows(clusterOverlap), maxLength, result.value)
    ensures result.Ok? && NonNegative(Rows(clusterOverlap)) ==>
              0 <= result.value <= SumAll(Rows(clusterOverlap))
  {
    if maxLength == 0 {
      return Err(ValueError);
    }
    var overlap := Rows(clusterOverlap);
    var maxValue := MaxEntry(overlap);
    var unmatchedValues := CostMatrix(overlap, maxValue);
    SolverAnswers(solver, unmatchedValues);
    var assignment := solver(unmatchedValues);
    var rowInd, colInd := assignment.0, assignment.1;
    MinCostAssignmentMaximizesScore(overlap, maxLength, maxValue, rowInd, colInd);
    var sumOfMatches := SumSelected(clusterOverlap, rowInd, colInd);
    return Ok(sumOfMatches);
  }
}
