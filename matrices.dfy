/** Square integer matrices, assignments (one column per row), the cost matrix handed to
    the assignment solver, and the contract that solver is trusted to meet. */
module Matrices {
  import opened Sequences

  type Matrix = seq<seq<int>>

  predicate IsSquare(m: Matrix, n: nat) {
    |m| == n && forall i :: 0 <= i < n ==> |m[i]| == n
  }

  /** `cols` picks, for each of the first |cols| rows, a column inside that row. */
  predicate Selects(m: Matrix, cols: seq<int>) {
    |cols| <= |m| && forall i :: 0 <= i < |cols| ==> 0 <= cols[i] < |m[i]|
  }

  predicate NonNegative(m: Matrix) {
    forall i, j :: 0 <= i < |m| && 0 <= j < |m[i]| ==> m[i][j] >= 0
  }

  /** Whether `v` occurs in `m`. */
  predicate IsEntry(m: Matrix, v: int) {
    exists i :: 0 <= i < |m| && v in m[i]
  }

  /** Whether `v` is at least every entry of `m`. */
  predicate Bounds(m: Matrix, v: int) {
    forall i, j :: 0 <= i < |m| && 0 <= j < |m[i]| ==> m[i][j] <= v
  }

  /** Sum of the entries picked by `cols`: entry [i][cols[i]] for every row i. */
  function Score(m: Matrix, cols: seq<int>): int
    requires Selects(m, cols)
  {
    if cols == [] then 0 else Score(m, cols[..|cols| - 1]) + m[|cols| - 1][cols[|cols| - 1]]
  }

  function RowSum(row: seq<int>): int
  {
    if row == [] then 0 else RowSum(row[..|row| - 1]) + row[|row| - 1]
  }

  /** Sum of all entries. */
  function SumAll(m: Matrix): int
  {
    if m == [] then 0 else SumAll(m[..|m| - 1]) + RowSum(m[|m| - 1])
  }

  /** Python's `max(row)`. */
  function RowMax(row: seq<int>): (r: int)
    requires row != []
    ensures r in row
    ensures forall j :: 0 <= j < |row| ==> row[j] <= r
  {
    if |row| == 1 then row[0]
    else
      var front := RowMax(row[..|row| - 1]);
      if row[|row| - 1] > front then row[|row| - 1] else front
  }

  /** `max([max(row) for row in m])`: the largest entry of a matrix with at least one row,
      every row nonempty. */
  function MaxEntry(m: Matrix): (r: int)
    requires m != [] && forall i :: 0 <= i < |m| ==> m[i] != []
    ensures IsEntry(m, r)
    ensures Bounds(m, r)
  {
    if |m| == 1 then RowMax(m[0])
    else
      var front := MaxEntry(m[..|m| - 1]);
      var last := RowMax(m[|m| - 1]);
      if last > front then last else front
  }

  /** `maxValue * ones - m`: the cost of assigning row i to column j. When `maxValue` bounds
      every entry, every cost is non-negative. */
  function CostMatrix(m: Matrix, maxValue: int): (cost: Matrix)
    ensures |cost| == |m| && forall i :: 0 <= i < |m| ==> |cost[i]| == |m[i]|
    ensures forall i, j :: 0 <= i < |m| && 0 <= j < |m[i]| ==> cost[i][j] == maxValue - m[i][j]
    ensures Bounds(m, maxValue) ==> NonNegative(cost)
  {
    seq(|m|, i requires 0 <= i < |m| => seq(|m[i]|, j requires 0 <= j < |m[i]| => maxValue - m[i][j]))
  }

  /** Cost/score duality: along any assignment, total cost is |cols| * maxValue minus the
      score, so cost goes down exactly when score goes up. */
  lemma {:induction false} CostScoreDuality(m: Matrix, maxValue: int, cols: seq<int>)
    requires Selects(m, cols)
    ensures Selects(CostMatrix(m, maxValue), cols)
    ensures Score(CostMatrix(m, maxValue), cols) == |cols| * maxValue - Score(m, cols)
  {
    if cols != [] {
      var front := cols[..|cols| - 1];
      CostScoreDuality(m, maxValue, front);
      assert |cols| * maxValue == |front| * maxValue + maxValue;
    }
  }

  /** A permutation is minimum-cost for the cost matrix exactly when it is maximum-score for
      the overlap matrix. */
  lemma MinCostIffMaxScore(m: Matrix, n: nat, maxValue: int, q: seq<int>)
    requires IsSquare(m, n) && IsPermutation(q, n)
    ensures (forall p :: IsPermutation(p, n) ==> Score(CostMatrix(m, maxValue), q) <= Score(CostMatrix(m, maxValue), p))
        <==> (forall p :: IsPermutation(p, n) ==> Score(m, p) <= Score(m, q))
  {
    CostScoreDuality(m, maxValue, q);
    forall p | IsPermutation(p, n)
      ensures Score(CostMatrix(m, maxValue), p) == n * maxValue - Score(m, p)
    {
      CostScoreDuality(m, maxValue, p);
    }
  }

  lemma {:induction false} RowSumNonNegative(row: seq<int>)
    requires forall j :: 0 <= j < |row| ==> row[j] >= 0
    ensures RowSum(row) >= 0
  {
    if row != [] {
      RowSumNonNegative(row[..|row| - 1]);
    }
  }

  lemma {:induction false} EntryAtMostRowSum(row: seq<int>, j: nat)
    requires forall k :: 0 <= k < |row| ==> row[k] >= 0
    requires j < |row|
    ensures row[j] <= RowSum(row)
  {
    var front := row[..|row| - 1];
    if j < |row| - 1 {
      EntryAtMostRowSum(front, j);
    } else {
      RowSumNonNegative(front);
    }
  }

  lemma {:induction false} ScorePrefixWithin(m: Matrix, cols: seq<int>)
    requires NonNegative(m) && Selects(m, cols)
    ensures 0 <= Score(m, cols) <= SumAll(m[..|cols|])
  {
    if cols != [] {
      var k := |cols| - 1;
      ScorePrefixWithin(m, cols[..k]);
      assert m[..|cols|][..k] == m[..k];
      EntryAtMostRowSum(m[k], cols[k]);
    }
  }

  lemma {:induction false} SumAllPrefix(m: Matrix, k: nat)
    requires NonNegative(m) && k <= |m|
    ensures SumAll(m[..k]) <= SumAll(m)
  {
    if k < |m| {
      var front := m[..|m| - 1];
      SumAllPrefix(front, k);
      assert front[..k] == m[..k];
      RowSumNonNegative(m[|m| - 1]);
    } else {
      assert m[..k] == m;
    }
  }

  /** On a non-negative matrix every assignment scores between 0 and the sum of all entries. */
  lemma ScoreWithinTotal(m: Matrix, cols: seq<int>)
    requires NonNegative(m) && Selects(m, cols)
    ensures 0 <= Score(m, cols) <= SumAll(m)
  {
    ScorePrefixWithin(m, cols);
    SumAllPrefix(m, |cols|);
  }

  /** `s` is the largest score any permutation of the n columns achieves on `m`. */
  ghost predicate IsMaxScore(m: Matrix, n: nat, s: int) {
    && IsSquare(m, n)
    && (exists p :: IsPermutation(p, n) && Score(m, p) == s)
    && (forall p :: IsPermutation(p, n) ==> Score(m, p) <= s)
  }

  /** What `scipy.optimize.linear_sum_assignment` returns for a square cost matrix: the rows in
      order and a permutation of the columns of least total cost (which one, on ties, is not
      modelled). */
  ghost predicate IsMinCostAssignment(cost: Matrix, rowInd: seq<int>, colInd: seq<int>) {
    && IsSquare(cost, |cost|)
    && rowInd == Range(|cost|)
    && IsPermutation(colInd, |cost|)
    && forall p :: IsPermutation(p, |cost|) ==> Score(cost, colInd) <= Score(cost, p)
  }

  ghost predicate SolverContract(solver: Matrix -> (seq<int>, seq<int>)) {
    forall cost :: IsSquare(cost, |cost|) ==> IsMinCostAssignment(cost, solver(cost).0, solver(cost).1)
  }

  lemma SolverAnswers(solver: Matrix -> (seq<int>, seq<int>), cost: Matrix)
    requires SolverContract(solver) && IsSquare(cost, |cost|)
    ensures IsMinCostAssignment(cost, solver(cost).0, solver(cost).1)
  {
  }

  /** A minimum-cost assignment for `maxValue * ones - m` selects the largest score of `m`;
      on a non-negative `m` that score lies between 0 and the sum of all entries. */
  lemma MinCostAssignmentMaximizesScore(m: Matrix, n: nat, maxValue: int, rowInd: seq<int>, colInd: seq<int>)
    requires IsSquare(m, n)
    requires IsMinCostAssignment(CostMatrix(m, maxValue), rowInd, colInd)
    ensures |rowInd| == |colInd| == n && Selects(m, colInd)
    ensures forall i :: 0 <= i < n ==> rowInd[i] == i && 0 <= colInd[i] < n
    ensures IsMaxScore(m, n, Score(m, colInd))
    ensures NonNegative(m) ==> 0 <= Score(m, colInd) <= SumAll(m)
  {
    MinCostIffMaxScore(m, n, maxValue, colInd);
    if NonNegative(m) {
      ScoreWithinTotal(m, colInd);
    }
  }
}
