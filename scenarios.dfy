/** A worked comparison: the two partitions hold the same three items under swapped labels,
    and the optimal alignment recovers all three by pairing cluster 0 with 1 and 1 with 0. */
module Scenarios {
  import opened Outcomes
  import opened Sequences
  import opened Partitions
  import opened Matrices
  import opened Overlap

  lemma PermutationsOfTwo(p: seq<int>)
    requires IsPermutation(p, 2)
    ensures p == [0, 1] || p == [1, 0]
  {
  }

  /** {0: [a, b], 1: [c]} against {0: [c], 1: [a, b]} gives the overlap matrix
      [[0, 2], [1, 0]], whose best alignment scores 3. */
  lemma CrossLabelScenario<T>(a: T, b: T, c: T)
    requires a != b && b != c && a != c
    ensures OverlapMatrix([Cluster(0, [a, b]), Cluster(1, [c])], [Cluster(0, [c]), Cluster(1, [a, b])], 2) == [[0, 2], [1, 0]]
    ensures IsMaxScore([[0, 2], [1, 0]], 2, 3)
  {
    var p1 := [Cluster(0, [a, b]), Cluster(1, [c])];
    var p2 := [Cluster(0, [c]), Cluster(1, [a, b])];
    assert KeysOf(p1) == [0, 1] && KeysOf(p2) == [0, 1];
    assert [0, 1][..1] == [0];
    assert [a, b][..1] == [a];
    var m := OverlapMatrix(p1, p2, 2);
    assert m[0][0] == MatchCount([a, b], [c]) == 0;
    assert m[0][1] == MatchCount([a, b], [a, b]) == 2;
    assert m[1][0] == MatchCount([c], [c]) == 1;
    assert m[1][1] == MatchCount([c], [a, b]) == 0;
    assert m[0] == [0, 2] && m[1] == [1, 0];
    assert m == [m[0], m[1]];
    var best := [[0, 2], [1, 0]];
    assert [1, 0][..1] == [1] && [0, 1][..1] == [0];
    assert Score(best, [1, 0]) == 3;
    assert IsPermutation([1, 0], 2);
    forall p | IsPermutation(p, 2) ensures Score(best, p) <= 3 {
      PermutationsOfTwo(p);
    }
  }

  /** With a repeated item in the first partition, the best alignment can exceed the item
      count of the second: {0: [x, x]} against {0: [x]} scores 2 with one item on the right. */
  lemma RepeatedItemScenario<T>(x: T)
    ensures OverlapMatrix([Cluster(0, [x, x])], [Cluster(0, [x])], 1) == [[2]]
    ensures IsMaxScore([[2]], 1, 2)
    ensures TotalSize([Cluster(0, [x])]) == 1
  {
    var p1, p2 := [Cluster(0, [x, x])], [Cluster(0, [x])];
    assert KeysOf(p1) == [0] && KeysOf(p2) == [0];
    MatchCountAsymmetric(x);
    var m := OverlapMatrix(p1, p2, 1);
    assert m[0][0] == 2;
    assert m[0] == [2];
    assert m == [m[0]];
    assert IsPermutation([0], 1);
    assert Score([[2]], [0]) == 2;
    forall p | IsPermutation(p, 1) ensures Score([[2]], p) <= 2 {
      assert p == [0];
    }
  }
}
