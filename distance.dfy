/**
  `CorrelationFilter.correlation_to_distance`: the metric d = sqrt(2 (1 - c))
  applied entry by entry to a correlation matrix, with the diagonal then
  forced to 0 (`np.fill_diagonal`).

  `np.sqrt` is a parameter: the model only uses that it is applied to each
  entry separately, and, in the lemmas that need it, that it behaves like a
  square root (non-negative, squares back, monotone).
 */
module Distance {

  import opened Matrices

  function CorrelationToDistance(C: Matrix, sqrt: real -> real): (D: Matrix)
    ensures |D| == |C| && forall i :: 0 <= i < |C| ==> |D[i]| == |C[i]|
    ensures forall i :: 0 <= i < |C| && i < |C[i]| ==> D[i][i] == 0.0
  {
    seq(|C|, i requires 0 <= i < |C| =>
      seq(|C[i]|, j requires 0 <= j < |C[i]| =>
        if i == j then 0.0 else sqrt(2.0 * (1.0 - C[i][j]))))
  }

  /** Every off-diagonal distance is computed from the correlation in the same cell and nothing else. */
  lemma EntryWise(C: Matrix, C': Matrix, sqrt: real -> real, i: nat, j: nat)
    requires i < |C| && j < |C[i]| && i < |C'| && j < |C'[i]|
    requires C[i][j] == C'[i][j]
    ensures CorrelationToDistance(C, sqrt)[i][j] == CorrelationToDistance(C', sqrt)[i][j]
    ensures i != j ==> CorrelationToDistance(C, sqrt)[i][j] == sqrt(2.0 * (1.0 - C[i][j]))
  {
  }

  /** A symmetric correlation matrix gives a symmetric distance matrix with zero diagonal. */
  lemma SymmetricDistance(C: Matrix, n: nat, sqrt: real -> real)
    requires IsMatrix(C, n) && Symmetric(C, n)
    ensures IsMatrix(CorrelationToDistance(C, sqrt), n)
    ensures Symmetric(CorrelationToDistance(C, sqrt), n)
    ensures DiagonalIs(CorrelationToDistance(C, sqrt), n, 0.0)
  {
    var D := CorrelationToDistance(C, sqrt);
    forall i, j | 0 <= i < n && 0 <= j < n ensures D[i][j] == D[j][i] {
      EntryWise(C, C, sqrt, i, j);
      EntryWise(C, C, sqrt, j, i);
    }
  }

  /** `sqrt` is a square root on the non-negative reals. */
  ghost predicate IsSqrt(sqrt: real -> real) {
    forall x: real :: 0.0 <= x ==> 0.0 <= sqrt(x) && sqrt(x) * sqrt(x) == x
  }

  /** `sqrt` never decreases on the non-negative reals. */
  ghost predicate IsMonotone(sqrt: real -> real) {
    forall x: real, y: real :: 0.0 <= x <= y ==> sqrt(x) <= sqrt(y)
  }

  /**
    The documented range: every correlation in [-1, 1] maps to a distance
    in [0, 2] whose square is 2 (1 - c), so perfect correlation gives 0 and
    perfect anti-correlation gives 2.
   */
  lemma DistanceRange(C: Matrix, sqrt: real -> real, i: nat, j: nat)
    requires IsSqrt(sqrt)
    requires i < |C| && j < |C[i]| && -1.0 <= C[i][j] <= 1.0
    ensures var d := CorrelationToDistance(C, sqrt)[i][j];
      && 0.0 <= d <= 2.0
      && (i != j ==> d * d == 2.0 * (1.0 - C[i][j]))
  {
    var d := CorrelationToDistance(C, sqrt)[i][j];
    if i != j {
      var x := 2.0 * (1.0 - C[i][j]);
      assert 0.0 <= x <= 4.0;
      assert d == sqrt(x);
      assert 0.0 <= d && d * d == x;
    }
  }

  /**
    With a monotone square root, a larger correlation never gives a larger
    distance: this is why the filters keep the shortest distances first.
   */
  lemma DistanceReversesOrder(C: Matrix, sqrt: real -> real, i: nat, j: nat, k: nat, l: nat)
    requires IsMonotone(sqrt)
    requires i < |C| && j < |C[i]| && k < |C| && l < |C[k]| && i != j && k != l
    requires C[k][l] <= C[i][j] <= 1.0
    ensures CorrelationToDistance(C, sqrt)[i][j] <= CorrelationToDistance(C, sqrt)[k][l]
  {
    assert 0.0 <= 2.0 * (1.0 - C[i][j]) <= 2.0 * (1.0 - C[k][l]);
  }
}
