/**
  `SyntheticCorrelationGenerator`: the block-structured base correlation
  matrix and the diffusion of a correlation matrix over time.

  Random draws are inputs: `u(k)` is the k-th uniform draw on [0, 1) of the
  seeded generator and `noise(t, k)` the k-th standard normal draw of time
  step t. The eigenvalue repair with its rescaling to a unit diagonal is a
  parameter `repair` applied to each reconstructed matrix.
 */
module Generator {

  import opened Matrices

  // ---------------------------------------------------------------------------
  // Lower triangle and reconstruction
  // ---------------------------------------------------------------------------

  /** The position of cell (i, j), j < i, in `np.tril_indices(n, k=-1)`: row by row, left to right. */
  function LowerIndex(i: nat, j: nat): nat
    requires j < i
  {
    TriNumber(i) + j
  }

  /** The cells below the diagonal of the first k rows of m, in `tril_indices` order (0 outside m). */
  function LowerRows(m: Matrix, k: nat): (r: seq<real>)
    ensures |r| == TriNumber(k)
  {
    if k == 0 then [] else LowerRows(m, k - 1) + seq(k - 1, j requires 0 <= j < k - 1 => Entry(m, k - 1, j))
  }

  /** `current_corr[np.tril_indices(n, k=-1)]`. */
  function Lower(m: Matrix, n: nat): (r: seq<real>)
    ensures |r| == TriNumber(n)
  {
    LowerRows(m, n)
  }

  lemma {:induction false} LowerIndexBound(i: nat, j: nat, n: nat)
    requires j < i < n
    ensures LowerIndex(i, j) < TriNumber(i + 1) <= TriNumber(n)
  {
    TriNumberMonotone(i + 1, n);
  }

  /** Entry (i, j) below the diagonal sits at position LowerIndex(i, j) of the lower triangle. */
  lemma {:induction false} LowerAt(m: Matrix, k: nat, i: nat, j: nat)
    requires j < i < k
    ensures LowerIndex(i, j) < |LowerRows(m, k)| && LowerRows(m, k)[LowerIndex(i, j)] == Entry(m, i, j)
  {
    LowerIndexBound(i, j, k);
    if i < k - 1 {
      LowerAt(m, k - 1, i, j);
    }
  }

  /** `np.eye(n)`. */
  function Identity(n: nat): (r: Matrix)
    ensures IsMatrix(r, n)
  {
    seq(n, i requires 0 <= i < n => seq(n, j requires 0 <= j < n => if i == j then 1.0 else 0.0))
  }

  /** `new_corr = np.eye(n); new_corr[tril_idx] = c`. */
  function FillLower(c: seq<real>, n: nat): (r: Matrix)
    requires |c| == TriNumber(n)
    ensures IsMatrix(r, n)
  {
    seq(n, i requires 0 <= i < n => seq(n, j requires 0 <= j < n =>
      if j < i then
        LowerIndexBound(i, j, n);
        c[LowerIndex(i, j)]
      else if i == j then 1.0
      else 0.0))
  }

  function Transpose(m: Matrix, n: nat): (r: Matrix)
    requires IsMatrix(m, n)
    ensures IsMatrix(r, n)
  {
    seq(n, i requires 0 <= i < n => seq(n, j requires 0 <= j < n => m[j][i]))
  }

  /** a + b - c, entry by entry. */
  function PlusMinus(a: Matrix, b: Matrix, c: Matrix, n: nat): (r: Matrix)
    requires IsMatrix(a, n) && IsMatrix(b, n) && IsMatrix(c, n)
    ensures IsMatrix(r, n)
  {
    seq(n, i requires 0 <= i < n => seq(n, j requires 0 <= j < n => a[i][j] + b[i][j] - c[i][j]))
  }

  /** `new_corr + new_corr.T - np.eye(n)`. */
  function Reconstruct(c: seq<real>, n: nat): (r: Matrix)
    requires |c| == TriNumber(n)
    ensures IsMatrix(r, n)
  {
    var L := FillLower(c, n);
    PlusMinus(L, Transpose(L, n), Identity(n), n)
  }

  /**
    The reconstructed matrix has a unit diagonal, holds c[LowerIndex(i, j)]
    at (i, j) below the diagonal, and mirrors it above: it is symmetric.
   */
  lemma ReconstructShape(c: seq<real>, n: nat)
    requires |c| == TriNumber(n)
    ensures var r := Reconstruct(c, n);
      && DiagonalIs(r, n, 1.0)
      && (forall i, j :: 0 <= j < i < n ==> LowerIndex(i, j) < |c| && r[i][j] == c[LowerIndex(i, j)] && r[j][i] == c[LowerIndex(i, j)])
      && Symmetric(r, n)
  {
    var r := Reconstruct(c, n);
    var L := FillLower(c, n);
    forall i, j | 0 <= j < i < n
      ensures LowerIndex(i, j) < |c| && r[i][j] == c[LowerIndex(i, j)] && r[j][i] == c[LowerIndex(i, j)]
    {
      LowerIndexBound(i, j, n);
      assert L[i][j] == c[LowerIndex(i, j)] && L[j][i] == 0.0;
    }
    forall i, j | 0 <= i < n && 0 <= j < n ensures r[i][j] == r[j][i] {
      if j < i {
        assert r[i][j] == c[LowerIndex(i, j)] && r[j][i] == c[LowerIndex(i, j)];
      } else if i < j {
        assert r[j][i] == c[LowerIndex(j, i)] && r[i][j] == c[LowerIndex(j, i)];
      }
    }
  }

  /** Round trip: reading back the lower triangle of the reconstruction gives the values put in. */
  lemma LowerOfReconstruct(c: seq<real>, n: nat)
    requires |c| == TriNumber(n)
    ensures Lower(Reconstruct(c, n), n) == c
  {
    var r := Reconstruct(c, n);
    ReconstructShape(c, n);
    forall k | 0 <= k < |c| ensures Lower(r, n)[k] == c[k] {
      var i, j := LowerCell(k, n);
      LowerAt(r, n, i, j);
    }
  }

  /** Every position of the lower triangle belongs to a cell (i, j), j < i. */
  lemma {:induction false} LowerCell(k: nat, n: nat) returns (i: nat, j: nat)
    requires k < TriNumber(n)
    ensures j < i < n && LowerIndex(i, j) == k
  {
    if k < TriNumber(n - 1) {
      i, j := LowerCell(k, n - 1);
    } else {
      i, j := n - 1, k - TriNumber(n - 1);
    }
  }

  /** Round trip: a symmetric matrix with unit diagonal is rebuilt from its lower triangle. */
  lemma ReconstructOfLower(m: Matrix, n: nat)
    requires IsMatrix(m, n) && Symmetric(m, n) && DiagonalIs(m, n, 1.0)
    ensures Reconstruct(Lower(m, n), n) == m
  {
    var c := Lower(m, n);
    var r := Reconstruct(c, n);
    ReconstructShape(c, n);
    forall i | 0 <= i < n ensures r[i] == m[i] {
      forall j | 0 <= j < n ensures r[i][j] == m[i][j] {
        if j < i {
          LowerAt(m, n, i, j);
        } else if i < j {
          LowerAt(m, n, j, i);
        }
      }
    }
  }

  // ---------------------------------------------------------------------------
  // One diffusion step
  // ---------------------------------------------------------------------------

  const MeanReversion: real := 0.95

  /** `np.clip(x, -0.95, 0.95)`. */
  function Clip(x: real): (y: real)
    ensures -0.95 <= y <= 0.95
    ensures -0.95 <= x <= 0.95 ==> y == x
  {
    if x < -0.95 then -0.95 else if x > 0.95 then 0.95 else x
  }

  /** The off-diagonal correlations of step t: mean reversion plus scaled noise, clipped. */
  function Drift(c: seq<real>, volatility: real, noise: (nat, nat) -> real, t: nat): (r: seq<real>)
    ensures |r| == |c|
    ensures forall k :: 0 <= k < |r| ==> -0.95 <= r[k] <= 0.95
  {
    if c == [] then []
    else Drift(c[..|c| - 1], volatility, noise, t) + [Clip(MeanReversion * c[|c| - 1] + noise(t, |c| - 1) * volatility)]
  }

  /** Position k of the drifted correlations comes from position k of the current ones and the k-th draw. */
  lemma {:induction false} DriftAt(c: seq<real>, volatility: real, noise: (nat, nat) -> real, t: nat, k: nat)
    requires k < |c|
    ensures Drift(c, volatility, noise, t)[k] == Clip(MeanReversion * c[k] + noise(t, k) * volatility)
  {
    if k < |c| - 1 {
      DriftAt(c[..|c| - 1], volatility, noise, t, k);
    }
  }

  /** The matrix of step t before the eigenvalue repair. */
  function Proposal(current: Matrix, n: nat, volatility: real, noise: (nat, nat) -> real, t: nat): (r: Matrix)
    ensures IsMatrix(r, n)
  {
    Reconstruct(Drift(Lower(current, n), volatility, noise, t), n)
  }

  /**
    Before the repair, each step's matrix is a symmetric n-by-n matrix with
    unit diagonal and every off-diagonal entry in [-0.95, 0.95].
   */
  lemma ProposalShape(current: Matrix, n: nat, volatility: real, noise: (nat, nat) -> real, t: nat)
    ensures var r := Proposal(current, n, volatility, noise, t);
      && IsMatrix(r, n) && Symmetric(r, n) && DiagonalIs(r, n, 1.0)
      && forall i, j :: 0 <= i < n && 0 <= j < n && i != j ==> -0.95 <= r[i][j] <= 0.95
  {
    var c := Drift(Lower(current, n), volatility, noise, t);
    ReconstructShape(c, n);
    var r := Reconstruct(c, n);
    forall i, j | 0 <= i < n && 0 <= j < n && i != j ensures -0.95 <= r[i][j] <= 0.95 {
      if j < i {
        assert r[i][j] == c[LowerIndex(i, j)];
      } else {
        assert r[i][j] == c[LowerIndex(j, i)];
      }
    }
  }

  /** The proposal's lower triangle is exactly the drifted correlations of the current matrix. */
  lemma ProposalLower(current: Matrix, n: nat, volatility: real, noise: (nat, nat) -> real, t: nat)
    ensures Lower(Proposal(current, n, volatility, noise, t), n) == Drift(Lower(current, n), volatility, noise, t)
  {
    LowerOfReconstruct(Drift(Lower(current, n), volatility, noise, t), n);
  }

  /** Without noise, a correlation in [-1, 1] simply reverts toward 0 by the factor 0.95, on both sides of the diagonal. */
  lemma QuietStep(current: Matrix, n: nat, noise: (nat, nat) -> real, t: nat, i: nat, j: nat)
    requires IsMatrix(current, n) && j < i < n && -1.0 <= current[i][j] <= 1.0
    ensures Proposal(current, n, 0.0, noise, t)[i][j] == MeanReversion * current[i][j]
    ensures Proposal(current, n, 0.0, noise, t)[j][i] == MeanReversion * current[i][j]
  {
    var c := Lower(current, n);
    LowerAt(current, n, i, j);
    var d := Drift(c, 0.0, noise, t);
    ReconstructShape(d, n);
    var k := LowerIndex(i, j);
    assert c[k] == current[i][j];
    assert MeanReversion * c[k] + noise(t, k) * 0.0 == MeanReversion * current[i][j];
    DriftAt(c, 0.0, noise, t, k);
    assert d[k] == Clip(MeanReversion * current[i][j]);
  }

  /**
    `evolve_correlation_parameters`: max(1, n_steps) matrices, the first the
    base matrix and each next one the repaired proposal built from the one
    before it.
   */
  method EvolveCorrelationParameters(baseCorr: Matrix, n: nat, nSteps: int, volatility: real := 0.1,
                                     noise: (nat, nat) -> real, repair: Matrix -> Matrix)
    returns (corrSequence: seq<Matrix>)
    ensures |corrSequence| == if nSteps < 1 then 1 else nSteps
    ensures corrSequence[0] == baseCorr
    ensures forall t :: 1 <= t < |corrSequence| ==>
      corrSequence[t] == repair(Proposal(corrSequence[t - 1], n, volatility, noise, t))
  {
    corrSequence := [baseCorr];
    var currentCorr := baseCorr;
    var t := 1;
    while t < nSteps
      invariant 1 <= t && (nSteps < 1 ==> t == 1) && (1 <= nSteps ==> t <= nSteps)
      invariant |corrSequence| == t && corrSequence[0] == baseCorr
      invariant currentCorr == corrSequence[t - 1]
      invariant forall s :: 1 <= s < t ==>
        corrSequence[s] == repair(Proposal(corrSequence[s - 1], n, volatility, noise, s))
    {
      var correlations := Lower(currentCorr, n);
      correlations := Drift(correlations, volatility, noise, t);
      var newCorr := Reconstruct(correlations, n);
      newCorr := repair(newCorr);
      corrSequence := corrSequence + [newCorr];
      currentCorr := newCorr;
      t := t + 1;
    }
  }

  // ---------------------------------------------------------------------------
  // The block-structured base matrix
  // ---------------------------------------------------------------------------

  /** `max(3, n_assets // 5)`. */
  function NSectors(n: nat): (k: nat)
    ensures k >= 3 && k >= n / 5 && (k == 3 || k == n / 5)
  {
    if n / 5 < 3 then 3 else n / 5
  }

  /** The position of pair (i, j), i < j, in the row-by-row scan of the upper triangle. */
  function UpperIndex(n: nat, i: nat, j: nat): nat
    requires i < j < n
  {
    TriNumberMonotone(n - i, n);
    TriNumber(n) - TriNumber(n - i) + (j - i - 1)
  }

  /** Pairs in later rows, or further right in the same row, are drawn for later. */
  lemma UpperIndexOrder(n: nat, i: nat, j: nat, i': nat, j': nat)
    requires i < j < n && i' < j' < n && (i < i' || (i == i' && j < j'))
    ensures UpperIndex(n, i, j) < UpperIndex(n, i', j') < TriNumber(n)
  {
    if i < i' {
      TriNumberMonotone(n - i', n - i - 1);
    }
  }

  /** `rng.uniform(lo, hi)` from the unit draw x: within [lo, hi) for x in [0, 1). */
  function Uniform(lo: real, hi: real, x: real): (r: real)
    ensures lo < hi && 0.0 <= x < 1.0 ==> lo <= r < hi
  {
    lo + Scaled(hi - lo, x)
  }

  /** The width w scaled by the unit draw x: within [0, w) for x in [0, 1). */
  function Scaled(w: real, x: real): (r: real)
    ensures 0.0 < w && 0.0 <= x < 1.0 ==> 0.0 <= r < w
  {
    ScaleBelow(w, x);
    w * x
  }

  lemma ScaleBelow(w: real, x: real)
    ensures 0.0 < w && 0.0 <= x < 1.0 ==> 0.0 <= w * x < w
  {
    if 0.0 < w && 0.0 <= x < 1.0 {
      PositiveProduct(w, 1.0 - x);
      assert w * (1.0 - x) == w - w * x;
      if x > 0.0 {
        PositiveProduct(w, x);
      }
    }
  }

  lemma PositiveProduct(a: real, b: real)
    requires a > 0.0 && b > 0.0
    ensures a * b > 0.0
  {
  }

  /** Entry (p, q) of the block matrix before the repair. */
  function BlockEntry(n: nat, sectors: seq<nat>, u: nat -> real, p: nat, q: nat): real
    requires |sectors| == n && p < n && q < n
  {
    if p == q then 1.0
    else
      var a, b := if p < q then p else q, if p < q then q else p;
      var x := u(UpperIndex(n, a, b));
      if sectors[a] == sectors[b] then Uniform(0.4, 0.8, x) else Uniform(-0.1, 0.3, x)
  }

  /**
    With unit draws in [0, 1): a symmetric matrix with unit diagonal, every
    pair in one sector correlated in [0.4, 0.8) and every other pair in
    [-0.1, 0.3).
   */
  lemma BlockShape(n: nat, sectors: seq<nat>, u: nat -> real)
    requires |sectors| == n
    requires forall k :: 0.0 <= u(k) < 1.0
    ensures forall p, q :: 0 <= p < n && 0 <= q < n ==> BlockEntry(n, sectors, u, p, q) == BlockEntry(n, sectors, u, q, p)
    ensures forall p :: 0 <= p < n ==> BlockEntry(n, sectors, u, p, p) == 1.0
    ensures forall p, q :: 0 <= p < n && 0 <= q < n && p != q && sectors[p] == sectors[q] ==>
      0.4 <= BlockEntry(n, sectors, u, p, q) < 0.8
    ensures forall p, q :: 0 <= p < n && 0 <= q < n && p != q && sectors[p] != sectors[q] ==>
      -0.1 <= BlockEntry(n, sectors, u, p, q) < 0.3
  {
  }

  /** Cell (p, q) has been written once the scan has passed its pair: rows before i, and row i before column j. */
  predicate Written(i: nat, j: nat, p: nat, q: nat) {
    (p < q && (p < i || (p == i && q < j))) || (q < p && (q < i || (q == i && p < j)))
  }

  /**
    The `block_structure` branch of `generate_base_correlation_matrix` up to
    the repair: start from the identity and fill each pair (i, j), i < j,
    and its mirror from the next uniform draw, in row-by-row order.
   */
  method BlockCorrelation(n: nat, sectors: seq<nat>, u: nat -> real) returns (corr: array2<real>, drawn: nat)
    requires |sectors| == n && forall k :: 0 <= k < n ==> sectors[k] < NSectors(n)
    ensures fresh(corr) && corr.Length0 == n && corr.Length1 == n
    ensures forall p, q :: 0 <= p < n && 0 <= q < n ==> corr[p, q] == BlockEntry(n, sectors, u, p, q)
    ensures drawn == TriNumber(n)
  {
    corr := new real[n, n]((p, q) => if p == q then 1.0 else 0.0);
    drawn := 0;
    for i := 0 to n
      invariant drawn == TriNumber(n) - TriNumber(n - i)
      invariant forall p, q :: 0 <= p < n && 0 <= q < n ==>
        corr[p, q] == if p == q || Written(i, i + 1, p, q) then BlockEntry(n, sectors, u, p, q) else 0.0
    {
      for j := i + 1 to n
        invariant drawn == TriNumber(n) - TriNumber(n - i) + (j - i - 1)
        invariant forall p, q :: 0 <= p < n && 0 <= q < n ==>
          corr[p, q] == if p == q || Written(i, j, p, q) then BlockEntry(n, sectors, u, p, q) else 0.0
      {
        var x := u(drawn);
        var value := if sectors[i] == sectors[j] then Uniform(0.4, 0.8, x) else Uniform(-0.1, 0.3, x);
        assert value == BlockEntry(n, sectors, u, i, j) == BlockEntry(n, sectors, u, j, i);
        corr[i, j] := value;
        corr[j, i] := value;
        drawn := drawn + 1;
      }
    }
  }
}
