/**
  `RollingCorrelationEstimator`: correlation matrices over a window of
  `window_size` consecutive return rows that slides one row at a time.

  The returns frame is its row index (the dates) and its rows. Pandas'
  `.corr()` is a parameter: a function from the rows of one window to a
  matrix. The dates are of any type.
 */
module Rolling {

  import opened Matrices

  /** A returns DataFrame: one date and one row of returns per observation. */
  datatype Frame<T> = Frame(index: seq<T>, rows: seq<seq<real>>)

  /** One entry of the result: `{'date': ..., 'correlation': ..., 'n_obs': ...}`. */
  datatype Estimate<T> = Estimate(date: T, correlation: Matrix, nObs: nat)

  /** A frame has one date per row. */
  predicate WellFormed<T>(f: Frame<T>) {
    |f.index| == |f.rows|
  }

  /** The number of entries: one per end index in range(window_size, n_obs). */
  function EntryCount(w: nat, n: nat): nat {
    if w < n then n - w else 0
  }

  /** `returns.iloc[k:k + w]`: the w rows from row k on. */
  function Window<T>(w: nat, f: Frame<T>, k: nat): (rows: seq<seq<real>>)
    requires k + w <= |f.rows|
    ensures |rows| == w && forall i :: 0 <= i < w ==> rows[i] == f.rows[k + i]
  {
    f.rows[k..k + w]
  }

  /**
    The entry for end index k + w: the correlation of the w rows before it,
    dated at that row; its observation count is the number of rows it used.
   */
  function EntryAt<T>(w: nat, f: Frame<T>, corr: seq<seq<real>> -> Matrix, k: nat): (r: Estimate<T>)
    requires WellFormed(f) && k + w < |f.rows|
    ensures r.correlation == corr(Window(w, f, k)) && r.nObs == |Window(w, f, k)|
  {
    Estimate(f.index[k + w], corr(Window(w, f, k)), w)
  }

  class RollingCorrelationEstimator {
    const windowSize: nat

    constructor(windowSize: nat := 252)
      ensures this.windowSize == windowSize
    {
      this.windowSize := windowSize;
    }

    /**
      One estimate per end index from window_size up to (and not including)
      the number of rows: entry k covers rows k .. k + window_size - 1, is
      dated at row k + window_size, and records window_size observations.
     */
    method EstimateCorrelations<T>(f: Frame<T>, corr: seq<seq<real>> -> Matrix) returns (estimates: seq<Estimate<T>>)
      requires WellFormed(f)
      ensures |estimates| == EntryCount(windowSize, |f.rows|)
      ensures forall k :: 0 <= k < |estimates| ==> k + windowSize < |f.rows| && estimates[k] == EntryAt(windowSize, f, corr, k)
    {
      estimates := [];
      var n := |f.rows|;
      var endIdx := windowSize;
      while endIdx < n
        invariant windowSize <= endIdx && (if windowSize < n then endIdx <= n else endIdx == windowSize)
        invariant |estimates| == endIdx - windowSize
        invariant forall k :: 0 <= k < |estimates| ==> k + windowSize < n && estimates[k] == EntryAt(windowSize, f, corr, k)
      {
        var startIdx := endIdx - windowSize;
        var window := f.rows[startIdx..endIdx];
        estimates := estimates + [Estimate(f.index[endIdx], corr(window), windowSize)];
        endIdx := endIdx + 1;
      }
    }
  }

  /**
    Consecutive estimates are correlations of windows that overlap in all
    but one row: the next drops the oldest row of the window and adds the
    row the current estimate is dated at.
   */
  lemma WindowSlides<T>(w: nat, f: Frame<T>, corr: seq<seq<real>> -> Matrix, k: nat)
    requires WellFormed(f) && 1 <= w && k + 1 < EntryCount(w, |f.rows|)
    ensures EntryAt(w, f, corr, k + 1).correlation == corr(Window(w, f, k)[1..] + [f.rows[k + w]])
    ensures EntryAt(w, f, corr, k).date == f.index[k + w]
  {
    assert Window(w, f, k + 1) == Window(w, f, k)[1..] + [f.rows[k + w]];
  }

  /** Row j lies in the window of entry k. */
  predicate Covers(w: nat, k: nat, j: nat) {
    k <= j < k + w
  }

  /**
    With a non-empty window and more rows than the window, a row is used
    by some entry exactly when it is not the last row: the last
    observation never enters any window.
   */
  lemma {:induction false} Coverage(w: nat, n: nat, j: nat)
    requires 1 <= w < n && j < n
    ensures (exists k: nat :: k < EntryCount(w, n) && Covers(w, k, j)) <==> j < n - 1
  {
    if j < n - 1 {
      var k := if j < n - w then j else n - w - 1;
      assert k < EntryCount(w, n) && Covers(w, k, j);
    } else {
      forall k: nat | k < EntryCount(w, n) ensures !Covers(w, k, j) {
        assert k + w <= n - 1;
      }
    }
  }
}
