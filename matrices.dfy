/**
  Square real matrices, as numpy arrays of shape (n, n) are used throughout
  the correlation pipeline. Entries are exact reals; floating-point rounding
  is not modelled.
 */
module Matrices {

  type Matrix = seq<seq<real>>

  /** `m` has shape (n, n). */
  predicate IsMatrix(m: Matrix, n: nat) {
    |m| == n && forall i :: 0 <= i < n ==> |m[i]| == n
  }

  /** The entry m[i, j], or 0 outside the matrix. */
  function Entry(m: Matrix, i: nat, j: nat): real {
    if i < |m| && j < |m[i]| then m[i][j] else 0.0
  }

  /** `m` equals its transpose. */
  predicate Symmetric(m: Matrix, n: nat)
    requires IsMatrix(m, n)
  {
    forall i, j :: 0 <= i < n && 0 <= j < n ==> m[i][j] == m[j][i]
  }

  /** Every diagonal entry of `m` is `x`. */
  predicate DiagonalIs(m: Matrix, n: nat, x: real)
    requires IsMatrix(m, n)
  {
    forall i :: 0 <= i < n ==> m[i][i] == x
  }

  /** The number of strictly-lower (or strictly-upper) cells of an n-by-n matrix: n(n-1)/2. */
  function TriNumber(n: nat): nat {
    if n == 0 then 0 else TriNumber(n - 1) + (n - 1)
  }

  lemma {:induction false} TriNumberMonotone(i: nat, n: nat)
    requires i <= n
    ensures TriNumber(i) <= TriNumber(n)
  {
    if i < n {
      TriNumberMonotone(i, n - 1);
    }
  }

  lemma {:induction false} TriNumberClosedForm(n: nat)
    ensures 2 * TriNumber(n) == n * (n - 1)
  {
    if n > 0 {
      TriNumberClosedForm(n - 1);
    }
  }
}
