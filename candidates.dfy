/**
  The candidate edges of the complete graph on 0..n-1, as both
  `minimum_spanning_tree` and `planar_maximally_filtered_graph` build it
  (upper triangle, row by row), and their order by ascending distance.

  networkx lists the edges of that complete graph in row-major order
  (0,1), (0,2), ..., (1,2), ...; Python's `sorted` is stable, so edges of
  equal weight keep that order. Sorting by weight alone, stably, therefore
  gives the same sequence as sorting by the strict key (weight, row, column),
  which is what `SortByWeight` does.
 */
module Candidates {

  import opened Matrices
  import opened Graphs

  // ---------------------------------------------------------------------------
  // The upper triangle, row by row
  // ---------------------------------------------------------------------------

  /** Row i of the upper triangle: (i, i+1), ..., (i, n-1). */
  function Row(n: nat, i: nat): (r: seq<Edge>)
    ensures |r| == if i < n then n - 1 - i else 0
    ensures forall k :: 0 <= k < |r| ==> r[k] == Edge(i, i + 1 + k)
  {
    if i + 1 >= n then [] else seq(n - 1 - i, k requires 0 <= k => Edge(i, i + 1 + k))
  }

  /** Rows i..n-1 of the upper triangle. */
  function RowsFrom(n: nat, i: nat): seq<Edge>
    decreases n - i
  {
    if i >= n then [] else Row(n, i) + RowsFrom(n, i + 1)
  }

  /** Rows 0..i-1 of the upper triangle. */
  function RowsBefore(n: nat, i: nat): seq<Edge> {
    if i == 0 then [] else RowsBefore(n, i - 1) + Row(n, i - 1)
  }

  /** The edges (i, j), i < j < n, in the order the nested loops add them: n(n-1)/2 of them. */
  function UpperPairs(n: nat): (r: seq<Edge>)
    ensures |r| == TriNumber(n)
  {
    RowsFromLength(n, 0);
    RowsFrom(n, 0)
  }

  lemma {:induction false} RowsFromLength(n: nat, i: nat)
    requires i <= n
    ensures |RowsFrom(n, i)| == TriNumber(n - i)
    decreases n - i
  {
    if i < n {
      RowsFromLength(n, i + 1);
    }
  }

  lemma {:induction false} RowsFromMembers(n: nat, i: nat)
    ensures forall e :: e in RowsFrom(n, i) <==> i <= e.u && ValidEdge(n, e)
    decreases n - i
  {
    if i < n {
      RowsFromMembers(n, i + 1);
      forall e: Edge | i <= e.u && ValidEdge(n, e) ensures e in RowsFrom(n, i) {
        if e.u == i {
          assert Row(n, i)[e.v - i - 1] == e;
        }
      }
    }
  }

  lemma {:induction false} RowsFromDistinct(n: nat, i: nat)
    ensures Distinct(RowsFrom(n, i))
    decreases n - i
  {
    if i < n {
      RowsFromDistinct(n, i + 1);
      RowsFromMembers(n, i + 1);
      var r, rest := Row(n, i), RowsFrom(n, i + 1);
      forall a, b | 0 <= a < b < |r + rest| ensures (r + rest)[a] != (r + rest)[b] {
        if b < |r| {
        } else if a < |r| {
          assert (r + rest)[b] in rest;
        } else {
          assert (r + rest)[a] == rest[a - |r|] && (r + rest)[b] == rest[b - |r|];
        }
      }
    }
  }

  /** Every pair i < j < n is listed exactly once. */
  lemma UpperPairsComplete(n: nat)
    ensures forall e :: e in UpperPairs(n) <==> ValidEdge(n, e)
    ensures Distinct(UpperPairs(n))
  {
    RowsFromMembers(n, 0);
    RowsFromDistinct(n, 0);
  }

  lemma {:induction false} RowsSplit(n: nat, i: nat)
    requires i <= n
    ensures UpperPairs(n) == RowsBefore(n, i) + RowsFrom(n, i)
  {
    if i > 0 {
      RowsSplit(n, i - 1);
      assert RowsFrom(n, i - 1) == Row(n, i - 1) + RowsFrom(n, i);
    }
  }

  /** The position of pair e in the nested-loop order of the complete graph's edges. */
  function PairIndex(n: nat, e: Edge): nat
    requires ValidEdge(n, e)
  {
    |RowsBefore(n, e.u)| + (e.v - e.u - 1)
  }

  /** The pair at position PairIndex(n, e) of the nested-loop order is e. */
  lemma UpperPairAt(n: nat, e: Edge)
    requires ValidEdge(n, e)
    ensures PairIndex(n, e) < |UpperPairs(n)| && UpperPairs(n)[PairIndex(n, e)] == e
  {
    RowsSplit(n, e.u);
    assert RowsFrom(n, e.u) == Row(n, e.u) + RowsFrom(n, e.u + 1);
    assert Row(n, e.u)[e.v - e.u - 1] == e;
  }

  lemma {:induction false} RowsBeforeLength(n: nat, i: nat)
    requires i < n
    ensures |RowsBefore(n, i + 1)| == |RowsBefore(n, i)| + (n - 1 - i)
  {
  }

  // ---------------------------------------------------------------------------
  // Ascending distance order
  // ---------------------------------------------------------------------------

  /** The `weight` attribute of e in the complete graph: distance_matrix[u, v]. */
  function Weight(D: Matrix, e: Edge): (r: real)
    ensures IsMatrix(D, |D|) && Symmetric(D, |D|) && e.u < |D| && e.v < |D| ==> r == D[e.v][e.u]
  {
    if e.u < |D| && e.v < |D[e.u]| then D[e.u][e.v] else 0.0
  }

  /** a comes strictly before b: smaller weight, ties by row, then by column. */
  predicate Before(D: Matrix, a: Edge, b: Edge) {
    Weight(D, a) < Weight(D, b) ||
    (Weight(D, a) == Weight(D, b) && (a.u < b.u || (a.u == b.u && a.v < b.v)))
  }

  predicate StrictlySorted(D: Matrix, s: seq<Edge>) {
    forall i, j :: 0 <= i < j < |s| ==> Before(D, s[i], s[j])
  }

  /** Nondecreasing in weight. */
  predicate WeightSorted(D: Matrix, s: seq<Edge>) {
    forall i, j :: 0 <= i < j < |s| ==> Weight(D, s[i]) <= Weight(D, s[j])
  }

  /** Insert e before the first element of s it precedes. */
  function Insert(D: Matrix, e: Edge, s: seq<Edge>): (r: seq<Edge>)
    ensures multiset(r) == multiset(s) + multiset{e}
  {
    if s == [] || Before(D, e, s[0]) then
      [e] + s
    else
      assert s == [s[0]] + s[1..];
      [s[0]] + Insert(D, e, s[1..])
  }

  /** Into a strictly sorted sequence not holding e, `Insert` puts e at its place. */
  lemma {:induction false} InsertSorted(D: Matrix, e: Edge, s: seq<Edge>)
    requires StrictlySorted(D, s) && e !in s
    ensures StrictlySorted(D, Insert(D, e, s))
  {
    if s != [] && !Before(D, e, s[0]) {
      assert s == [s[0]] + s[1..];
      TailSorted(D, s);
      InsertSorted(D, e, s[1..]);
      assert e != s[0];
      HeadBelow(D, e, s);
      ConsSorted(D, s[0], Insert(D, e, s[1..]));
    } else {
      ConsSorted(D, e, s);
    }
  }

  lemma TailSorted(D: Matrix, s: seq<Edge>)
    requires StrictlySorted(D, s) && s != []
    ensures StrictlySorted(D, s[1..])
  {
    forall i, j | 0 <= i < j < |s[1..]| ensures Before(D, s[1..][i], s[1..][j]) {
      assert s[1..][i] == s[i + 1] && s[1..][j] == s[j + 1];
    }
  }

  /** x before every element of a strictly sorted sequence: x in front keeps it strictly sorted. */
  lemma ConsSorted(D: Matrix, x: Edge, s: seq<Edge>)
    requires StrictlySorted(D, s)
    requires forall y :: y in s ==> Before(D, x, y)
    ensures StrictlySorted(D, [x] + s)
  {
    var r := [x] + s;
    forall i, j | 0 <= i < j < |r| ensures Before(D, r[i], r[j]) {
      if i == 0 {
        assert r[j] == s[j - 1];
      } else {
        assert r[i] == s[i - 1] && r[j] == s[j - 1];
      }
    }
  }

  /** The head of a strictly sorted s, when e does not precede it, precedes everything in the insertion of e into the tail. */
  lemma HeadBelow(D: Matrix, e: Edge, s: seq<Edge>)
    requires StrictlySorted(D, s) && s != [] && e != s[0] && !Before(D, e, s[0])
    ensures forall x :: x in Insert(D, e, s[1..]) ==> Before(D, s[0], x)
  {
    var rest := Insert(D, e, s[1..]);
    assert Before(D, s[0], e);
    forall x | x in rest ensures Before(D, s[0], x) {
      assert x in multiset(rest);
      if x != e {
        assert x in multiset(s[1..]);
        var k :| 0 <= k < |s[1..]| && s[1..][k] == x;
        assert s[k + 1] == x;
      }
    }
  }

  /** `sorted(edges, key=weight)` over a list of distinct edges. */
  function SortByWeight(D: Matrix, s: seq<Edge>): (r: seq<Edge>)
    requires Distinct(s)
    ensures StrictlySorted(D, r)
    ensures multiset(r) == multiset(s)
  {
    if s == [] then []
    else
      assert s == [s[0]] + s[1..];
      assert s[0] !in s[1..] by {
        forall k | 0 <= k < |s[1..]| ensures s[1..][k] != s[0] {
          assert s[1..][k] == s[k + 1];
        }
      }
      var rest := SortByWeight(D, s[1..]);
      assert s[0] !in multiset(rest);
      InsertSorted(D, s[0], rest);
      Insert(D, s[0], rest)
  }

  lemma StrictlySortedIsWeightSorted(D: Matrix, s: seq<Edge>)
    requires StrictlySorted(D, s)
    ensures WeightSorted(D, s) && Distinct(s)
  {
  }

  /** The candidate list: every pair of the complete graph, once, by ascending distance. */
  function SortedCandidates(D: Matrix): (r: seq<Edge>)
    ensures forall e :: e in r <==> ValidEdge(|D|, e)
    ensures Distinct(r) && WeightSorted(D, r)
    ensures |r| == |UpperPairs(|D|)|
  {
    UpperPairsComplete(|D|);
    var r := SortByWeight(D, UpperPairs(|D|));
    assert forall e :: e in r <==> e in multiset(UpperPairs(|D|));
    StrictlySortedIsWeightSorted(D, r);
    assert |r| == |multiset(r)|;
    r
  }

  lemma {:induction false} RowsBeforeMonotone(n: nat, a: nat, b: nat)
    requires a <= b
    ensures |RowsBefore(n, a)| <= |RowsBefore(n, b)|
    decreases b - a
  {
    if a < b {
      RowsBeforeMonotone(n, a, b - 1);
    }
  }

  /** Pairs earlier in row-then-column order come earlier in the nested-loop order. */
  lemma PairIndexOrder(n: nat, a: Edge, b: Edge)
    requires ValidEdge(n, a) && ValidEdge(n, b) && (a.u < b.u || (a.u == b.u && a.v < b.v))
    ensures PairIndex(n, a) < PairIndex(n, b)
  {
    if a.u < b.u {
      var ra, ra', rb := |RowsBefore(n, a.u)|, |RowsBefore(n, a.u + 1)|, |RowsBefore(n, b.u)|;
      RowsBeforeLength(n, a.u);
      RowsBeforeMonotone(n, a.u + 1, b.u);
      assert ra' == ra + (n - 1 - a.u) && ra' <= rb;
    }
  }

  /** The candidate list is sorted by the strict key (distance, row, column). */
  lemma CandidatesStrictlySorted(D: Matrix)
    ensures StrictlySorted(D, SortedCandidates(D))
  {
    UpperPairsComplete(|D|);
  }

  /**
    Stability: candidates of equal distance keep the order in which the
    nested loops added them to the complete graph, as Python's stable
    `sorted` leaves them.
   */
  lemma CandidatesStable(D: Matrix, i: nat, j: nat)
    requires i < j < |SortedCandidates(D)|
    requires Weight(D, SortedCandidates(D)[i]) == Weight(D, SortedCandidates(D)[j])
    ensures var r, n := SortedCandidates(D), |D|;
      && ValidEdge(n, r[i]) && ValidEdge(n, r[j])
      && PairIndex(n, r[i]) < PairIndex(n, r[j]) < |UpperPairs(n)|
      && UpperPairs(n)[PairIndex(n, r[i])] == r[i] && UpperPairs(n)[PairIndex(n, r[j])] == r[j]
  {
    var r := SortedCandidates(D);
    CandidatesStrictlySorted(D);
    var a, b := r[i], r[j];
    assert a in r && b in r;
    assert Before(D, a, b);
    PairIndexOrder(|D|, a, b);
    UpperPairAt(|D|, a);
    UpperPairAt(|D|, b);
  }
}
