/**
  `CorrelationFilter.planar_maximally_filtered_graph` (PMFG): scan the
  edges of the complete graph by ascending distance; add each one, ask the
  planarity test (`nx.check_planarity`) about the enlarged graph, and remove
  the edge again when the test fails; stop after `max_iterations` candidates
  or as soon as the graph has 3(n - 2) edges.

  The planarity test is a parameter `planar` over the edge set (the node set
  is 0..n-1 throughout).
 */
module Planar {

  import opened Wrappers
  import opened Matrices
  import opened Graphs
  import opened Candidates

  /** What the loop leaves: the kept edges in the order they were kept, and the counter `iterations`. */
  datatype Run = Run(kept: seq<Edge>, iterations: nat)

  /** 3(n - 2): the largest edge count of a planar graph on n >= 3 nodes. */
  function MaxEdges(n: nat): int {
    3 * (n - 2)
  }

  /** `max_iterations`, defaulting to the number of candidates. */
  function Limit(maxIterations: Option<int>, candidates: nat): int {
    match maxIterations
    case None => candidates
    case Some(m) => m
  }

  /**
    One step of the loop: add e with weight w, then remove it again if the
    planarity test rejects the enlarged graph. A rejected step leaves the
    graph exactly as it was.
   */
  function TryAdd(E: map<Edge, real>, e: Edge, w: real, planar: set<Edge> -> bool): (r: map<Edge, real>)
    requires e !in E
    ensures planar(E.Keys + {e}) ==> r == E[e := w] && r.Keys == E.Keys + {e}
    ensures !planar(E.Keys + {e}) ==> r == E
  {
    var t := E[e := w];
    assert t.Keys == E.Keys + {e};
    if planar(t.Keys) then t else t - {e}
  }

  /** The edges kept up to and including the k-th: the graph right after that edge was added. */
  function KeptUpTo(kept: seq<Edge>, k: nat): set<Edge>
    requires k < |kept|
  {
    ToSet(kept[..k + 1])
  }

  /** Every prefix of the kept sequence passed the planarity test. */
  ghost predicate PlanarThroughout(kept: seq<Edge>, planar: set<Edge> -> bool) {
    forall k :: 0 <= k < |kept| ==> planar(KeptUpTo(kept, k))
  }

  /** The edges kept after candidate e: e joins them when the planarity test accepts the enlarged graph. */
  function Keep(kept: seq<Edge>, e: Edge, planar: set<Edge> -> bool): (r: seq<Edge>)
    ensures r == kept || (r == kept + [e] && planar(ToSet(r)))
  {
    if planar(ToSet(kept) + {e}) then
      assert ToSet(kept + [e]) == ToSet(kept) + {e};
      kept + [e]
    else kept
  }

  /** The loop from candidate position i with the edges `kept` kept so far. */
  function Loop(cands: seq<Edge>, limit: int, maxEdges: int, planar: set<Edge> -> bool, i: nat, kept: seq<Edge>): (r: Run)
    requires i <= |cands|
    ensures i <= r.iterations <= |cands|
    decreases |cands| - i
  {
    if i == |cands| || i >= limit then Run(kept, i)
    else
      var e := cands[i];
      var kept' := Keep(kept, e, planar);
      if |ToSet(kept')| >= maxEdges then Run(kept', i + 1)
      else Loop(cands, limit, maxEdges, planar, i + 1, kept')
  }

  /** The loop over the sorted candidates of D, from its start: it scans at most the n(n-1)/2 pairs. */
  function PmfgRun(D: Matrix, maxIterations: Option<int>, planar: set<Edge> -> bool): (r: Run)
    ensures r.iterations <= TriNumber(|D|)
  {
    var cands := SortedCandidates(D);
    Loop(cands, Limit(maxIterations, |cands|), MaxEdges(|D|), planar, 0, [])
  }

  /** The graph the function returns: all nodes 0..n-1 and the kept edges with their distances. */
  function PmfgGraph(D: Matrix, maxIterations: Option<int>, planar: set<Edge> -> bool): Graph {
    Graph(Nodes(|D|), map e | e in ToSet(PmfgRun(D, maxIterations, planar).kept) :: Weight(D, e))
  }

  /** The graph `planar_maximally_filtered_graph` returns: the sorted candidates, then the scan. */
  method PlanarMaximallyFilteredGraph(D: Matrix, maxIterations: Option<int>, planar: set<Edge> -> bool)
    returns (g: Graph)
    ensures g == PmfgGraph(D, maxIterations, planar)
  {
    var edgesSorted := SortedCandidates(D);
    var pmfg := Scan(D, edgesSorted, Limit(maxIterations, |edgesSorted|), MaxEdges(|D|), planar);
    g := Graph(Nodes(|D|), pmfg);
  }

  /**
    The loop itself: add each candidate in turn, test, remove it again on
    rejection; stop at the iteration limit or once the graph has `maxEdges`
    edges. The graph it leaves is the one `Loop` describes.
   */
  method Scan(D: Matrix, cands: seq<Edge>, limit: int, maxEdges: int, planar: set<Edge> -> bool)
    returns (pmfg: map<Edge, real>)
    requires Distinct(cands)
    ensures pmfg == map e | e in ToSet(Loop(cands, limit, maxEdges, planar, 0, []).kept) :: Weight(D, e)
  {
    pmfg := map[];
    ghost var kept: seq<Edge> := [];
    ghost var final := Loop(cands, limit, maxEdges, planar, 0, []);
    var iterations := 0;
    while iterations < |cands|
      invariant 0 <= iterations <= |cands|
      invariant ScanState(D, cands, iterations, kept, pmfg)
      invariant Loop(cands, limit, maxEdges, planar, iterations, kept) == final
      decreases |cands| - iterations
    {
      if iterations >= limit {
        assert final == Run(kept, iterations);
        ScanDone(D, cands, iterations, kept, pmfg);
        break;
      }
      var e := cands[iterations];
      if planar(ToSet(kept) + {e}) {
        ScanKeep(D, cands, iterations, kept, pmfg);
      } else {
        ScanSkip(D, cands, iterations, kept, pmfg);
      }
      ghost var kept' := Keep(kept, e, planar);
      pmfg := TryAdd(pmfg, e, Weight(D, e), planar);
      ScanSize(D, cands, iterations + 1, kept', pmfg);
      if |pmfg| >= maxEdges {
        LoopStop(cands, limit, maxEdges, planar, iterations, kept);
        kept := kept';
        iterations := iterations + 1;
        ScanDone(D, cands, iterations, kept, pmfg);
        break;
      }
      LoopGo(cands, limit, maxEdges, planar, iterations, kept);
      kept := kept';
      iterations := iterations + 1;
    }
    if iterations == |cands| {
      assert final == Run(kept, iterations);
      ScanDone(D, cands, iterations, kept, pmfg);
    }
  }

  /** The graph has one entry per kept edge. */
  lemma ScanSize(D: Matrix, cands: seq<Edge>, i: nat, kept: seq<Edge>, pmfg: map<Edge, real>)
    requires i <= |cands| && ScanState(D, cands, i, kept, pmfg)
    ensures |pmfg| == |ToSet(kept)|
  {
    assert pmfg.Keys == ToSet(kept);
  }

  /**
    The loop invariant of `Scan` after i iterations: the graph holds the
    edges `kept` with their distances, all among the first i candidates.
   */
  ghost predicate ScanState(D: Matrix, cands: seq<Edge>, i: nat, kept: seq<Edge>, pmfg: map<Edge, real>)
    requires i <= |cands|
  {
    && pmfg.Keys == ToSet(kept)
    && (forall e :: e in pmfg ==> pmfg[e] == Weight(D, e))
    && (forall e :: e in kept ==> e in cands[..i])
  }

  /** A rejected i-th candidate leaves the invariant holding after it. */
  lemma ScanSkip(D: Matrix, cands: seq<Edge>, i: nat, kept: seq<Edge>, pmfg: map<Edge, real>)
    requires Distinct(cands) && i < |cands|
    requires ScanState(D, cands, i, kept, pmfg)
    ensures cands[i] !in pmfg
    ensures ScanState(D, cands, i + 1, kept, pmfg) && |pmfg| == |ToSet(kept)|
  {
    NotYetScanned(cands, i, kept);
    assert |pmfg| == |pmfg.Keys|;
    assert forall x :: x in kept ==> x in cands[..i + 1];
  }

  /** An accepted i-th candidate, added with its distance, leaves the invariant holding after it. */
  lemma ScanKeep(D: Matrix, cands: seq<Edge>, i: nat, kept: seq<Edge>, pmfg: map<Edge, real>)
    requires Distinct(cands) && i < |cands|
    requires ScanState(D, cands, i, kept, pmfg)
    ensures cands[i] !in pmfg
    ensures ScanState(D, cands, i + 1, kept + [cands[i]], pmfg[cands[i] := Weight(D, cands[i])])
    ensures |pmfg[cands[i] := Weight(D, cands[i])]| == |ToSet(kept + [cands[i]])|
  {
    var e := cands[i];
    NotYetScanned(cands, i, kept);
    var pmfg' := pmfg[e := Weight(D, e)];
    var kept' := kept + [e];
    assert ToSet(kept') == ToSet(kept) + {e};
    assert pmfg'.Keys == pmfg.Keys + {e};
    assert |pmfg'| == |pmfg'.Keys|;
    forall x | x in pmfg' ensures pmfg'[x] == Weight(D, x) {
      if x != e {
        assert x in pmfg;
      }
    }
    forall x | x in kept' ensures x in cands[..i + 1] {
      if x != e {
        assert x in kept;
      }
    }
  }

  /** When the loop stops, the graph is the one the final run describes. */
  lemma ScanDone(D: Matrix, cands: seq<Edge>, i: nat, kept: seq<Edge>, pmfg: map<Edge, real>)
    requires i <= |cands| && ScanState(D, cands, i, kept, pmfg)
    ensures pmfg == map e | e in ToSet(kept) :: Weight(D, e)
  {
    var want := map e | e in ToSet(kept) :: Weight(D, e);
    assert want.Keys == pmfg.Keys;
    assert forall e :: e in want ==> want[e] == pmfg[e];
  }

  /** The candidate at position i is not among those kept from positions before i. */
  lemma NotYetScanned(cands: seq<Edge>, i: nat, kept: seq<Edge>)
    requires Distinct(cands) && i < |cands|
    requires forall e :: e in kept ==> e in cands[..i]
    ensures cands[i] !in ToSet(kept) && cands[..i + 1] == cands[..i] + [cands[i]]
  {
    forall k | 0 <= k < i ensures cands[..i][k] != cands[i] {
      assert cands[..i][k] == cands[k];
    }
    assert cands[i] !in cands[..i];
  }

  /** A step that leaves the graph below the target goes on to the next candidate. */
  lemma LoopGo(cands: seq<Edge>, limit: int, maxEdges: int, planar: set<Edge> -> bool, i: nat, kept: seq<Edge>)
    requires i < |cands| && i < limit && |ToSet(Keep(kept, cands[i], planar))| < maxEdges
    ensures Loop(cands, limit, maxEdges, planar, i, kept) == Loop(cands, limit, maxEdges, planar, i + 1, Keep(kept, cands[i], planar))
  {
  }

  /** A step that brings the graph to the target ends the loop. */
  lemma LoopStop(cands: seq<Edge>, limit: int, maxEdges: int, planar: set<Edge> -> bool, i: nat, kept: seq<Edge>)
    requires i < |cands| && i < limit && |ToSet(Keep(kept, cands[i], planar))| >= maxEdges
    ensures Loop(cands, limit, maxEdges, planar, i, kept) == Run(Keep(kept, cands[i], planar), i + 1)
  {
  }

  // ---------------------------------------------------------------------------
  // What the loop guarantees
  // ---------------------------------------------------------------------------

  /**
    The greedy rule, stated without the loop: of the first i candidates, a
    candidate is kept exactly when the planarity test accepted it together
    with the candidates kept before it; nothing else is kept.
   */
  ghost predicate Greedy(cands: seq<Edge>, planar: set<Edge> -> bool, i: nat, K: set<Edge>)
    requires i <= |cands|
  {
    && K <= ToSet(cands[..i])
    && forall j :: 0 <= j < i ==> (cands[j] in K <==> planar(K * ToSet(cands[..j]) + {cands[j]}))
  }

  lemma {:induction false} GreedyStep(cands: seq<Edge>, planar: set<Edge> -> bool, i: nat, K: set<Edge>)
    requires Distinct(cands) && i < |cands| && Greedy(cands, planar, i, K)
    ensures Greedy(cands, planar, i + 1, if planar(K + {cands[i]}) then K + {cands[i]} else K)
  {
    var c := cands[i];
    var K' := if planar(K + {c}) then K + {c} else K;
    assert cands[..i + 1] == cands[..i] + [c];
    assert c !in ToSet(cands[..i]);
    assert K * ToSet(cands[..i]) == K;
    forall j | 0 <= j <= i ensures K' * ToSet(cands[..j]) == K * ToSet(cands[..j]) {
      assert c !in ToSet(cands[..j]) by {
        assert ToSet(cands[..j]) <= ToSet(cands[..i]);
      }
    }
    forall j | 0 <= j < i ensures (cands[j] in K' <==> cands[j] in K) {
      assert cands[j] != c;
    }
  }

  /** The greedy rule holds one candidate further once the loop has decided on it. */
  lemma GreedyKeep(cands: seq<Edge>, planar: set<Edge> -> bool, i: nat, kept: seq<Edge>)
    requires Distinct(cands) && i < |cands| && Greedy(cands, planar, i, ToSet(kept))
    ensures Greedy(cands, planar, i + 1, ToSet(Keep(kept, cands[i], planar)))
  {
    var e := cands[i];
    assert ToSet(Keep(kept, e, planar)) == if planar(ToSet(kept) + {e}) then ToSet(kept) + {e} else ToSet(kept);
    GreedyStep(cands, planar, i, ToSet(kept));
  }

  lemma {:induction false} LoopGreedy(cands: seq<Edge>, limit: int, maxEdges: int, planar: set<Edge> -> bool, i: nat, kept: seq<Edge>)
    requires Distinct(cands) && i <= |cands| && Greedy(cands, planar, i, ToSet(kept))
    ensures var r := Loop(cands, limit, maxEdges, planar, i, kept);
      i <= r.iterations <= |cands| && Greedy(cands, planar, r.iterations, ToSet(r.kept))
    decreases |cands| - i
  {
    if i < |cands| && i < limit {
      var kept' := Keep(kept, cands[i], planar);
      GreedyKeep(cands, planar, i, kept);
      if |ToSet(kept')| < maxEdges {
        LoopGo(cands, limit, maxEdges, planar, i, kept);
        LoopGreedy(cands, limit, maxEdges, planar, i + 1, kept');
      } else {
        LoopStop(cands, limit, maxEdges, planar, i, kept);
      }
    } else {
      assert Loop(cands, limit, maxEdges, planar, i, kept) == Run(kept, i);
    }
  }

  /**
    Every edge kept passed the planarity test at the moment it was added:
    each prefix of the kept sequence, which is the graph just after that
    edge was added, is accepted.
   */
  lemma {:induction false} LoopPlanarThroughout(cands: seq<Edge>, limit: int, maxEdges: int, planar: set<Edge> -> bool, i: nat, kept: seq<Edge>)
    requires i <= |cands|
    requires PlanarThroughout(kept, planar)
    ensures PlanarThroughout(Loop(cands, limit, maxEdges, planar, i, kept).kept, planar)
    decreases |cands| - i
  {
    if i < |cands| && i < limit {
      var kept' := Keep(kept, cands[i], planar);
      PlanarStep(kept, cands[i], planar);
      if |ToSet(kept')| < maxEdges {
        LoopGo(cands, limit, maxEdges, planar, i, kept);
        LoopPlanarThroughout(cands, limit, maxEdges, planar, i + 1, kept');
      } else {
        LoopStop(cands, limit, maxEdges, planar, i, kept);
      }
    } else {
      assert Loop(cands, limit, maxEdges, planar, i, kept) == Run(kept, i);
    }
  }

  /** An edge is kept only when the test accepts the graph with it, which is the newest prefix. */
  lemma PlanarStep(kept: seq<Edge>, e: Edge, planar: set<Edge> -> bool)
    requires PlanarThroughout(kept, planar)
    ensures PlanarThroughout(Keep(kept, e, planar), planar)
  {
    if planar(ToSet(kept) + {e}) {
      var kept' := kept + [e];
      forall k | 0 <= k < |kept'| ensures planar(KeptUpTo(kept', k)) {
        if k < |kept| {
          assert kept'[..k + 1] == kept[..k + 1];
          assert KeptUpTo(kept', k) == KeptUpTo(kept, k);
        } else {
          assert kept'[..k + 1] == kept';
          assert KeptUpTo(kept', k) == ToSet(kept) + {e};
        }
      }
    }
  }

  /** The kept edges are distinct, sorted by distance, and all among the candidates scanned. */
  predicate OrderedRun(D: Matrix, cands: seq<Edge>, r: Run)
    requires r.iterations <= |cands|
  {
    Distinct(r.kept) && WeightSorted(D, r.kept) && forall e :: e in r.kept ==> e in cands[..r.iterations]
  }

  /** a is a subsequence of b: its elements occur in b in the same order. */
  predicate Subsequence(a: seq<Edge>, b: seq<Edge>)
    decreases |b|
  {
    if |b| == 0 then a == []
    else
      || (a != [] && a[|a| - 1] == b[|b| - 1] && Subsequence(a[..|a| - 1], b[..|b| - 1]))
      || Subsequence(a, b[..|b| - 1])
  }

  /** The loop keeps candidates in the order it scans them: the kept edges are a subsequence of the scanned candidates. */
  lemma {:induction false} LoopSubsequence(cands: seq<Edge>, limit: int, maxEdges: int, planar: set<Edge> -> bool, i: nat, kept: seq<Edge>)
    requires i <= |cands| && Subsequence(kept, cands[..i])
    ensures var r := Loop(cands, limit, maxEdges, planar, i, kept);
      Subsequence(r.kept, cands[..r.iterations])
    decreases |cands| - i
  {
    if i < |cands| && i < limit {
      var kept' := Keep(kept, cands[i], planar);
      SubsequenceStep(cands, planar, i, kept);
      if |ToSet(kept')| < maxEdges {
        LoopGo(cands, limit, maxEdges, planar, i, kept);
        LoopSubsequence(cands, limit, maxEdges, planar, i + 1, kept');
      } else {
        LoopStop(cands, limit, maxEdges, planar, i, kept);
      }
    } else {
      assert Loop(cands, limit, maxEdges, planar, i, kept) == Run(kept, i);
    }
  }

  /** Keeping or skipping candidate i keeps the kept edges a subsequence of the scanned ones. */
  lemma SubsequenceStep(cands: seq<Edge>, planar: set<Edge> -> bool, i: nat, kept: seq<Edge>)
    requires i < |cands| && Subsequence(kept, cands[..i])
    ensures Subsequence(Keep(kept, cands[i], planar), cands[..i + 1])
  {
    assert cands[..i + 1][..i] == cands[..i];
    if planar(ToSet(kept) + {cands[i]}) {
      assert (kept + [cands[i]])[..|kept|] == kept;
    }
  }

  /** A prefix of a distinct sequence sorted by distance is distinct and sorted. */
  lemma PrefixOrdered(D: Matrix, s: seq<Edge>, n: nat)
    requires n <= |s| && Distinct(s) && WeightSorted(D, s)
    ensures Distinct(s[..n]) && WeightSorted(D, s[..n])
  {
    forall i, j | 0 <= i < j < n ensures s[..n][i] != s[..n][j] && Weight(D, s[..n][i]) <= Weight(D, s[..n][j]) {
      assert s[..n][i] == s[i] && s[..n][j] == s[j];
    }
  }

  /** A subsequence of a distinct sequence sorted by distance is distinct, sorted and drawn from it. */
  lemma {:induction false} SubsequenceOrdered(D: Matrix, a: seq<Edge>, b: seq<Edge>)
    requires Distinct(b) && WeightSorted(D, b) && Subsequence(a, b)
    ensures Distinct(a) && WeightSorted(D, a) && forall e :: e in a ==> e in b
    decreases |b|
  {
    if |b| > 0 {
      var b' := b[..|b| - 1];
      var y := b[|b| - 1];
      PrefixOrdered(D, b, |b| - 1);
      if a != [] && a[|a| - 1] == y && Subsequence(a[..|a| - 1], b') {
        var a' := a[..|a| - 1];
        SubsequenceOrdered(D, a', b');
        SubsequenceAppend(D, a', b, y);
        assert a == a' + [y];
      } else {
        SubsequenceOrdered(D, a, b');
        forall e | e in a ensures e in b {
          var j :| 0 <= j < |b'| && b'[j] == e;
          assert b[j] == e;
        }
      }
    }
  }

  /** Appending the last element y of b to an ordered subsequence of the rest of b keeps it ordered. */
  lemma SubsequenceAppend(D: Matrix, a': seq<Edge>, b: seq<Edge>, y: Edge)
    requires |b| > 0 && y == b[|b| - 1] && Distinct(b) && WeightSorted(D, b)
    requires Distinct(a') && WeightSorted(D, a') && forall e :: e in a' ==> e in b[..|b| - 1]
    ensures Distinct(a' + [y]) && WeightSorted(D, a' + [y]) && forall e :: e in a' + [y] ==> e in b
  {
    var b' := b[..|b| - 1];
    forall e | e in a' ensures e in b && e != y && Weight(D, e) <= Weight(D, y) {
      var j :| 0 <= j < |b'| && b'[j] == e;
      assert b[j] == e;
    }
    var a := a' + [y];
    forall i, j | 0 <= i < j < |a| ensures a[i] != a[j] && Weight(D, a[i]) <= Weight(D, a[j]) {
      assert a[i] == a'[i] && a[i] in a';
      if j < |a'| {
        assert a[j] == a'[j];
      }
    }
  }

  /**
    Edges are kept in the order they are scanned: with candidates sorted by
    ascending distance, the kept edges are too, and they are distinct.
   */
  lemma LoopOrder(D: Matrix, cands: seq<Edge>, limit: int, maxEdges: int, planar: set<Edge> -> bool)
    requires Distinct(cands) && WeightSorted(D, cands)
    ensures OrderedRun(D, cands, Loop(cands, limit, maxEdges, planar, 0, []))
  {
    var r := Loop(cands, limit, maxEdges, planar, 0, []);
    assert cands[..0] == [];
    LoopSubsequence(cands, limit, maxEdges, planar, 0, []);
    PrefixOrdered(D, cands, r.iterations);
    SubsequenceOrdered(D, r.kept, cands[..r.iterations]);
  }

  /** The last candidate scanned was kept: it is the last kept edge. */
  predicate StoppedOnKeep(cands: seq<Edge>, r: Run) {
    0 < r.iterations <= |cands| && r.kept != [] && r.kept[|r.kept| - 1] == cands[r.iterations - 1]
  }

  /**
    The edge bound: started below the target 3(n-2), the loop never exceeds
    it, and if it reaches it, it stopped right after the candidate that
    completed it.
   */
  lemma {:induction false} LoopBound(cands: seq<Edge>, limit: int, maxEdges: int, planar: set<Edge> -> bool, i: nat, kept: seq<Edge>)
    requires i <= |cands| && |ToSet(kept)| < maxEdges
    ensures var r := Loop(cands, limit, maxEdges, planar, i, kept);
      && |ToSet(r.kept)| <= maxEdges
      && (|ToSet(r.kept)| == maxEdges ==> StoppedOnKeep(cands, r))
    decreases |cands| - i
  {
    if i < |cands| && i < limit {
      var kept' := Keep(kept, cands[i], planar);
      BoundStep(cands, planar, i, kept);
      if |ToSet(kept')| < maxEdges {
        LoopGo(cands, limit, maxEdges, planar, i, kept);
        LoopBound(cands, limit, maxEdges, planar, i + 1, kept');
      } else {
        LoopStop(cands, limit, maxEdges, planar, i, kept);
        assert StoppedOnKeep(cands, Run(kept', i + 1));
      }
    } else {
      assert Loop(cands, limit, maxEdges, planar, i, kept) == Run(kept, i);
    }
  }

  /** One step adds at most one edge, and an edge it adds is the candidate just scanned, now last. */
  lemma BoundStep(cands: seq<Edge>, planar: set<Edge> -> bool, i: nat, kept: seq<Edge>)
    requires i < |cands|
    ensures var kept' := Keep(kept, cands[i], planar);
      && |ToSet(kept')| <= |ToSet(kept)| + 1
      && (|ToSet(kept')| != |ToSet(kept)| ==> kept' != [] && kept'[|kept'| - 1] == cands[i])
  {
    assert ToSet(kept + [cands[i]]) == ToSet(kept) + {cands[i]};
  }

  /**
    The exit rule: a loop that ends below the target ran through every
    candidate `max_iterations` allowed.
   */
  lemma {:induction false} LoopExit(cands: seq<Edge>, limit: int, maxEdges: int, planar: set<Edge> -> bool, i: nat, kept: seq<Edge>)
    requires i <= |cands|
    ensures var r := Loop(cands, limit, maxEdges, planar, i, kept);
      |ToSet(r.kept)| < maxEdges ==> r.iterations == if limit <= i then i else if limit < |cands| then limit else |cands|
    decreases |cands| - i
  {
    if i < |cands| && i < limit {
      var kept' := Keep(kept, cands[i], planar);
      if |ToSet(kept')| < maxEdges {
        LoopGo(cands, limit, maxEdges, planar, i, kept);
        LoopExit(cands, limit, maxEdges, planar, i + 1, kept');
      } else {
        LoopStop(cands, limit, maxEdges, planar, i, kept);
      }
    } else {
      assert Loop(cands, limit, maxEdges, planar, i, kept) == Run(kept, i);
    }
  }

  /**
    The PMFG's graph: nodes 0..n-1; its edges are exactly the kept ones, each
    a pair of the complete graph weighted by its distance; kept edges come in
    ascending distance order, each once.
   */
  lemma PmfgShape(D: Matrix, maxIterations: Option<int>, planar: set<Edge> -> bool)
    ensures var g := PmfgGraph(D, maxIterations, planar);
      var r := PmfgRun(D, maxIterations, planar);
      && g.nodes == Nodes(|D|)
      && g.weights.Keys == ToSet(r.kept)
      && (forall e :: e in g.weights ==> ValidEdge(|D|, e) && g.weights[e] == Weight(D, e))
      && Distinct(r.kept) && WeightSorted(D, r.kept)
  {
    var cands := SortedCandidates(D);
    var r := PmfgRun(D, maxIterations, planar);
    var g := PmfgGraph(D, maxIterations, planar);
    LoopOrder(D, cands, Limit(maxIterations, |cands|), MaxEdges(|D|), planar);
    KeptValid(|D|, cands, r);
  }

  /** Edges kept from among the scanned candidates are pairs of the complete graph when every candidate is. */
  lemma KeptValid(n: nat, cands: seq<Edge>, r: Run)
    requires r.iterations <= |cands|
    requires forall e :: e in cands ==> ValidEdge(n, e)
    requires forall e :: e in r.kept ==> e in cands[..r.iterations]
    ensures forall e :: e in ToSet(r.kept) ==> ValidEdge(n, e)
  {
    forall e | e in ToSet(r.kept) ensures ValidEdge(n, e) {
      assert e in cands[..r.iterations];
    }
  }

  /** The graph's edges are the kept edges, so it has as many edges as distinct kept edges. */
  lemma PmfgKeys(D: Matrix, maxIterations: Option<int>, planar: set<Edge> -> bool)
    ensures var g := PmfgGraph(D, maxIterations, planar);
      var r := PmfgRun(D, maxIterations, planar);
      g.weights.Keys == ToSet(r.kept) && |g.weights| == |ToSet(r.kept)|
  {
    var g := PmfgGraph(D, maxIterations, planar);
    assert |g.weights| == |g.weights.Keys|;
  }

  /**
    The edge count for n >= 3: at most 3(n-2); and if it reaches 3(n-2),
    the loop stopped right after keeping the candidate that completed it.
   */
  lemma PmfgBound(D: Matrix, maxIterations: Option<int>, planar: set<Edge> -> bool)
    requires |D| >= 3
    ensures var g := PmfgGraph(D, maxIterations, planar);
      var r := PmfgRun(D, maxIterations, planar);
      && |g.weights| <= MaxEdges(|D|)
      && (|g.weights| == MaxEdges(|D|) ==> StoppedOnKeep(SortedCandidates(D), r))
  {
    var cands := SortedCandidates(D);
    PmfgKeys(D, maxIterations, planar);
    assert ToSet<Edge>([]) == {};
    LoopBound(cands, Limit(maxIterations, |cands|), MaxEdges(|D|), planar, 0, []);
  }

  /**
    The edge count for n = 2, where 3(n-2) = 0: the count is only compared
    after the first edge went in, so the one pair of the complete graph is
    kept when the test accepts it.
   */
  lemma PmfgTwoNodes(D: Matrix, maxIterations: Option<int>, planar: set<Edge> -> bool)
    requires |D| == 2
    ensures |PmfgGraph(D, maxIterations, planar).weights| <= 1
  {
    var cands := SortedCandidates(D);
    var r := PmfgRun(D, maxIterations, planar);
    PmfgKeys(D, maxIterations, planar);
    LoopOrder(D, cands, Limit(maxIterations, |cands|), MaxEdges(2), planar);
    assert ToSet(r.kept) <= {Edge(0, 1)} by {
      forall e | e in ToSet(r.kept) ensures e == Edge(0, 1) {
        assert e in cands[..r.iterations];
        assert ValidEdge(2, e);
      }
    }
    if Edge(0, 1) in ToSet(r.kept) {
      assert ToSet(r.kept) == {Edge(0, 1)};
    } else {
      assert ToSet(r.kept) == {};
    }
  }

  /**
    The exit rule: a graph left below 3(n-2) edges means the loop scanned
    every candidate `max_iterations` allowed.
   */
  lemma PmfgExit(D: Matrix, maxIterations: Option<int>, planar: set<Edge> -> bool)
    ensures var r := PmfgRun(D, maxIterations, planar);
      var cands := SortedCandidates(D);
      var limit := Limit(maxIterations, |cands|);
      |PmfgGraph(D, maxIterations, planar).weights| < MaxEdges(|D|) ==>
        r.iterations == if limit <= 0 then 0 else if limit < |cands| then limit else |cands|
  {
    var cands := SortedCandidates(D);
    PmfgKeys(D, maxIterations, planar);
    LoopExit(cands, Limit(maxIterations, |cands|), MaxEdges(|D|), planar, 0, []);
  }

  /** Every kept edge passed the planarity test together with the edges kept before it. */
  lemma PmfgPlanar(D: Matrix, maxIterations: Option<int>, planar: set<Edge> -> bool)
    ensures PlanarThroughout(PmfgRun(D, maxIterations, planar).kept, planar)
  {
    var cands := SortedCandidates(D);
    LoopPlanarThroughout(cands, Limit(maxIterations, |cands|), MaxEdges(|D|), planar, 0, []);
  }

  /**
    The greedy rule: of the candidates scanned, one is kept exactly when the
    planarity test accepted it together with the candidates kept before it.
   */
  lemma PmfgGreedy(D: Matrix, maxIterations: Option<int>, planar: set<Edge> -> bool)
    ensures var r := PmfgRun(D, maxIterations, planar);
      r.iterations <= |SortedCandidates(D)| && Greedy(SortedCandidates(D), planar, r.iterations, ToSet(r.kept))
  {
    var cands := SortedCandidates(D);
    assert ToSet<Edge>([]) == {};
    assert Greedy(cands, planar, 0, {});
    LoopGreedy(cands, Limit(maxIterations, |cands|), MaxEdges(|D|), planar, 0, []);
  }
}
