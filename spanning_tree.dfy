/**
  `CorrelationFilter.minimum_spanning_tree`: the complete graph on 0..n-1
  weighted by the upper triangle of the distance matrix, reduced to a
  minimum spanning tree by networkx's default algorithm, Kruskal's: scan the
  edges by ascending weight and keep an edge exactly when its endpoints lie
  in different components of the edges kept so far.

  The union-find structure is modelled as a component label per node; which
  root a union keeps does not change which edges are kept.
 */
module SpanningTree {

  import opened Matrices
  import opened Graphs
  import opened Candidates

  /** Kruskal's state: a component label for every node, and the kept edges in the order they were kept. */
  datatype Forest = Forest(comp: seq<nat>, edges: seq<Edge>)

  /** Every node labelled `from` is relabelled `to` (the union of two components). */
  function Relabel(comp: seq<nat>, from: nat, to: nat): (r: seq<nat>)
    ensures |r| == |comp|
  {
    seq(|comp|, x requires 0 <= x < |comp| => if comp[x] == from then to else comp[x])
  }

  /**
    The scan over the sorted candidates. It labels the same nodes, keeps
    the edges kept before it, and appends only scanned candidates, at most
    one per candidate.
   */
  function Kruskal(n: nat, cands: seq<Edge>, s: Forest): (r: Forest)
    requires |s.comp| == n
    requires forall e :: e in cands ==> ValidEdge(n, e)
    ensures |r.comp| == n
    ensures |s.edges| <= |r.edges| <= |s.edges| + |cands| && r.edges[..|s.edges|] == s.edges
    ensures forall k :: |s.edges| <= k < |r.edges| ==> r.edges[k] in cands
    decreases |cands|
  {
    if cands == [] then s
    else
      var e := cands[0];
      assert e in cands && ValidEdge(n, e);
      if s.comp[e.u] != s.comp[e.v] then
        Kruskal(n, cands[1..], Forest(Relabel(s.comp, s.comp[e.v], s.comp[e.u]), s.edges + [e]))
      else
        Kruskal(n, cands[1..], s)
  }

  /** No edge closes a cycle with the edges kept before it. */
  ghost predicate AcyclicOrder(es: seq<Edge>) {
    forall k :: 0 <= k < |es| ==> !Connected(ToSet(es[..k]), es[k].u, es[k].v)
  }

  /**
    E is a forest: it can be listed so that every edge joins two nodes the
    edges before it leave unconnected (so no edge lies on a cycle).
   */
  ghost predicate Acyclic(E: set<Edge>) {
    exists es :: ToSet(es) == E && AcyclicOrder(es)
  }

  /** The invariant of the scan. */
  ghost predicate Inv(n: nat, s: Forest) {
    && |s.comp| == n
    && (forall x :: 0 <= x < n ==> s.comp[x] < n)
    && (forall e :: e in s.edges ==> ValidEdge(n, e) && s.comp[e.u] == s.comp[e.v])
    && (forall x :: 0 <= x < n ==> Connected(ToSet(s.edges), x, s.comp[x]))
    && AcyclicOrder(s.edges)
    && |s.edges| + |ToSet(s.comp)| == n
  }

  /** Before the scan: every node is its own component, no edge kept. */
  function Initial(n: nat): (s: Forest)
    ensures Inv(n, s)
  {
    var s := Forest(seq(n, x requires 0 <= x < n => x), []);
    assert ToSet(s.comp) == Nodes(n) by {
      forall x: nat | x < n ensures x in ToSet(s.comp) {
        assert s.comp[x] == x;
      }
    }
    NodesCard(n);
    forall x | 0 <= x < n ensures Connected(ToSet(s.edges), x, s.comp[x]) {
      ConnectedRefl(ToSet(s.edges), x);
    }
    s
  }

  lemma AcyclicOrderDistinct(es: seq<Edge>)
    requires AcyclicOrder(es)
    ensures Distinct(es)
  {
    forall i, j | 0 <= i < j < |es| ensures es[i] != es[j] {
      if es[i] == es[j] {
        assert es[i] in es[..j];
        ConnectedByEdge(ToSet(es[..j]), es[j].u, es[j].v);
        assert false;
      }
    }
  }

  /** Keeping an edge between two components preserves the invariant. */
  lemma KeepPreserves(n: nat, s: Forest, e: Edge)
    requires Inv(n, s) && ValidEdge(n, e) && s.comp[e.u] != s.comp[e.v]
    ensures Inv(n, Forest(Relabel(s.comp, s.comp[e.v], s.comp[e.u]), s.edges + [e]))
  {
    KeepLabels(n, s, e);
    KeepConnected(n, s, e);
    KeepAcyclic(n, s, e);
    KeepCount(n, s, e);
  }

  /** After the union, labels stay below n and every kept edge joins equally labelled nodes. */
  lemma KeepLabels(n: nat, s: Forest, e: Edge)
    requires Inv(n, s) && ValidEdge(n, e) && s.comp[e.u] != s.comp[e.v]
    ensures var c := Relabel(s.comp, s.comp[e.v], s.comp[e.u]);
      && (forall x :: 0 <= x < n ==> c[x] < n)
      && (forall f :: f in s.edges + [e] ==> ValidEdge(n, f) && c[f.u] == c[f.v])
  {
    var c := Relabel(s.comp, s.comp[e.v], s.comp[e.u]);
    var es := s.edges + [e];
    forall f | f in es ensures ValidEdge(n, f) && c[f.u] == c[f.v] {
      if f != e {
        assert f in s.edges;
      }
    }
  }

  /** After the union, every node is still connected to its label. */
  lemma KeepConnected(n: nat, s: Forest, e: Edge)
    requires Inv(n, s) && ValidEdge(n, e) && s.comp[e.u] != s.comp[e.v]
    ensures var c := Relabel(s.comp, s.comp[e.v], s.comp[e.u]);
      forall x :: 0 <= x < n ==> Connected(ToSet(s.edges + [e]), x, c[x])
  {
    var from, to := s.comp[e.v], s.comp[e.u];
    var c := Relabel(s.comp, from, to);
    var E, E' := ToSet(s.edges), ToSet(s.edges + [e]);
    assert E' == E + {e};
    forall x | 0 <= x < n ensures Connected(E', x, c[x]) {
      ConnectedMono(E, E', x, s.comp[x]);
      if s.comp[x] == from {
        ConnectedMono(E, E', e.v, from);
        ConnectedSym(E', e.v, from);
        ConnectedByEdge(E', e.v, e.u);
        ConnectedMono(E, E', e.u, to);
        ConnectedTrans(E', x, from, e.v);
        ConnectedTrans(E', x, e.v, e.u);
        ConnectedTrans(E', x, e.u, to);
      }
    }
  }

  /** The new edge does not close a cycle. */
  lemma KeepAcyclic(n: nat, s: Forest, e: Edge)
    requires Inv(n, s) && ValidEdge(n, e) && s.comp[e.u] != s.comp[e.v]
    ensures AcyclicOrder(s.edges + [e])
  {
    var es := s.edges + [e];
    forall k | 0 <= k < |es| ensures !Connected(ToSet(es[..k]), es[k].u, es[k].v) {
      if k < |s.edges| {
        assert es[..k] == s.edges[..k];
      } else {
        assert es[..k] == s.edges;
        if Connected(ToSet(s.edges), e.u, e.v) {
          ConnectedSameLabel(ToSet(s.edges), s.comp, e.u, e.v);
        }
      }
    }
  }

  /** One component fewer, one edge more. */
  lemma KeepCount(n: nat, s: Forest, e: Edge)
    requires Inv(n, s) && ValidEdge(n, e) && s.comp[e.u] != s.comp[e.v]
    ensures |s.edges + [e]| + |ToSet(Relabel(s.comp, s.comp[e.v], s.comp[e.u]))| == n
  {
    var from, to := s.comp[e.v], s.comp[e.u];
    var c := Relabel(s.comp, from, to);
    assert ToSet(c) == ToSet(s.comp) - {from} by {
      forall l | l in ToSet(c) ensures l in ToSet(s.comp) - {from} {
        var x :| 0 <= x < n && c[x] == l;
      }
      forall l | l in ToSet(s.comp) - {from} ensures l in ToSet(c) {
        var x :| 0 <= x < n && s.comp[x] == l;
        assert c[x] == l;
      }
    }
    assert from in ToSet(s.comp);
  }

  /**
    The scan keeps the invariant; afterwards the endpoints of every scanned
    candidate share a component, and nodes that shared one still do.
   */
  lemma {:induction false} KruskalInvariant(n: nat, cands: seq<Edge>, s: Forest)
    requires Inv(n, s)
    requires forall e :: e in cands ==> ValidEdge(n, e)
    ensures var r := Kruskal(n, cands, s);
      && Inv(n, r)
      && (forall e :: e in cands ==> r.comp[e.u] == r.comp[e.v])
      && (forall x, y :: 0 <= x < n && 0 <= y < n && s.comp[x] == s.comp[y] ==> r.comp[x] == r.comp[y])
    decreases |cands|
  {
    if cands != [] {
      var e := cands[0];
      assert e in cands && ValidEdge(n, e);
      var rest := cands[1..];
      assert forall f :: f in rest ==> f in cands;
      assert forall f :: f in cands ==> f == e || f in rest;
      var r := Kruskal(n, cands, s);
      if s.comp[e.u] != s.comp[e.v] {
        var s' := Forest(Relabel(s.comp, s.comp[e.v], s.comp[e.u]), s.edges + [e]);
        KeepPreserves(n, s, e);
        KruskalInvariant(n, rest, s');
        assert r == Kruskal(n, rest, s');
        assert s'.comp[e.u] == s'.comp[e.v];
        assert forall x, y :: 0 <= x < n && 0 <= y < n && s.comp[x] == s.comp[y] ==> s'.comp[x] == s'.comp[y];
      } else {
        KruskalInvariant(n, rest, s);
        assert r == Kruskal(n, rest, s);
      }
    }
  }

  /** Kruskal's scan over all pairs, by ascending distance: the kept edges in the order they were kept. */
  function KruskalOrder(D: Matrix): seq<Edge> {
    Kruskal(|D|, SortedCandidates(D), Initial(|D|)).edges
  }

  /** Kruskal's scan keeps only pairs of the complete graph. */
  lemma KruskalOrderValid(D: Matrix)
    ensures forall e :: e in KruskalOrder(D) ==> ValidEdge(|D|, e)
  {
    var es := KruskalOrder(D);
    forall e | e in es ensures ValidEdge(|D|, e) {
      var k :| 0 <= k < |es| && es[k] == e;
      assert es[k] in SortedCandidates(D);
    }
  }

  /**
    The networkx result. Its node set is that of the complete graph, which
    only gets nodes through `add_edge`: for n < 2 it has none.
   */
  function MinimumSpanningTree(D: Matrix): (g: Graph)
    ensures forall e :: e in g.weights ==> ValidEdge(|D|, e) && e.u in g.nodes && e.v in g.nodes
  {
    var n := |D|;
    KruskalOrderValid(D);
    Graph(if n >= 2 then Nodes(n) else {}, map e | e in ToSet(KruskalOrder(D)) :: Weight(D, e))
  }

  /**
    A scan over a list holding every pair of the complete graph ends with a
    single component: the kept edges connect every node to every other, and
    there are n - 1 of them.
   */
  lemma KruskalSpans(n: nat, cands: seq<Edge>)
    requires n >= 1
    requires forall e :: e in cands <==> ValidEdge(n, e)
    ensures var r := Kruskal(n, cands, Initial(n));
      && (forall e :: e in r.edges ==> ValidEdge(n, e))
      && AcyclicOrder(r.edges)
      && |ToSet(r.edges)| == n - 1
      && (forall x, y :: 0 <= x < n && 0 <= y < n ==> Connected(ToSet(r.edges), x, y))
  {
    var r := Kruskal(n, cands, Initial(n));
    KruskalInvariant(n, cands, Initial(n));
    OneComponent(n, r);
    AcyclicOrderDistinct(r.edges);
    DistinctCard(r.edges);
    var E := ToSet(r.edges);
    forall x, y | 0 <= x < n && 0 <= y < n ensures Connected(E, x, y) {
      ConnectedSym(E, y, r.comp[y]);
      ConnectedTrans(E, x, r.comp[x], y);
    }
  }

  /** When the endpoints of every pair share a label, all nodes carry one label. */
  lemma OneComponent(n: nat, r: Forest)
    requires n >= 1 && |r.comp| == n
    requires forall e :: ValidEdge(n, e) ==> r.comp[e.u] == r.comp[e.v]
    ensures forall x :: 0 <= x < n ==> r.comp[x] == r.comp[0]
    ensures ToSet(r.comp) == {r.comp[0]}
  {
    forall x | 0 <= x < n ensures r.comp[x] == r.comp[0] {
      if x > 0 {
        assert ValidEdge(n, Edge(0, x));
      }
    }
  }

  /** Over the complete graph the scan keeps n - 1 upper-triangle pairs. */
  lemma KruskalCount(n: nat, cands: seq<Edge>)
    requires n >= 1
    requires forall e :: e in cands <==> ValidEdge(n, e)
    ensures var r := Kruskal(n, cands, Initial(n));
      && (forall e :: e in r.edges ==> ValidEdge(n, e))
      && |ToSet(r.edges)| == n - 1
  {
    KruskalSpans(n, cands);
  }

  /** The tree's edges are exactly the edges Kruskal's scan kept. */
  lemma MstKeys(D: Matrix)
    ensures MinimumSpanningTree(D).weights.Keys == ToSet(KruskalOrder(D))
  {
  }

  /**
    Over the complete graph on n >= 1 nodes the result has exactly n - 1
    edges, every edge an upper-triangle pair weighted by its distance-matrix
    entry.
   */
  lemma MstShape(D: Matrix)
    requires IsMatrix(D, |D|) && |D| >= 1
    ensures var g := MinimumSpanningTree(D);
      && |g.weights| == |D| - 1
      && (forall e :: e in g.weights ==> ValidEdge(|D|, e) && g.weights[e] == D[e.u][e.v])
      && g.nodes == (if |D| >= 2 then Nodes(|D|) else {})
  {
    var g := MinimumSpanningTree(D);
    MstCount(D);
    forall e | e in g.weights ensures g.weights[e] == D[e.u][e.v] {
      assert ValidEdge(|D|, e) && |D[e.u]| == |D|;
      assert g.weights[e] == Weight(D, e);
    }
  }

  /** Over the complete graph on n >= 1 nodes the tree has n - 1 edges. */
  lemma MstCount(D: Matrix)
    requires |D| >= 1
    ensures |MinimumSpanningTree(D).weights| == |D| - 1
  {
    KruskalCount(|D|, SortedCandidates(D));
    MstKeys(D);
    var g := MinimumSpanningTree(D);
    assert |g.weights| == |g.weights.Keys|;
  }

  /** Over the complete graph on n >= 1 nodes the result is a spanning tree: connected and acyclic. */
  lemma MstSpanning(D: Matrix)
    requires |D| >= 1
    ensures var g := MinimumSpanningTree(D);
      && (forall x, y :: 0 <= x < |D| && 0 <= y < |D| ==> Connected(g.weights.Keys, x, y))
      && Acyclic(g.weights.Keys)
  {
    var n := |D|;
    var cands := SortedCandidates(D);
    KruskalSpans(n, cands);
    var es := KruskalOrder(D);
    MstKeys(D);
    assert ToSet(es) == MinimumSpanningTree(D).weights.Keys && AcyclicOrder(es);
  }
}
