/**
  `CorrelationFilter.triangulated_maximally_filtered_graph` (TMFG, the
  simplified greedy version of the source): for n <= 20 it is the PMFG;
  otherwise it starts from the complete graph on nodes 0..3 and inserts the
  remaining nodes one at a time, each joined to the three corners of a
  triangle of the current graph, choosing among the first five remaining
  nodes and all triangles the pair with the smallest sum of distances.

  networkx keeps the nodes of a graph in insertion order; `order` is that
  order. `nx.enumerate_all_cliques` lists the 3-cliques {x, y, z} with x, y, z
  at positions p < q < r of that order lexicographically by (p, q, r);
  `Triangles` lists them the same way.
 */
module Triangulated {

  import opened Wrappers
  import opened Matrices
  import opened Graphs
  import opened Planar

  // ---------------------------------------------------------------------------
  // Triangles of the current graph
  // ---------------------------------------------------------------------------

  /** A 3-clique, its corners in the order the enumeration lists them. */
  datatype Tri = Tri(a: nat, b: nat, c: nat)

  /** Three distinct nodes, pairwise joined by edges of E. */
  predicate IsTriangle(E: set<Edge>, t: Tri) {
    && t.a != t.b && t.a != t.c && t.b != t.c
    && Adjacent(E, t.a, t.b) && Adjacent(E, t.a, t.c) && Adjacent(E, t.b, t.c)
  }

  /** A triangle of E on nodes of the graph. */
  predicate InGraph(order: seq<nat>, E: set<Edge>, t: Tri) {
    IsTriangle(E, t) && t.a in order && t.b in order && t.c in order
  }

  /** The triangles at positions (p, q, r'), r' = r, r+1, ... */
  function Thirds(order: seq<nat>, E: set<Edge>, p: nat, q: nat, r: nat): (ts: seq<Tri>)
    requires p < |order| && q < |order|
    ensures forall t :: t in ts ==> InGraph(order, E, t)
    decreases |order| - r
  {
    if r >= |order| then []
    else
      var t := Tri(order[p], order[q], order[r]);
      (if IsTriangle(E, t) then [t] else []) + Thirds(order, E, p, q, r + 1)
  }

  /** The triangles at positions (p, q', r), q' = q, q+1, ..., q' < r. */
  function Seconds(order: seq<nat>, E: set<Edge>, p: nat, q: nat): (ts: seq<Tri>)
    requires p < |order|
    ensures forall t :: t in ts ==> InGraph(order, E, t)
    decreases |order| - q
  {
    if q >= |order| then []
    else Thirds(order, E, p, q, q + 1) + Seconds(order, E, p, q + 1)
  }

  /** The triangles at positions (p', q, r), p' = p, p+1, ..., p' < q < r. */
  function Firsts(order: seq<nat>, E: set<Edge>, p: nat): (ts: seq<Tri>)
    ensures forall t :: t in ts ==> InGraph(order, E, t)
    decreases |order| - p
  {
    if p >= |order| then []
    else Seconds(order, E, p, p + 1) + Firsts(order, E, p + 1)
  }

  /** The 3-cliques of the graph in the order `enumerate_all_cliques` yields them. */
  function Triangles(order: seq<nat>, E: set<Edge>): (ts: seq<Tri>)
    ensures forall t :: t in ts ==> InGraph(order, E, t)
  {
    Firsts(order, E, 0)
  }

  lemma {:induction false} ThirdsComplete(order: seq<nat>, E: set<Edge>, p: nat, q: nat, r0: nat, r: nat)
    requires p < |order| && q < |order| && r0 <= r < |order|
    requires IsTriangle(E, Tri(order[p], order[q], order[r]))
    ensures Tri(order[p], order[q], order[r]) in Thirds(order, E, p, q, r0)
    decreases r - r0
  {
    if r0 < r {
      ThirdsComplete(order, E, p, q, r0 + 1, r);
    }
  }

  lemma {:induction false} SecondsComplete(order: seq<nat>, E: set<Edge>, p: nat, q0: nat, q: nat, r: nat)
    requires p < |order| && q0 <= q < r < |order|
    requires IsTriangle(E, Tri(order[p], order[q], order[r]))
    ensures Tri(order[p], order[q], order[r]) in Seconds(order, E, p, q0)
    decreases q - q0
  {
    var t := Tri(order[p], order[q], order[r]);
    assert Seconds(order, E, p, q0) == Thirds(order, E, p, q0, q0 + 1) + Seconds(order, E, p, q0 + 1);
    if q0 < q {
      SecondsComplete(order, E, p, q0 + 1, q, r);
      assert t in Seconds(order, E, p, q0 + 1);
    } else {
      ThirdsComplete(order, E, p, q, q + 1, r);
      assert t in Thirds(order, E, p, q0, q0 + 1);
    }
  }

  lemma {:induction false} FirstsComplete(order: seq<nat>, E: set<Edge>, p0: nat, p: nat, q: nat, r: nat)
    requires p0 <= p < q < r < |order|
    requires IsTriangle(E, Tri(order[p], order[q], order[r]))
    ensures Tri(order[p], order[q], order[r]) in Firsts(order, E, p0)
    decreases p - p0
  {
    if p0 < p {
      FirstsComplete(order, E, p0 + 1, p, q, r);
    } else {
      SecondsComplete(order, E, p, p + 1, q, r);
    }
  }

  /** Every 3-clique, its corners listed in node order, is enumerated. */
  lemma TrianglesComplete(order: seq<nat>, E: set<Edge>, p: nat, q: nat, r: nat)
    requires p < q < r < |order|
    requires IsTriangle(E, Tri(order[p], order[q], order[r]))
    ensures Tri(order[p], order[q], order[r]) in Triangles(order, E)
  {
    FirstsComplete(order, E, 0, p, q, r);
  }

  // ---------------------------------------------------------------------------
  // Choosing the node and the triangle
  // ---------------------------------------------------------------------------

  /** `sum(distance_matrix[node, v] for v in triangle)`. */
  function Score(D: Matrix, x: nat, t: Tri): real {
    Entry(D, x, t.a) + Entry(D, x, t.b) + Entry(D, x, t.c)
  }

  /** The chosen pair: a position among the candidate nodes and one among the triangles. */
  datatype Pick = Pick(nodeAt: nat, triAt: nat)

  /** The nested loops reach (i, j) before they reach the pair `p` (nodes outer, triangles inner). */
  predicate ScannedBefore(i: nat, j: nat, p: Pick) {
    i < p.nodeAt || (i == p.nodeAt && j < p.triAt)
  }

  /** (i, j) is among the pairs the loops have visited once they are at (k, l). */
  predicate Visited(i: nat, j: nat, k: nat, l: nat) {
    i < k || (i == k && j < l)
  }

  /** The score s of pair p against pair (i, j): strictly lower if (i, j) came first, no higher otherwise. */
  predicate Ranks(D: Matrix, nodes: seq<nat>, tris: seq<Tri>, p: Pick, s: real, i: nat, j: nat)
    requires i < |nodes| && j < |tris|
  {
    if ScannedBefore(i, j, p) then s < Score(D, nodes[i], tris[j]) else s <= Score(D, nodes[i], tris[j])
  }

  /**
    The pair with the smallest score, the first such pair in loop order on
    ties (the test is a strict `<` against a best score that starts at
    infinity); none exactly when there is no pair at all.
   */
  method SelectInsertion(D: Matrix, nodes: seq<nat>, tris: seq<Tri>) returns (best: Option<Pick>)
    ensures best.None? <==> nodes == [] || tris == []
    ensures best.Some? ==> best.value.nodeAt < |nodes| && best.value.triAt < |tris|
    ensures best.Some? ==> forall i, j :: 0 <= i < |nodes| && 0 <= j < |tris| ==>
      Score(D, nodes[best.value.nodeAt], tris[best.value.triAt]) <= Score(D, nodes[i], tris[j])
    ensures best.Some? ==> forall i, j :: 0 <= i < |nodes| && 0 <= j < |tris| && ScannedBefore(i, j, best.value) ==>
      Score(D, nodes[best.value.nodeAt], tris[best.value.triAt]) < Score(D, nodes[i], tris[j])
  {
    best := None;
    var bestScore := 0.0;
    for i := 0 to |nodes|
      invariant tris == [] ==> best.None?
      invariant tris != [] ==> (best.None? <==> i == 0)
      invariant best.Some? ==> best.value.nodeAt < i && best.value.triAt < |tris|
      invariant best.Some? ==> bestScore == Score(D, nodes[best.value.nodeAt], tris[best.value.triAt])
      invariant best.Some? ==> forall i', j' :: 0 <= i' < i && 0 <= j' < |tris| ==> Ranks(D, nodes, tris, best.value, bestScore, i', j')
    {
      for j := 0 to |tris|
        invariant tris != [] ==> (best.None? <==> i == 0 && j == 0)
        invariant best.Some? ==> Visited(best.value.nodeAt, best.value.triAt, i, j) && best.value.triAt < |tris|
        invariant best.Some? ==> bestScore == Score(D, nodes[best.value.nodeAt], tris[best.value.triAt])
        invariant best.Some? ==> forall i', j' :: 0 <= i' <= i && 0 <= j' < |tris| && Visited(i', j', i, j) ==>
          Ranks(D, nodes, tris, best.value, bestScore, i', j')
      {
        var score := Score(D, nodes[i], tris[j]);
        if best.None? || score < bestScore {
          forall i', j' | 0 <= i' <= i && 0 <= j' < |tris| && Visited(i', j', i, j + 1)
            ensures Ranks(D, nodes, tris, Pick(i, j), score, i', j')
          {
            if Visited(i', j', i, j) {
              assert Ranks(D, nodes, tris, best.value, bestScore, i', j');
            }
          }
          best := Some(Pick(i, j));
          bestScore := score;
        } else {
          assert Ranks(D, nodes, tris, best.value, bestScore, i, j);
        }
      }
    }
    if best.Some? {
      forall i, j | 0 <= i < |nodes| && 0 <= j < |tris|
        ensures bestScore <= Score(D, nodes[i], tris[j])
        ensures ScannedBefore(i, j, best.value) ==> bestScore < Score(D, nodes[i], tris[j])
      {
        assert Ranks(D, nodes, tris, best.value, bestScore, i, j);
      }
    }
  }

  // ---------------------------------------------------------------------------
  // The graph under construction
  // ---------------------------------------------------------------------------

  /** `list(range(lo, hi))`. */
  function Range(lo: nat, hi: nat): (s: seq<nat>)
    requires lo <= hi
    ensures |s| == hi - lo && forall k :: 0 <= k < |s| ==> s[k] == lo + k
  {
    seq(hi - lo, k requires 0 <= k => lo + k)
  }

  /** `list.remove`: drop the first occurrence of x. */
  function RemoveFirst(s: seq<nat>, x: nat): (r: seq<nat>)
    requires x in s
    ensures multiset(r) == multiset(s) - multiset{x}
  {
    if s[0] == x then
      assert s == [s[0]] + s[1..];
      s[1..]
    else
      assert s == [s[0]] + s[1..];
      [s[0]] + RemoveFirst(s[1..], x)
  }

  /** `complete_graph(4)` with weight distance_matrix[i, j] on each edge (i, j), i < j. */
  function Seed(D: Matrix): map<Edge, real> {
    map e | e in SeedEdges() :: Entry(D, e.u, e.v)
  }

  /** The first five remaining nodes (fewer when fewer remain). */
  function FirstFive(remaining: seq<nat>): (r: seq<nat>)
    ensures |r| <= 5 && (remaining != [] ==> r != [])
    ensures forall x :: x in r ==> x in remaining
    ensures |remaining| <= 5 ==> r == remaining
  {
    remaining[..if |remaining| < 5 then |remaining| else 5]
  }

  /** The position of x in `order`, |order| when x is absent. */
  function Position(order: seq<nat>, x: nat): (k: nat)
    ensures k <= |order| && (k < |order| <==> x in order)
    ensures k < |order| ==> order[k] == x
  {
    if order == [] then 0
    else if order[0] == x then 0
    else 1 + Position(order[1..], x)
  }

  /**
    The weight an edge carries: distance_matrix[u, v] on the seed edges, and
    distance_matrix[x, y] on every other edge, where x is the endpoint that
    was inserted later (the node being inserted) and y a triangle corner.
   */
  function InsertedWeight(D: Matrix, order: seq<nat>, e: Edge): (r: real)
    ensures r == Entry(D, e.u, e.v) || r == Entry(D, e.v, e.u)
  {
    if e.v < 4 then Entry(D, e.u, e.v)
    else if Position(order, e.u) < Position(order, e.v) then Entry(D, e.v, e.u)
    else Entry(D, e.u, e.v)
  }

  /**
    The invariant of the insertion loop. The node order starts with the seed
    0, 1, 2, 3; it and the remaining list hold every node once; every edge
    joins two nodes of the graph and carries its distance; the seed edges are
    still there; the graph has 3k - 6 edges on k nodes and is connected.
   */
  ghost predicate TmfgState(D: Matrix, n: nat, order: seq<nat>, remaining: seq<nat>, E: map<Edge, real>) {
    && NodeState(n, order, remaining)
    && EdgeState(D, n, order, E)
    && |E| == 3 * |order| - 6
    && (forall x :: x in order ==> Connected(E.Keys, 0, x))
  }

  /** The node order starts with the seed 0, 1, 2, 3, and it and the remaining list hold every node below n once. */
  predicate NodeState(n: nat, order: seq<nat>, remaining: seq<nat>) {
    && 4 <= |order| && order[0] == 0 && order[1] == 1 && order[2] == 2 && order[3] == 3
    && Distinct(order) && Distinct(remaining)
    && (forall x :: x in order ==> x < n)
    && (forall x :: x in remaining ==> 4 <= x < n && x !in order)
    && (forall x: nat :: x < n ==> x in order || x in remaining)
    && |order| + |remaining| == n
  }

  /** Every edge joins two nodes of the graph and carries its distance, and the seed edges are all there. */
  predicate EdgeState(D: Matrix, n: nat, order: seq<nat>, E: map<Edge, real>) {
    && (forall e :: e in E ==> ValidEdge(n, e) && e.u in order && e.v in order)
    && (forall e :: e in E ==> E[e] == InsertedWeight(D, order, e))
    && (forall i, j :: 0 <= i < j < 4 ==> Edge(i, j) in E)
  }

  /** The edges of `complete_graph(4)`. */
  function SeedEdges(): set<Edge> {
    {Edge(0, 1), Edge(0, 2), Edge(0, 3), Edge(1, 2), Edge(1, 3), Edge(2, 3)}
  }

  lemma SeedShape(D: Matrix)
    ensures Seed(D).Keys == SeedEdges() && |Seed(D)| == 6
    ensures forall e :: e in Seed(D) ==> e.u < e.v < 4 && Seed(D)[e] == Entry(D, e.u, e.v)
    ensures forall i, j :: 0 <= i < j < 4 ==> Edge(i, j) in Seed(D)
  {
    var E := Seed(D);
    var s0 := {Edge(0, 1), Edge(0, 2), Edge(0, 3)};
    var s1 := {Edge(1, 2), Edge(1, 3), Edge(2, 3)};
    assert |s0| == 3 && |s1| == 3;
    assert s0 !! s1;
    assert SeedEdges() == s0 + s1;
    assert |E| == |E.Keys|;
    forall e | e in E ensures e.u < e.v < 4 {
      assert e == Edge(0, 1) || e == Edge(0, 2) || e == Edge(0, 3) || e == Edge(1, 2) || e == Edge(1, 3) || e == Edge(2, 3);
    }
    forall i, j | 0 <= i < j < 4 ensures Edge(i, j) in E {
      if i == 0 {
        assert j == 1 || j == 2 || j == 3;
      } else if i == 1 {
        assert j == 2 || j == 3;
      } else {
        assert i == 2 && j == 3;
      }
    }
  }

  /** The remaining list starts as 4, ..., n-1: no repeats, and every node is in it or in the seed. */
  lemma RangeShape(n: nat)
    requires n >= 4
    ensures Distinct(Range(4, n))
    ensures forall x :: x in Range(4, n) ==> 4 <= x < n
    ensures forall x: nat :: x < n ==> x in [0, 1, 2, 3] || x in Range(4, n)
  {
    var r := Range(4, n);
    forall x: nat | x < n ensures x in [0, 1, 2, 3] || x in r {
      if x >= 4 {
        assert r[x - 4] == x;
      }
    }
  }

  lemma TmfgInit(D: Matrix, n: nat)
    requires n >= 4
    ensures TmfgState(D, n, [0, 1, 2, 3], Range(4, n), Seed(D))
  {
    var order: seq<nat> := [0, 1, 2, 3];
    var E := Seed(D);
    SeedShape(D);
    RangeShape(n);
    assert Distinct(order);
    assert forall x :: x in order ==> x < 4;
    forall e | e in E ensures E[e] == InsertedWeight(D, order, e) {
      assert e.v < 4;
    }
    forall x | x in order ensures Connected(E.Keys, 0, x) {
      if x == 0 {
        ConnectedRefl(E.Keys, 0);
      } else {
        assert Edge(0, x) in E;
        ConnectedByEdge(E.Keys, 0, x);
      }
    }
  }

  /** Appending a new node does not move the nodes before it. */
  lemma {:induction false} PositionAppend(order: seq<nat>, b: nat, x: nat)
    requires x in order
    ensures Position(order + [b], x) == Position(order, x)
  {
    if order[0] != x {
      assert (order + [b])[1..] == order[1..] + [b];
      PositionAppend(order[1..], b, x);
    }
  }

  /** The node just appended sits at the end. */
  lemma {:induction false} PositionLast(order: seq<nat>, b: nat)
    requires b !in order
    ensures Position(order + [b], b) == |order|
  {
    if order != [] {
      assert (order + [b])[1..] == order[1..] + [b];
      PositionLast(order[1..], b);
    }
  }

  /** The three edges joining a new node x to the corners of t, weighted distance_matrix[x, corner]. */
  function AddCorners(E: map<Edge, real>, D: Matrix, x: nat, t: Tri): map<Edge, real>
    requires x != t.a && x != t.b && x != t.c
  {
    E[Join(x, t.a) := Entry(D, x, t.a)][Join(x, t.b) := Entry(D, x, t.b)][Join(x, t.c) := Entry(D, x, t.c)]
  }

  /** The three new edges are new and distinct: the graph gains exactly three edges. */
  lemma InsertKeys(E: map<Edge, real>, D: Matrix, x: nat, t: Tri)
    requires x != t.a && x != t.b && x != t.c && IsTriangle(E.Keys, t)
    requires Join(x, t.a) !in E && Join(x, t.b) !in E && Join(x, t.c) !in E
    ensures AddCorners(E, D, x, t).Keys == E.Keys + {Join(x, t.a), Join(x, t.b), Join(x, t.c)}
    ensures |AddCorners(E, D, x, t)| == |E| + 3
  {
    var ea, eb, ec := Join(x, t.a), Join(x, t.b), Join(x, t.c);
    var E' := AddCorners(E, D, x, t);
    assert ea != eb && ea != ec && eb != ec;
    assert E'.Keys == E.Keys + {ea, eb, ec};
    assert |{ea, eb, ec}| == 3;
    assert |E'| == |E'.Keys| && |E| == |E.Keys|;
  }

  /** Every edge keeps the distance it was given: old edges keep theirs, the new ones carry distance_matrix[x, corner]. */
  lemma InsertWeights(D: Matrix, n: nat, order: seq<nat>, E: map<Edge, real>, x: nat, t: Tri)
    requires x != t.a && x != t.b && x != t.c && x !in order && 4 <= x
    requires t.a in order && t.b in order && t.c in order
    requires forall e :: e in E ==> e.u in order && e.v in order
    requires forall e :: e in E ==> E[e] == InsertedWeight(D, order, e)
    ensures forall e :: e in AddCorners(E, D, x, t) ==> AddCorners(E, D, x, t)[e] == InsertedWeight(D, order + [x], e)
  {
    var ea, eb, ec := Join(x, t.a), Join(x, t.b), Join(x, t.c);
    var E' := AddCorners(E, D, x, t);
    PositionLast(order, x);
    forall e | e in E' ensures E'[e] == InsertedWeight(D, order + [x], e) {
      if e != ea && e != eb && e != ec {
        assert e in E && E'[e] == E[e];
        PositionAppend(order, x, e.u);
        PositionAppend(order, x, e.v);
      } else {
        var y := if e == ea then t.a else if e == eb then t.b else t.c;
        assert e == Join(x, y) && E'[e] == Entry(D, x, y);
        PositionAppend(order, x, y);
      }
    }
  }

  /** A node of no edge joined to an endpoint y of an edge: a valid edge, not yet in the graph. */
  lemma JoinNew(n: nat, order: seq<nat>, E: set<Edge>, x: nat, y: nat, z: nat)
    requires forall e :: e in E ==> ValidEdge(n, e) && e.u in order && e.v in order
    requires x !in order && x < n && Adjacent(E, y, z)
    ensures x != y && y in order
    ensures Join(x, y) !in E && ValidEdge(n, Join(x, y))
    ensures Join(x, y).u in order + [x] && Join(x, y).v in order + [x]
  {
    var e := if Edge(y, z) in E then Edge(y, z) else Edge(z, y);
    assert e in E && y in order && y < n;
    var j := Join(x, y);
    assert j == if x < y then Edge(x, y) else Edge(y, x);
    assert j.u == x || j.v == x;
  }

  /** Inserting a node of no edge into a triangle of the graph keeps the edge part of the invariant. */
  lemma InsertEdges(D: Matrix, n: nat, order: seq<nat>, E: map<Edge, real>, x: nat, t: Tri)
    requires EdgeState(D, n, order, E)
    requires x !in order && 4 <= x < n && InGraph(order, E.Keys, t)
    ensures x != t.a && x != t.b && x != t.c
    ensures var E' := AddCorners(E, D, x, t);
      && EdgeState(D, n, order + [x], E')
      && |E'| == |E| + 3
      && E.Keys <= E'.Keys
  {
    JoinNew(n, order, E.Keys, x, t.a, t.b);
    JoinNew(n, order, E.Keys, x, t.b, t.c);
    JoinNew(n, order, E.Keys, x, t.c, t.a);
    InsertKeys(E, D, x, t);
    InsertWeights(D, n, order, E, x, t);
    var E' := AddCorners(E, D, x, t);
    InsertValid(n, order, E.Keys, E'.Keys, x, Join(x, t.a), Join(x, t.b), Join(x, t.c));
    SeedKept(E.Keys, E'.Keys);
  }

  /** Three valid edges on the nodes so far and the new node added to a valid edge set keep it valid. */
  lemma InsertValid(n: nat, order: seq<nat>, K: set<Edge>, K': set<Edge>, x: nat, ea: Edge, eb: Edge, ec: Edge)
    requires forall e :: e in K ==> ValidEdge(n, e) && e.u in order && e.v in order
    requires K' == K + {ea, eb, ec}
    requires ValidEdge(n, ea) && ea.u in order + [x] && ea.v in order + [x]
    requires ValidEdge(n, eb) && eb.u in order + [x] && eb.v in order + [x]
    requires ValidEdge(n, ec) && ec.u in order + [x] && ec.v in order + [x]
    ensures forall e :: e in K' ==> ValidEdge(n, e) && e.u in order + [x] && e.v in order + [x]
  {
    forall e | e in K' ensures ValidEdge(n, e) && e.u in order + [x] && e.v in order + [x] {
      if e in K {
        assert e.u in order && e.v in order;
      }
    }
  }

  /** A superset of an edge set holding the seed's six edges holds them too. */
  lemma SeedKept(K: set<Edge>, K': set<Edge>)
    requires forall i, j :: 0 <= i < j < 4 ==> Edge(i, j) in K
    requires K <= K'
    ensures forall i, j :: 0 <= i < j < 4 ==> Edge(i, j) in K'
  {
  }

  /** Inserting a node into a triangle keeps the graph connected. */
  lemma InsertConnected(order: seq<nat>, E: set<Edge>, E': set<Edge>, x: nat, y: nat)
    requires forall z :: z in order ==> Connected(E, 0, z)
    requires E <= E' && y in order && x != y && Join(x, y) in E'
    ensures forall z :: z in order + [x] ==> Connected(E', 0, z)
  {
    forall z | z in order + [x] ensures Connected(E', 0, z) {
      ConnectedMono(E, E', 0, y);
      if z == x {
        ConnectedByEdge(E', y, x);
        ConnectedTrans(E', 0, y, x);
      } else {
        ConnectedMono(E, E', 0, z);
      }
    }
  }

  /** Moving the node from the remaining list to the end of the node order keeps the node part of the invariant. */
  lemma InsertNode(n: nat, order: seq<nat>, remaining: seq<nat>, x: nat)
    requires Distinct(order) && Distinct(remaining) && x in remaining
    requires forall y :: y in order ==> y < n
    requires forall y :: y in remaining ==> 4 <= y < n && y !in order
    requires forall y: nat :: y < n ==> y in order || y in remaining
    ensures var order', remaining' := order + [x], RemoveFirst(remaining, x);
      && Distinct(order') && Distinct(remaining')
      && (forall y :: y in order' ==> y < n)
      && (forall y :: y in remaining' ==> 4 <= y < n && y !in order')
      && (forall y: nat :: y < n ==> y in order' || y in remaining')
      && |order'| + |remaining'| == |order| + |remaining|
  {
    var order', remaining' := order + [x], RemoveFirst(remaining, x);
    assert |remaining'| == |multiset(remaining')| == |remaining| - 1;
    RemoveFirstDistinct(remaining, x);
    assert Distinct(order') by {
      forall i, j | 0 <= i < j < |order'| ensures order'[i] != order'[j] {
        if j == |order| {
          assert order'[i] in order;
        }
      }
    }
  }

  /** Removing x from a list without repeats removes exactly x. */
  lemma {:induction false} RemoveFirstDistinct(s: seq<nat>, x: nat)
    requires x in s && Distinct(s)
    ensures Distinct(RemoveFirst(s, x))
    ensures forall y :: y in RemoveFirst(s, x) <==> y in s && y != x
  {
    assert s == [s[0]] + s[1..];
    TailDistinct(s);
    if s[0] != x {
      RemoveFirstDistinct(s[1..], x);
      var r' := RemoveFirst(s[1..], x);
      assert RemoveFirst(s, x) == [s[0]] + r';
      assert s[0] !in r';
      ConsDistinct(s[0], r');
    }
  }

  /** The tail of a list without repeats has none, and lacks the head. */
  lemma TailDistinct(s: seq<nat>)
    requires s != [] && Distinct(s)
    ensures Distinct(s[1..]) && s[0] !in s[1..]
  {
    forall k | 0 <= k < |s[1..]| ensures s[1..][k] != s[0] {
      assert s[1..][k] == s[k + 1];
    }
    forall i, j | 0 <= i < j < |s[1..]| ensures s[1..][i] != s[1..][j] {
      assert s[1..][i] == s[i + 1] && s[1..][j] == s[j + 1];
    }
  }

  /** A new head in front of a list without repeats gives a list without repeats. */
  lemma ConsDistinct(a: nat, r: seq<nat>)
    requires Distinct(r) && a !in r
    ensures Distinct([a] + r)
  {
    var l := [a] + r;
    forall i, j | 0 <= i < j < |l| ensures l[i] != l[j] {
      assert l[j] == r[j - 1];
      if i > 0 {
        assert l[i] == r[i - 1];
      }
    }
  }

  /** One pass of the insertion loop keeps the invariant. */
  lemma TmfgInsert(D: Matrix, n: nat, order: seq<nat>, remaining: seq<nat>, E: map<Edge, real>, x: nat, t: Tri)
    requires TmfgState(D, n, order, remaining, E)
    requires x in remaining && InGraph(order, E.Keys, t)
    ensures x != t.a && x != t.b && x != t.c
    ensures TmfgState(D, n, order + [x], RemoveFirst(remaining, x), AddCorners(E, D, x, t))
  {
    InsertEdges(D, n, order, E, x, t);
    InsertNode(n, order, remaining, x);
    var E' := AddCorners(E, D, x, t);
    assert Join(x, t.a) in E';
    InsertConnected(order, E.Keys, E'.Keys, x, t.a);
  }

  /** The seed triangle 0, 1, 2 is always among the enumerated triangles. */
  lemma SeedTriangle(D: Matrix, n: nat, order: seq<nat>, remaining: seq<nat>, E: map<Edge, real>)
    requires TmfgState(D, n, order, remaining, E)
    ensures Tri(0, 1, 2) in Triangles(order, E.Keys)
  {
    assert Edge(0, 1) in E && Edge(0, 2) in E && Edge(1, 2) in E;
    TrianglesComplete(order, E.Keys, 0, 1, 2);
  }

  /** When no node remains, the graph spans all n nodes with 3(n - 2) edges and is connected. */
  lemma TmfgDone(D: Matrix, n: nat, order: seq<nat>, remaining: seq<nat>, E: map<Edge, real>)
    requires TmfgState(D, n, order, remaining, E)
    requires !(remaining != [] && |E| < 3 * (n - 2))
    ensures remaining == []
    ensures ToSet(order) == Nodes(n) && |order| == n && Distinct(order)
    ensures order[..4] == [0, 1, 2, 3]
    ensures |E| == MaxEdges(n)
    ensures forall e :: e in E ==> ValidEdge(n, e) && E[e] == InsertedWeight(D, order, e)
    ensures forall i, j :: 0 <= i < j < 4 ==> Edge(i, j) in E
    ensures forall x, y :: 0 <= x < n && 0 <= y < n ==> Connected(E.Keys, x, y)
  {
    assert remaining == [];
    forall x, y | 0 <= x < n && 0 <= y < n ensures Connected(E.Keys, x, y) {
      assert x in order && y in order;
      ConnectedSym(E.Keys, 0, x);
      ConnectedTrans(E.Keys, x, 0, y);
    }
  }

  /**
    One choice of the insertion loop: among the first five remaining nodes
    and the triangles of the graph, the pair whose three distances sum
    least, the first such pair in scan order on ties.
   */
  method ChooseInsertion(D: Matrix, n: nat, order: seq<nat>, remaining: seq<nat>, E: map<Edge, real>) returns (best: nat, t: Tri)
    requires TmfgState(D, n, order, remaining, E) && remaining != []
    ensures best in FirstFive(remaining) && best in remaining
    ensures t in Triangles(order, E.Keys) && InGraph(order, E.Keys, t)
    ensures forall x, s :: x in FirstFive(remaining) && s in Triangles(order, E.Keys) ==> Score(D, best, t) <= Score(D, x, s)
    ensures FirstLeast(D, FirstFive(remaining), Triangles(order, E.Keys), best, t)
  {
    var nodes := FirstFive(remaining);
    var tris := Triangles(order, E.Keys);
    SeedTriangle(D, n, order, remaining, E);
    var pick := SelectInsertion(D, nodes, tris);
    if pick.None? {
      assert false;
    } else {
      best := nodes[pick.value.nodeAt];
      t := tris[pick.value.triAt];
      ScoresAbove(D, nodes, tris, best, t);
      FirstLeastAt(D, nodes, tris, pick.value);
    }
  }

  /**
    (x, s) is the pair at some position p of the scan, and every pair the
    scan reaches before p scores strictly more: on ties the first pair wins.
   */
  ghost predicate FirstLeast(D: Matrix, nodes: seq<nat>, tris: seq<Tri>, x: nat, s: Tri) {
    exists p: Pick ::
      && p.nodeAt < |nodes| && p.triAt < |tris| && nodes[p.nodeAt] == x && tris[p.triAt] == s
      && (forall i, j :: 0 <= i < |nodes| && 0 <= j < |tris| && ScannedBefore(i, j, p) ==>
            Score(D, x, s) < Score(D, nodes[i], tris[j]))
  }

  /** The pair `SelectInsertion` picks is the first least pair. */
  lemma FirstLeastAt(D: Matrix, nodes: seq<nat>, tris: seq<Tri>, p: Pick)
    requires p.nodeAt < |nodes| && p.triAt < |tris|
    requires forall i, j :: 0 <= i < |nodes| && 0 <= j < |tris| && ScannedBefore(i, j, p) ==>
      Score(D, nodes[p.nodeAt], tris[p.triAt]) < Score(D, nodes[i], tris[j])
    ensures FirstLeast(D, nodes, tris, nodes[p.nodeAt], tris[p.triAt])
  {
  }

  /** A score below every indexed pair is below every pair of elements. */
  lemma ScoresAbove(D: Matrix, nodes: seq<nat>, tris: seq<Tri>, best: nat, t: Tri)
    requires forall i, j :: 0 <= i < |nodes| && 0 <= j < |tris| ==> Score(D, best, t) <= Score(D, nodes[i], tris[j])
    ensures forall x, s :: x in nodes && s in tris ==> Score(D, best, t) <= Score(D, x, s)
  {
    forall x, s | x in nodes && s in tris ensures Score(D, best, t) <= Score(D, x, s) {
      var i :| 0 <= i < |nodes| && nodes[i] == x;
      var j :| 0 <= j < |tris| && tris[j] == s;
      assert Score(D, best, t) <= Score(D, nodes[i], tris[j]);
    }
  }

  /**
    The TMFG of a distance matrix, and the node order of the graph.

    `order` is not part of the returned value of the system: it is the
    order in which the nodes entered the graph (the seed 0..3, then one
    node per pass), returned so that the edge weights can be stated. In the
    PMFG branch it is simply 0..n-1.

    For n <= 20 it is the PMFG (all candidates allowed). For n > 20: the
    graph spans 0..n-1, has exactly 3(n - 2) edges, is connected, keeps the
    six seed edges on 0..3, and weights each edge by its distance (from the
    inserted node to the corner); the fallback over left-over nodes never
    runs, because the loop always inserts every node.
   */
  method TriangulatedMaximallyFilteredGraph(D: Matrix, planar: set<Edge> -> bool) returns (g: Graph, order: seq<nat>)
    ensures |D| <= 20 ==> g == PmfgGraph(D, None, planar)
    ensures |D| > 20 ==> g.nodes == Nodes(|D|) && ToSet(order) == Nodes(|D|) && |order| == |D| && Distinct(order)
    ensures |D| > 20 ==> order[..4] == [0, 1, 2, 3]
    ensures |D| > 20 ==> |g.weights| == MaxEdges(|D|)
    ensures |D| > 20 ==> forall e :: e in g.weights ==> ValidEdge(|D|, e) && g.weights[e] == InsertedWeight(D, order, e)
    ensures |D| > 20 ==> forall i, j :: 0 <= i < j < 4 ==> Edge(i, j) in g.weights
    ensures |D| > 20 ==> forall x, y :: 0 <= x < |D| && 0 <= y < |D| ==> Connected(g.weights.Keys, x, y)
  {
    var n := |D|;
    if n <= 20 {
      g := PlanarMaximallyFilteredGraph(D, None, planar);
      order := Range(0, n);
      return;
    }
    var E;
    order, E := InsertAll(D, n);
    g := Graph(ToSet(order), E);
  }

  /** The insertion loop, from the seed K4 until no node remains. */
  method InsertAll(D: Matrix, n: nat) returns (order: seq<nat>, E: map<Edge, real>)
    requires n >= 4
    ensures ToSet(order) == Nodes(n) && |order| == n && Distinct(order)
    ensures order[..4] == [0, 1, 2, 3]
    ensures |E| == MaxEdges(n)
    ensures forall e :: e in E ==> ValidEdge(n, e) && E[e] == InsertedWeight(D, order, e)
    ensures forall i, j :: 0 <= i < j < 4 ==> Edge(i, j) in E
    ensures forall x, y :: 0 <= x < n && 0 <= y < n ==> Connected(E.Keys, x, y)
  {
    order := [0, 1, 2, 3];
    E := Seed(D);
    var remaining := Range(4, n);
    TmfgInit(D, n);
    while remaining != [] && |E| < 3 * (n - 2)
      invariant TmfgState(D, n, order, remaining, E)
      decreases |remaining|
    {
      var best, t := ChooseInsertion(D, n, order, remaining, E);
      TmfgInsert(D, n, order, remaining, E, best, t);
      E := AddCorners(E, D, best, t);
      order := order + [best];
      remaining := RemoveFirst(remaining, best);
    }
    TmfgDone(D, n, order, remaining, E);
  }

  /** With a symmetric distance matrix every edge simply carries distance_matrix[u, v]. */
  lemma SymmetricWeights(D: Matrix, order: seq<nat>, e: Edge)
    requires IsMatrix(D, |D|) && Symmetric(D, |D|) && ValidEdge(|D|, e)
    ensures InsertedWeight(D, order, e) == D[e.u][e.v]
  {
  }
}
