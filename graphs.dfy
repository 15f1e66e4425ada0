/**
  Undirected weighted graphs over integer node labels, as the filters build
  them with networkx: a node set and, for every edge, its `weight` attribute.
 */
module Graphs {

  /** An undirected edge, always stored with its smaller endpoint first (u < v). */
  datatype Edge = Edge(u: nat, v: nat)

  /** A networkx graph: its nodes, and the `weight` attribute of every edge. */
  datatype Graph = Graph(nodes: set<nat>, weights: map<Edge, real>)

  /** An edge between two distinct nodes below n, smaller endpoint first. */
  predicate ValidEdge(n: nat, e: Edge) {
    e.u < e.v < n
  }

  /** The edge joining two distinct nodes, in stored orientation. */
  function Join(a: nat, b: nat): (e: Edge)
    requires a != b
    ensures e.u < e.v && {e.u, e.v} == {a, b}
  {
    if a < b then Edge(a, b) else Edge(b, a)
  }

  /** The node set 0..n-1 (`range(n)`). */
  function Nodes(n: nat): (s: set<nat>)
    ensures forall x: nat :: x in s <==> x < n
  {
    if n == 0 then {} else Nodes(n - 1) + {n - 1}
  }

  lemma {:induction false} NodesCard(n: nat)
    ensures |Nodes(n)| == n
  {
    if n > 0 {
      var s := Nodes(n - 1);
      NodesCard(n - 1);
      assert Nodes(n) == s + {n - 1} && n - 1 !in s;
      assert |s + {n - 1}| == |s| + 1;
    }
  }

  function ToSet<T>(s: seq<T>): set<T> {
    set x | x in s
  }

  predicate Distinct<T(==)>(s: seq<T>) {
    forall i, j :: 0 <= i < j < |s| ==> s[i] != s[j]
  }

  lemma {:induction false} DistinctCard<T>(s: seq<T>)
    requires Distinct(s)
    ensures |ToSet(s)| == |s|
  {
    if s != [] {
      DistinctCard(s[1..]);
      assert ToSet(s) == ToSet(s[1..]) + {s[0]};
      assert s[0] !in ToSet(s[1..]) by {
        forall k | 0 <= k < |s[1..]| ensures s[1..][k] != s[0] {
          assert s[1..][k] == s[k + 1];
        }
      }
    }
  }

  // ---------------------------------------------------------------------------
  // Walks and connectivity
  // ---------------------------------------------------------------------------

  /** a and b are the two endpoints of some edge of E. */
  predicate Adjacent(E: set<Edge>, a: nat, b: nat) {
    Edge(a, b) in E || Edge(b, a) in E
  }

  /** p is a non-empty walk along edges of E. */
  ghost predicate IsWalk(E: set<Edge>, p: seq<nat>) {
    |p| > 0 && forall k :: 0 <= k < |p| - 1 ==> Adjacent(E, p[k], p[k + 1])
  }

  /** Some walk along edges of E leads from a to b. */
  ghost predicate Connected(E: set<Edge>, a: nat, b: nat) {
    exists p :: IsWalk(E, p) && p[0] == a && p[|p| - 1] == b
  }

  lemma ConnectedRefl(E: set<Edge>, a: nat)
    ensures Connected(E, a, a)
  {
    assert IsWalk(E, [a]);
  }

  lemma ConnectedByEdge(E: set<Edge>, a: nat, b: nat)
    requires Adjacent(E, a, b)
    ensures Connected(E, a, b)
  {
    assert IsWalk(E, [a, b]);
  }

  lemma ConnectedSym(E: set<Edge>, a: nat, b: nat)
    requires Connected(E, a, b)
    ensures Connected(E, b, a)
  {
    var p :| IsWalk(E, p) && p[0] == a && p[|p| - 1] == b;
    var q := seq(|p|, k requires 0 <= k < |p| => p[|p| - 1 - k]);
    forall k | 0 <= k < |q| - 1 ensures Adjacent(E, q[k], q[k + 1]) {
      var m := |p| - 2 - k;
      assert Adjacent(E, p[m], p[m + 1]);
    }
    assert IsWalk(E, q);
  }

  lemma ConnectedTrans(E: set<Edge>, a: nat, b: nat, c: nat)
    requires Connected(E, a, b) && Connected(E, b, c)
    ensures Connected(E, a, c)
  {
    var p :| IsWalk(E, p) && p[0] == a && p[|p| - 1] == b;
    var q :| IsWalk(E, q) && q[0] == b && q[|q| - 1] == c;
    var r := p + q[1..];
    forall k | 0 <= k < |r| - 1 ensures Adjacent(E, r[k], r[k + 1]) {
      if k < |p| - 1 {
        assert r[k] == p[k] && r[k + 1] == p[k + 1];
      } else {
        var m := k - (|p| - 1);
        assert r[k] == q[m] && r[k + 1] == q[m + 1];
      }
    }
    assert IsWalk(E, r);
  }

  lemma ConnectedMono(E: set<Edge>, F: set<Edge>, a: nat, b: nat)
    requires E <= F && Connected(E, a, b)
    ensures Connected(F, a, b)
  {
    var p :| IsWalk(E, p) && p[0] == a && p[|p| - 1] == b;
    assert IsWalk(F, p);
  }

  /**
    If no edge of E joins two nodes with different labels, then no walk
    does either: connected nodes carry the same label.
   */
  lemma {:induction false} ConnectedSameLabel(E: set<Edge>, tag: seq<nat>, a: nat, b: nat)
    requires forall e :: e in E ==> e.u < |tag| && e.v < |tag| && tag[e.u] == tag[e.v]
    requires a < |tag| && Connected(E, a, b)
    ensures b < |tag| && tag[a] == tag[b]
  {
    var p :| IsWalk(E, p) && p[0] == a && p[|p| - 1] == b;
    var k := 0;
    while k < |p| - 1
      invariant 0 <= k <= |p| - 1
      invariant p[k] < |tag| && tag[p[k]] == tag[a]
    {
      assert Adjacent(E, p[k], p[k + 1]);
      k := k + 1;
    }
  }
}
