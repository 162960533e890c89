/** Directed graphs as successor lists; a successor that is no node counts for nothing. */
module Graphs {
  type Graph = map<string, seq<string>>

  predicate Edge(g: Graph, u: string, v: string) {
    u in g && v in g && v in g[u]
  }

  predicate IsPath(g: Graph, p: seq<string>) {
    p != [] && p[0] in g && forall i | 0 <= i < |p| - 1 :: Edge(g, p[i], p[i + 1])
  }

  ghost predicate Reaches(g: Graph, u: string, v: string) {
    exists p :: IsPath(g, p) && p[0] == u && p[|p| - 1] == v
  }

  predicate IsCycle(g: Graph, p: seq<string>) {
    IsPath(g, p) && |p| > 1 && p[0] == p[|p| - 1]
  }

  ghost predicate Acyclic(g: Graph) {
    forall p :: !IsCycle(g, p)
  }

  lemma ReachesSelf(g: Graph, u: string)
    requires u in g
    ensures Reaches(g, u, u)
  {
    assert IsPath(g, [u]);
  }

  lemma PathThenEdge(g: Graph, p: seq<string>, v: string)
    requires IsPath(g, p) && Edge(g, p[|p| - 1], v)
    ensures IsPath(g, p + [v])
  {
    var q := p + [v];
    forall i | 0 <= i < |q| - 1 ensures Edge(g, q[i], q[i + 1]) {
      assert q[i] == p[i];
      assert i < |p| - 1 ==> q[i + 1] == p[i + 1];
    }
  }

  lemma ReachesThenEdge(g: Graph, u: string, v: string, w: string)
    requires Reaches(g, u, v) && Edge(g, v, w)
    ensures Reaches(g, u, w)
  {
    var p :| IsPath(g, p) && p[0] == u && p[|p| - 1] == v;
    PathThenEdge(g, p, w);
    assert (p + [w])[0] == u && (p + [w])[|p + [w]| - 1] == w;
  }

  lemma PathsJoin(g: Graph, p: seq<string>, q: seq<string>)
    requires IsPath(g, p) && IsPath(g, q) && Edge(g, p[|p| - 1], q[0])
    ensures IsPath(g, p + q)
  {
    var r := p + q;
    forall i | 0 <= i < |r| - 1 ensures Edge(g, r[i], r[i + 1]) {
      if i < |p| - 1 {
        assert r[i] == p[i] && r[i + 1] == p[i + 1];
      } else if i == |p| - 1 {
        assert r[i] == p[i] && r[i + 1] == q[0];
      } else {
        assert r[i] == q[i - |p|] && r[i + 1] == q[i + 1 - |p|];
      }
    }
  }

  /** An edge whose target reaches its source closes a cycle. */
  lemma BackEdgeCycle(g: Graph, u: string, v: string)
    requires Edge(g, u, v) && Reaches(g, v, u)
    ensures !Acyclic(g)
  {
    var p :| IsPath(g, p) && p[0] == v && p[|p| - 1] == u;
    assert IsPath(g, [u]);
    PathsJoin(g, [u], p);
    assert IsCycle(g, [u] + p);
  }

  /* ---------- Orders ---------- */

  predicate Distinct(s: seq<string>) {
    forall i, j | 0 <= i < j < |s| :: s[i] != s[j]
  }

  lemma {:induction false} DistinctFits(p: seq<string>, nodes: set<string>)
    requires Distinct(p) && forall n | n in p :: n in nodes
    ensures |p| <= |nodes|
    decreases |p|
  {
    if p != [] {
      var last, rest := p[|p| - 1], p[..|p| - 1];
      assert forall n | n in rest :: n in nodes - {last};
      DistinctFits(rest, nodes - {last});
    }
  }

  /** Every node exactly once. */
  ghost predicate Enumerates(g: Graph, order: seq<string>) {
    Distinct(order) && forall u :: u in order <==> u in g
  }

  /** Every successor of a node stands before it. */
  ghost predicate Topological(g: Graph, order: seq<string>) {
    forall i, v | 0 <= i < |order| && Edge(g, order[i], v) :: v in order[..i]
  }

  lemma {:induction false} PathDescends(g: Graph, order: seq<string>, p: seq<string>, i: nat)
    requires Topological(g, order) && IsPath(g, p) && |p| > 1
    requires i < |order| && order[i] == p[0]
    ensures p[|p| - 1] in order[..i]
    decreases |p|
  {
    assert Edge(g, p[0], p[1]);
    var j :| 0 <= j < i && order[j] == p[1];
    if |p| > 2 {
      var q := p[1..];
      assert IsPath(g, q) by {
        assert q[0] in g;
        forall k | 0 <= k < |q| - 1 ensures Edge(g, q[k], q[k + 1]) { assert Edge(g, p[k + 1], p[k + 2]); }
      }
      PathDescends(g, order, q, j);
      var k :| 0 <= k < j && order[k] == p[|p| - 1];
      assert order[..i][k] == p[|p| - 1];
    }
  }

  /** Only acyclic graphs have a topological order. */
  lemma TopologicalMeansAcyclic(g: Graph, order: seq<string>)
    requires Enumerates(g, order) && Topological(g, order)
    ensures Acyclic(g)
  {
    forall p ensures !IsCycle(g, p) {
      if IsCycle(g, p) {
        assert p[0] in order;
        var i :| 0 <= i < |order| && order[i] == p[0];
        assert p[0] !in order[..i];
        PathDescends(g, order, p, i);
      }
    }
  }

  /* ---------- Depth-first finishing orders ---------- */

  /** In a finishing order a successor that stands later reaches the node back. */
  ghost predicate Finishing(g: Graph, order: seq<string>) {
    forall i, v | 0 <= i < |order| && Edge(g, order[i], v) :: v in order[..i] || Reaches(g, v, order[i])
  }

  /** A finishing order is topological exactly on the acyclic graphs. */
  lemma FinishingTopologicalIff(g: Graph, order: seq<string>)
    requires Enumerates(g, order) && Finishing(g, order)
    ensures Topological(g, order) <==> Acyclic(g)
  {
    if Topological(g, order) { TopologicalMeansAcyclic(g, order); }
    if Acyclic(g) {
      forall i, v | 0 <= i < |order| && Edge(g, order[i], v) ensures v in order[..i] {
        if Reaches(g, v, order[i]) { BackEdgeCycle(g, order[i], v); }
      }
    }
  }

  /** Putting a node last keeps a finishing order, if each successor is in the order
      already or reaches the node. */
  lemma FinishLast(g: Graph, order: seq<string>, u: string)
    requires Finishing(g, order)
    requires forall v | Edge(g, u, v) :: v in order || Reaches(g, v, u)
    ensures Finishing(g, order + [u])
  {
    var next := order + [u];
    forall i, v | 0 <= i < |next| && Edge(g, next[i], v) ensures v in next[..i] || Reaches(g, v, next[i]) {
      if i < |order| {
        assert next[i] == order[i] && next[..i] == order[..i];
      } else {
        assert next[..i] == order;
      }
    }
  }
}
