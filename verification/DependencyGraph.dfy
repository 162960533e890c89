/** Searches over the selected packages: what the roots reach, and dependency cycles. */
module DependencyGraph {
  import opened Common
  import opened Graphs

  /* ---------- Reachability ---------- */

  ghost predicate ReachedFrom(g: Graph, roots: set<string>, n: string) {
    exists r :: r in roots && Reaches(g, r, n)
  }

  lemma {:induction false} PathStaysInside(g: Graph, inside: set<string>, p: seq<string>)
    requires IsPath(g, p) && p[0] in inside
    requires forall u, v | u in inside && Edge(g, u, v) :: v in inside
    ensures p[|p| - 1] in inside
    decreases |p|
  {
    if |p| > 1 {
      assert Edge(g, p[0], p[1]);
      var q := p[1..];
      assert IsPath(g, q) by {
        forall k | 0 <= k < |q| - 1 ensures Edge(g, q[k], q[k + 1]) { assert Edge(g, p[k + 1], p[k + 2]); }
      }
      PathStaysInside(g, inside, q);
    }
  }

  /** A set that holds the roots and is closed under edges holds all they reach. */
  lemma ClosedSetHoldsReached(g: Graph, roots: set<string>, inside: set<string>)
    requires forall r | r in roots && r in g :: r in inside
    requires forall u, v | u in inside && Edge(g, u, v) :: v in inside
    ensures forall n | ReachedFrom(g, roots, n) :: n in inside
  {
    forall n | ReachedFrom(g, roots, n) ensures n in inside {
      var r :| r in roots && Reaches(g, r, n);
      var p :| IsPath(g, p) && p[0] == r && p[|p| - 1] == n;
      PathStaysInside(g, inside, p);
    }
  }

  lemma ReachedThenEdge(g: Graph, roots: set<string>, u: string, v: string)
    requires ReachedFrom(g, roots, u) && Edge(g, u, v)
    ensures ReachedFrom(g, roots, v)
  {
    var r :| r in roots && Reaches(g, r, u);
    ReachesThenEdge(g, r, u, v);
  }

  /** The worklist starts with the roots that are nodes, in any order. */
  method RootsIn(g: Graph, roots: set<string>) returns (queue: seq<string>)
    ensures forall n :: n in queue <==> n in roots && n in g
  {
    queue := [];
    var left := roots;
    while left != {}
      invariant left <= roots
      invariant forall n :: n in queue <==> n in roots - left && n in g
      decreases |left|
    {
      var r :| r in left;
      left := left - {r};
      if r in g { queue := queue + [r]; }
    }
  }

  /** All reached nodes are in the set, and those whose successors may not be are queued. */
  ghost predicate Worklist(g: Graph, roots: set<string>, reachable: set<string>, queue: seq<string>) {
    reachable <= g.Keys && (forall n | n in queue :: n in reachable)
    && (forall r | r in roots && r in g :: r in reachable)
    && (forall n | n in reachable :: ReachedFrom(g, roots, n))
    && (forall u, v | u in reachable && u !in queue && Edge(g, u, v) :: v in reachable)
  }

  /** Exactly the nodes some root reaches. */
  method ComputeReachable(g: Graph, roots: set<string>) returns (reachable: set<string>)
    ensures forall n :: n in reachable <==> ReachedFrom(g, roots, n)
  {
    hide Reaches, ReachedFrom, Edge, Worklist;
    var queue := RootsIn(g, roots);
    reachable := set n | n in queue;
    StartOfWork(g, roots, reachable, queue);
    while queue != []
      invariant Worklist(g, roots, reachable, queue)
      decreases |g.Keys - reachable|, |queue|
    {
      var cur := queue[|queue| - 1];
      ghost var before := reachable;
      assert queue == queue[..|queue| - 1] + [cur];
      QueuedIsReachable(g, roots, reachable, queue, cur);
      queue := queue[..|queue| - 1];
      reachable, queue := PushSuccessors(g, roots, cur, reachable, queue);
      QueuedIsReachable(g, roots, reachable, queue, cur);
      if reachable != before { StrictlyFewer(g.Keys - reachable, g.Keys - before); }
    }
    EndOfWork(g, roots, reachable);
  }

  lemma StartOfWork(g: Graph, roots: set<string>, reachable: set<string>, queue: seq<string>)
    requires (forall n :: n in queue <==> n in roots && n in g) && reachable == set n | n in queue
    ensures Worklist(g, roots, reachable, queue)
  {
    hide Reaches;
    forall n | n in reachable ensures ReachedFrom(g, roots, n) { ReachesSelf(g, n); }
  }

  lemma QueuedIsReachable(g: Graph, roots: set<string>, reachable: set<string>, queue: seq<string>, n: string)
    requires Worklist(g, roots, reachable, queue)
    ensures (n in queue ==> n in reachable) && reachable <= g.Keys
  {
  }

  lemma EndOfWork(g: Graph, roots: set<string>, reachable: set<string>)
    requires Worklist(g, roots, reachable, [])
    ensures forall n :: n in reachable <==> ReachedFrom(g, roots, n)
  {
    hide ReachedFrom, Edge;
    ClosedSetHoldsReached(g, roots, reachable);
  }

  lemma StrictlyFewer(small: set<string>, large: set<string>)
    requires small < large
    ensures |small| < |large|
  {
    assert large == small + (large - small);
  }

  /** Marks and queues the successors of one node. */
  method PushSuccessors(g: Graph, ghost roots: set<string>, cur: string, reached: set<string>, waiting: seq<string>)
    returns (reachable: set<string>, queue: seq<string>)
    requires Worklist(g, roots, reached, waiting + [cur]) && cur in reached
    ensures Worklist(g, roots, reachable, queue)
    ensures reached <= reachable && (reachable == reached ==> queue == waiting)
  {
    hide ReachedFrom;
    reachable, queue := reached, waiting;
    for i := 0 to |g[cur]|
      invariant reached <= reachable && (reachable == reached ==> queue == waiting)
      invariant Worklist(g, roots, reachable, queue + [cur])
      invariant forall k | 0 <= k < i && g[cur][k] in g :: g[cur][k] in reachable
    {
      var dep := g[cur][i];
      if dep !in reachable && dep in g {
        ReachedThenEdge(g, roots, cur, dep);
        QueueOne(g, roots, reachable, queue, cur, dep);
        reachable := reachable + {dep};
        queue := queue + [dep];
      }
    }
    assert forall u :: u in queue + [cur] <==> u in queue || u == cur;
  }

  lemma QueueOne(g: Graph, roots: set<string>, reachable: set<string>, queue: seq<string>, cur: string, dep: string)
    requires Worklist(g, roots, reachable, queue + [cur]) && dep in g && ReachedFrom(g, roots, dep)
    ensures Worklist(g, roots, reachable + {dep}, queue + [dep] + [cur])
  {
    hide ReachedFrom;
    assert forall u :: u in queue + [dep] + [cur] <==> u in queue + [cur] || u == dep;
  }

  /** A node that is no root, in a graph where every such node is a successor. */
  ghost predicate Anchored(g: Graph, roots: set<string>) {
    forall n | n in g :: n in roots || exists m :: Edge(g, m, n)
  }

  ghost predicate CyclesReached(g: Graph, roots: set<string>) {
    forall p | IsCycle(g, p) :: ReachedFrom(g, roots, p[0])
  }

  lemma {:induction false} ReachedAlong(g: Graph, roots: set<string>, p: seq<string>)
    requires IsPath(g, p) && ReachedFrom(g, roots, p[0])
    ensures ReachedFrom(g, roots, p[|p| - 1])
    decreases |p|
  {
    hide ReachedFrom;
    if |p| > 1 {
      var q := p[..|p| - 1];
      assert IsPath(g, q) by {
        forall k | 0 <= k < |q| - 1 ensures Edge(g, q[k], q[k + 1]) { assert Edge(g, p[k], p[k + 1]); }
      }
      ReachedAlong(g, roots, q);
      assert Edge(g, p[|p| - 2], p[|p| - 1]);
      ReachedThenEdge(g, roots, p[|p| - 2], p[|p| - 1]);
    }
  }

  lemma PathSlice(g: Graph, p: seq<string>, i: nat, j: nat)
    requires IsPath(g, p) && i < j <= |p|
    ensures IsPath(g, p[i..j])
  {
    var c := p[i..j];
    forall k | 0 <= k < |c| - 1 ensures Edge(g, c[k], c[k + 1]) { assert Edge(g, p[i + k], p[i + k + 1]); }
    assert c[0] in g by { if i > 0 { assert Edge(g, p[i - 1], p[i]); } }
  }

  /** A path that visits a node twice holds a cycle; where cycles are reached, so is its end. */
  lemma RepeatIsReached(g: Graph, roots: set<string>, p: seq<string>)
    requires IsPath(g, p) && !Distinct(p) && CyclesReached(g, roots)
    ensures ReachedFrom(g, roots, p[|p| - 1])
  {
    hide ReachedFrom;
    var i: nat, j: nat :| i < j < |p| && p[i] == p[j];
    PathSlice(g, p, i, j + 1);
    assert IsCycle(g, p[i..j + 1]);
    PathSlice(g, p, i, |p|);
    ReachedAlong(g, roots, p[i..|p|]);
  }

  lemma EdgeThenPath(g: Graph, m: string, p: seq<string>)
    requires IsPath(g, p) && Edge(g, m, p[0])
    ensures IsPath(g, [m] + p)
  {
    assert IsPath(g, [m]);
    PathsJoin(g, [m], p);
  }

  /** Walking backwards from any node of an anchored graph meets a root or a cycle. */
  lemma {:induction false} BackwardWalk(g: Graph, roots: set<string>, p: seq<string>)
    requires CyclesReached(g, roots) && Anchored(g, roots) && IsPath(g, p)
    ensures ReachedFrom(g, roots, p[|p| - 1])
    decreases |g.Keys| + 1 - |p|
  {
    hide CyclesReached;
    if !Distinct(p) {
      RepeatIsReached(g, roots, p);
      return;
    }
    assert forall n | n in p :: n in g.Keys by {
      forall i | 0 <= i < |p| ensures p[i] in g { if i > 0 { assert Edge(g, p[i - 1], p[i]); } }
    }
    DistinctFits(p, g.Keys);
    if p[0] in roots {
      assert Reaches(g, p[0], p[|p| - 1]);
    } else {
      var m :| Edge(g, m, p[0]);
      EdgeThenPath(g, m, p);
      BackwardWalk(g, roots, [m] + p);
    }
  }

  /** In an anchored graph the roots reach everything if and only if they reach its cycles. */
  lemma AnchoredIsReachedIff(g: Graph, roots: set<string>)
    requires Anchored(g, roots)
    ensures (forall n | n in g :: ReachedFrom(g, roots, n)) <==> CyclesReached(g, roots)
  {
    if CyclesReached(g, roots) {
      forall n | n in g ensures ReachedFrom(g, roots, n) {
        assert IsPath(g, [n]);
        BackwardWalk(g, roots, [n]);
      }
    }
  }

  /* ---------- Cycles ---------- */

  function IndexOf(s: seq<string>, x: string): (i: nat)
    requires x in s
    ensures i < |s| && s[i] == x && x !in s[..i]
  {
    if s[0] == x then 0 else IndexOf(s[1..], x) + 1
  }

  /** Grey nodes are the stack, a path; black nodes have a topological finishing order. */
  ghost predicate Searching(g: Graph, stack: seq<string>, visiting: set<string>, visited: set<string>,
                            finished: seq<string>) {
    (stack != [] ==> IsPath(g, stack))
    && (forall n :: n in visiting <==> n in stack) && (forall n :: n in visited <==> n in finished)
    && visiting <= g.Keys && visited <= g.Keys && visiting !! visited
    && Distinct(finished) && Distinct(stack) && Topological(g, finished)
  }

  lemma Push(g: Graph, stack: seq<string>, visiting: set<string>, visited: set<string>, finished: seq<string>,
             name: string)
    requires Searching(g, stack, visiting, visited, finished)
    requires name in g && name !in visiting && name !in visited && (stack != [] ==> Edge(g, stack[|stack| - 1], name))
    ensures Searching(g, stack + [name], visiting + {name}, visited, finished)
  {
    if stack != [] { PathThenEdge(g, stack, name); }
  }

  lemma Finish(g: Graph, stack: seq<string>, visiting: set<string>, visited: set<string>, finished: seq<string>,
               name: string)
    requires Searching(g, stack + [name], visiting, visited, finished)
    requires forall v | Edge(g, name, v) :: v in visited
    ensures Searching(g, stack, visiting - {name}, visited + {name}, finished + [name])
  {
    var full, next := stack + [name], finished + [name];
    assert full[|stack|] == name && forall i | 0 <= i < |stack| :: full[i] == stack[i];
    if stack != [] {
      assert full[0] == stack[0];
      forall i | 0 <= i < |stack| - 1 ensures Edge(g, stack[i], stack[i + 1]) { assert Edge(g, full[i], full[i + 1]); }
    }
    forall i, v | 0 <= i < |next| && Edge(g, next[i], v) ensures v in next[..i] {
      if i < |finished| {
        assert next[i] == finished[i] && next[..i] == finished[..i];
      } else {
        assert next[..i] == finished;
      }
    }
  }

  lemma StackCycle(g: Graph, stack: seq<string>, name: string)
    requires stack != [] && IsPath(g, stack) && name in stack && Edge(g, stack[|stack| - 1], name)
    ensures IsCycle(g, stack[IndexOf(stack, name)..] + [name])
  {
    var i := IndexOf(stack, name);
    var tail := stack[i..];
    forall k | 0 <= k < |tail| - 1 ensures Edge(g, tail[k], tail[k + 1]) { assert Edge(g, stack[i + k], stack[i + k + 1]); }
    assert tail[0] in g by { if i > 0 { assert Edge(g, stack[i - 1], stack[i]); } }
    PathThenEdge(g, tail, name);
  }

  class CycleSearch {
    const g: Graph
    var visiting: set<string>
    var visited: set<string>
    var stack: seq<string>
    ghost var finished: seq<string>

    constructor (g: Graph)
      ensures this.g == g && Valid() && stack == []
    {
      this.g := g;
      visiting, visited, stack, finished := {}, {}, [], [];
    }

    ghost predicate Valid()
      reads this
    {
      Searching(g, stack, visiting, visited, finished)
    }

    method Dfs(name: string) returns (cycle: Option<seq<string>>)
      requires Valid() && name in g && (stack != [] ==> Edge(g, stack[|stack| - 1], name))
      modifies this
      ensures cycle.Some? ==> IsCycle(g, cycle.value)
      ensures cycle.None? ==> Valid() && stack == old(stack) && visiting == old(visiting) && old(visited) <= visited
      ensures cycle.None? ==> name in visited
      decreases g.Keys - visiting - visited
    {
      if name in visited { return None; }
      if name in visiting {
        StackCycle(g, stack, name);
        return Some(stack[IndexOf(stack, name)..] + [name]);
      }
      hide Searching;
      Push(g, stack, visiting, visited, finished, name);
      ghost var outer, white := stack, g.Keys - visiting - visited;
      visiting := visiting + {name};
      stack := stack + [name];
      assert g.Keys - visiting - visited == white - {name} && name in white;
      for i := 0 to |g[name]|
        invariant Valid() && stack == outer + [name] && visiting == old(visiting) + {name} && old(visited) <= visited
        invariant forall k | 0 <= k < i && g[name][k] in g :: g[name][k] in visited
      {
        if g[name][i] in g {
          assert Edge(g, stack[|stack| - 1], g[name][i]);
          cycle := Dfs(g[name][i]);
          if cycle.Some? { return; }
        }
      }
      Finish(g, outer, visiting, visited, finished, name);
      stack := stack[..|stack| - 1];
      visiting := visiting - {name};
      visited := visited + {name};
      finished := finished + [name];
      assert stack == outer && visiting == old(visiting);
      return None;
    }
  }

  lemma CycleMeansCyclic(g: Graph, p: seq<string>)
    requires IsCycle(g, p)
    ensures !Acyclic(g)
  {
  }

  /** Returns a dependency cycle, or None exactly when there is none. */
  method FindDependencyCycle(g: Graph) returns (cycle: Option<seq<string>>)
    ensures cycle.Some? ==> IsCycle(g, cycle.value)
    ensures cycle.None? <==> Acyclic(g)
  {
    hide Acyclic, Topological, IsCycle;
    var search := new CycleSearch(g);
    var left := g.Keys;
    while left != {}
      invariant fresh(search) && search.g == g && search.Valid() && search.stack == [] && left <= g.Keys
      invariant g.Keys - left <= search.visited
      decreases |left|
    {
      var name :| name in left;
      left := left - {name};
      cycle := search.Dfs(name);
      if cycle.Some? {
        CycleMeansCyclic(g, cycle.value);
        return;
      }
    }
    TopologicalMeansAcyclic(g, search.finished);
    return None;
  }
}
