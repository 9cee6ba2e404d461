/** Two depth-first searches of a dependency graph: the package closure, which
    remembers finished nodes, and the bench's resource check, which does not. */
module DependencyClosure {

  type Node = string
  type Graph = map<Node, seq<Node>>

  datatype Problem = Cycle | Missing

  // ---- walks in the graph ----------------------------------------------------

  /** A walk: every node but the last is present and leads to the next. */
  ghost predicate IsWalk(g: Graph, w: seq<Node>) {
    w != [] && forall i :: 0 <= i < |w| - 1 ==> w[i] in g && w[i + 1] in g[w[i]]
  }

  ghost predicate Walks(g: Graph, w: seq<Node>, a: Node, b: Node) {
    IsWalk(g, w) && w[0] == a && w[|w| - 1] == b
  }

  ghost predicate Reaches(g: Graph, a: Node, b: Node) {
    exists w :: Walks(g, w, a, b)
  }

  /** At least one edge leads from `a` to `b`. */
  ghost predicate Follows(g: Graph, a: Node, b: Node) {
    exists w :: Walks(g, w, a, b) && |w| > 1
  }

  ghost predicate Reachable(g: Graph, roots: seq<Node>, n: Node) {
    exists r :: r in roots && Reaches(g, r, n)
  }

  ghost predicate CycleReachable(g: Graph, roots: seq<Node>) {
    exists n :: Reachable(g, roots, n) && Follows(g, n, n)
  }

  ghost predicate MissingReachable(g: Graph, roots: seq<Node>) {
    exists n :: Reachable(g, roots, n) && n !in g
  }

  lemma ReachesSelf(g: Graph, a: Node)
    ensures Reaches(g, a, a)
  {
    assert Walks(g, [a], a, a);
  }

  lemma RootReachable(g: Graph, roots: seq<Node>, r: Node)
    requires r in roots
    ensures Reachable(g, roots, r)
  {
    ReachesSelf(g, r);
  }

  lemma WalkStep(g: Graph, w: seq<Node>, a: Node, n: Node, d: Node)
    requires Walks(g, w, a, n) && n in g && d in g[n]
    ensures Walks(g, w + [d], a, d)
  {}

  lemma StepReachable(g: Graph, roots: seq<Node>, n: Node, d: Node)
    requires Reachable(g, roots, n) && n in g && d in g[n]
    ensures Reachable(g, roots, d)
  {
    var r :| r in roots && Reaches(g, r, n);
    var w :| Walks(g, w, r, n);
    WalkStep(g, w, r, n, d);
    assert Reaches(g, r, d);
  }

  lemma StepFollows(g: Graph, p: Node, n: Node, d: Node)
    requires (p == n || Follows(g, p, n)) && n in g && d in g[n]
    ensures Follows(g, p, d)
  {
    if p == n {
      assert Walks(g, [n], p, n);
      WalkStep(g, [n], p, n, d);
    } else {
      var w :| Walks(g, w, p, n) && |w| > 1;
      WalkStep(g, w, p, n, d);
    }
  }

  // ---- what the closure keeps -------------------------------------------------------

  /** A topological order of `nodes`: present dependencies come first. */
  ghost predicate Ordered(g: Graph, nodes: set<Node>, order: seq<Node>) {
    && (forall v :: v in nodes <==> v in order)
    && (forall i, d :: 0 <= i < |order| && order[i] in g && d in g[order[i]] && d in g ==> d in order[..i])
  }

  /** Finished nodes are reachable and lead to finished or open ones. */
  ghost predicate Finished(g: Graph, roots: seq<Node>, open: set<Node>, visited: set<Node>) {
    && open <= g.Keys && visited <= g.Keys && open !! visited
    && (forall v :: v in visited ==> Reachable(g, roots, v))
    && (forall v, d :: v in visited && d in g[v] && d in g ==> d in visited || d in open)
  }

  /** Every report is true, and nothing finished goes unreported. */
  ghost predicate Reported(g: Graph, roots: seq<Node>, visited: set<Node>, errors: seq<Problem>, order: seq<Node>) {
    && visited <= g.Keys
    && (Cycle in errors ==> CycleReachable(g, roots))
    && (Missing in errors ==> MissingReachable(g, roots))
    && (Missing !in errors ==> forall v, d :: v in visited && d in g[v] ==> d in g)
    && (Cycle !in errors ==> Ordered(g, visited, order))
  }

  /** What has been settled about the dependencies `deps` of an open node. */
  ghost predicate Settled(g: Graph, open: set<Node>, deps: seq<Node>, visited: set<Node>, errors: seq<Problem>) {
    forall d :: d in deps ==>
      && (d in open ==> Cycle in errors)
      && (d !in g ==> Missing in errors)
      && (d in g && d !in open ==> d in visited)
  }

  lemma NoteCycle(g: Graph, roots: seq<Node>, visited: set<Node>, errors: seq<Problem>, order: seq<Node>, n: Node)
    requires Reported(g, roots, visited, errors, order) && Reachable(g, roots, n) && Follows(g, n, n)
    ensures Reported(g, roots, visited, errors + [Cycle], order)
  {}

  lemma NoteMissing(g: Graph, roots: seq<Node>, visited: set<Node>, errors: seq<Problem>, order: seq<Node>, n: Node)
    requires Reported(g, roots, visited, errors, order) && Reachable(g, roots, n) && n !in g
    ensures Reported(g, roots, visited, errors + [Missing], order)
  {}

  /** A node whose dependencies are settled may be finished. */
  lemma FinishNode(g: Graph, roots: seq<Node>, path: set<Node>, n: Node, visited: set<Node>, errors: seq<Problem>,
                   order: seq<Node>)
    requires n in g && n !in path && Reachable(g, roots, n)
    requires Finished(g, roots, path + {n}, visited) && Reported(g, roots, visited, errors, order)
    requires Settled(g, path + {n}, g[n], visited, errors)
    ensures Finished(g, roots, path, visited + {n})
    ensures Reported(g, roots, visited + {n}, errors, order + [n])
  {
    if Cycle !in errors {
      OrderExtends(g, visited, order, n);
    }
  }

  lemma OrderExtends(g: Graph, visited: set<Node>, order: seq<Node>, n: Node)
    requires n in g && Ordered(g, visited, order)
    requires forall d :: d in g[n] && d in g ==> d in visited
    ensures Ordered(g, visited + {n}, order + [n])
  {
    var order' := order + [n];
    forall i, d | 0 <= i < |order'| && order'[i] in g && d in g[order'[i]] && d in g ensures d in order'[..i] {
      if i < |order| {
        assert order'[..i] == order[..i];
      } else {
        assert order'[..i] == order;
      }
    }
  }

  lemma SettledGrows(g: Graph, open: set<Node>, deps: seq<Node>, i: nat, visited: set<Node>, errors: seq<Problem>,
                     visited': set<Node>, errors': seq<Problem>)
    requires i < |deps| && visited <= visited' && errors <= errors'
    requires Settled(g, open, deps[..i], visited, errors) && Settled(g, open, [deps[i]], visited', errors')
    ensures Settled(g, open, deps[..i + 1], visited', errors')
  {
    assert deps[..i + 1] == deps[..i] + [deps[i]];
    forall d | d in deps[..i + 1]
      ensures d in open ==> Cycle in errors'
      ensures d !in g ==> Missing in errors'
      ensures d in g && d !in open ==> d in visited'
    {
      assert d in deps[..i] || d in [deps[i]];
    }
  }

  // ---- the closure ---------------------------------------------------------------

  class Search {
    const graph: Graph
    var visited: set<Node>
    var errors: seq<Problem>
    ghost const roots: seq<Node>
    ghost var order: seq<Node>   // visited nodes in the order they finished

    constructor (graph: Graph, ghost roots: seq<Node>)
      ensures this.graph == graph && this.roots == roots
      ensures visited == {} && errors == [] && order == []
    {
      this.graph := graph;
      this.roots := roots;
      visited, errors, order := {}, [], [];
    }

    ghost predicate Valid(path: set<Node>)
      reads this
    {
      Finished(graph, roots, path, visited) && Reported(graph, roots, visited, errors, order)
    }

    method Visit(n: Node, path: set<Node>)
      requires Valid(path) && Reachable(graph, roots, n)
      requires forall p :: p in path ==> Follows(graph, p, n)
      modifies this
      ensures Valid(path) && old(visited) <= visited && old(errors) <= errors
      ensures Settled(graph, path, [n], visited, errors)
      decreases |graph.Keys - path|, 0
    {
      if n in path {
        NoteCycle(graph, roots, visited, errors, order, n);
        errors := errors + [Cycle];
      } else if n !in graph {
        NoteMissing(graph, roots, visited, errors, order, n);
        errors := errors + [Missing];
      } else if n !in visited {
        SmallerSet(graph.Keys - (path + {n}), graph.Keys - path, n);
        VisitAll(n, path);
        FinishNode(graph, roots, path, n, visited, errors, order);
        visited := visited + {n};
        order := order + [n];
      }
    }

    /** The loop over a node's dependencies, the node itself being open. */
    method VisitAll(n: Node, path: set<Node>)
      requires n in graph && n !in path && n !in visited
      requires Valid(path) && Reachable(graph, roots, n)
      requires forall p :: p in path ==> Follows(graph, p, n)
      modifies this
      ensures Valid(path + {n}) && old(visited) <= visited && old(errors) <= errors
      ensures Settled(graph, path + {n}, graph[n], visited, errors)
      decreases |graph.Keys - (path + {n})|, 1
    {
      var deps, open := graph[n], path + {n};
      var i := 0;
      while i < |deps|
        invariant 0 <= i <= |deps|
        invariant Valid(open) && old(visited) <= visited && old(errors) <= errors
        invariant Settled(graph, open, deps[..i], visited, errors)
      {
        OpenFollow(graph, roots, path, n, deps[i]);
        ghost var v, e := visited, errors;
        Visit(deps[i], open);
        SettledGrows(graph, open, deps, i, v, e, visited, errors);
        i := i + 1;
      }
      assert deps[..|deps|] == deps;
    }
  }

  lemma OpenFollow(g: Graph, roots: seq<Node>, path: set<Node>, n: Node, d: Node)
    requires n in g && d in g[n] && Reachable(g, roots, n)
    requires forall p :: p in path ==> Follows(g, p, n)
    ensures Reachable(g, roots, d)
    ensures forall p :: p in path + {n} ==> Follows(g, p, d)
  {
    StepReachable(g, roots, n, d);
    forall p | p in path + {n} ensures Follows(g, p, d) {
      StepFollows(g, p, n, d);
    }
  }

  lemma SmallerSet(a: set<Node>, b: set<Node>, x: Node)
    requires a <= b && x in b && x !in a
    ensures |a| < |b|
  {
    SubsetSize(a, b - {x});
  }

  lemma SubsetSize(a: set<Node>, b: set<Node>)
    requires a <= b
    ensures |a| <= |b|
  {
    assert b == a + (b - a);
  }

  method Closure(graph: Graph, roots: seq<Node>) returns (visited: set<Node>, errors: seq<Problem>)
    ensures forall n :: n in visited <==> n in graph && Reachable(graph, roots, n)
    ensures Cycle in errors <==> CycleReachable(graph, roots)
    ensures Missing in errors <==> MissingReachable(graph, roots)
  {
    var s := new Search(graph, roots);
    var i := 0;
    while i < |roots|
      invariant 0 <= i <= |roots|
      invariant s.graph == graph && s.roots == roots && s.Valid({})
      invariant Settled(graph, {}, roots[..i], s.visited, s.errors)
    {
      RootReachable(graph, roots, roots[i]);
      ghost var v, e := s.visited, s.errors;
      s.Visit(roots[i], {});
      SettledGrows(graph, {}, roots, i, v, e, s.visited, s.errors);
      i := i + 1;
    }
    assert roots[..|roots|] == roots;
    visited, errors := s.visited, s.errors;
    SearchComplete(graph, roots, visited, errors, s.order);
  }

  /** With no node left open, the invariants say what the search found. */
  lemma SearchComplete(g: Graph, roots: seq<Node>, visited: set<Node>, errors: seq<Problem>, order: seq<Node>)
    requires Finished(g, roots, {}, visited) && Reported(g, roots, visited, errors, order)
    requires Settled(g, {}, roots, visited, errors)
    ensures forall n :: n in visited <==> n in g && Reachable(g, roots, n)
    ensures Cycle in errors <==> CycleReachable(g, roots)
    ensures Missing in errors <==> MissingReachable(g, roots)
  {
    ClosedContainsReachable(g, roots, visited);
    if MissingReachable(g, roots) {
      var n :| Reachable(g, roots, n) && n !in g;
      MissingHasParent(g, roots, n);
    }
    if Cycle !in errors {
      OrderedIsAcyclic(g, roots, visited, order);
    }
  }

  /** A set holding the present roots and closed under present dependencies
      holds every present reachable node. */
  lemma ClosedContainsReachable(g: Graph, roots: seq<Node>, visited: set<Node>)
    requires forall r :: r in roots && r in g ==> r in visited
    requires visited <= g.Keys
    requires forall v, d :: v in visited && d in g[v] && d in g ==> d in visited
    ensures forall n :: n in g && Reachable(g, roots, n) ==> n in visited
  {
    forall n | n in g && Reachable(g, roots, n) ensures n in visited {
      var r :| r in roots && Reaches(g, r, n);
      var w :| Walks(g, w, r, n);
      WalkStaysInside(g, w, visited);
    }
  }

  lemma {:induction false} WalkStaysInside(g: Graph, w: seq<Node>, visited: set<Node>)
    requires IsWalk(g, w) && w[|w| - 1] in g
    requires w[0] in g ==> w[0] in visited
    requires visited <= g.Keys
    requires forall v, d :: v in visited && d in g[v] && d in g ==> d in visited
    ensures forall i :: 0 <= i < |w| ==> w[i] in visited
    decreases |w|
  {
    if |w| > 1 {
      assert w[0] in g && w[1] in g[w[0]];
      forall i | 0 <= i < |w[1..]| - 1 ensures w[1..][i] in g && w[1..][i + 1] in g[w[1..][i]] {
        assert w[i + 1] in g && w[i + 2] in g[w[i + 1]];
      }
      WalkStaysInside(g, w[1..], visited);
      forall i | 0 <= i < |w| ensures w[i] in visited {
        if i > 0 { assert w[i] == w[1..][i - 1]; }
      }
    }
  }

  /** A missing reachable node is a root, or a dependency of a present
      reachable one. */
  lemma MissingHasParent(g: Graph, roots: seq<Node>, n: Node)
    requires Reachable(g, roots, n) && n !in g
    ensures n in roots || exists v :: v in g && Reachable(g, roots, v) && n in g[v]
  {
    var r :| r in roots && Reaches(g, r, n);
    var w :| Walks(g, w, r, n);
    if |w| > 1 {
      var v := w[|w| - 2];
      assert w[|w| - 2 + 1] in g[v];
      assert Walks(g, w[..|w| - 1], r, v);
      assert Reaches(g, r, v);
      assert v in g && Reachable(g, roots, v) && n in g[v];
    }
  }

  lemma OrderedIsAcyclic(g: Graph, roots: seq<Node>, nodes: set<Node>, order: seq<Node>)
    requires Ordered(g, nodes, order)
    requires forall n :: n in g && Reachable(g, roots, n) ==> n in nodes
    ensures !CycleReachable(g, roots)
  {
    if CycleReachable(g, roots) {
      var n :| Reachable(g, roots, n) && Follows(g, n, n);
      var w :| Walks(g, w, n, n) && |w| > 1;
      assert w[0] in g;
      FirstPosition(order, n);
      var k :| 0 <= k < |order| && order[k] == n && n !in order[..k];
      WalkDescends(g, w, nodes, order, k);
    }
  }

  lemma {:induction false} FirstPosition(order: seq<Node>, n: Node)
    requires n in order
    ensures exists k :: 0 <= k < |order| && order[k] == n && n !in order[..k]
  {
    var k :| 0 <= k < |order| && order[k] == n;
    if n in order[..k] {
      FirstPosition(order[..k], n);
      var j :| 0 <= j < k && order[..k][j] == n && n !in order[..k][..j];
      assert order[..k][..j] == order[..j];
    }
  }

  /** Along a walk of present nodes an order position can only decrease, so
      from position `k` a walk of present nodes ends before `k`. */
  lemma {:induction false} WalkDescends(g: Graph, w: seq<Node>, nodes: set<Node>, order: seq<Node>, k: nat)
    requires Ordered(g, nodes, order) && IsWalk(g, w) && |w| > 1 && w[|w| - 1] in g
    requires k < |order| && order[k] == w[0]
    ensures w[|w| - 1] in order[..k]
    decreases |w|
  {
    assert w[0] in g && w[1] in g[w[0]];
    if |w| > 2 {
      assert w[1] in g && w[1 + 1] in g[w[1]];
      var j :| 0 <= j < k && order[j] == w[1];
      var v := w[1..];
      forall i | 0 <= i < |v| - 1 ensures v[i] in g && v[i + 1] in g[v[i]] {
        assert w[i + 1] in g && w[i + 2] in g[w[i + 1]];
      }
      WalkDescends(g, v, nodes, order, j);
      assert order[..j] <= order[..k];
    }
  }

  // ---- the bench's resource check: the same search without a memory ---------------

  /** Every report of one visit, following each dependency afresh. */
  function Explore(g: Graph, n: Node, path: set<Node>): seq<Problem>
    requires path <= g.Keys
    decreases |g.Keys - path|, 0, 0
  {
    if n !in g then [Missing]
    else if n in path then [Cycle]
    else
      SmallerSet(g.Keys - (path + {n}), g.Keys - path, n);
      ExploreAll(g, g[n], path + {n})
  }

  function ExploreAll(g: Graph, nodes: seq<Node>, path: set<Node>): seq<Problem>
    requires path <= g.Keys
    decreases |g.Keys - path|, 1, |nodes|
  {
    if nodes == [] then [] else Explore(g, nodes[0], path) + ExploreAll(g, nodes[1..], path)
  }

  class ResourceCheck {
    const resources: Graph
    var errors: seq<Problem>

    constructor (resources: Graph)
      ensures this.resources == resources && errors == []
    {
      this.resources := resources;
      errors := [];
    }

    method Visit(r: Node, path: set<Node>)
      requires path <= resources.Keys
      modifies this
      ensures errors == old(errors) + Explore(resources, r, path)
      decreases |resources.Keys - path|, 0, 0
    {
      if r !in resources {
        errors := errors + [Missing];
      } else if r in path {
        errors := errors + [Cycle];
      } else {
        SmallerSet(resources.Keys - (path + {r}), resources.Keys - path, r);
        VisitChildren(resources[r], path + {r});
      }
    }

    method VisitChildren(children: seq<Node>, path: set<Node>)
      requires path <= resources.Keys
      modifies this
      ensures errors == old(errors) + ExploreAll(resources, children, path)
      decreases |resources.Keys - path|, 1, 0
    {
      var i := 0;
      while i < |children|
        invariant 0 <= i <= |children|
        invariant errors + ExploreAll(resources, children[i..], path)
               == old(errors) + ExploreAll(resources, children, path)
      {
        Unfold(resources, children, i, path);
        Associate(errors, Explore(resources, children[i], path), ExploreAll(resources, children[i + 1..], path));
        Visit(children[i], path);
        i := i + 1;
      }
    }
  }

  lemma Unfold(g: Graph, nodes: seq<Node>, i: nat, path: set<Node>)
    requires i < |nodes| && path <= g.Keys
    ensures ExploreAll(g, nodes[i..], path) == Explore(g, nodes[i], path) + ExploreAll(g, nodes[i + 1..], path)
  {
    assert nodes[i..][1..] == nodes[i + 1..];
  }

  lemma Associate(a: seq<Problem>, b: seq<Problem>, c: seq<Problem>)
    ensures (a + b) + c == a + (b + c)
  {}

  /** Each report of an exploration is true of what it can reach. */
  lemma {:induction false} ExploreSound(g: Graph, roots: seq<Node>, n: Node, path: set<Node>)
    requires path <= g.Keys && Reachable(g, roots, n)
    requires forall p :: p in path ==> Follows(g, p, n)
    ensures Cycle in Explore(g, n, path) ==> CycleReachable(g, roots)
    ensures Missing in Explore(g, n, path) ==> MissingReachable(g, roots)
    decreases |g.Keys - path|, 0, 0
  {
    if n in g && n !in path {
      SmallerSet(g.Keys - (path + {n}), g.Keys - path, n);
      forall d | d in g[n] ensures Reachable(g, roots, d) && forall p :: p in path + {n} ==> Follows(g, p, d) {
        OpenFollow(g, roots, path, n, d);
      }
      ExploreAllSound(g, roots, g[n], path + {n});
    }
  }

  lemma {:induction false} ExploreAllSound(g: Graph, roots: seq<Node>, nodes: seq<Node>, path: set<Node>)
    requires path <= g.Keys && forall d :: d in nodes ==> Reachable(g, roots, d)
    requires forall p, d :: p in path && d in nodes ==> Follows(g, p, d)
    ensures Cycle in ExploreAll(g, nodes, path) ==> CycleReachable(g, roots)
    ensures Missing in ExploreAll(g, nodes, path) ==> MissingReachable(g, roots)
    decreases |g.Keys - path|, 1, |nodes|
  {
    if nodes != [] {
      assert nodes[0] in nodes;
      ExploreSound(g, roots, nodes[0], path);
      ExploreAllSound(g, roots, nodes[1..], path);
    }
  }

  ghost predicate NoRepeat(w: seq<Node>, path: set<Node>) {
    && (forall i :: 0 <= i < |w| ==> w[i] !in path)
    && (forall i, j :: 0 <= i < j < |w| ==> w[i] != w[j])
  }

  /** If a visit reports no cycle, no walk from its node repeats a node or
      meets an open one. */
  lemma {:induction false} ExploreComplete(g: Graph, n: Node, path: set<Node>, w: seq<Node>)
    requires path <= g.Keys && IsWalk(g, w) && w[0] == n
    ensures Cycle !in Explore(g, n, path) && n !in path ==> NoRepeat(w, path)
    ensures Cycle !in Explore(g, n, path) && n in g ==> n !in path
    decreases |w|
  {
    if n in g && n !in path && |w| > 1 {
      var v := w[1..];
      assert w[0 + 1] in g[w[0]];
      forall i | 0 <= i < |v| - 1 ensures v[i] in g && v[i + 1] in g[v[i]] {
        assert w[i + 1] in g && w[i + 2] in g[w[i + 1]];
      }
      SmallerSet(g.Keys - (path + {n}), g.Keys - path, n);
      ExploreComplete(g, v[0], path + {n}, v);
      ExploreAllContains(g, g[n], path + {n}, v[0]);
      if Cycle !in Explore(g, n, path) {
        forall i | 0 <= i < |w| ensures w[i] !in path {
          if i > 0 { assert w[i] == v[i - 1]; }
        }
        forall i, j | 0 <= i < j < |w| ensures w[i] != w[j] {
          assert w[j] == v[j - 1];
          if i > 0 { assert w[i] == v[i - 1]; }
        }
      }
    }
  }

  lemma {:induction false} ExploreAllContains(g: Graph, nodes: seq<Node>, path: set<Node>, d: Node)
    requires path <= g.Keys && d in nodes
    ensures forall e :: e in Explore(g, d, path) ==> e in ExploreAll(g, nodes, path)
    decreases |nodes|
  {
    if nodes[0] != d {
      ExploreAllContains(g, nodes[1..], path, d);
    }
  }

  /** A walk without repetition is followed to its end. */
  lemma {:induction false} ExploreFollows(g: Graph, n: Node, path: set<Node>, w: seq<Node>)
    requires path <= g.Keys && IsWalk(g, w) && w[0] == n && NoRepeat(w, path) && w[|w| - 1] !in g
    ensures Missing in Explore(g, n, path)
    decreases |w|
  {
    if |w| > 1 {
      var v := w[1..];
      assert w[0] in g && w[0 + 1] in g[w[0]];
      forall i | 0 <= i < |v| - 1 ensures v[i] in g && v[i + 1] in g[v[i]] {
        assert w[i + 1] in g && w[i + 2] in g[w[i + 1]];
      }
      SmallerSet(g.Keys - (path + {n}), g.Keys - path, n);
      ExploreFollows(g, v[0], path + {n}, v);
      ExploreAllContains(g, g[n], path + {n}, v[0]);
    }
  }

  /** Cutting the loops out of a walk leaves one without repetition. */
  lemma {:induction false} SimpleWalk(g: Graph, w: seq<Node>, a: Node, b: Node)
    requires Walks(g, w, a, b)
    ensures exists v :: Walks(g, v, a, b) && NoRepeat(v, {})
    decreases |w|
  {
    if !NoRepeat(w, {}) {
      var i, j :| 0 <= i < j < |w| && w[i] == w[j];
      CutWalk(g, w, a, b, i, j);
      SimpleWalk(g, w[..i] + w[j..], a, b);
    }
  }

  lemma CutWalk(g: Graph, w: seq<Node>, a: Node, b: Node, i: nat, j: nat)
    requires Walks(g, w, a, b) && i < j < |w| && w[i] == w[j]
    ensures Walks(g, w[..i] + w[j..], a, b)
  {
    var v := w[..i] + w[j..];
    forall k | 0 <= k < |v| - 1 ensures v[k] in g && v[k + 1] in g[v[k]] {
      if k < i {
        assert v[k] == w[k] && v[k + 1] == w[k + 1];
      } else {
        assert v[k] == w[j + (k - i)] && v[k + 1] == w[j + (k - i) + 1];
      }
    }
  }

  lemma CycleExplored(g: Graph, roots: seq<Node>)
    requires CycleReachable(g, roots)
    ensures Cycle in ExploreAll(g, roots, {})
  {
    var n :| Reachable(g, roots, n) && Follows(g, n, n);
    var r :| r in roots && Reaches(g, r, n);
    var w :| Walks(g, w, r, n);
    var c :| Walks(g, c, n, n) && |c| > 1;
    JoinWalks(g, w, c, r, n, n);
    var j := w + c[1..];
    assert j[|w| - 1] == n && j[|j| - 1] == n;
    ExploreComplete(g, r, {}, j);
    ExploreAllContains(g, roots, {}, r);
  }

  lemma MissingExplored(g: Graph, roots: seq<Node>)
    requires MissingReachable(g, roots)
    ensures Missing in ExploreAll(g, roots, {})
  {
    var n :| Reachable(g, roots, n) && n !in g;
    var r :| r in roots && Reaches(g, r, n);
    var w :| Walks(g, w, r, n);
    SimpleWalk(g, w, r, n);
    var v :| Walks(g, v, r, n) && NoRepeat(v, {});
    ExploreFollows(g, r, {}, v);
    ExploreAllContains(g, roots, {}, r);
  }

  /** The search without a memory reports a cycle, and a missing node, for
      exactly the same graphs and roots as the closure. */
  lemma ExhaustiveReportsTheSame(g: Graph, roots: seq<Node>)
    ensures Cycle in ExploreAll(g, roots, {}) <==> CycleReachable(g, roots)
    ensures Missing in ExploreAll(g, roots, {}) <==> MissingReachable(g, roots)
  {
    forall r | r in roots ensures Reachable(g, roots, r) { RootReachable(g, roots, r); }
    ExploreAllSound(g, roots, roots, {});
    if CycleReachable(g, roots) { CycleExplored(g, roots); }
    if MissingReachable(g, roots) { MissingExplored(g, roots); }
  }

  lemma JoinWalks(g: Graph, w: seq<Node>, c: seq<Node>, a: Node, b: Node, d: Node)
    requires Walks(g, w, a, b) && Walks(g, c, b, d)
    ensures Walks(g, w + c[1..], a, d)
  {
    var j := w + c[1..];
    forall i | 0 <= i < |j| - 1 ensures j[i] in g && j[i + 1] in g[j[i]] {
      if i >= |w| - 1 {
        assert j[i] == c[i - (|w| - 1)] && j[i + 1] == c[i - (|w| - 1) + 1];
      } else {
        assert j[i] == w[i] && j[i + 1] == w[i + 1];
      }
    }
  }

  /** The bench's check starts a search at every resource: it reports a cycle
      exactly if some resource leads back to itself, and an unknown resource
      exactly if one is depended on. */
  method CheckResources(resources: Graph, ids: seq<Node>) returns (errors: seq<Problem>)
    requires forall n :: n in ids <==> n in resources
    ensures Cycle in errors <==> exists n :: n in resources && Follows(resources, n, n)
    ensures Missing in errors <==> exists n, d :: n in resources && d in resources[n] && d !in resources
  {
    var check := new ResourceCheck(resources);
    check.VisitChildren(ids, {});
    errors := check.errors;
    assert errors == ExploreAll(resources, ids, {});
    ExhaustiveReportsTheSame(resources, ids);
    EveryNodeARoot(resources, ids);
  }

  lemma EveryNodeARoot(g: Graph, roots: seq<Node>)
    requires forall n :: n in roots <==> n in g
    ensures CycleReachable(g, roots) <==> exists n :: n in g && Follows(g, n, n)
    ensures MissingReachable(g, roots) <==> exists n, d :: n in g && d in g[n] && d !in g
  {
    hide Follows, Reachable;
    forall n | n in g ensures Reachable(g, roots, n) { RootReachable(g, roots, n); }
    forall n | Follows(g, n, n) ensures n in g { LeavesPresent(g, n, n); }
    if MissingReachable(g, roots) {
      var n :| Reachable(g, roots, n) && n !in g;
      MissingHasParent(g, roots, n);
    }
    forall n, d | n in g && d in g[n] && d !in g ensures MissingReachable(g, roots) {
      StepReachable(g, roots, n, d);
    }
  }

  lemma LeavesPresent(g: Graph, a: Node, b: Node)
    requires Follows(g, a, b)
    ensures a in g
  {
    var w :| Walks(g, w, a, b) && |w| > 1;
    assert w[0] in g;
  }

  // ---- pins --------------------------------------------------------------------------

  datatype Pin = Pin(registry: string, name: string, version: string, digest: string)

  predicate SameKey(a: Pin, b: Pin) {
    a.registry == b.registry && a.name == b.name
  }

  predicate SameContent(a: Pin, b: Pin) {
    a.version == b.version && a.digest == b.digest
  }

  /** Pins are exact when no two of them name one package differently. */
  method Exact(pins: seq<Pin>) returns (ok: bool)
    ensures ok <==> forall i, j :: 0 <= i < j < |pins| && SameKey(pins[i], pins[j]) ==> SameContent(pins[i], pins[j])
  {
    var seen: map<(string, string), (string, string)> := map[];
    var n := 0;
    while n < |pins|
      invariant 0 <= n <= |pins|
      invariant forall i :: 0 <= i < n ==> (pins[i].registry, pins[i].name) in seen
                                           && seen[(pins[i].registry, pins[i].name)] == (pins[i].version, pins[i].digest)
      invariant forall k :: k in seen ==> exists i :: 0 <= i < n && k == (pins[i].registry, pins[i].name)
    {
      var k, v := (pins[n].registry, pins[n].name), (pins[n].version, pins[n].digest);
      if k in seen && seen[k] != v {
        ghost var i :| 0 <= i < n && k == (pins[i].registry, pins[i].name);
        assert SameKey(pins[i], pins[n]) && !SameContent(pins[i], pins[n]);
        return false;
      }
      seen := seen[k := v];
      n := n + 1;
    }
    ok := true;
  }
}
