/** Functions and methods that no chain of calls reaches from any root. */
module DeadCode {
  import opened Orders
  import opened Digraph
  import opened CodeGraph
  import opened Text

  predicate IsRoot(n: Node) {
    || n.kind.KindFile?
    || n.isEntrypoint || n.isTest || !n.entrypointKind.EntryNone?
    || n.name == "main" || HasPrefix(n.name, "Test") || HasPrefix(n.name, "test_") || HasPrefix(n.name, "__")
  }

  predicate IsCandidate(n: Node) {
    n.kind.KindFunction? || n.kind.KindMethod?
  }

  ghost function CallRel(edges: seq<Edge>): Rel {
    KindRel(edges, {EdgeCalls})
  }

  function Roots(nodes: map<Id, Node>): set<Id> {
    set id | id in nodes && IsRoot(nodes[id])
  }

  /** Some root reaches `x`. */
  ghost predicate Live<V(!new)>(R: set<(V, V)>, roots: set<V>, x: V) {
    exists r :: r in roots && Reaches(R, r, x)
  }

  ghost predicate Dead(nodes: map<Id, Node>, edges: seq<Edge>, n: Node) {
    n.id in nodes && nodes[n.id] == n && IsCandidate(n) && !Live(CallRel(edges), Roots(nodes), n.id)
  }

  predicate IdLess(a: Node, b: Node) {
    StrLess(a.id, b.id)
  }

  // ---------------------------------------------------------------------------------
  // Spreading from the roots

  /** Everything visited is live, and only the vertices of `open` may have steps left. */
  ghost predicate Spreading<V(!new)>(R: set<(V, V)>, roots: set<V>, visited: set<V>, open: set<V>) {
    && roots <= visited && open <= visited
    && (forall x :: x in visited ==> Live(R, roots, x))
    && (forall x, y :: x in visited && x !in open && (x, y) in R ==> y in visited)
  }

  lemma SpreadStart<V(!new)>(R: set<(V, V)>, roots: set<V>)
    ensures Spreading(R, roots, roots, roots)
  {
    forall x | x in roots ensures Live(R, roots, x) { ReachesSelf(R, x); }
  }

  lemma SpreadPush<V(!new)>(R: set<(V, V)>, roots: set<V>, visited: set<V>, open: set<V>, next: seq<V>, x: V, y: V)
    requires Spreading(R, roots, visited, open + Elems(next)) && x in visited && (x, y) in R
    ensures Spreading(R, roots, visited + {y}, open + Elems(next + [y]))
  {
    var r :| r in roots && Reaches(R, r, x);
    ReachesEdge(R, x, y);
    ReachesTransitive(R, r, x, y);
    assert Elems(next + [y]) == Elems(next) + {y};
  }

  lemma SpreadClose<V(!new)>(R: set<(V, V)>, roots: set<V>, visited: set<V>, open: set<V>, x: V, left: set<V>)
    requires Spreading(R, roots, visited, open) && open - {x} <= left <= open
    requires forall y :: (x, y) in R ==> y in visited
    ensures Spreading(R, roots, visited, left)
  {
  }

  /** With nothing left open, exactly the live vertices have been visited. */
  lemma SpreadOut<V(!new)>(R: set<(V, V)>, roots: set<V>, visited: set<V>)
    requires Spreading(R, roots, visited, {})
    ensures forall x :: x in visited <==> Live(R, roots, x)
  {
    forall x | Live(R, roots, x) ensures x in visited {
      var r :| r in roots && Reaches(R, r, x);
      ClosedReaches(R, visited, r, x);
    }
  }

  /** All vertices an edge leads to. */
  ghost function Targets(edges: seq<Edge>): set<Id> {
    set e | e in edges :: e.target
  }

  /** One vertex of the frontier: its calls to unvisited vertices are the next ones to do. */
  method Expand(g: Graph, id: Id, visited0: set<Id>, next0: seq<Id>, ghost roots: set<Id>, ghost open: set<Id>,
                ghost universe: set<Id>)
    returns (visited: set<Id>, next: seq<Id>)
    requires g.Valid() && id in open && Targets(g.edges) <= universe && visited0 <= universe
    requires Spreading(CallRel(g.edges), roots, visited0, open + Elems(next0))
    ensures Spreading(CallRel(g.edges), roots, visited, open + Elems(next))
    ensures forall y :: (id, y) in CallRel(g.edges) ==> y in visited
    ensures Marked(visited0, next0, visited, next, universe)
  {
    ghost var R := CallRel(g.edges);
    visited, next := visited0, next0;
    var list := Lookup(g.out, id);
    for i := 0 to |list|
      invariant Spreading(R, roots, visited, open + Elems(next))
      invariant Marked(visited0, next0, visited, next, universe)
      invariant forall k :: 0 <= k < i && list[k].kind.EdgeCalls? ==> list[k].target in visited
    {
      var e := list[i];
      if !e.kind.EdgeCalls? || e.target in visited {
        continue;
      }
      CallStep(g.edges, id, i);
      SpreadPush(R, roots, visited, open, next, id, e.target);
      MarkedPush(visited0, next0, visited, next, universe, e.target);
      visited := visited + {e.target};
      next := next + [e.target];
    }
    CallsFollowed(g.edges, id, visited);
  }

  lemma CallsFollowed(edges: seq<Edge>, id: Id, visited: set<Id>)
    requires forall k :: 0 <= k < |Leaving(edges, id)| && Leaving(edges, id)[k].kind.EdgeCalls? ==>
               Leaving(edges, id)[k].target in visited
    ensures forall y :: (id, y) in CallRel(edges) ==> y in visited
  {
    LeavingMembers(edges, id);
    forall y | (id, y) in CallRel(edges) ensures y in visited {
      var e :| e in edges && e.kind in {EdgeCalls} && e.source == id && e.target == y;
      assert e.kind == EdgeCalls;
      var list := Leaving(edges, id);
      assert e in list;
      var k :| 0 <= k < |list| && list[k] == e;
      assert list[k].target in visited;
    }
  }

  lemma CallStep(edges: seq<Edge>, id: Id, i: nat)
    requires i < |Leaving(edges, id)| && Leaving(edges, id)[i].kind.EdgeCalls?
    ensures (id, Leaving(edges, id)[i].target) in CallRel(edges)
    ensures Leaving(edges, id)[i].target in Targets(edges)
  {
    LeavingMembers(edges, id);
    assert Leaving(edges, id)[i] in Leaving(edges, id);
  }

  method ExpandLevel(g: Graph, frontier: seq<Id>, visited0: set<Id>, ghost roots: set<Id>, ghost universe: set<Id>)
    returns (visited: set<Id>, next: seq<Id>)
    requires g.Valid() && Spreading(CallRel(g.edges), roots, visited0, Elems(frontier))
    requires Targets(g.edges) <= universe && visited0 <= universe
    ensures Spreading(CallRel(g.edges), roots, visited, Elems(next))
    ensures Marked(visited0, [], visited, next, universe)
  {
    ghost var R := CallRel(g.edges);
    visited, next := visited0, [];
    ghost var open := Elems(frontier);
    for i := 0 to |frontier|
      invariant open == Elems(frontier[i..])
      invariant Spreading(R, roots, visited, open + Elems(next))
      invariant Marked(visited0, [], visited, next, universe)
    {
      var id := frontier[i];
      assert frontier[i..] == [id] + frontier[i + 1..];
      ghost var visited1, next1 := visited, next;
      visited, next := Expand(g, id, visited, next, roots, open, universe);
      MarkedTwice(visited0, [], visited1, next1, visited, next, universe);
      ghost var rest := Elems(frontier[i + 1..]);
      SpreadClose(R, roots, visited, open + Elems(next), id, rest + Elems(next));
      open := rest;
    }
  }

  method DeadCandidates(g: Graph) returns (rootCount: nat, dead: seq<Node>)
    requires g.Valid()
    ensures rootCount == |Roots(g.nodes)|
    ensures StrictlySorted(dead, IdLess)
    ensures forall n :: n in dead <==> Dead(g.nodes, g.edges, n)
  {
    ghost var R, roots := CallRel(g.edges), Roots(g.nodes);
    var visited := set id | id in g.nodes && IsRoot(g.nodes[id]);
    var frontier := Listed(visited);
    rootCount := |frontier|;
    ghost var universe := roots + Targets(g.edges);
    SpreadStart(R, roots);
    while |frontier| > 0
      invariant Spreading(R, roots, visited, Elems(frontier))
      invariant visited <= universe
      decreases |universe - visited|, |frontier|
    {
      ghost var visited1 := visited;
      visited, frontier := ExpandLevel(g, frontier, visited, roots, universe);
      LessLeft(visited1, visited, universe);
    }
    SpreadOut(R, roots, visited);
    dead := Unvisited(g, visited);
  }

  /** The members of a set in some order. */
  method Listed<V(==)>(ids: set<V>) returns (list: seq<V>)
    ensures Elems(list) == ids && |list| == |ids| && Distinct(list)
  {
    list := [];
    var todo := ids;
    while todo != {}
      invariant todo <= ids && Elems(list) == ids - todo && Distinct(list) && |list| + |todo| == |ids|
      decreases todo
    {
      var id :| id in todo;
      assert Elems(list + [id]) == Elems(list) + {id};
      assert id !in list by { assert id !in Elems(list); }
      list := list + [id];
      todo := todo - {id};
    }
  }

  /** The candidates among the nodes outside `visited`, by ID. */
  method Unvisited(g: Graph, visited: set<Id>) returns (dead: seq<Node>)
    requires g.Valid()
    ensures StrictlySorted(dead, IdLess)
    ensures forall n :: n in dead <==> n.id in g.nodes && g.nodes[n.id] == n && IsCandidate(n) && n.id !in visited
  {
    var found: seq<Node> := [];
    var ids := Listed(g.nodes.Keys);
    for i := 0 to |ids|
      invariant forall n :: n in found <==> n.id in ids[..i] && n.id in g.nodes && g.nodes[n.id] == n
                                            && IsCandidate(n) && n.id !in visited
      invariant Distinct(found)
    {
      assert ids[i] in Elems(ids);
      assert ids[..i + 1] == ids[..i] + [ids[i]];
      var n := g.nodes[ids[i]];
      if IsCandidate(n) && ids[i] !in visited {
        found := found + [n];
      }
    }
    StrLessTotal();
    dead := SortSlice(found, IdLess);
    PermutationElems(found, dead);
    PermutationDistinct(found, dead);
    forall n: Node | n.id in g.nodes ensures n.id in ids[..|ids|] { assert n.id in Elems(ids); }
  }

  /** A file, a node marked as a test or as an entry point, or one with a name that something
      outside the repository calls. */
  ghost predicate UsedFromOutside(n: Node) {
    || n.kind == KindFile || n.isEntrypoint || n.isTest || n.entrypointKind != EntryNone
    || n.name == "main" || Begins(n.name, "Test") || Begins(n.name, "test_") || Begins(n.name, "__")
  }

  lemma RootsMean(n: Node)
    ensures IsRoot(n) <==> UsedFromOutside(n)
  {
    PrefixMeans(n.name, "Test");
    PrefixMeans(n.name, "test_");
    PrefixMeans(n.name, "__");
  }

  /** Dead is a function or method to which no chain of calls leads from a node that is used
      from outside. */
  lemma DeadMeans(nodes: map<Id, Node>, edges: seq<Edge>, n: Node)
    ensures Dead(nodes, edges, n) <==>
              && n.id in nodes && nodes[n.id] == n && (n.kind == KindFunction || n.kind == KindMethod)
              && forall r :: r in nodes && UsedFromOutside(nodes[r]) ==>
                   !Reaches(KindRel(edges, {EdgeCalls}), r, n.id)
  {
    forall r | r in nodes ensures r in Roots(nodes) <==> UsedFromOutside(nodes[r]) {
      RootsMean(nodes[r]);
    }
  }

  lemma DeadOrdered(dead: seq<Node>, i: nat, j: nat)
    requires StrictlySorted(dead, IdLess) && i < j < |dead|
    ensures ComesBefore(dead[i].id, dead[j].id)
  {
    assert IdLess(dead[i], dead[j]);
    StrLessExactly(dead[i].id, dead[j].id);
  }

  /** The report does not depend on the order nodes, roots or edges are visited in. */
  lemma DeadUnique(nodes: map<Id, Node>, edges1: seq<Edge>, edges2: seq<Edge>, a: seq<Node>, b: seq<Node>)
    requires multiset(edges1) == multiset(edges2)
    requires StrictlySorted(a, IdLess) && forall n :: n in a <==> Dead(nodes, edges1, n)
    requires StrictlySorted(b, IdLess) && forall n :: n in b <==> Dead(nodes, edges2, n)
    ensures a == b
  {
    PermutationElems(edges1, edges2);
    assert CallRel(edges1) == CallRel(edges2);
    StrLessTotal();
    StrictlySortedUnique(a, b, IdLess);
  }

  /** More edges never make more dead code. */
  lemma EdgesOnlyRevive(nodes: map<Id, Node>, edges: seq<Edge>, more: seq<Edge>, n: Node)
    requires forall e :: e in edges ==> e in more
    requires Dead(nodes, more, n)
    ensures Dead(nodes, edges, n)
  {
    if Live(CallRel(edges), Roots(nodes), n.id) {
      var r :| r in Roots(nodes) && Reaches(CallRel(edges), r, n.id);
      ReachesMore(CallRel(edges), CallRel(more), r, n.id);
    }
  }

  lemma ReachesMore<V(!new)>(R: set<(V, V)>, S: set<(V, V)>, x: V, y: V)
    requires Reaches(R, x, y) && R <= S
    ensures Reaches(S, x, y)
  {
    var p :| WalkFrom(R, x, y, p);
    forall i: nat | i + 1 < |p| ensures Step(S, p, i) {
      assert Step(R, p, i);
    }
    assert WalkFrom(S, x, y, p);
  }
}
