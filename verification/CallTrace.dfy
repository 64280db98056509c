/** The call tree below an entry point, unfolded depth first on a budget. */
module CallTrace {
  import opened Orders
  import opened CodeGraph

  /** Where a call is made, and to what. */
  datatype Site = Site(line: int, target: Id)

  /** What the graph knows about a node, if anything. */
  datatype About = Unknown | Known(name: string, kind: NodeKind, file: string)

  datatype TraceNode = TraceNode(id: Id, about: About, callLine: int, cycle: bool, calls: seq<TraceNode>)

  // ---------------------------------------------------------------------------------
  // The order of calls

  predicate SiteLess(a: Site, b: Site) {
    if a.line != b.line then a.line < b.line else StrLess(a.target, b.target)
  }

  predicate CallLess(a: Edge, b: Edge) {
    SiteLess(Site(a.line, a.target), Site(b.line, b.target))
  }

  lemma SiteLessTotal()
    ensures StrictWeak(SiteLess) && StrictWeak(CallLess)
    ensures forall a, b :: a == b || SiteLess(a, b) || SiteLess(b, a)
  {
    StrLessTotal();
  }

  predicate IsCallEdge(e: Edge) {
    e.kind.EdgeCalls?
  }

  function SiteOf(e: Edge): Site {
    Site(e.line, e.target)
  }

  /** The call sites among some edges, in order. */
  ghost function SitesIn(list: seq<Edge>): seq<Site> {
    Chosen(list, IsCallEdge, SiteOf)
  }

  /** The calls made from `id`, by line and then by target. */
  ghost function CallSites(edges: seq<Edge>, id: Id): seq<Site> {
    Arranged(SitesIn(Leaving(edges, id)), SiteLess)
  }

  /** The call sites of a node are where its calls edges say. */
  lemma CallSitesMean(edges: seq<Edge>, id: Id, line: int, target: Id)
    ensures Site(line, target) in CallSites(edges, id) <==>
              exists e :: e in edges && e.kind == EdgeCalls && e.source == id && e.line == line && e.target == target
  {
    var leaving := Leaving(edges, id);
    SiteLessTotal();
    ArrangedSorted(SitesIn(leaving), SiteLess);
    PermutationElems(SitesIn(leaving), CallSites(edges, id));
    ChosenMembers(leaving, IsCallEdge, SiteOf);
    LeavingMembers(edges, id);
    if Site(line, target) in CallSites(edges, id) {
      assert Site(line, target) in SitesIn(leaving);
      var e :| e in leaving && IsCallEdge(e) && SiteOf(e) == Site(line, target);
      assert e in edges;
    }
    if e :| e in edges && e.kind == EdgeCalls && e.source == id && e.line == line && e.target == target {
      assert e in leaving && SiteOf(e) == Site(line, target);
      assert Site(line, target) in SitesIn(leaving);
    }
  }

  /** ... in order of their lines, and then of their targets. */
  lemma CallSitesOrdered(edges: seq<Edge>, id: Id, i: nat, j: nat)
    requires i < j < |CallSites(edges, id)|
    ensures var a, b := CallSites(edges, id)[i], CallSites(edges, id)[j];
      a.line < b.line || (a.line == b.line && (a.target == b.target || ComesBefore(a.target, b.target)))
  {
    var sites := CallSites(edges, id);
    SiteLessTotal();
    ArrangedSorted(SitesIn(Leaving(edges, id)), SiteLess);
    assert !SiteLess(sites[j], sites[i]);
    StrLessExactly(sites[i].target, sites[j].target);
    StrLessTotal();
  }

  /** Whatever order the sort leaves equal edges in, the call sites come out the same. */
  lemma SortedSites(edges: seq<Edge>, id: Id, sorted: seq<Edge>)
    requires multiset(sorted) == multiset(Leaving(edges, id)) && Sorted(sorted, CallLess)
    ensures SitesIn(sorted) == CallSites(edges, id)
  {
    SiteLessTotal();
    ChosenPermuted(sorted, Leaving(edges, id), IsCallEdge, SiteOf);
    ChosenSorted(sorted, IsCallEdge, SiteOf, CallLess, SiteLess);
    ArrangedSorted(SitesIn(Leaving(edges, id)), SiteLess);
    SortedUnique(SitesIn(sorted), CallSites(edges, id), SiteLess);
  }

  // ---------------------------------------------------------------------------------
  // The full tree

  ghost function AboutNode(nodes: map<Id, Node>, id: Id): About {
    if id in nodes then Known(nodes[id].name, nodes[id].kind, nodes[id].filePath) else Unknown
  }

  /** What a trace reads: the graph and the depth limit. */
  datatype Web = Web(nodes: map<Id, Node>, edges: seq<Edge>, maxDepth: int)

  /** The tree an unlimited budget gives: every call followed down to `maxDepth`, stopping
      at nodes that are already on the way down. */
  ghost function Unfold(web: Web, id: Id, depth: int, callLine: int, path: set<Id>): TraceNode
    decreases web.maxDepth - depth, 0, 0
  {
    TraceNode(id, AboutNode(web.nodes, id), callLine, id in path,
              if id in path || depth >= web.maxDepth then []
              else UnfoldAll(web, CallSites(web.edges, id), depth + 1, path + {id}))
  }

  ghost function UnfoldAll(web: Web, sites: seq<Site>, depth: int, path: set<Id>): seq<TraceNode>
    decreases web.maxDepth - depth, 1, |sites|
  {
    if sites == [] then []
    else
      var last := sites[|sites| - 1];
      UnfoldAll(web, sites[..|sites| - 1], depth, path)
      + [Unfold(web, last.target, depth, last.line, path)]
  }

  datatype Visit = Visit(depth: int, node: TraceNode)

  /** The nodes of some trees, root first, each with its depth. */
  ghost function Visits(trees: seq<TraceNode>, depth: int): seq<Visit>
    decreases trees
  {
    if trees == [] then []
    else
      var last := trees[|trees| - 1];
      Visits(trees[..|trees| - 1], depth) + [Visit(depth, last.(calls := []))] + Visits(last.calls, depth + 1)
  }

  /** On a budget of `before`, the first visits of the full tree are made. */
  ghost predicate Spent(full: seq<Visit>, made: seq<Visit>, before: int, cut0: bool, after: int, cut: bool) {
    && made <= full && |made| == Room(before, |full|)
    && after == before - |made|
    && (cut <==> cut0 || |made| < |full|)
  }

  function Room(budget: int, wanted: nat): (room: nat)
    ensures room <= wanted
  {
    if budget <= 0 then 0 else if budget < wanted then budget else wanted
  }

  lemma SpentBoth(a: seq<Visit>, madeA: seq<Visit>, b: seq<Visit>, madeB: seq<Visit>,
                  budget0: int, cut0: bool, budget1: int, cut1: bool, budget2: int, cut2: bool)
    requires Spent(a, madeA, budget0, cut0, budget1, cut1)
    requires Spent(b, madeB, budget1, cut1, budget2, cut2)
    ensures Spent(a + b, madeA + madeB, budget0, cut0, budget2, cut2)
  {
  }

  lemma SpentOnNode(v: Visit, full: seq<Visit>, made: seq<Visit>, budget: int, cut0: bool, after: int, cut: bool)
    requires budget > 0 && Spent(full, made, budget - 1, cut0, after, cut)
    ensures Spent([v] + full, [v] + made, budget, cut0, after, cut)
  {
  }

  lemma SpentUp(a: seq<Visit>, made: seq<Visit>, rest: seq<Visit>, budget: int, cut0: bool, after: int, cut: bool)
    requires Spent(a, made, budget, cut0, after, cut) && after <= 0 && rest != []
    ensures Spent(a + rest, made, budget, cut0, after, true)
  {
  }

  lemma Assoc<T>(a: seq<T>, b: seq<T>, c: seq<T>, d: seq<T>)
    ensures (a + b) + c + d == a + (b + c + d)
  {
  }

  lemma {:induction false} VisitsConcat(a: seq<TraceNode>, b: seq<TraceNode>, depth: int)
    ensures Visits(a + b, depth) == Visits(a, depth) + Visits(b, depth)
    decreases |b|
  {
    if b == [] {
      assert a + b == a;
    } else {
      var init, last := b[..|b| - 1], b[|b| - 1];
      VisitsConcat(a, init, depth);
      assert (a + b)[..|a + b| - 1] == a + init;
      Assoc(Visits(a, depth), Visits(init, depth), [Visit(depth, last.(calls := []))], Visits(last.calls, depth + 1));
    }
  }

  lemma {:induction false} UnfoldConcat(web: Web,
                                        a: seq<Site>, b: seq<Site>, depth: int, path: set<Id>)
    ensures UnfoldAll(web, a + b, depth, path)
         == UnfoldAll(web, a, depth, path) + UnfoldAll(web, b, depth, path)
    decreases |b|
  {
    if b == [] {
      assert a + b == a;
    } else {
      UnfoldConcat(web, a, b[..|b| - 1], depth, path);
      assert (a + b)[..|a + b| - 1] == a + b[..|b| - 1];
    }
  }

  ghost predicate IsCall(edges: seq<Edge>, from: Id, to: Id, line: int) {
    exists e :: e in edges && e.kind.EdgeCalls? && e.source == from && e.target == to && e.line == line
  }

  /** Each child is a call of its parent, and a node is marked as a cycle exactly when it
      stands below itself; such nodes and those at the depth limit are not followed. */
  ghost predicate Follows(web: Web, t: TraceNode, depth: int, above: set<Id>)
    decreases t
  {
    && t.about == AboutNode(web.nodes, t.id)
    && (t.cycle <==> t.id in above)
    && (t.cycle || depth >= web.maxDepth ==> t.calls == [])
    && FollowsAll(web, t.calls, t.id, depth + 1, above + {t.id})
  }

  ghost predicate FollowsAll(web: Web, calls: seq<TraceNode>, caller: Id, depth: int, above: set<Id>)
    decreases calls
  {
    forall c :: c in calls ==> IsCall(web.edges, caller, c.id, c.callLine) && Follows(web, c, depth, above)
  }

  lemma FollowsPush(web: Web, calls: seq<TraceNode>, e: Edge, t: TraceNode, depth: int, above: set<Id>)
    requires FollowsAll(web, calls, e.source, depth, above) && Follows(web, t, depth, above)
    requires e in web.edges && IsCallEdge(e) && t.id == e.target && t.callLine == e.line
    ensures FollowsAll(web, calls + [t], e.source, depth, above)
  {
    assert IsCall(web.edges, e.source, t.id, t.callLine);
  }

  /** The calls followed so far are the first of those the full tree has, as far as the
      budget goes. */
  ghost predicate Traced(web: Web, sites: seq<Site>, depth: int, path: set<Id>, calls: seq<TraceNode>,
                         budget0: int, cut0: bool, budget: int, cut: bool)
  {
    Spent(Visits(UnfoldAll(web, sites, depth, path), depth), Visits(calls, depth), budget0, cut0, budget, cut)
  }

  /** The same for one call: the callee's node, and the nodes below it. */
  ghost predicate TracedOne(web: Web, site: Site, depth: int, path: set<Id>, t: TraceNode,
                            budget0: int, cut0: bool, budget: int, cut: bool)
  {
    var full := Unfold(web, site.target, depth, site.line, path);
    && t.(calls := []) == full.(calls := [])
    && Spent(Visits(full.calls, depth + 1), Visits(t.calls, depth + 1), budget0, cut0, budget, cut)
  }

  /** The budget is used up before call `k`: nothing after it is followed. */
  lemma CutHere(web: Web, list: seq<Edge>, k: nat, depth: int, path: set<Id>,
                calls: seq<TraceNode>, budget0: int, cut0: bool, budget: int, cut: bool)
    requires k < |list| && IsCallEdge(list[k]) && budget <= 0
    requires Traced(web, SitesIn(list[..k]), depth, path, calls, budget0, cut0, budget, cut)
    ensures Traced(web, SitesIn(list), depth, path, calls, budget0, cut0, budget, true)
  {
    assert list == list[..k] + list[k..];
    ChosenConcat(list[..k], list[k..], IsCallEdge, SiteOf);
    ChosenSome(list[k..], 0, IsCallEdge, SiteOf);
    UnfoldConcat(web, SitesIn(list[..k]), SitesIn(list[k..]), depth, path);
    var a := UnfoldAll(web, SitesIn(list[..k]), depth, path);
    var b := UnfoldAll(web, SitesIn(list[k..]), depth, path);
    VisitsConcat(a, b, depth);
    SpentUp(Visits(a, depth), Visits(calls, depth), Visits(b, depth), budget0, cut0, budget, cut);
  }

  /** One more tree. */
  lemma {:induction false} NextVisits(trees: seq<TraceNode>, t: TraceNode, depth: int)
    ensures Visits(trees + [t], depth)
         == Visits(trees, depth) + ([Visit(depth, t.(calls := []))] + Visits(t.calls, depth + 1))
  {
    assert (trees + [t])[..|trees|] == trees;
    Assoc(Visits(trees, depth), [], [Visit(depth, t.(calls := []))], Visits(t.calls, depth + 1));
  }

  /** One more site. */
  lemma {:induction false} NextUnfold(web: Web, sites: seq<Site>, site: Site, depth: int, path: set<Id>)
    ensures UnfoldAll(web, sites + [site], depth, path)
         == UnfoldAll(web, sites, depth, path) + [Unfold(web, site.target, depth, site.line, path)]
  {
    assert (sites + [site])[..|sites|] == sites;
  }

  /** One more call on the same budget: its own node, then what is below it. */
  lemma SpentNext(a: seq<Visit>, madeA: seq<Visit>, v: Visit, below: seq<Visit>, made: seq<Visit>,
                  budget0: int, cut0: bool, budget1: int, cut1: bool, budget2: int, cut2: bool)
    requires budget1 > 0
    requires Spent(a, madeA, budget0, cut0, budget1, cut1) && Spent(below, made, budget1 - 1, cut1, budget2, cut2)
    ensures Spent(a + ([v] + below), madeA + ([v] + made), budget0, cut0, budget2, cut2)
  {
    SpentOnNode(v, below, made, budget1, cut1, budget2, cut2);
    SpentBoth(a, madeA, [v] + below, [v] + made, budget0, cut0, budget1, cut1, budget2, cut2);
  }

  /** One more call followed, by the edge `e`. */
  lemma {:induction false} NextCall(web: Web, sites: seq<Site>, e: Edge, depth: int, path: set<Id>,
                                    calls: seq<TraceNode>, t: TraceNode, budget0: int, cut0: bool,
                                    budget1: int, cut1: bool, budget2: int, cut2: bool)
    requires budget1 > 0 && e in web.edges && IsCallEdge(e)
    requires Traced(web, sites, depth, path, calls, budget0, cut0, budget1, cut1)
    requires TracedOne(web, SiteOf(e), depth, path, t, budget1 - 1, cut1, budget2, cut2)
    requires FollowsAll(web, calls, e.source, depth, path) && Follows(web, t, depth, path)
    ensures Traced(web, sites + [SiteOf(e)], depth, path, calls + [t], budget0, cut0, budget2, cut2)
    ensures FollowsAll(web, calls + [t], e.source, depth, path)
  {
    var full := Unfold(web, e.target, depth, e.line, path);
    var before := UnfoldAll(web, sites, depth, path);
    NextUnfold(web, sites, SiteOf(e), depth, path);
    NextVisits(before, full, depth);
    NextVisits(calls, t, depth);
    SpentNext(Visits(before, depth), Visits(calls, depth), Visit(depth, t.(calls := [])),
              Visits(full.calls, depth + 1), Visits(t.calls, depth + 1),
              budget0, cut0, budget1, cut1, budget2, cut2);
    FollowsPush(web, calls, e, t, depth, path);
  }

  lemma TracedNothing(web: Web, list: seq<Edge>, depth: int, path: set<Id>, caller: Id, budget: int, cut: bool)
    ensures Traced(web, SitesIn(list[..0]), depth, path, [], budget, cut, budget, cut)
    ensures FollowsAll(web, [], caller, depth, path)
  {
    assert SitesIn(list[..0]) == [];
  }

  lemma SitesStep(list: seq<Edge>, k: nat)
    requires k < |list|
    ensures IsCallEdge(list[k]) ==> SitesIn(list[..k + 1]) == SitesIn(list[..k]) + [SiteOf(list[k])]
    ensures !IsCallEdge(list[k]) ==> SitesIn(list[..k + 1]) == SitesIn(list[..k])
  {
    assert list[..k + 1][..k] == list[..k];
    assert SitesIn(list[..k]) + [] == SitesIn(list[..k]);
  }

  class Tracer {
    const nodes: map<Id, Node>
    const out: map<Id, seq<Edge>>
    const maxDepth: int
    ghost const web: Web
    var budget: int
    var truncated: bool
    var path: set<Id>

    constructor (g: Graph, maxDepth: int, limit: int)
      ensures out == g.out && web == Web(g.nodes, g.edges, maxDepth)
      ensures nodes == web.nodes && this.maxDepth == web.maxDepth
      ensures budget == limit && !truncated && path == {}
    {
      nodes, out, this.maxDepth := g.nodes, g.out, maxDepth;
      web := Web(g.nodes, g.edges, maxDepth);
      budget, truncated, path := limit, false, {};
    }

    /** The tracer looks at the graph it was made for. */
    ghost predicate Reads() {
      nodes == web.nodes && maxDepth == web.maxDepth && FiledOut(out, web.edges)
    }

    method Walk(id: Id, depth: int, callLine: int) returns (t: TraceNode)
      requires Reads()
      modifies this
      ensures path == old(path)
      ensures TracedOne(web, Site(callLine, id), depth, path, t, old(budget), old(truncated), budget, truncated)
      ensures Follows(web, t, depth, path)
      decreases maxDepth - depth, 0
    {
      t := TraceNode(id, Unknown, callLine, id in path, []);
      if id in nodes {
        t := t.(about := Known(nodes[id].name, nodes[id].kind, nodes[id].filePath));
      }
      if id in path || depth >= maxDepth {
        return;
      }
      path := path + {id};
      SiteLessTotal();
      var list := SortSlice(Lookup(out, id), CallLess);
      PermutationElems(list, Leaving(web.edges, id));
      LeavingMembers(web.edges, id);
      SortedSites(web.edges, id, list);
      var calls := WalkCalls(list, depth + 1, id);
      path := path - {id};
      assert path == old(path) && path + {id} == old(path) + {id};
      t := t.(calls := calls);
    }

    method WalkCalls(list: seq<Edge>, depth: int, ghost caller: Id) returns (calls: seq<TraceNode>)
      requires Reads() && depth <= maxDepth
      requires forall e :: e in list ==> e in web.edges && e.source == caller
      modifies this
      ensures path == old(path)
      ensures Traced(web, SitesIn(list), depth, path, calls, old(budget), old(truncated), budget, truncated)
      ensures FollowsAll(web, calls, caller, depth, path)
      decreases maxDepth - depth, 2
    {
      calls := [];
      TracedNothing(web, list, depth, path, caller, budget, truncated);
      for k := 0 to |list|
        invariant path == old(path)
        invariant Traced(web, SitesIn(list[..k]), depth, path, calls, old(budget), old(truncated), budget, truncated)
        invariant FollowsAll(web, calls, caller, depth, path)
      {
        SitesStep(list, k);
        if !list[k].kind.EdgeCalls? {
          continue;
        }
        if budget <= 0 {
          CutHere(web, list, k, depth, path, calls, old(budget), old(truncated), budget, truncated);
          truncated := true;
          return;
        }
        calls := WalkCall(list[k], depth, calls, SitesIn(list[..k]), old(budget), old(truncated));
      }
      assert list[..|list|] == list;
    }

    method WalkCall(e: Edge, depth: int, calls0: seq<TraceNode>, ghost sites: seq<Site>, ghost budget0: int,
                    ghost cut0: bool)
      returns (calls: seq<TraceNode>)
      requires Reads() && depth <= maxDepth && e in web.edges && IsCallEdge(e) && budget > 0
      requires Traced(web, sites, depth, path, calls0, budget0, cut0, budget, truncated)
      requires FollowsAll(web, calls0, e.source, depth, path)
      modifies this
      ensures path == old(path)
      ensures Traced(web, sites + [SiteOf(e)], depth, path, calls, budget0, cut0, budget, truncated)
      ensures FollowsAll(web, calls, e.source, depth, path)
      decreases maxDepth - depth, 1
    {
      budget := budget - 1;
      var t := Walk(e.target, depth, e.line);
      NextCall(web, sites, e, depth, path, calls0, t,
               budget0, cut0, old(budget), old(truncated), budget, truncated);
      calls := calls0 + [t];
    }
  }

  // ---------------------------------------------------------------------------------
  // What a trace shows

  lemma {:induction false} VisitsDeep(trees: seq<TraceNode>, depth: int)
    ensures forall v :: v in Visits(trees, depth) ==> v.depth >= depth
    decreases trees
  {
    if trees != [] {
      VisitsDeep(trees[..|trees| - 1], depth);
      VisitsDeep(trees[|trees| - 1].calls, depth + 1);
    }
  }

  lemma SplitAtRoot(a: seq<Visit>, x: Visit, below: seq<Visit>, b: seq<Visit>, y: Visit, beneath: seq<Visit>,
                    depth: int)
    requires a + [x] + below == b + [y] + beneath && x.depth == depth
    requires forall v :: v in beneath ==> v.depth > depth
    ensures |below| >= |beneath|
  {
    var all := a + [x] + below;
    assert all[|a|] == x;
    forall i | |b| < i < |all| ensures all[i].depth > depth {
      assert all[i] == beneath[i - |b| - 1];
    }
  }

  lemma SameSplit(a: seq<Visit>, x: Visit, below: seq<Visit>, b: seq<Visit>, y: Visit, beneath: seq<Visit>)
    requires a + [x] + below == b + [y] + beneath && |below| == |beneath|
    ensures a == b && x == y && below == beneath
  {
    var all := a + [x] + below;
    assert a == all[..|a|] && b == all[..|a|];
    assert x == all[|a|] && y == all[|a|];
    assert below == all[|a| + 1..] && beneath == all[|a| + 1..];
  }

  /** The visits with their depths tell a forest completely. */
  lemma {:induction false} VisitsInjective(a: seq<TraceNode>, b: seq<TraceNode>, depth: int)
    requires Visits(a, depth) == Visits(b, depth)
    ensures a == b
    decreases a
  {
    if a != [] && b != [] {
      var x, y := a[|a| - 1], b[|b| - 1];
      var initA, initB := a[..|a| - 1], b[..|b| - 1];
      var vx, vy := Visit(depth, x.(calls := [])), Visit(depth, y.(calls := []));
      var frontA, belowA := Visits(initA, depth), Visits(x.calls, depth + 1);
      var frontB, belowB := Visits(initB, depth), Visits(y.calls, depth + 1);
      VisitsDeep(x.calls, depth + 1);
      VisitsDeep(y.calls, depth + 1);
      SplitAtRoot(frontA, vx, belowA, frontB, vy, belowB, depth);
      SplitAtRoot(frontB, vy, belowB, frontA, vx, belowA, depth);
      SameSplit(frontA, vx, belowA, frontB, vy, belowB);
      VisitsInjective(initA, initB, depth);
      VisitsInjective(x.calls, y.calls, depth + 1);
      assert a == initA + [x] && b == initB + [y];
    }
  }

  /** The number of nodes in a tree. */
  ghost function Size(t: TraceNode): nat {
    |Visits([t], 0)|
  }

  /** The promise of a trace: the first nodes of the full tree, as many as the limit allows
      besides the root, and the whole tree unless truncated. */
  ghost predicate Traces(web: Web, entry: Id, limit: int, root: TraceNode, truncated: bool) {
    var full := Unfold(web, entry, 0, 0, {});
    && Visits([root], 0) <= Visits([full], 0)
    && Size(root) == 1 + Room(limit, Size(full) - 1)
    && (truncated <==> Size(root) < Size(full))
    && (!truncated ==> root == full)
    && Follows(web, root, 0, {})
  }

  method Trace(g: Graph, entry: Id, maxDepth: int, limit: int) returns (root: TraceNode, truncated: bool)
    requires g.Valid()
    ensures Traces(Web(g.nodes, g.edges, maxDepth), entry, limit, root, truncated)
  {
    var tracer := new Tracer(g, maxDepth, limit);
    root := tracer.Walk(entry, 0, 0);
    truncated := tracer.truncated;
    RootTraced(tracer.web, entry, limit, root, tracer.budget, truncated);
  }

  lemma RootTraced(web: Web, entry: Id, limit: int, root: TraceNode, budget: int, truncated: bool)
    requires TracedOne(web, Site(0, entry), 0, {}, root, limit, false, budget, truncated)
    requires Follows(web, root, 0, {})
    ensures Traces(web, entry, limit, root, truncated)
  {
    var full := Unfold(web, entry, 0, 0, {});
    NextVisits([], root, 0);
    NextVisits([], full, 0);
    assert [] + [root] == [root] && [] + [full] == [full];
    if !truncated {
      assert Visits(root.calls, 1) == Visits(full.calls, 1);
      VisitsInjective(root.calls, full.calls, 1);
    }
  }
}
