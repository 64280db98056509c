/** Circular dependencies: the strongly connected components of the quotient graph. */
module Scc {
  import opened Orders
  import opened Digraph
  import opened CodeGraph
  import opened Tarjan

  /** A comparator that leaves no two different keys unordered. */
  ghost predicate TellsApart<T(!new)>(less: (T, T) -> bool) {
    forall x, y :: x == y || less(x, y) || less(y, x)
  }

  ghost predicate IsListed<V>(comps: seq<seq<V>>, C: set<V>) {
    exists c :: c in comps && Elems(c) == C
  }

  /** `comps` lists each component of more than one vertex once, as a sorted sequence. */
  ghost predicate Listed<V>(comps: seq<seq<V>>, groups: set<set<V>>, less: (V, V) -> bool) {
    && (forall c :: c in comps ==> |c| > 1 && StrictlySorted(c, less) && Elems(c) in groups)
    && (forall C {:trigger IsListed(comps, C)} :: C in groups && |C| > 1 ==> IsListed(comps, C))
    && (forall i, j :: 0 <= i < j < |comps| ==> Elems(comps[i]) != Elems(comps[j]))
  }

  lemma {:induction false} ElemsSize<T>(s: seq<T>)
    requires Distinct(s)
    ensures |Elems(s)| == |s|
  {
    if s != [] {
      var init, last := s[..|s| - 1], s[|s| - 1];
      ElemsSize(init);
      assert s == init + [last];
      assert Elems(s) == Elems(init) + {last};
    }
  }

  lemma ListOne<V>(comps: seq<seq<V>>, groups: set<set<V>>, C: set<V>, c: seq<V>, less: (V, V) -> bool)
    requires Listed(comps, groups, less) && C !in groups
    requires Elems(c) == C && Distinct(c) && (|c| > 1 ==> StrictlySorted(c, less))
    ensures Listed(if |c| > 1 then comps + [c] else comps, groups + {C}, less)
  {
    ElemsSize(c);
    var comps', groups' := if |c| > 1 then comps + [c] else comps, groups + {C};
    forall D | D in groups' && |D| > 1 ensures IsListed(comps', D) {
      if D == C {
        assert c in comps';
      } else {
        assert IsListed(comps, D);
        var d :| d in comps && Elems(d) == D;
        assert d in comps';
      }
    }
    forall i, j | 0 <= i < j < |comps'| ensures Elems(comps'[i]) != Elems(comps'[j]) {
      assert comps'[i] in comps && Elems(comps'[i]) in groups;
    }
  }

  /** The variables shared by the recursive calls of one search. */
  class Finder<V(==, !new)> {
    const adj: Adjacency<V>
    const less: (V, V) -> bool
    ghost const E: set<(V, V)>
    var index: map<V, nat>
    var low: map<V, nat>
    var onStack: set<V>
    var stack: seq<V>
    var counter: nat
    var comps: seq<seq<V>>
    ghost var gray: set<V>
    ghost var done: set<V>
    ghost var groups: set<set<V>>

    ghost function State(): Search<V>
      reads this
    {
      Search(index, low, stack, counter, gray, done, groups)
    }

    ghost predicate Numbered()
      reads this`index, this`low, this`onStack, this`stack
    {
      && index.Keys <= adj.Keys
      && onStack == Elems(stack)
      && low.Keys == index.Keys
    }

    ghost predicate Catalogued()
      reads this`comps, this`groups
    {
      StrictWeak(less) && TellsApart(less) && Listed(comps, groups, less)
    }

    constructor (adj: Adjacency<V>, less: (V, V) -> bool)
      requires StrictWeak(less) && TellsApart(less)
      ensures Numbered() && Catalogued() && State() == Nothing()
      ensures this.adj == adj && this.less == less && E == AdjRel(adj)
    {
      this.adj := adj;
      this.less := less;
      this.E := AdjRel(adj);
      index, low, onStack, stack, counter, comps := map[], map[], {}, [], 0, [];
      gray, done, groups := {}, {}, {};
    }

    /** Pops the stack down to and including `v`, which sits at position `k`. */
    method PopTo(v: V, ghost k: nat) returns (comp: seq<V>)
      requires k < |stack| && stack[k] == v && Distinct(stack) && onStack == Elems(stack)
      modifies this`stack, this`onStack
      ensures stack == old(stack)[..k] && onStack == Elems(stack)
      ensures comp == Reversed(old(stack)[k..])
    {
      comp := [];
      ghost var m := |stack|;
      while true
        invariant k < m <= |old(stack)| && stack == old(stack)[..m] && onStack == Elems(stack)
        invariant comp == Reversed(old(stack)[m..])
        decreases m
      {
        var w := stack[|stack| - 1];
        stack := stack[..|stack| - 1];
        m := m - 1;
        assert old(stack)[m..] == [w] + old(stack)[m + 1..];
        assert forall x :: x in old(stack)[..m + 1] <==> x in stack || x == w;
        onStack := onStack - {w};
        comp := comp + [w];
        if w == v {
          break;
        }
      }
    }

    /** Numbers a new vertex and pushes it. */
    method Enter(v: V)
      requires Numbered() && v in adj && v !in index
      modifies this`index, this`low, this`counter, this`stack, this`onStack, this`gray
      ensures Numbered() && State() == Entered(old(State()), v)
      ensures low == old(low)[v := old(counter)]
    {
      index := index[v := counter];
      low := low[v := counter];
      counter := counter + 1;
      stack := stack + [v];
      onStack := onStack + {v};
      gray := gray + {v};
    }

    /** Ends the call on `v`: pops its component, or leaves `v` waiting on the stack. */
    method Leave(v: V, ghost r: Run<V>)
      requires Numbered() && Catalogued() && v in index
      requires Traces(E, r) && Whole(E, r) && Root(r) == v && State() == After(r)
      modifies this`stack, this`onStack, this`comps, this`gray, this`done, this`groups
      ensures Numbered() && Catalogued() && State() == Exit(r)
    {
      ghost var s, t := Entry(r), State();
      LeaveFacts(E, r);
      if low[v] == index[v] {
        PopComponent(v, |s.stack|, s.gray);
      } else {
        gray := s.gray;
      }
    }

    /** Pops everything from position `k` up as one component. */
    method PopComponent(v: V, ghost k: nat, ghost caller: set<V>)
      requires Numbered() && Catalogued() && Distinct(stack)
      requires k < |stack| && stack[k] == v && Elems(stack[k..]) !in groups
      modifies this`stack, this`onStack, this`comps, this`gray, this`done, this`groups
      ensures Numbered() && Catalogued()
      ensures stack == old(stack)[..k] && gray == caller
      ensures done == old(done) + Elems(old(stack)[k..]) && groups == old(groups) + {Elems(old(stack)[k..])}
    {
      ghost var C := Elems(stack[k..]);
      ReversedElems(stack[k..]);
      var comp := PopTo(v, k);
      gray, done := caller, done + C;
      Publish(comp, C);
    }

    /** Lists a component, sorted, unless it is a single vertex. */
    method Publish(comp: seq<V>, ghost C: set<V>)
      requires Catalogued() && C !in groups && Distinct(comp) && Elems(comp) == C
      modifies this`comps, this`groups
      ensures Catalogued() && groups == old(groups) + {C}
    {
      var sorted := comp;
      if |comp| > 1 {
        sorted := SortSlice(comp, less);
        SortedVertices(comp, sorted, less);
      }
      ListOne(comps, groups, C, sorted, less);
      comps := if |sorted| > 1 then comps + [sorted] else comps;
      groups := groups + {C};
    }

    /** Follows an edge out of `v` to a vertex not visited before. */
    method FollowNew(v: V, w: V, ghost r: Run<V>) returns (ghost r': Run<V>)
      requires Numbered() && Catalogued() && E == AdjRel(adj)
      requires w in adj && (v, w) in E && v in index && w !in index
      requires Traces(E, r) && Root(r) == v && State() == After(r)
      modifies this
      ensures Numbered() && Catalogued() && index.Keys >= old(index).Keys
      ensures Traces(E, r') && r'.Nest? && r'.prev == r && Root(r'.inner) == w
      ensures State() == After(r')
      decreases adj.Keys - index.Keys, 1
    {
      ghost var inner := Connect(w, Inside(w, r));
      r' := Nest(r, inner);
      if low[w] < low[v] {
        low := low[v := low[w]];
      }
    }

    /** Follows an edge out of `v` to a vertex visited before. */
    method FollowSeen(v: V, w: V, ghost r: Run<V>)
      requires Numbered() && v in index && w in index
      requires Root(r) == v && State() == After(r)
      modifies this`low
      ensures Numbered() && State() == After(Skip(r, w))
    {
      if w in onStack && index[w] < low[v] {
        low := low[v := index[w]];
      }
    }

    /** Follows one edge out of `v`. */
    method Follow(v: V, w: V, ghost r: Run<V>) returns (ghost r': Run<V>)
      requires Numbered() && Catalogued() && E == AdjRel(adj) && v in index
      requires w in adj[v] && Traces(E, r) && Root(r) == v && State() == After(r)
      modifies this
      ensures Numbered() && Catalogued() && index.Keys >= old(index).Keys
      ensures Traces(E, r') && Root(r') == v && Entry(r') == Entry(r) && Outermost(r') == Outermost(r)
      ensures Seen(r') == Seen(r) + {w} && State() == After(r')
      decreases adj.Keys - index.Keys, 2
    {
      if w !in index {
        r' := FollowNew(v, w, r);
      } else {
        FollowSeen(v, w, r);
        r' := Skip(r, w);
      }
    }

    /** Follows every edge out of `v`, in whatever order the map yields them. */
    method FollowAll(v: V, ghost r0: Run<V>) returns (ghost r: Run<V>)
      requires Numbered() && Catalogued() && E == AdjRel(adj) && v in index
      requires Traces(E, r0) && Root(r0) == v && State() == After(r0)
      modifies this
      ensures Numbered() && Catalogued() && index.Keys >= old(index).Keys
      ensures Traces(E, r) && Whole(E, r) && Root(r) == v && Entry(r) == Entry(r0)
      ensures Outermost(r) == Outermost(r0) && State() == After(r)
      decreases adj.Keys - index.Keys, 3
    {
      var todo := adj[v];
      r := r0;
      while todo != {}
        invariant Numbered() && Catalogued() && index.Keys >= old(index).Keys
        invariant Traces(E, r) && Root(r) == v && Entry(r) == Entry(r0)
        invariant Outermost(r) == Outermost(r0) && State() == After(r)
        invariant adj[v] <= Seen(r) + todo && todo <= adj[v]
        decreases todo
      {
        var w :| w in todo;
        todo := todo - {w};
        r := Follow(v, w, r);
      }
    }

    method Connect(v: V, ghost begun: Run<V>) returns (ghost r: Run<V>)
      requires Numbered() && Catalogued() && E == AdjRel(adj)
      requires v in adj && v !in index
      requires Traces(E, begun) && Root(begun) == v && Entry(begun) == State()
      requires After(begun) == Entered(State(), v)
      modifies this
      ensures Numbered() && Catalogued() && index.Keys >= old(index).Keys + {v}
      ensures Traces(E, r) && Whole(E, r) && Root(r) == v && Entry(r) == old(State())
      ensures Outermost(r) == Outermost(begun) && State() == Exit(r)
      decreases adj.Keys - index.Keys, 0
    {
      Enter(v);
      assert adj.Keys - index.Keys == adj.Keys - old(index).Keys - {v};
      r := FollowAll(v, begun);
      Leave(v, r);
    }

    /** The outermost loop: a call on every vertex not yet visited, in sorted order. */
    method FindAll()
      requires Numbered() && Catalogued() && E == AdjRel(adj) && State() == Nothing()
      modifies this
      ensures Catalogued()
      ensures forall C :: C in groups ==> IsScc(E, C)
      ensures forall v :: v in adj ==> InGroup(groups, v)
    {
      var vertices := [];
      var todo := adj.Keys;
      while todo != {}
        invariant Elems(vertices) + todo == adj.Keys
        decreases todo
      {
        var v :| v in todo;
        todo := todo - {v};
        vertices := vertices + [v];
      }
      ghost var unsorted := vertices;
      vertices := SortSlice(vertices, less);
      PermutationElems(unsorted, vertices);
      VisitAll(vertices);
    }

    method VisitAll(vertices: seq<V>)
      requires Numbered() && Catalogued() && E == AdjRel(adj) && State() == Nothing()
      requires Elems(vertices) == adj.Keys
      modifies this
      ensures Catalogued()
      ensures forall C :: C in groups ==> IsScc(E, C)
      ensures forall v :: v in adj ==> InGroup(groups, v)
    {
      ghost var progress: Progress<V> := Idle;
      for i := 0 to |vertices|
        invariant Numbered() && Catalogued()
        invariant Progressed(E, progress) && State() == Reached(progress)
        invariant forall k :: 0 <= k < i ==> vertices[k] in index
      {
        var v := vertices[i];
        if v !in index {
          NextTraces(E, progress, v);
          ghost var r := Connect(v, Next(progress, v));
          progress := Returned(r);
        }
      }
      Quiet(E, progress);
    }
  }

  /** What is known of the stack when a call is about to return. */
  lemma LeaveFacts<V(!new)>(E: set<(V, V)>, r: Run<V>)
    requires Traces(E, r)
    ensures var s, t := Entry(r), After(r);
      && Distinct(t.stack) && |s.stack| < |t.stack| && t.stack[|s.stack|] == Root(r) && t.stack[..|s.stack|] == s.stack
      && Elems(t.stack[|s.stack|..]) !in t.groups
  {
    RunSound(E, r);
    Position(Entry(r), Root(r), After(r));
    StackDistinct(After(r));
    TopIsNew(E, Entry(r), Root(r), After(r));
  }

  lemma StackDistinct<V(!new)>(t: Search<V>)
    requires Shape(t)
    ensures Distinct(t.stack)
  {
  }

  lemma ReversedElems<V(!new)>(s: seq<V>)
    requires Distinct(s)
    ensures Elems(Reversed(s)) == Elems(s) && Distinct(Reversed(s))
  {
    forall x ensures x in Reversed(s) <==> x in s {
      if x in s {
        var i :| 0 <= i < |s| && s[i] == x;
        assert Reversed(s)[|s| - 1 - i] == x;
      }
    }
  }

  lemma SortedVertices<V(!new)>(raw: seq<V>, sorted: seq<V>, less: (V, V) -> bool)
    requires StrictWeak(less) && TellsApart(less)
    requires Distinct(raw) && multiset(raw) == multiset(sorted) && Sorted(sorted, less)
    ensures StrictlySorted(sorted, less) && Distinct(sorted)
    ensures Elems(raw) == Elems(sorted) && |raw| == |sorted|
  {
    PermutationElems(raw, sorted);
    PermutationDistinct(raw, sorted);
    DistinctSortedIsStrict(sorted, less);
  }

  lemma TopIsNew<V(!new)>(E: set<(V, V)>, s: Search<V>, v: V, t: Search<V>)
    requires Grown(Entered(s, v), t) && Shape(t) && Grouped(E, t)
    ensures |s.stack| < |t.stack| && Elems(t.stack[|s.stack|..]) !in t.groups
  {
    Position(s, v, t);
    var C := Elems(t.stack[|s.stack|..]);
    assert v in t.stack && v !in t.done;
    assert v in C by { assert v == t.stack[|s.stack|..][0]; }
    assert C in t.groups ==> IsScc(E, C) && C <= t.done;
  }

  /** Some edge of a wanted kind joins known nodes of the two groups, which are named and differ. */
  ghost predicate Linked(nodes: map<Id, Node>, edges: seq<Edge>, kinds: set<EdgeKind>, groupOf: Node -> string,
                         x: string, y: string) {
    && x != y && x != "" && y != ""
    && (exists s, t :: (s, t) in KindRel(edges, kinds) && s in nodes && t in nodes
                       && groupOf(nodes[s]) == x && groupOf(nodes[t]) == y)
  }

  /** The quotient edge that one edge stands for, if any. */
  ghost function Quotient(nodes: map<Id, Node>, kinds: set<EdgeKind>, groupOf: Node -> string, e: Edge): Rel {
    set p | && e.kind in kinds && e.source in nodes && e.target in nodes
            && p == (groupOf(nodes[e.source]), groupOf(nodes[e.target]))
            && p.0 != "" && p.1 != "" && p.0 != p.1
  }

  /** The quotient graph. */
  ghost function GroupRel(nodes: map<Id, Node>, edges: seq<Edge>, kinds: set<EdgeKind>, groupOf: Node -> string): Rel {
    set e, p | e in edges && p in Quotient(nodes, kinds, groupOf, e) :: p
  }

  lemma LinkedExactly(nodes: map<Id, Node>, edges: seq<Edge>, kinds: set<EdgeKind>, groupOf: Node -> string,
                      x: string, y: string)
    ensures (x, y) in GroupRel(nodes, edges, kinds, groupOf) <==> Linked(nodes, edges, kinds, groupOf, x, y)
  {
    if (x, y) in GroupRel(nodes, edges, kinds, groupOf) {
      var e :| e in edges && (x, y) in Quotient(nodes, kinds, groupOf, e);
      assert (e.source, e.target) in KindRel(edges, kinds);
    }
    if Linked(nodes, edges, kinds, groupOf, x, y) {
      var s, t :| (s, t) in KindRel(edges, kinds) && s in nodes && t in nodes
                  && groupOf(nodes[s]) == x && groupOf(nodes[t]) == y;
      var e :| e in edges && e.kind in kinds && e.source == s && e.target == t;
      assert (x, y) in Quotient(nodes, kinds, groupOf, e);
    }
  }

  lemma GroupRelExactly(nodes: map<Id, Node>, edges: seq<Edge>, kinds: set<EdgeKind>, groupOf: Node -> string, Q: Rel)
    ensures Q == GroupRel(nodes, edges, kinds, groupOf)
            <==> forall x, y :: (x, y) in Q <==> Linked(nodes, edges, kinds, groupOf, x, y)
  {
    forall x, y
      ensures (x, y) in GroupRel(nodes, edges, kinds, groupOf) <==> Linked(nodes, edges, kinds, groupOf, x, y)
    {
      LinkedExactly(nodes, edges, kinds, groupOf, x, y);
    }
    if forall x, y :: (x, y) in Q <==> Linked(nodes, edges, kinds, groupOf, x, y) {
      forall p ensures p in Q <==> p in GroupRel(nodes, edges, kinds, groupOf) {
        assert p == (p.0, p.1);
      }
    }
  }

  lemma GroupRelGrows(nodes: map<Id, Node>, edges: seq<Edge>, kinds: set<EdgeKind>, groupOf: Node -> string, e: Edge)
    ensures GroupRel(nodes, edges + [e], kinds, groupOf)
              == GroupRel(nodes, edges, kinds, groupOf) + Quotient(nodes, kinds, groupOf, e)
  {
    var before, after := GroupRel(nodes, edges, kinds, groupOf), GroupRel(nodes, edges + [e], kinds, groupOf);
    forall p ensures p in after <==> p in before || p in Quotient(nodes, kinds, groupOf, e) {
      assert e in edges + [e];
    }
  }

  /** Records one quotient edge; both ends become keys. */
  function WithLink(adj: Adjacency<string>, from: string, to: string): Adjacency<string> {
    var a := adj[from := (if from in adj then adj[from] else {}) + {to}];
    if to in a then a else a[to := {}]
  }

  lemma WithLinkRel(adj: Adjacency<string>, from: string, to: string)
    ensures AdjRel(WithLink(adj, from, to)) == AdjRel(adj) + {(from, to)}
  {
    var r := WithLink(adj, from, to);
    forall v, w ensures (v, w) in AdjRel(r) <==> (v, w) in AdjRel(adj) || (v == from && w == to) {
    }
  }

  method BuildAdjacency(g: Graph, kinds: set<EdgeKind>, groupOf: Node -> string) returns (adj: Adjacency<string>)
    requires g.Valid()
    ensures AdjRel(adj) == GroupRel(g.nodes, g.edges, kinds, groupOf)
    ensures forall x, y :: (x, y) in AdjRel(adj) <==> Linked(g.nodes, g.edges, kinds, groupOf, x, y)
  {
    adj := map[];
    var todo := g.out.Keys;
    ghost var done: seq<Edge> := [];
    forall e | e in g.edges ensures e.source in g.out {
      LeavingMembers(g.edges, e.source);
      assert e in Lookup(g.out, e.source);
    }
    while todo != {}
      invariant todo <= g.out.Keys
      invariant AdjRel(adj) == GroupRel(g.nodes, done, kinds, groupOf)
      invariant forall e :: e in done ==> e in g.edges
      invariant forall e :: e in g.edges && e.source !in todo ==> e in done
      decreases todo
    {
      var id :| id in todo;
      todo := todo - {id};
      var list := g.out[id];
      LeavingMembers(g.edges, id);
      assert list == Lookup(g.out, id);
      adj := AddLinks(g.nodes, kinds, groupOf, list, adj, done);
      done := done + list;
    }
    assert forall e :: e in done <==> e in g.edges;
    assert AdjRel(adj) == GroupRel(g.nodes, g.edges, kinds, groupOf);
    GroupRelExactly(g.nodes, g.edges, kinds, groupOf, AdjRel(adj));
  }

  method AddLinks(nodes: map<Id, Node>, kinds: set<EdgeKind>, groupOf: Node -> string, list: seq<Edge>,
                  adj0: Adjacency<string>, ghost done: seq<Edge>)
    returns (adj: Adjacency<string>)
    requires AdjRel(adj0) == GroupRel(nodes, done, kinds, groupOf)
    ensures AdjRel(adj) == GroupRel(nodes, done + list, kinds, groupOf)
  {
    adj := adj0;
    assert done + list[..0] == done;
    assert AdjRel(adj) == GroupRel(nodes, done + list[..0], kinds, groupOf);
    for i := 0 to |list|
      invariant AdjRel(adj) == GroupRel(nodes, done + list[..i], kinds, groupOf)
    {
      var e := list[i];
      assert done + list[..i + 1] == (done + list[..i]) + [e];
      GroupRelGrows(nodes, done + list[..i], kinds, groupOf, e);
      if e.kind in kinds && e.source in nodes && e.target in nodes {
        var from, to := groupOf(nodes[e.source]), groupOf(nodes[e.target]);
        if from != "" && to != "" && from != to {
          WithLinkRel(adj, from, to);
          adj := WithLink(adj, from, to);
        }
      }
    }
    assert list[..|list|] == list;
  }

  /** Larger components first, then by their first name. */
  predicate ComponentLess(a: seq<string>, b: seq<string>) {
    if |a| != |b| then |a| > |b|
    else |a| > 0 && StrLess(a[0], b[0])
  }

  lemma ComponentLessWeak()
    ensures StrictWeak(ComponentLess)
  {
    StrLessTotal();
  }

  /** The report: every component of more than one group, each once, in one fixed order. */
  ghost predicate Cycles(E: Rel, r: seq<seq<string>>) {
    && (forall c :: c in r ==> |c| > 1 && StrictlySorted(c, StrLess) && IsScc(E, Elems(c)))
    && (forall C {:trigger IsListed(r, C)} :: IsScc(E, C) && |C| > 1 ==> IsListed(r, C))
    && StrictlySorted(r, ComponentLess)
  }

  method SCCs(g: Graph, kinds: set<EdgeKind>, groupOf: Node -> string) returns (comps: seq<seq<string>>)
    requires g.Valid()
    ensures Cycles(GroupRel(g.nodes, g.edges, kinds, groupOf), comps)
    ensures forall Q: Rel {:trigger Cycles(Q, comps)} ::
              (forall x, y :: (x, y) in Q <==> Linked(g.nodes, g.edges, kinds, groupOf, x, y)) ==> Cycles(Q, comps)
  {
    comps := Components(g, kinds, groupOf);
    forall Q: Rel | forall x, y :: (x, y) in Q <==> Linked(g.nodes, g.edges, kinds, groupOf, x, y)
      ensures Cycles(Q, comps)
    {
      GroupRelExactly(g.nodes, g.edges, kinds, groupOf, Q);
    }
  }

  method Components(g: Graph, kinds: set<EdgeKind>, groupOf: Node -> string) returns (comps: seq<seq<string>>)
    requires g.Valid()
    ensures Cycles(GroupRel(g.nodes, g.edges, kinds, groupOf), comps)
  {
    var adj := BuildAdjacency(g, kinds, groupOf);
    StrLessTotal();
    var finder := new Finder<string>(adj, StrLess);
    finder.FindAll();
    ComponentLessWeak();
    comps := SortSlice(finder.comps, ComponentLess);
    ReportComplete(AdjRel(adj), adj, finder.comps, finder.groups, comps);
  }

  lemma ReportComplete(E: Rel, adj: Adjacency<string>, found: seq<seq<string>>, groups: set<set<string>>,
                       comps: seq<seq<string>>)
    requires E == AdjRel(adj) && Listed(found, groups, StrLess)
    requires forall C :: C in groups ==> IsScc(E, C)
    requires forall v :: v in adj ==> InGroup(groups, v)
    requires multiset(found) == multiset(comps) && Sorted(comps, ComponentLess)
    ensures Cycles(E, comps)
  {
    PermutationElems(found, comps);
    forall C | IsScc(E, C) && |C| > 1 ensures IsListed(comps, C) {
      GroupOfScc(E, adj, groups, C);
      assert IsListed(found, C);
      var c :| c in found && Elems(c) == C;
    }
    assert Distinct(found);
    PermutationDistinct(found, comps);
    forall i, j | 0 <= i < j < |comps| ensures ComponentLess(comps[i], comps[j]) {
      ComponentsApart(E, comps, i, j);
    }
  }

  lemma ComponentsApart(E: Rel, comps: seq<seq<string>>, i: nat, j: nat)
    requires i < j < |comps| && comps[i] != comps[j] && !ComponentLess(comps[j], comps[i])
    requires forall c :: c in comps ==> |c| > 1 && StrictlySorted(c, StrLess) && IsScc(E, Elems(c))
    ensures ComponentLess(comps[i], comps[j])
  {
    var a, b := comps[i], comps[j];
    assert a in comps && b in comps;
    StrLessTotal();
    if a[0] == b[0] && |a| == |b| {
      assert a[0] in Elems(a) && a[0] in Elems(b);
      SccsAgree(E, Elems(a), Elems(b), a[0]);
      SameElems(a, b);
    }
  }

  lemma SameElems(a: seq<string>, b: seq<string>)
    requires StrictlySorted(a, StrLess) && StrictlySorted(b, StrLess) && Elems(a) == Elems(b)
    ensures a == b
  {
    StrLessTotal();
    forall x ensures x in a <==> x in b {
      assert x in Elems(a) <==> x in Elems(b);
    }
    StrictlySortedUnique(a, b, StrLess);
  }

  /** A component of several vertices has an edge, so the search saw its members. */
  lemma GroupOfScc(E: Rel, adj: Adjacency<string>, groups: set<set<string>>, C: set<string>)
    requires E == AdjRel(adj) && IsScc(E, C) && |C| > 1
    requires forall D :: D in groups ==> IsScc(E, D)
    requires forall v :: v in adj ==> InGroup(groups, v)
    ensures C in groups
  {
    var x :| x in C;
    var y := AnotherMember(C, x);
    var p :| WalkFrom(E, x, y, p);
    assert Step(E, p, 0);
    assert InGroup(groups, x);
    var D :| D in groups && x in D;
    SccsAgree(E, C, D, x);
  }

  lemma AnotherMember<T>(C: set<T>, x: T) returns (y: T)
    requires |C| > 1 && x in C
    ensures y in C && y != x
  {
    assert |C - {x}| == |C| - 1;
    y :| y in C - {x};
  }

  /** The report is in order of size, largest first, and then of the first name. */
  lemma CyclesOrdered(E: Rel, r: seq<seq<string>>, i: nat, j: nat)
    requires Cycles(E, r) && i < j < |r|
    ensures |r[i]| > 1 && |r[j]| > 1
    ensures |r[i]| > |r[j]| || (|r[i]| == |r[j]| && ComesBefore(r[i][0], r[j][0]))
    ensures forall k, m :: 0 <= k < m < |r[i]| ==> ComesBefore(r[i][k], r[i][m])
  {
    assert ComponentLess(r[i], r[j]);
    assert r[i] in r && r[j] in r;
    StrLessExactly(r[i][0], r[j][0]);
    forall k, m | 0 <= k < m < |r[i]| ensures ComesBefore(r[i][k], r[i][m]) {
      StrLessExactly(r[i][k], r[i][m]);
    }
  }

  /** The answer is the same whatever order the adjacency map is walked in. */
  lemma CyclesDeterministic(E: Rel, r1: seq<seq<string>>, r2: seq<seq<string>>)
    requires Cycles(E, r1) && Cycles(E, r2)
    ensures r1 == r2
  {
    CyclesInclude(E, r1, r2);
    CyclesInclude(E, r2, r1);
    ComponentLessWeak();
    StrictlySortedUnique(r1, r2, ComponentLess);
  }

  lemma CyclesInclude(E: Rel, r1: seq<seq<string>>, r2: seq<seq<string>>)
    requires Cycles(E, r1) && Cycles(E, r2)
    ensures forall c :: c in r1 ==> c in r2
  {
    forall c | c in r1 ensures c in r2 {
      assert Distinct(c) by { StrLessTotal(); }
      ElemsSize(c);
      assert IsListed(r2, Elems(c));
      var d :| d in r2 && Elems(d) == Elems(c);
      SameElems(c, d);
    }
  }
}
