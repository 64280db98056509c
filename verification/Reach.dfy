/** Depth- and limit-bounded breadth-first search, along the edges or against them. */
module Reach {
  import opened Orders
  import opened Digraph
  import opened CodeGraph

  datatype Reached = Reached(node: Node, depth: int, confidence: Confidence)

  datatype Direction = Forward | Backward

  function Near(dir: Direction, e: Edge): Id {
    if dir.Forward? then e.source else e.target
  }

  function Far(dir: Direction, e: Edge): Id {
    if dir.Forward? then e.target else e.source
  }

  /** One search step in the given direction. */
  ghost function StepRel(edges: seq<Edge>, kinds: set<EdgeKind>, dir: Direction): Rel {
    if dir.Forward? then KindRel(edges, kinds) else Flip(KindRel(edges, kinds))
  }

  predicate ReachedLess(a: Reached, b: Reached) {
    if a.depth != b.depth then a.depth < b.depth else StrLess(a.node.id, b.node.id)
  }

  lemma ReachedLessWeak()
    ensures StrictWeak(ReachedLess)
  {
    StrLessTotal();
  }

  /** The parameters of one search. */
  datatype Query = Query(dir: Direction, seed: Id, kinds: set<EdgeKind>, maxDepth: int, limit: int) {
    ghost function Steps(edges: seq<Edge>): Rel {
      StepRel(edges, kinds, dir)
    }
  }

  /** What each reported entry promises: a known node, at its true distance, in range,
      with the confidence of an edge that closes a shortest walk to it. */
  ghost predicate Honest(nodes: map<Id, Node>, edges: seq<Edge>, q: Query, r: Reached) {
    && r.node.id in nodes && nodes[r.node.id] == r.node
    && 1 <= r.depth <= q.maxDepth
    && Distance(q.Steps(edges), q.seed, r.node.id, r.depth)
    && exists e :: e in edges && e.kind in q.kinds && Far(q.dir, e) == r.node.id && e.confidence == r.confidence
                   && Distance(q.Steps(edges), q.seed, Near(q.dir, e), r.depth - 1)
  }

  ghost function Ids(results: seq<Reached>): set<Id> {
    set r | r in results :: r.node.id
  }

  ghost predicate DistinctIds(results: seq<Reached>) {
    forall i, j :: 0 <= i < j < |results| ==> results[i].node.id != results[j].node.id
  }

  /** The vertices a search may visit: everything but the seed within the depth. */
  ghost predicate InRange(R: Rel, seed: Id, maxDepth: int, x: Id) {
    maxDepth >= 0 && x != seed && Within(R, seed, x, maxDepth)
  }

  /** `visited` is exactly the ball of radius `d` around the seed. */
  ghost predicate Ball(R: Rel, seed: Id, visited: set<Id>, d: nat) {
    forall x :: x in visited <==> Within(R, seed, x, d)
  }

  ghost predicate Sphere(R: Rel, seed: Id, frontier: seq<Id>, d: nat) {
    forall x :: x in frontier <==> Distance(R, seed, x, d)
  }

  lemma BallStart(R: Rel, seed: Id)
    ensures Ball(R, seed, {seed}, 0) && Sphere(R, seed, [seed], 0)
  {
    forall x ensures x in {seed} <==> Within(R, seed, x, 0) { WithinZero(R, seed, x); }
  }

  /** Every step out of `done` lands in `visited`. */
  ghost predicate Covered(R: Rel, done: set<Id>, visited: set<Id>) {
    forall y, x :: y in done && (y, x) in R ==> x in visited
  }

  /** Expanding the whole frontier turns the ball of radius `d` into that of `d + 1`. */
  lemma BallGrows(R: Rel, seed: Id, base: set<Id>, frontier: seq<Id>, d: nat, visited: set<Id>, next: seq<Id>)
    requires Ball(R, seed, base, d) && Sphere(R, seed, frontier, d)
    requires visited == base + Elems(next)
    requires forall x :: x in next ==> x !in base && exists y :: y in frontier && (y, x) in R
    requires Covered(R, Elems(frontier), visited)
    ensures Ball(R, seed, visited, d + 1) && Sphere(R, seed, next, d + 1)
  {
    assert seed in base by {
      WithinZero(R, seed, seed);
      WithinMonotone(R, seed, seed, 0, d);
    }
    forall x ensures x in visited <==> Within(R, seed, x, d + 1) {
      if x in base {
        WithinMonotone(R, seed, x, d, d + 1);
      } else if x in next {
        var y :| y in frontier && (y, x) in R;
        WithinStep(R, seed, y, x, d);
      } else if Within(R, seed, x, d + 1) {
        var y := WithinSplit(R, seed, x, d);
        if y !in frontier {
          WithinStep(R, seed, y, x, d - 1);
        }
        assert false;
      }
    }
  }

  /** An empty frontier means the ball has stopped growing for good. */
  lemma BallStops(R: Rel, seed: Id, visited: set<Id>, d: nat, D: nat)
    requires Ball(R, seed, visited, d) && Sphere(R, seed, [], d) && d <= D
    ensures Ball(R, seed, visited, D)
  {
    assert seed in visited by {
      WithinZero(R, seed, seed);
      WithinMonotone(R, seed, seed, 0, d);
    }
    forall e | e in R && e.0 in visited ensures e.1 in visited {
      assert !Distance(R, seed, e.0, d);
      assert e == (e.0, e.1);
      WithinStep(R, seed, e.0, e.1, d - 1);
    }
    forall x ensures x in visited <==> Within(R, seed, x, D) {
      if x in visited {
        WithinMonotone(R, seed, x, d, D);
      } else if Within(R, seed, x, D) {
        assert Reaches(R, seed, x);
        ClosedReaches(R, visited, seed, x);
      }
    }
  }

  /** The vertices marked so far while the frontier of one level is expanded. */
  ghost predicate Layer(R: Rel, base: set<Id>, frontier: seq<Id>, visited: set<Id>, next: seq<Id>) {
    && visited == base + Elems(next)
    && (forall x :: x in next ==> x !in base && exists y :: y in frontier && (y, x) in R)
  }

  /** The results so far: exactly the known vertices among those visited. */
  ghost predicate Reported(nodes: map<Id, Node>, edges: seq<Edge>, q: Query, depth: int,
                           visited: set<Id>, results: seq<Reached>)
  {
    && q.seed in visited
    && Ids(results) == (visited - {q.seed}) * nodes.Keys
    && DistinctIds(results) && |results| <= AtLeastNone(q.limit)
    && forall r :: r in results ==> Honest(nodes, edges, q, r) && r.depth <= depth
  }

  lemma LayerPush(R: Rel, base: set<Id>, frontier: seq<Id>, visited: set<Id>, next: seq<Id>, y: Id, x: Id)
    requires Layer(R, base, frontier, visited, next)
    requires y in frontier && (y, x) in R && x !in visited
    ensures Layer(R, base, frontier, visited + {x}, next + [x])
  {
    assert Elems(next + [x]) == Elems(next) + {x};
  }

  lemma ReportKnown(nodes: map<Id, Node>, edges: seq<Edge>, q: Query, depth: int,
                    visited: set<Id>, results: seq<Reached>, r: Reached)
    requires Reported(nodes, edges, q, depth, visited, results)
    requires Honest(nodes, edges, q, r) && r.depth <= depth
    requires r.node.id !in visited && |results| < q.limit
    ensures Reported(nodes, edges, q, depth, visited + {r.node.id}, results + [r])
  {
    var x := r.node.id;
    assert x !in Ids(results);
    assert Ids(results + [r]) == Ids(results) + {x} by {
      assert forall s :: s in results + [r] <==> s in results || s == r;
    }
    assert (visited + {x} - {q.seed}) * nodes.Keys == (visited - {q.seed}) * nodes.Keys + {x};
    forall i, j | 0 <= i < j < |results + [r]| ensures (results + [r])[i].node.id != (results + [r])[j].node.id {
      if j == |results| {
        assert results[i] in results && results[i].node.id in Ids(results);
      }
    }
  }

  lemma ReportUnknown(nodes: map<Id, Node>, edges: seq<Edge>, q: Query, depth: int,
                      visited: set<Id>, results: seq<Reached>, x: Id)
    requires Reported(nodes, edges, q, depth, visited, results) && x !in nodes
    ensures Reported(nodes, edges, q, depth, visited + {x}, results)
  {
    assert (visited + {x} - {q.seed}) * nodes.Keys == (visited - {q.seed}) * nodes.Keys;
  }

  /** What an early return leaves behind: the cap is used up, something in range is
      left out, and nothing reported lies farther than a known node left out. */
  ghost predicate CutShort(nodes: map<Id, Node>, edges: seq<Edge>, q: Query, results: seq<Reached>) {
    && |results| == AtLeastNone(q.limit)
    && (exists x :: x !in Ids(results) && InRange(q.Steps(edges), q.seed, q.maxDepth, x))
    && (forall r, x, d: nat ::
          r in results && x in nodes && x !in Ids(results) && x != q.seed && Distance(q.Steps(edges), q.seed, x, d)
          ==> r.depth <= d)
  }

  lemma CutShortHere(nodes: map<Id, Node>, edges: seq<Edge>, q: Query, depth: int, base: set<Id>,
                     visited: set<Id>, results: seq<Reached>, far: Id)
    requires 1 <= depth <= q.maxDepth && Ball(q.Steps(edges), q.seed, base, depth - 1) && base <= visited
    requires Reported(nodes, edges, q, depth, visited, results) && |results| >= q.limit
    requires far !in visited && Within(q.Steps(edges), q.seed, far, depth)
    ensures CutShort(nodes, edges, q, results)
  {
    var R := q.Steps(edges);
    var inner: nat := depth - 1;
    WithinMonotone(R, q.seed, far, depth, q.maxDepth);
    assert InRange(R, q.seed, q.maxDepth, far);
    forall r, x, d: nat | r in results && x in nodes && x !in Ids(results) && x != q.seed && Distance(R, q.seed, x, d)
      ensures r.depth <= d
    {
      assert x !in base && !Within(R, q.seed, x, inner);
      assert d <= inner ==> Within(R, q.seed, x, inner);
    }
  }

  /** The innermost loop: the edges of one frontier vertex. */
  method Expand(nodes: map<Id, Node>, ghost edges: seq<Edge>, q: Query, depth: int, id: Id, incident: seq<Edge>,
                ghost base: set<Id>, ghost frontier: seq<Id>,
                visited0: set<Id>, next0: seq<Id>, results0: seq<Reached>)
    returns (visited: set<Id>, next: seq<Id>, results: seq<Reached>, truncated: bool)
    requires forall n :: n in nodes ==> nodes[n].id == n
    requires 1 <= depth <= q.maxDepth && id in frontier
    requires forall e :: e in incident <==> e in edges && Near(q.dir, e) == id
    requires Ball(q.Steps(edges), q.seed, base, depth - 1)
    requires Sphere(q.Steps(edges), q.seed, frontier, depth - 1)
    requires Layer(q.Steps(edges), base, frontier, visited0, next0)
    requires Reported(nodes, edges, q, depth, visited0, results0)
    ensures Layer(q.Steps(edges), base, frontier, visited, next)
    ensures Reported(nodes, edges, q, depth, visited, results)
    ensures visited0 <= visited
    ensures truncated ==> CutShort(nodes, edges, q, results)
    ensures !truncated ==> Covered(q.Steps(edges), {id}, visited)
  {
    ghost var R := q.Steps(edges);
    visited, next, results, truncated := visited0, next0, results0, false;
    for j := 0 to |incident|
      invariant Layer(R, base, frontier, visited, next)
      invariant Reported(nodes, edges, q, depth, visited, results)
      invariant visited0 <= visited
      invariant forall k :: 0 <= k < j && incident[k].kind in q.kinds ==> Far(q.dir, incident[k]) in visited
    {
      var e := incident[j];
      var far := Far(q.dir, e);
      if e.kind !in q.kinds || far in visited {
        continue;
      }
      StepOf(edges, q.kinds, q.dir, e);
      NewVertex(R, q.seed, base, frontier, depth - 1, id, far);
      if |results| >= q.limit {
        CutShortHere(nodes, edges, q, depth, base, visited, results, far);
        return visited, next, results, true;
      }
      LayerPush(R, base, frontier, visited, next, id, far);
      if far in nodes {
        var r := Reached(nodes[far], depth, e.confidence);
        ReportKnown(nodes, edges, q, depth, visited, results, r);
        results := results + [r];
      } else {
        ReportUnknown(nodes, edges, q, depth, visited, results, far);
      }
      visited := visited + {far};
      next := next + [far];
    }
    forall x | (id, x) in R ensures x in visited {
      var e := StepFrom(edges, q.kinds, q.dir, id, x);
      assert e in incident;
    }
  }

  lemma StepOf(edges: seq<Edge>, kinds: set<EdgeKind>, dir: Direction, e: Edge)
    requires e in edges && e.kind in kinds
    ensures (Near(dir, e), Far(dir, e)) in StepRel(edges, kinds, dir)
  {
  }

  lemma StepFrom(edges: seq<Edge>, kinds: set<EdgeKind>, dir: Direction, x: Id, y: Id) returns (e: Edge)
    requires (x, y) in StepRel(edges, kinds, dir)
    ensures e in edges && e.kind in kinds && Near(dir, e) == x && Far(dir, e) == y
  {
    if dir.Forward? {
      e :| e in edges && e.kind in kinds && e.source == x && e.target == y;
    } else {
      e :| e in edges && e.kind in kinds && e.source == y && e.target == x;
    }
  }

  /** One level: every vertex of the frontier. */
  method ExpandLevel(g: Graph, q: Query, depth: int, frontier: seq<Id>, visited0: set<Id>, results0: seq<Reached>)
    returns (visited: set<Id>, next: seq<Id>, results: seq<Reached>, truncated: bool)
    requires g.Valid() && 1 <= depth <= q.maxDepth
    requires Ball(q.Steps(g.edges), q.seed, visited0, depth - 1)
    requires Sphere(q.Steps(g.edges), q.seed, frontier, depth - 1)
    requires Reported(g.nodes, g.edges, q, depth, visited0, results0)
    ensures Reported(g.nodes, g.edges, q, depth, visited, results)
    ensures truncated ==> CutShort(g.nodes, g.edges, q, results)
    ensures !truncated ==> Ball(q.Steps(g.edges), q.seed, visited, depth)
    ensures !truncated ==> Sphere(q.Steps(g.edges), q.seed, next, depth)
  {
    ghost var R := q.Steps(g.edges);
    visited, next, results, truncated := visited0, [], results0, false;
    for i := 0 to |frontier|
      invariant Layer(R, visited0, frontier, visited, next)
      invariant Reported(g.nodes, g.edges, q, depth, visited, results)
      invariant Covered(R, Elems(frontier[..i]), visited)
    {
      var id := frontier[i];
      assert Elems(frontier[..i + 1]) == Elems(frontier[..i]) + {id};
      var incident := if q.dir.Forward? then Lookup(g.out, id) else Lookup(g.into, id);
      LeavingMembers(g.edges, id);
      visited, next, results, truncated :=
        Expand(g.nodes, g.edges, q, depth, id, incident, visited0, frontier, visited, next, results);
      if truncated {
        return;
      }
    }
    assert frontier[..|frontier|] == frontier;
    BallGrows(R, q.seed, visited0, frontier, depth - 1, visited, next);
  }

  /** The promise of a search.  Untruncated, the results are exactly the known nodes in
      range, each once, ordered by depth and then ID; truncated, see `CutShort`. */
  ghost predicate Answers(nodes: map<Id, Node>, edges: seq<Edge>, q: Query, results: seq<Reached>, truncated: bool) {
    && (forall r :: r in results ==> Honest(nodes, edges, q, r))
    && DistinctIds(results) && |results| <= AtLeastNone(q.limit)
    && (truncated ==> CutShort(nodes, edges, q, results))
    && (!truncated ==> StrictlySorted(results, ReachedLess))
    && (!truncated ==> forall x :: x in Ids(results) <==>
          x in nodes && InRange(q.Steps(edges), q.seed, q.maxDepth, x))
  }

  method Search(g: Graph, q: Query) returns (results: seq<Reached>, truncated: bool)
    requires g.Valid()
    ensures Answers(g.nodes, g.edges, q, results, truncated)
  {
    ghost var R := q.Steps(g.edges);
    var visited := {q.seed};
    var frontier := [q.seed];
    results := [];
    BallStart(R, q.seed);
    var depth := 1;
    while depth <= q.maxDepth && |frontier| > 0
      invariant 1 <= depth && (depth <= q.maxDepth + 1 || depth == 1)
      invariant Ball(R, q.seed, visited, depth - 1) && Sphere(R, q.seed, frontier, depth - 1)
      invariant Reported(g.nodes, g.edges, q, depth, visited, results)
      decreases q.maxDepth - depth
    {
      visited, frontier, results, truncated := ExpandLevel(g, q, depth, frontier, visited, results);
      if truncated {
        return;
      }
      depth := depth + 1;
    }
    Finish(R, q, visited, frontier, depth);
    ReachedLessWeak();
    ghost var found := results;
    results := SortSlice(results, ReachedLess);
    SortedResults(found, results);
    truncated := false;
  }

  /** An answer that is not cut short stands in order of depth, and then of ID. */
  lemma AnswerOrdered(nodes: map<Id, Node>, edges: seq<Edge>, q: Query, results: seq<Reached>, i: nat, j: nat)
    requires Answers(nodes, edges, q, results, false) && i < j < |results|
    ensures results[i].depth < results[j].depth
            || (results[i].depth == results[j].depth && ComesBefore(results[i].node.id, results[j].node.id))
  {
    assert ReachedLess(results[i], results[j]);
    StrLessExactly(results[i].node.id, results[j].node.id);
  }

  lemma Finish(R: Rel, q: Query, visited: set<Id>, frontier: seq<Id>, depth: int)
    requires 1 <= depth && (depth <= q.maxDepth + 1 || depth == 1)
    requires Ball(R, q.seed, visited, depth - 1) && Sphere(R, q.seed, frontier, depth - 1)
    requires depth > q.maxDepth || |frontier| == 0
    ensures q.maxDepth >= 0 ==> Ball(R, q.seed, visited, q.maxDepth)
    ensures q.maxDepth < 0 ==> visited == {q.seed}
  {
    if depth <= q.maxDepth {
      BallStops(R, q.seed, visited, depth - 1, q.maxDepth);
    } else if q.maxDepth < 0 {
      forall x ensures x in visited <==> x == q.seed { WithinZero(R, q.seed, x); }
    }
  }

  lemma NewVertex(R: Rel, seed: Id, base: set<Id>, frontier: seq<Id>, d: nat, y: Id, x: Id)
    requires Ball(R, seed, base, d) && Sphere(R, seed, frontier, d)
    requires y in frontier && (y, x) in R && x !in base
    ensures Distance(R, seed, x, d + 1) && Distance(R, seed, y, d) && Within(R, seed, x, d + 1)
  {
    WithinStep(R, seed, y, x, d);
  }

  lemma SortedResults(found: seq<Reached>, sorted: seq<Reached>)
    requires DistinctIds(found) && multiset(found) == multiset(sorted) && Sorted(sorted, ReachedLess)
    ensures StrictlySorted(sorted, ReachedLess) && DistinctIds(sorted)
    ensures |found| == |sorted| && Ids(found) == Ids(sorted)
    ensures forall r :: r in found <==> r in sorted
  {
    PermutationElems(found, sorted);
    PermutationDistinct(found, sorted);
    StrLessTotal();
    forall i, j | 0 <= i < j < |sorted|
      ensures ReachedLess(sorted[i], sorted[j]) && sorted[i].node.id != sorted[j].node.id
    {
      assert sorted[i] != sorted[j] && sorted[i] in found && sorted[j] in found;
    }
  }

  method ReverseReach(g: Graph, seed: Id, kinds: set<EdgeKind>, maxDepth: int, limit: int)
    returns (results: seq<Reached>, truncated: bool)
    requires g.Valid()
    ensures Answers(g.nodes, g.edges, Query(Backward, seed, kinds, maxDepth, limit), results, truncated)
  {
    results, truncated := Search(g, Query(Backward, seed, kinds, maxDepth, limit));
  }

  method ForwardReach(g: Graph, seed: Id, kinds: set<EdgeKind>, maxDepth: int, limit: int)
    returns (results: seq<Reached>, truncated: bool)
    requires g.Valid()
    ensures Answers(g.nodes, g.edges, Query(Forward, seed, kinds, maxDepth, limit), results, truncated)
  {
    results, truncated := Search(g, Query(Forward, seed, kinds, maxDepth, limit));
  }

  /** The known nodes a search is asked for. */
  ghost function Wanted(nodes: map<Id, Node>, edges: seq<Edge>, q: Query): set<Id> {
    set x | x in nodes && InRange(q.Steps(edges), q.seed, q.maxDepth, x)
  }

  lemma {:induction false} CountIds(results: seq<Reached>)
    requires DistinctIds(results)
    ensures |Ids(results)| == |results|
  {
    if results != [] {
      var init, last := results[..|results| - 1], results[|results| - 1];
      CountIds(init);
      assert forall r :: r in results <==> r in init || r == last;
      assert Ids(results) == Ids(init) + {last.node.id};
    }
  }

  lemma InRangeKnown(nodes: map<Id, Node>, edges: seq<Edge>, q: Query, x: Id)
    requires EndpointClosed(nodes, edges) && InRange(q.Steps(edges), q.seed, q.maxDepth, x)
    ensures x in nodes
  {
    var p :| WalkFrom(q.Steps(edges), q.seed, x, p) && |p| - 1 <= q.maxDepth;
    assert |p| > 1;
    assert Step(q.Steps(edges), p, |p| - 2);
    var e := StepFrom(edges, q.kinds, q.dir, p[|p| - 2], x);
  }

  /** On a graph whose edges all join known nodes, a search truncates exactly when it is
      asked for more nodes than the limit allows. */
  lemma TruncatesExactly(nodes: map<Id, Node>, edges: seq<Edge>, q: Query, results: seq<Reached>, truncated: bool)
    requires EndpointClosed(nodes, edges) && Answers(nodes, edges, q, results, truncated)
    ensures truncated <==> |Wanted(nodes, edges, q)| > AtLeastNone(q.limit)
  {
    CountIds(results);
    var R := q.Steps(edges);
    forall x | x in Ids(results) ensures x in Wanted(nodes, edges, q) {
      var r :| r in results && r.node.id == x;
      HonestInRange(nodes, edges, q, r);
    }
    if truncated {
      var x :| x !in Ids(results) && InRange(R, q.seed, q.maxDepth, x);
      InRangeKnown(nodes, edges, q, x);
      SubsetSize(Ids(results) + {x}, Wanted(nodes, edges, q));
    } else {
      assert Wanted(nodes, edges, q) == Ids(results);
    }
  }

  lemma HonestInRange(nodes: map<Id, Node>, edges: seq<Edge>, q: Query, r: Reached)
    requires Honest(nodes, edges, q, r)
    ensures InRange(q.Steps(edges), q.seed, q.maxDepth, r.node.id)
  {
    var R := q.Steps(edges);
    WithinMonotone(R, q.seed, r.node.id, r.depth, q.maxDepth);
    WithinZero(R, q.seed, q.seed);
    WithinMonotone(R, q.seed, q.seed, 0, r.depth - 1);
  }

  lemma SubsetSize(a: set<Id>, b: set<Id>)
    requires a <= b
    ensures |a| <= |b|
  {
    assert b == a + (b - a);
  }

  /** `x` is reported at depth `d`. */
  ghost predicate ReportedAt(results: seq<Reached>, x: Id, d: int) {
    exists r :: r in results && r.node.id == x && r.depth == d
  }

  lemma ReportedAtDistance(nodes: map<Id, Node>, edges: seq<Edge>, q: Query, results: seq<Reached>, x: Id, d: nat)
    requires Answers(nodes, edges, q, results, false)
    requires x in nodes && x != q.seed
    ensures ReportedAt(results, x, d) <==> d <= q.maxDepth && Distance(q.Steps(edges), q.seed, x, d)
  {
    var R := q.Steps(edges);
    if d <= q.maxDepth && Distance(R, q.seed, x, d) {
      WithinMonotone(R, q.seed, x, d, q.maxDepth);
      assert x in Ids(results);
      var r :| r in results && r.node.id == x;
      DistanceUnique(R, q.seed, x, d, r.depth);
    }
  }

  /** Callers and callees agree: `x` is found `d` steps behind `y` exactly when `y` is
      found `d` steps ahead of `x`. */
  lemma ForwardMirrorsReverse(nodes: map<Id, Node>, edges: seq<Edge>, kinds: set<EdgeKind>, maxDepth: int,
                              x: Id, y: Id, limitF: int, limitR: int,
                              ahead: seq<Reached>, behind: seq<Reached>, d: nat)
    requires x in nodes && y in nodes && x != y
    requires Answers(nodes, edges, Query(Forward, x, kinds, maxDepth, limitF), ahead, false)
    requires Answers(nodes, edges, Query(Backward, y, kinds, maxDepth, limitR), behind, false)
    ensures ReportedAt(behind, x, d) <==> ReportedAt(ahead, y, d)
  {
    ReportedAtDistance(nodes, edges, Query(Forward, x, kinds, maxDepth, limitF), ahead, y, d);
    ReportedAtDistance(nodes, edges, Query(Backward, y, kinds, maxDepth, limitR), behind, x, d);
    FlipDistance(KindRel(edges, kinds), x, y, d);
  }
}
