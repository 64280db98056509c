/** Enumeration of simple paths by backtracking. */
module Paths {
  import opened Orders
  import opened CodeGraph

  // ---------------------------------------------------------------------------------
  // Taking what arrives, up to a limit

  /** The calls that arrive at `to`, each named by the path held while it runs. */
  ghost function Hits<V>(calls: seq<seq<V>>, to: V): seq<seq<V>> {
    if calls == [] then []
    else
      var last := calls[|calls| - 1];
      Hits(calls[..|calls| - 1], to) + if last != [] && last[|last| - 1] == to then [last] else []
  }

  lemma {:induction false} HitsConcat<V>(a: seq<seq<V>>, b: seq<seq<V>>, to: V)
    ensures Hits(a + b, to) == Hits(a, to) + Hits(b, to)
  {
    if b == [] {
      assert a + b == a;
    } else {
      var init := b[..|b| - 1];
      HitsConcat(a, init, to);
      assert (a + b)[..|a + b| - 1] == a + init;
    }
  }

  function Room(limit: int, taken: nat, wanted: nat): (room: nat)
    ensures room <= wanted
  {
    if limit <= taken then 0 else if limit - taken < wanted then limit - taken else wanted
  }

  ghost function Taken<V>(limit: int, paths: seq<seq<V>>, found: seq<seq<V>>): seq<seq<V>> {
    paths + found[..Room(limit, |paths|, |found|)]
  }

  /** Some call starts when the limit is already used up. */
  ghost predicate Overruns<V>(limit: int, taken: nat, calls: seq<seq<V>>, to: V) {
    calls != [] && taken + |Hits(calls[..|calls| - 1], to)| >= limit
  }

  /** The effect of making `calls` in order: paths are taken while there is room, and the
      flag goes up if a call comes too late. */
  ghost predicate Ran<V>(limit: int, to: V, calls: seq<seq<V>>, paths0: seq<seq<V>>, truncated0: bool,
                         paths: seq<seq<V>>, truncated: bool)
  {
    && paths == Taken(limit, paths0, Hits(calls, to))
    && (truncated <==> truncated0 || Overruns(limit, |paths0|, calls, to))
  }

  lemma RanNothing<V>(limit: int, to: V, paths: seq<seq<V>>, truncated: bool)
    ensures Ran(limit, to, [], paths, truncated, paths, truncated)
  {
  }

  /** A call that comes too late does nothing, and neither would any call it would make. */
  lemma RanTooLate<V>(limit: int, to: V, calls: seq<seq<V>>, paths: seq<seq<V>>, truncated: bool)
    requires |paths| >= limit && calls != []
    ensures Ran(limit, to, calls, paths, truncated, paths, true)
  {
  }

  lemma RanOne<V>(limit: int, to: V, path: seq<V>, paths: seq<seq<V>>, truncated: bool)
    requires |paths| < limit && path != []
    ensures Ran(limit, to, [path], paths, truncated,
                if path[|path| - 1] == to then paths + [path] else paths, truncated)
  {
    var calls := [path];
    assert calls[..|calls| - 1] == [];
    if path[|path| - 1] == to {
      assert Hits(calls, to) == [path];
      assert [path][..1] == [path];
    }
  }

  lemma RanBoth<V>(limit: int, to: V, a: seq<seq<V>>, b: seq<seq<V>>, paths0: seq<seq<V>>, truncated0: bool,
                   paths1: seq<seq<V>>, truncated1: bool, paths2: seq<seq<V>>, truncated2: bool)
    requires Ran(limit, to, a, paths0, truncated0, paths1, truncated1)
    requires Ran(limit, to, b, paths1, truncated1, paths2, truncated2)
    ensures Ran(limit, to, a + b, paths0, truncated0, paths2, truncated2)
  {
    HitsConcat(a, b, to);
    TakenTwice(limit, paths0, Hits(a, to), Hits(b, to));
    if b == [] {
      assert a + b == a;
    } else {
      var init := b[..|b| - 1];
      assert (a + b)[..|a + b| - 1] == a + init;
      HitsConcat(a, init, to);
      HitsPrefix(a, to);
    }
  }

  lemma TakenTwice<T>(limit: int, paths: seq<seq<T>>, a: seq<seq<T>>, b: seq<seq<T>>)
    ensures Taken(limit, Taken(limit, paths, a), b) == Taken(limit, paths, a + b)
  {
  }

  lemma HitsPrefix<V>(a: seq<seq<V>>, to: V)
    ensures a != [] ==> |Hits(a[..|a| - 1], to)| <= |Hits(a, to)|
  {
  }

  // ---------------------------------------------------------------------------------
  // The search

  /** What one enumeration is asked for.  Edges and nodes are left open: all that counts is
      the list of edges out of a node, and where each one leads. */
  datatype Route<!E, !V(==)> = Route(out: map<V, seq<E>>, target: E -> V, to: V, maxDepth: int) {
    function Out(v: V): seq<E> {
      if v in out then out[v] else []
    }
  }

  /** Every call an unlimited search makes from `curr` on, in the order the calls start. */
  ghost function Calls<E, V>(r: Route<E, V>, current: seq<V>, curr: V, depth: int): (c: seq<seq<V>>)
    ensures |c| > 0
    decreases r.maxDepth - depth, 0, 0
  {
    var path := current + [curr];
    [path] + if curr != r.to && depth < r.maxDepth then Forest(r, path, r.Out(curr), depth + 1) else []
  }

  ghost function Forest<E, V>(r: Route<E, V>, path: seq<V>, list: seq<E>, depth: int): seq<seq<V>>
    decreases r.maxDepth - depth, 1, |list|
  {
    if list == [] then []
    else
      var next := r.target(list[|list| - 1]);
      Forest(r, path, list[..|list| - 1], depth) + if next in path then [] else Calls(r, path, next, depth)
  }

  class PathSearch<E, V(==)> {
    const r: Route<E, V>
    const limit: int
    var current: seq<V>
    var visited: set<V>
    var paths: seq<seq<V>>
    var truncated: bool

    constructor (r: Route<E, V>, limit: int)
      ensures this.r == r && this.limit == limit
      ensures current == [] && visited == {} && paths == [] && !truncated
    {
      this.r, this.limit := r, limit;
      current, visited, paths, truncated := [], {}, [], false;
    }

    /** Runs the search below `curr` and puts `current` and `visited` back as they were. */
    method Dfs(curr: V, depth: int)
      requires visited == Elems(current) && curr !in current
      modifies this
      ensures current == old(current) && visited == old(visited)
      ensures Ran(limit, r.to, Calls(r, current, curr, depth), old(paths), old(truncated), paths, truncated)
      decreases r.maxDepth - depth, 1
    {
      if |paths| >= limit {
        RanTooLate(limit, r.to, Calls(r, current, curr, depth), paths, truncated);
        truncated := true;
        return;
      }
      ghost var path := current + [curr];
      RanOne(limit, r.to, path, paths, truncated);
      current := current + [curr];
      visited := visited + {curr};
      assert Elems(current) == Elems(old(current)) + {curr};
      if curr == r.to {
        paths := paths + [current];
      } else if depth < r.maxDepth {
        DfsEach(r.Out(curr), depth + 1);
        RanBoth(limit, r.to, [path], Forest(r, path, r.Out(curr), depth + 1),
                old(paths), old(truncated), old(paths), old(truncated), paths, truncated);
      }
      visited := visited - {curr};
      current := current[..|current| - 1];
    }

    method DfsEach(list: seq<E>, depth: int)
      requires visited == Elems(current) && depth <= r.maxDepth
      modifies this
      ensures current == old(current) && visited == old(visited)
      ensures Ran(limit, r.to, Forest(r, current, list, depth), old(paths), old(truncated), paths, truncated)
      decreases r.maxDepth - depth, 2
    {
      RanNothing(limit, r.to, paths, truncated);
      for i := 0 to |list|
        invariant current == old(current) && visited == old(visited)
        invariant Ran(limit, r.to, Forest(r, current, list[..i], depth), old(paths), old(truncated), paths, truncated)
      {
        assert list[..i + 1][..i] == list[..i];
        ghost var paths1, truncated1 := paths, truncated;
        var next := r.target(list[i]);
        if next !in visited {
          Dfs(next, depth);
          RanBoth(limit, r.to, Forest(r, current, list[..i], depth), Calls(r, current, next, depth),
                  old(paths), old(truncated), paths1, truncated1, paths, truncated);
        } else {
          assert Forest(r, current, list[..i], depth) + [] == Forest(r, current, list[..i], depth);
        }
      }
      assert list[..|list|] == list;
    }
  }

  // ---------------------------------------------------------------------------------
  // What is found

  /** How often `p` arrives. */
  ghost function Tally<V>(calls: seq<seq<V>>, to: V, p: seq<V>): nat {
    multiset(Hits(calls, to))[p]
  }

  lemma TallyConcat<V>(a: seq<seq<V>>, b: seq<seq<V>>, to: V, p: seq<V>)
    ensures Tally(a + b, to, p) == Tally(a, to, p) + Tally(b, to, p)
  {
    HitsConcat(a, b, to);
  }

  lemma TallyOne<V>(path: seq<V>, to: V, p: seq<V>)
    requires path != []
    ensures Tally([path], to, p) == if path[|path| - 1] == to && p == path then 1 else 0
  {
    assert [path][..0] == [];
    assert Hits([path], to) == if path[|path| - 1] == to then [path] else [];
  }

  /** How many edges of the list lead to `y`. */
  ghost function Targeting<E, V>(r: Route<E, V>, list: seq<E>, y: V): nat {
    if list == [] then 0
    else Targeting(r, list[..|list| - 1], y) + if r.target(list[|list| - 1]) == y then 1 else 0
  }

  /** The number of ways to choose an edge for each step of `p` from position `k` on. */
  ghost function Ways<E, V>(r: Route<E, V>, p: seq<V>, k: nat): nat
    decreases |p| - k
  {
    if k + 1 >= |p| then 1 else Targeting(r, r.Out(p[k]), p[k + 1]) * Ways(r, p, k + 1)
  }

  /** `p` continues `path` without repeating a node, ends at the target and is not too long. */
  ghost predicate Extends<E, V>(r: Route<E, V>, path: seq<V>, depth: int, p: seq<V>) {
    && |path| < |p| && p[..|path|] == path
    && p[|p| - 1] == r.to && Distinct(p)
    && (|p| == |path| + 1 || |p| - 1 - |path| <= r.maxDepth - depth)
  }

  /** How often `p` is found by following the edges of `list` from the end of `path`. */
  ghost function Share<E, V>(r: Route<E, V>, path: seq<V>, list: seq<E>, depth: int, p: seq<V>): nat {
    if Extends(r, path, depth, p) then Targeting(r, list, p[|path|]) * Ways(r, p, |path|) else 0
  }

  lemma ShareGrows<E, V>(r: Route<E, V>, path: seq<V>, list: seq<E>, depth: int, p: seq<V>)
    requires list != []
    ensures var next := r.target(list[|list| - 1]);
      Share(r, path, list, depth, p) == Share(r, path, list[..|list| - 1], depth, p)
        + if Extends(r, path, depth, p) && p[|path|] == next then Ways(r, p, |path|) else 0
  {
    if Extends(r, path, depth, p) {
      OneMore(Targeting(r, list[..|list| - 1], p[|path|]), Ways(r, p, |path|));
    }
  }

  lemma OneMore(n: nat, w: nat)
    ensures (n + 1) * w == n * w + w && (n + 0) * w == n * w
  {
  }

  /** How often `p` is found by going on to `curr` from the end of `current`. */
  ghost function Found<E, V>(r: Route<E, V>, current: seq<V>, curr: V, depth: int, p: seq<V>): nat {
    if Extends(r, current, depth, p) && p[|current|] == curr then Ways(r, p, |current|) else 0
  }

  lemma FoundAtTarget<E, V>(r: Route<E, V>, current: seq<V>, depth: int, p: seq<V>)
    requires Distinct(current) && r.to !in current
    ensures Found(r, current, r.to, depth, p) == if p == current + [r.to] then 1 else 0
  {
    var k := |current|;
    if Extends(r, current, depth, p) && p[k] == r.to {
      assert |p| == k + 1;
      assert p == p[..k] + [p[k]];
    }
  }

  lemma FoundTooDeep<E, V>(r: Route<E, V>, current: seq<V>, curr: V, depth: int, p: seq<V>)
    requires curr != r.to && depth >= r.maxDepth
    ensures Found(r, current, curr, depth, p) == 0
  {
  }

  lemma FoundBelow<E, V>(r: Route<E, V>, current: seq<V>, curr: V, depth: int, p: seq<V>)
    requires curr != r.to && depth < r.maxDepth
    ensures Found(r, current, curr, depth, p) == Share(r, current + [curr], r.Out(curr), depth + 1, p)
  {
    var k, path := |current|, current + [curr];
    assert path[..k] == current;
    if |p| > k {
      assert p[..k + 1] == p[..k] + [p[k]];
    }
    if Extends(r, path, depth + 1, p) {
      assert p[..k] == p[..k + 1][..k];
      assert p[k] == p[..k + 1][k];
    }
  }

  lemma CallsShape<E, V>(r: Route<E, V>, current: seq<V>, curr: V, depth: int)
    ensures curr == r.to || depth >= r.maxDepth ==> Calls(r, current, curr, depth) == [current + [curr]]
    ensures curr != r.to && depth < r.maxDepth ==>
              Calls(r, current, curr, depth) == [current + [curr]] + Forest(r, current + [curr], r.Out(curr), depth + 1)
  {
  }

  lemma {:induction false} CallsCount<E, V>(r: Route<E, V>, current: seq<V>, curr: V, depth: int, p: seq<V>)
    requires Distinct(current) && curr !in current
    ensures Tally(Calls(r, current, curr, depth), r.to, p) == Found(r, current, curr, depth, p)
    decreases r.maxDepth - depth, 0, 0
  {
    var path := current + [curr];
    TallyOne(path, r.to, p);
    CallsShape(r, current, curr, depth);
    if curr == r.to {
      FoundAtTarget(r, current, depth, p);
    } else if depth < r.maxDepth {
      FoundBelow(r, current, curr, depth, p);
      TallyConcat([path], Forest(r, path, r.Out(curr), depth + 1), r.to, p);
      ForestCount(r, path, r.Out(curr), depth + 1, p);
    } else {
      FoundTooDeep(r, current, curr, depth, p);
    }
  }

  lemma {:induction false} ForestCount<E, V>(r: Route<E, V>, path: seq<V>, list: seq<E>, depth: int, p: seq<V>)
    requires Distinct(path)
    ensures Tally(Forest(r, path, list, depth), r.to, p)
         == Share(r, path, list, depth, p)
    decreases r.maxDepth - depth, 1, |list|
  {
    if list != [] {
      var init, next := list[..|list| - 1], r.target(list[|list| - 1]);
      ForestCount(r, path, init, depth, p);
      ShareGrows(r, path, list, depth, p);
      if next in path {
        assert Forest(r, path, init, depth) + [] == Forest(r, path, init, depth);
        if Extends(r, path, depth, p) {
          NotOnPath(r, path, depth, p, next);
        }
      } else {
        TallyConcat(Forest(r, path, init, depth), Calls(r, path, next, depth), r.to, p);
        CallsCount(r, path, next, depth, p);
      }
    }
  }

  lemma NotOnPath<E, V>(r: Route<E, V>, path: seq<V>, depth: int, p: seq<V>, next: V)
    requires Extends(r, path, depth, p) && next in path
    ensures p[|path|] != next
  {
    var i :| 0 <= i < |path| && path[i] == next;
    assert p[i] == p[..|path|][i];
  }

  // ---------------------------------------------------------------------------------
  // The order of the answer

  /** Element by element, at the first position where the two differ. */
  predicate FirstLess<T(==)>(a: seq<T>, b: seq<T>, less: (T, T) -> bool) {
    a != [] && b != [] && if a[0] != b[0] then less(a[0], b[0]) else FirstLess(a[1..], b[1..], less)
  }

  lemma {:induction false} FirstLessIrreflexive<T>(a: seq<T>, less: (T, T) -> bool)
    ensures !FirstLess(a, a, less)
  {
    if a != [] {
      FirstLessIrreflexive(a[1..], less);
    }
  }

  lemma {:induction false} FirstLessTransitive<T(!new)>(a: seq<T>, b: seq<T>, c: seq<T>, less: (T, T) -> bool)
    requires StrictWeak(less) && FirstLess(a, b, less) && FirstLess(b, c, less)
    ensures FirstLess(a, c, less)
  {
    if a[0] == b[0] == c[0] {
      FirstLessTransitive(a[1..], b[1..], c[1..], less);
    } else {
      assert less(a[0], c[0]) && !less(a[0], a[0]);
    }
  }

  lemma {:induction false} FirstLessConnected<T(!new)>(a: seq<T>, b: seq<T>, less: (T, T) -> bool)
    requires |a| == |b| && forall x, y :: x == y || less(x, y) || less(y, x)
    ensures a == b || FirstLess(a, b, less) || FirstLess(b, a, less)
  {
    if a != [] && a[0] == b[0] {
      FirstLessConnected(a[1..], b[1..], less);
      if a[1..] == b[1..] {
        assert a == [a[0]] + a[1..] == [b[0]] + b[1..] == b;
      }
    }
  }

  /** Shorter paths first, then by name. */
  predicate PathLess(a: seq<Id>, b: seq<Id>) {
    if |a| != |b| then |a| < |b| else FirstLess(a, b, StrLess)
  }

  lemma PathLessTotal()
    ensures StrictWeak(PathLess)
    ensures forall a, b :: a == b || PathLess(a, b) || PathLess(b, a)
  {
    StrLessTotal();
    forall a ensures !PathLess(a, a) { FirstLessIrreflexive(a, StrLess); }
    forall a, b ensures a == b || PathLess(a, b) || PathLess(b, a) {
      if |a| == |b| { FirstLessConnected(a, b, StrLess); }
    }
    forall a, b, c | PathLess(a, b) && PathLess(b, c) ensures PathLess(a, c) {
      if |a| == |b| == |c| { FirstLessTransitive(a, b, c, StrLess); }
    }
  }

  // ---------------------------------------------------------------------------------
  // Paths of the graph

  function TargetOf(e: Edge): Id {
    e.target
  }

  /** How many edges join `x` to `y`. */
  ghost function Parallel(edges: seq<Edge>, x: Id, y: Id): nat {
    if edges == [] then 0
    else
      var last := edges[|edges| - 1];
      Parallel(edges[..|edges| - 1], x, y) + if last.source == x && last.target == y then 1 else 0
  }

  /** The number of ways to choose one edge for each step of `p`, from position `k` on. */
  ghost function Choices(edges: seq<Edge>, p: seq<Id>, k: nat): nat
    decreases |p| - k
  {
    if k + 1 >= |p| then 1 else Parallel(edges, p[k], p[k + 1]) * Choices(edges, p, k + 1)
  }

  /** A path that visits no node twice, of at most `maxDepth` edges. */
  ghost predicate IsSimple(from: Id, to: Id, maxDepth: int, p: seq<Id>) {
    && p != [] && p[0] == from && p[|p| - 1] == to
    && Distinct(p) && (|p| == 1 || |p| - 1 <= maxDepth)
  }

  /** How often an unlimited search reports `p`. */
  ghost function Expected(edges: seq<Edge>, from: Id, to: Id, maxDepth: int, p: seq<Id>): nat {
    if IsSimple(from, to, maxDepth, p) then Choices(edges, p, 0) else 0
  }

  lemma {:induction false} TargetingParallel(r: Route<Edge, Id>, edges: seq<Edge>, x: Id, y: Id)
    requires r.target == TargetOf
    ensures Targeting(r, Leaving(edges, x), y) == Parallel(edges, x, y)
  {
    if edges != [] {
      var init, last := edges[..|edges| - 1], edges[|edges| - 1];
      TargetingParallel(r, init, x, y);
      if last.source == x {
        assert (Leaving(init, x) + [last])[..|Leaving(init, x)|] == Leaving(init, x);
      } else {
        assert Leaving(init, x) + [] == Leaving(init, x);
      }
    }
  }

  lemma {:induction false} WaysChoices(r: Route<Edge, Id>, edges: seq<Edge>, p: seq<Id>, k: nat)
    requires r.target == TargetOf && FiledOut(r.out, edges)
    ensures Ways(r, p, k) == Choices(edges, p, k)
    decreases |p| - k
  {
    if k + 1 < |p| {
      WaysChoices(r, edges, p, k + 1);
      assert r.Out(p[k]) == Lookup(r.out, p[k]);
      TargetingParallel(r, edges, p[k], p[k + 1]);
    }
  }

  /** An unlimited search finds the simple paths and nothing else, each once per choice of
      parallel edges. */
  lemma FindsExpected(r: Route<Edge, Id>, edges: seq<Edge>, from: Id, p: seq<Id>)
    requires r.target == TargetOf && FiledOut(r.out, edges)
    ensures multiset(Hits(Calls(r, [], from, 0), r.to))[p] == Expected(edges, from, r.to, r.maxDepth, p)
  {
    CallsCount(r, [], from, 0, p);
    WaysChoices(r, edges, p, 0);
  }

  ghost predicate Linked(edges: seq<Edge>, p: seq<Id>, i: nat)
    requires i + 1 < |p|
  {
    exists e :: e in edges && e.source == p[i] && e.target == p[i + 1]
  }

  /** There is a choice at all exactly when each step has an edge. */
  lemma {:induction false} ChoicesPositive(edges: seq<Edge>, p: seq<Id>, k: nat)
    ensures Choices(edges, p, k) > 0 <==> forall i: nat :: k <= i && i + 1 < |p| ==> Linked(edges, p, i)
    decreases |p| - k
  {
    if k + 1 < |p| {
      ChoicesPositive(edges, p, k + 1);
      ParallelPositive(edges, p, k);
      PositiveProduct(Parallel(edges, p[k], p[k + 1]), Choices(edges, p, k + 1));
    }
  }

  lemma PositiveProduct(a: nat, b: nat)
    ensures a * b > 0 <==> a > 0 && b > 0
  {
  }

  lemma {:induction false} ParallelPositive(edges: seq<Edge>, p: seq<Id>, i: nat)
    requires i + 1 < |p|
    ensures Parallel(edges, p[i], p[i + 1]) > 0 <==> Linked(edges, p, i)
  {
    if edges != [] {
      var init, last := edges[..|edges| - 1], edges[|edges| - 1];
      ParallelPositive(init, p, i);
      assert edges == init + [last];
      if Linked(init, p, i) {
        var e :| e in init && e.source == p[i] && e.target == p[i + 1];
        assert e in edges;
      }
    }
  }

  /** The promise: at most `limit` paths, in order, none more often than there are ways to
      take it, and unless truncated every path exactly as often as that. */
  ghost predicate Enumerates(edges: seq<Edge>, from: Id, to: Id, maxDepth: int, limit: int,
                             paths: seq<seq<Id>>, truncated: bool)
  {
    && Sorted(paths, PathLess) && (|paths| <= limit || paths == [])
    && (forall p :: multiset(paths)[p] <= Expected(edges, from, to, maxDepth, p))
    && (!truncated ==> forall p :: multiset(paths)[p] == Expected(edges, from, to, maxDepth, p))
    && (truncated ==> |paths| >= limit)
  }

  /** Shorter paths stand first, and of equally long ones the one whose first different node
      has the smaller name. */
  lemma PathsOrdered(edges: seq<Edge>, from: Id, to: Id, maxDepth: int, limit: int, paths: seq<seq<Id>>,
                     truncated: bool, i: nat, j: nat)
    requires Enumerates(edges, from, to, maxDepth, limit, paths, truncated) && i < j < |paths|
    ensures var a, b := paths[i], paths[j];
      |a| < |b| || (|a| == |b| && (a == b || exists k: nat :: k < |a| && a[..k] == b[..k] && ComesBefore(a[k], b[k])))
  {
    var a, b := paths[i], paths[j];
    assert !PathLess(b, a);
    PathLessTotal();
    if |a| == |b| && a != b {
      var k := FirstLessAt(a, b, StrLess);
      StrLessExactly(a[k], b[k]);
    }
  }

  lemma {:induction false} FirstLessAt<T(!new)>(a: seq<T>, b: seq<T>, less: (T, T) -> bool) returns (k: nat)
    requires |a| == |b| && FirstLess(a, b, less)
    ensures k < |a| && a[..k] == b[..k] && less(a[k], b[k])
  {
    if less(a[0], b[0]) {
      k := 0;
    } else {
      k := FirstLessAt(a[1..], b[1..], less);
      k := k + 1;
      assert a[..k] == [a[0]] + a[1..][..k - 1] && b[..k] == [b[0]] + b[1..][..k - 1];
    }
  }

  method PathsBetween(g: Graph, from: Id, to: Id, maxDepth: int, limit: int)
    returns (paths: seq<seq<Id>>, truncated: bool)
    requires g.Valid()
    ensures Enumerates(g.edges, from, to, maxDepth, limit, paths, truncated)
    ensures truncated <==> Overruns(limit, 0, Calls(Route(g.out, TargetOf, to, maxDepth), [], from, 0), to)
  {
    var r := Route(g.out, TargetOf, to, maxDepth);
    var search := new PathSearch<Edge, Id>(r, limit);
    search.Dfs(from, 0);
    truncated := search.truncated;
    PathLessTotal();
    paths := SortSlice(search.paths, PathLess);
    SearchEnumerates(r, g.edges, from, limit, search.paths, truncated, paths);
  }

  lemma SearchEnumerates(r: Route<Edge, Id>, edges: seq<Edge>, from: Id, limit: int, found: seq<seq<Id>>,
                         truncated: bool, paths: seq<seq<Id>>)
    requires r.target == TargetOf && FiledOut(r.out, edges)
    requires Ran(limit, r.to, Calls(r, [], from, 0), [], false, found, truncated)
    requires multiset(paths) == multiset(found) && Sorted(paths, PathLess)
    ensures Enumerates(edges, from, r.to, r.maxDepth, limit, paths, truncated)
  {
    var calls := Calls(r, [], from, 0);
    RanFromStart(limit, r.to, calls, found, truncated);
    PermutationElems(paths, found);
    forall p ensures multiset(Hits(calls, r.to))[p] == Expected(edges, from, r.to, r.maxDepth, p) {
      FindsExpected(r, edges, from, p);
    }
  }

  /** What a whole search leaves: all arrivals unless the flag is up, and then the first. */
  lemma RanFromStart<V>(limit: int, to: V, calls: seq<seq<V>>, found: seq<seq<V>>, truncated: bool)
    requires calls != [] && Ran(limit, to, calls, [], false, found, truncated)
    ensures |found| <= limit || found == []
    ensures forall p :: multiset(found)[p] <= multiset(Hits(calls, to))[p]
    ensures !truncated ==> found == Hits(calls, to)
    ensures truncated ==> |found| >= limit
  {
    var all := Hits(calls, to);
    var room := Room(limit, 0, |all|);
    assert found == all[..room];
    assert all == all[..room] + all[room..];
    HitsPrefix(calls, to);
    if !truncated {
      LastHit(calls, to);
      assert found == all;
    }
  }

  lemma LastHit<V>(calls: seq<seq<V>>, to: V)
    requires calls != []
    ensures |Hits(calls, to)| <= |Hits(calls[..|calls| - 1], to)| + 1
  {
  }

  // ---------------------------------------------------------------------------------
  // What the flag means

  /** Where an unlimited search ends: at each step it follows the last edge that does not lead
      back to the path. */
  ghost function Rightmost<E, V>(r: Route<E, V>, current: seq<V>, curr: V, depth: int): (end: seq<V>)
    ensures end != []
    decreases r.maxDepth - depth, 0, 0
  {
    var path := current + [curr];
    if curr != r.to && depth < r.maxDepth then RightmostOf(r, path, r.Out(curr), depth + 1) else path
  }

  ghost function RightmostOf<E, V>(r: Route<E, V>, path: seq<V>, list: seq<E>, depth: int): (end: seq<V>)
    requires path != []
    ensures end != []
    decreases r.maxDepth - depth, 1, |list|
  {
    if list == [] then path
    else
      var next := r.target(list[|list| - 1]);
      if next in path then RightmostOf(r, path, list[..|list| - 1], depth) else Rightmost(r, path, next, depth)
  }

  lemma {:induction false} LastCall<E, V>(r: Route<E, V>, current: seq<V>, curr: V, depth: int)
    ensures var c := Calls(r, current, curr, depth); c[|c| - 1] == Rightmost(r, current, curr, depth)
    decreases r.maxDepth - depth, 0, 0
  {
    if curr != r.to && depth < r.maxDepth {
      LastOf(r, current + [curr], r.Out(curr), depth + 1);
    }
  }

  lemma {:induction false} LastOf<E, V>(r: Route<E, V>, path: seq<V>, list: seq<E>, depth: int)
    requires path != []
    ensures var c := Forest(r, path, list, depth);
      RightmostOf(r, path, list, depth) == if c == [] then path else c[|c| - 1]
    decreases r.maxDepth - depth, 1, |list|
  {
    if list != [] {
      var next := r.target(list[|list| - 1]);
      if next in path {
        LastOf(r, path, list[..|list| - 1], depth);
      } else {
        LastCall(r, path, next, depth);
      }
    }
  }

  /** A list of all simple paths, each as often as there are ways to take it. */
  ghost predicate AllPaths(edges: seq<Edge>, from: Id, to: Id, maxDepth: int, all: seq<seq<Id>>) {
    forall p :: multiset(all)[p] == Expected(edges, from, to, maxDepth, p)
  }

  lemma AllHits(r: Route<Edge, Id>, edges: seq<Edge>, from: Id)
    requires r.target == TargetOf && FiledOut(r.out, edges)
    ensures AllPaths(edges, from, r.to, r.maxDepth, Hits(Calls(r, [], from, 0), r.to))
  {
    forall p ensures multiset(Hits(Calls(r, [], from, 0), r.to))[p] == Expected(edges, from, r.to, r.maxDepth, p) {
      FindsExpected(r, edges, from, p);
    }
  }

  lemma SameNumber(edges: seq<Edge>, from: Id, to: Id, maxDepth: int, a: seq<seq<Id>>, b: seq<seq<Id>>)
    requires AllPaths(edges, from, to, maxDepth, a) && AllPaths(edges, from, to, maxDepth, b)
    ensures multiset(a) == multiset(b) && |a| == |b|
  {
    forall p ensures multiset(a)[p] == multiset(b)[p] {
    }
    assert multiset(a) == multiset(b);
    assert |multiset(a)| == |a| && |multiset(b)| == |b|;
  }

  /** The flag goes up if and only if there are more paths than the limit, or just as many and
      the search does not end with the last of them. */
  lemma FlagExactly(r: Route<Edge, Id>, edges: seq<Edge>, from: Id, limit: int, all: seq<seq<Id>>)
    requires r.target == TargetOf && FiledOut(r.out, edges)
    requires AllPaths(edges, from, r.to, r.maxDepth, all)
    ensures Overruns(limit, 0, Calls(r, [], from, 0), r.to) <==>
              |all| > limit || (|all| == limit && var end := Rightmost(r, [], from, 0); end[|end| - 1] != r.to)
  {
    var calls := Calls(r, [], from, 0);
    AllHits(r, edges, from);
    SameNumber(edges, from, r.to, r.maxDepth, all, Hits(calls, r.to));
    LastCall(r, [], from, 0);
    CallsShape(r, [], from, 0);
    CallsNamed(r, [], from, 0);
    var last := calls[|calls| - 1];
    assert last in calls;
    assert |Hits(calls, r.to)| == |Hits(calls[..|calls| - 1], r.to)| + if last[|last| - 1] == r.to then 1 else 0;
  }

  lemma {:induction false} CallsNamed<E, V>(r: Route<E, V>, current: seq<V>, curr: V, depth: int)
    ensures forall c :: c in Calls(r, current, curr, depth) ==> c != []
    decreases r.maxDepth - depth, 0, 0
  {
    if curr != r.to && depth < r.maxDepth {
      ForestNamed(r, current + [curr], r.Out(curr), depth + 1);
    }
  }

  lemma {:induction false} ForestNamed<E, V>(r: Route<E, V>, path: seq<V>, list: seq<E>, depth: int)
    ensures forall c :: c in Forest(r, path, list, depth) ==> c != []
    decreases r.maxDepth - depth, 1, |list|
  {
    if list != [] {
      ForestNamed(r, path, list[..|list| - 1], depth);
      if r.target(list[|list| - 1]) !in path {
        CallsNamed(r, path, r.target(list[|list| - 1]), depth);
      }
    }
  }

  /** As many paths are reported as there are, or as the limit allows; so some are missing if
      and only if there are more than that, and a flag without a loss means that there are
      just as many. */
  lemma LossExactly(edges: seq<Edge>, from: Id, to: Id, maxDepth: int, limit: int, paths: seq<seq<Id>>,
                    truncated: bool, all: seq<seq<Id>>)
    requires Enumerates(edges, from, to, maxDepth, limit, paths, truncated)
    requires AllPaths(edges, from, to, maxDepth, all)
    ensures |paths| == if |all| > AtLeastNone(limit) then AtLeastNone(limit) else |all|
    ensures multiset(paths) == multiset(all) <==> |all| <= AtLeastNone(limit)
    ensures |all| > AtLeastNone(limit) ==> truncated
    ensures truncated && multiset(paths) == multiset(all) ==> |all| == AtLeastNone(limit)
  {
    assert |multiset(paths)| == |paths| && |multiset(all)| == |all|;
    assert multiset(paths) <= multiset(all) by {
      forall p ensures multiset(paths)[p] <= multiset(all)[p] {
        assert multiset(paths)[p] <= Expected(edges, from, to, maxDepth, p);
      }
    }
    SmallerBag(multiset(paths), multiset(all));
    if !truncated {
      SameNumber(edges, from, to, maxDepth, paths, all);
    }
  }

  lemma SmallerBag<T>(a: multiset<T>, b: multiset<T>)
    requires a <= b
    ensures |a| <= |b| && (|a| == |b| ==> a == b)
  {
    assert b == a + (b - a);
    assert |b| == |a| + |b - a|;
  }

  const AB: Edge := Edge("a", "b", EdgeCalls, 1, ConfExact, 0)
  const AC: Edge := Edge("a", "c", EdgeCalls, 2, ConfExact, 0)

  /** One path, and an edge to a dead end that is tried after it. */
  const FORK: Route<Edge, Id> := Route(map["a" := [AB, AC]], TargetOf, "b", 1)

  lemma ForkFiled()
    ensures FiledOut(FORK.out, [AB, AC])
  {
    assert [AB, AC][..1] == [AB] && [AB][..0] == [];
    forall id ensures Lookup(FORK.out, id) == Leaving([AB, AC], id) {
      assert Leaving([AB], id) == if id == "a" then [AB] else [];
      assert Leaving([AB, AC], id) == if id == "a" then [AB] + [AC] else [];
    }
  }

  lemma ForkCalls()
    ensures Calls(FORK, [], "a", 0) == [["a"], ["a", "b"], ["a", "c"]]
  {
    assert [] + ["a"] == ["a"] && ["a"] + ["b"] == ["a", "b"] && ["a"] + ["c"] == ["a", "c"];
    assert [AB, AC][..1] == [AB] && [AB][..0] == [];
    assert Forest(FORK, ["a"], [AB], 1) == [["a", "b"]];
    assert Forest(FORK, ["a"], [AB, AC], 1) == [["a", "b"], ["a", "c"]];
  }

  lemma ForkHits()
    ensures Hits([["a"], ["a", "b"]], "b") == [["a", "b"]]
    ensures Hits([["a"], ["a", "b"], ["a", "c"]], "b") == [["a", "b"]]
  {
    assert [["a"], ["a", "b"], ["a", "c"]][..2] == [["a"], ["a", "b"]];
    assert [["a"], ["a", "b"]][..1] == [["a"]] && [["a"]][..0] == [];
    assert Hits([["a"]], "b") == [];
  }

  /** The flag can go up although nothing is missing. */
  lemma FlagWithoutLoss()
    ensures FiledOut(FORK.out, [AB, AC]) && AllPaths([AB, AC], "a", "b", 1, [["a", "b"]])
    ensures Overruns(1, 0, Calls(FORK, [], "a", 0), "b")
  {
    ForkFiled();
    ForkCalls();
    ForkHits();
    AllHits(FORK, [AB, AC], "a");
    assert [["a"], ["a", "b"], ["a", "c"]][..2] == [["a"], ["a", "b"]];
  }

  /** An answer that is not cut short is the only one. */
  lemma EnumerationUnique(edges: seq<Edge>, from: Id, to: Id, maxDepth: int, limit1: int, limit2: int,
                          a: seq<seq<Id>>, b: seq<seq<Id>>)
    requires Enumerates(edges, from, to, maxDepth, limit1, a, false)
    requires Enumerates(edges, from, to, maxDepth, limit2, b, false)
    ensures a == b
  {
    forall p ensures multiset(a)[p] == multiset(b)[p] {
      assert multiset(a)[p] == Expected(edges, from, to, maxDepth, p);
    }
    assert multiset(a) == multiset(b);
    PathLessTotal();
    SortedUnique(a, b, PathLess);
  }
}
