/** Members looked up through base types that may form cycles. */
module Hierarchy {
  import opened Orders
  import opened Digraph
  import opened CodeGraph

  /** "inherits from", by type name. */
  ghost function BaseRel<V(!new)>(bases: map<V, seq<V>>): (R: set<(V, V)>)
    ensures forall x, y :: (x, y) in R <==> x in bases && y in bases[x]
  {
    set x, y | x in bases && y in bases[x] :: (x, y)
  }

  function BasesOf<V>(bases: map<V, seq<V>>, v: V): seq<V> {
    if v in bases then bases[v] else []
  }

  // ---------------------------------------------------------------------------------
  // A breadth-first sweep, one vertex at a time

  /** `near` is what is left of the vertices at distance `d`, `far` what has been found of
      those one step on; no other visited vertex has an unvisited base. */
  ghost predicate Sweep<V(!new)>(R: set<(V, V)>, root: V, visited: set<V>, near: set<V>, far: set<V>, d: nat) {
    && near + far <= visited
    && (forall x {:trigger Distance(R, root, x, d)} :: x in near ==> Distance(R, root, x, d))
    && (forall x {:trigger Distance(R, root, x, d + 1)} :: x in far ==> Distance(R, root, x, d + 1))
    && (forall x {:trigger Within(R, root, x, d)} :: Within(R, root, x, d) ==> x in visited)
    && (forall x {:trigger Reaches(R, root, x)} :: x in visited ==> Reaches(R, root, x))
    && (forall x, y :: x in visited && x !in near && x !in far && (x, y) in R ==> y in visited)
  }

  ghost predicate Expanded<V(!new)>(R: set<(V, V)>, x: V, visited: set<V>) {
    forall y :: (x, y) in R ==> y in visited
  }

  lemma SweepStart<V(!new)>(R: set<(V, V)>, root: V)
    ensures Sweep(R, root, {root}, {root}, {}, 0)
  {
    forall x ensures Within(R, root, x, 0) <==> x == root { WithinZero(R, root, x); }
    ReachesSelf(R, root);
  }

  lemma SweepPush<V(!new)>(R: set<(V, V)>, root: V, visited: set<V>, near: set<V>, far: set<V>, d: nat, x: V, y: V)
    requires Sweep(R, root, visited, near, far, d) && x in near && (x, y) in R && y !in visited
    ensures Sweep(R, root, visited + {y}, near, far + {y}, d)
    ensures Distance(R, root, y, d + 1)
  {
    assert Distance(R, root, x, d);
    WithinStep(R, root, x, y, d);
    assert Reaches(R, root, y);
  }

  lemma SweepPop<V(!new)>(R: set<(V, V)>, root: V, visited: set<V>, near: set<V>, far: set<V>, d: nat, x: V,
                          left: set<V>)
    requires Sweep(R, root, visited, near, far, d) && near - {x} <= left <= near
    requires Expanded(R, x, visited)
    ensures Sweep(R, root, visited, left, far, d)
  {
  }

  lemma SweepShift<V(!new)>(R: set<(V, V)>, root: V, visited: set<V>, far: set<V>, d: nat)
    requires Sweep(R, root, visited, {}, far, d)
    ensures Sweep(R, root, visited, far, {}, d + 1)
  {
    forall y | Within(R, root, y, d + 1) ensures y in visited {
      if y != root {
        var x := WithinSplit(R, root, y, d);
        assert x in far ==> Distance(R, root, x, d + 1);
      } else {
        WithinZero(R, root, root);
        WithinMonotone(R, root, root, 0, d);
      }
    }
  }

  lemma SweepDone<V(!new)>(R: set<(V, V)>, root: V, visited: set<V>, d: nat)
    requires Sweep(R, root, visited, {}, {}, d)
    ensures forall x :: x in visited <==> Reaches(R, root, x)
  {
    WithinZero(R, root, root);
    WithinMonotone(R, root, root, 0, d);
    forall x | Reaches(R, root, x) ensures x in visited {
      ClosedReaches(R, visited, root, x);
    }
  }

  // ---------------------------------------------------------------------------------
  // The nearest declarations

  ghost predicate Silent<V, A>(declares: V -> Option<A>, types: set<V>) {
    forall x :: x in types ==> declares(x).None?
  }

  /** Some type at distance `d` declares `a`. */
  ghost predicate DeclaredAt<V(!new), A>(R: set<(V, V)>, declares: V -> Option<A>, root: V, a: A, d: nat) {
    exists x :: declares(x) == Some(a) && Distance(R, root, x, d)
  }

  /** No type nearer than `d` declares the member. */
  ghost predicate NoneNearer<V(!new), A>(R: set<(V, V)>, declares: V -> Option<A>, root: V, d: nat) {
    d == 0 || forall x :: Within(R, root, x, d - 1) ==> declares(x).None?
  }

  ghost predicate IsNearest<V(!new), A(!new)>(R: set<(V, V)>, declares: V -> Option<A>, root: V, a: A) {
    exists d: nat :: DeclaredAt(R, declares, root, a, d) && NoneNearer(R, declares, root, d)
  }

  ghost predicate NoneAtAll<V(!new), A>(R: set<(V, V)>, declares: V -> Option<A>, root: V) {
    forall x :: Reaches(R, root, x) ==> declares(x).None?
  }

  /** The promise of a lookup: nothing only if no type it can reach declares the member,
      and otherwise only declarations at the least distance. */
  ghost predicate Nearest<V(!new), A(!new)>(R: set<(V, V)>, declares: V -> Option<A>, root: V, results: seq<A>) {
    && (results == [] <==> NoneAtAll(R, declares, root))
    && forall a :: a in results ==> IsNearest(R, declares, root, a)
  }

  lemma OwnIsNearest<V(!new), A(!new)>(R: set<(V, V)>, declares: V -> Option<A>, root: V)
    requires declares(root).Some?
    ensures Nearest(R, declares, root, [declares(root).value])
  {
    WithinZero(R, root, root);
    ReachesSelf(R, root);
    assert DeclaredAt(R, declares, root, declares(root).value, 0);
    assert NoneNearer(R, declares, root, 0);
  }

  lemma FoundIsNearest<V(!new), A(!new)>(R: set<(V, V)>, declares: V -> Option<A>, root: V, visited: set<V>, d: nat,
                                         results: seq<A>)
    requires forall x :: Within(R, root, x, d) ==> x in visited
    requires Silent(declares, visited) && |results| > 0
    requires forall a :: a in results ==> DeclaredAt(R, declares, root, a, d + 1)
    ensures Nearest(R, declares, root, results)
  {
    assert NoneNearer(R, declares, root, d + 1);
    assert results[0] in results;
    assert DeclaredAt(R, declares, root, results[0], d + 1);
    var x :| declares(x) == Some(results[0]) && Distance(R, root, x, d + 1);
    assert Reaches(R, root, x);
  }

  /** All bases named anywhere. */
  ghost function AllBases<V(!new)>(bases: map<V, seq<V>>): set<V> {
    set e | e in BaseRel(bases) :: e.1
  }

  /** Looks at the bases of one type and queues those not seen before.  A field lookup stops
      at the first declaration; a method lookup collects those of all the bases. */
  method ScanBases<V(==,!new), A(!new)>(bases: map<V, seq<V>>, declares: V -> Option<A>, firstOnly: bool, ghost root: V,
                                        curr: V, visited0: set<V>, queue0: seq<V>,
                                        ghost near: set<V>, ghost far0: set<V>, ghost d: nat)
    returns (visited: set<V>, queue: seq<V>, results: seq<A>, ghost far: set<V>)
    requires curr in near && Sweep(BaseRel(bases), root, visited0, near, far0, d)
    requires Silent(declares, visited0)
    ensures Sweep(BaseRel(bases), root, visited, near, far, d)
    ensures |results| == 0 ==> Expanded(BaseRel(bases), curr, visited)
    ensures queue0 <= queue && far == far0 + Elems(queue[|queue0|..])
    ensures Marked(visited0, queue0, visited, queue, visited0 + AllBases(bases))
    ensures |results| == 0 ==> Silent(declares, visited)
    ensures firstOnly ==> |results| <= 1
    ensures forall a :: a in results ==> DeclaredAt(BaseRel(bases), declares, root, a, d + 1)
  {
    ghost var R := BaseRel(bases);
    visited, queue, results, far := visited0, queue0, [], far0;
    var list := BasesOf(bases, curr);
    for i := 0 to |list|
      invariant Sweep(R, root, visited, near, far, d)
      invariant forall k :: 0 <= k < i ==> list[k] in visited
      invariant queue0 <= queue && far == far0 + Elems(queue[|queue0|..])
      invariant Marked(visited0, queue0, visited, queue, visited0 + AllBases(bases))
      invariant |results| == 0 ==> Silent(declares, visited)
      invariant firstOnly ==> |results| == 0
      invariant forall a :: a in results ==> DeclaredAt(R, declares, root, a, d + 1)
    {
      var base := list[i];
      if base in visited {
        continue;
      }
      BaseStep(bases, curr, base);
      SweepPush(R, root, visited, near, far, d, curr, base);
      MarkedPush(visited0, queue0, visited, queue, visited0 + AllBases(bases), base);
      if declares(base).Some? {
        assert DeclaredAt(R, declares, root, declares(base).value, d + 1);
        results := results + [declares(base).value];
      }
      TailPush(queue0, queue, base, far0);
      visited := visited + {base};
      queue := queue + [base];
      far := far + {base};
      if firstOnly && |results| > 0 {
        return;
      }
    }
  }

  lemma BaseStep<V(!new)>(bases: map<V, seq<V>>, v: V, base: V)
    requires base in BasesOf(bases, v)
    ensures (v, base) in BaseRel(bases) && base in AllBases(bases)
  {
    assert (v, base) in BaseRel(bases);
  }

  lemma TailPush<V>(queue0: seq<V>, queue: seq<V>, x: V, far0: set<V>)
    requires queue0 <= queue
    ensures queue0 <= queue + [x]
    ensures far0 + Elems((queue + [x])[|queue0|..]) == far0 + Elems(queue[|queue0|..]) + {x}
  {
    assert (queue + [x])[|queue0|..] == queue[|queue0|..] + [x];
    assert Elems(queue[|queue0|..] + [x]) == Elems(queue[|queue0|..]) + {x};
  }

  /** The queue of a lookup: first what is left of one distance, then what is next. */
  ghost predicate Queued<V(!new)>(R: set<(V, V)>, root: V, visited: set<V>, queue: seq<V>, k: nat, d: nat) {
    k <= |queue| && Sweep(R, root, visited, Elems(queue[..k]), Elems(queue[k..]), d)
  }

  lemma QueuedStart<V(!new)>(R: set<(V, V)>, root: V)
    ensures Queued(R, root, {root}, [root], 1, 0)
  {
    SweepStart(R, root);
    assert [root][..1] == [root] && Elems([root]) == {root} && Elems([root][1..]) == {};
  }

  lemma QueuedShift<V(!new)>(R: set<(V, V)>, root: V, visited: set<V>, queue: seq<V>, d: nat)
    requires Queued(R, root, visited, queue, 0, d)
    ensures Queued(R, root, visited, queue, |queue|, d + 1)
  {
    assert queue[..|queue|] == queue == queue[0..];
    assert Elems(queue[..0]) == {} == Elems(queue[|queue|..]);
    SweepShift(R, root, visited, Elems(queue), d);
  }

  lemma QueuedPop<V(!new)>(R: set<(V, V)>, root: V, visited: set<V>, queue: seq<V>, next: seq<V>, far: set<V>,
                           k: nat, d: nat)
    requires 0 < k <= |queue| && queue[1..] <= next
    requires far == Elems(queue[k..]) + Elems(next[|queue| - 1..])
    requires Sweep(R, root, visited, Elems(queue[..k]), far, d)
    requires Expanded(R, queue[0], visited)
    ensures Queued(R, root, visited, next, k - 1, d)
  {
    assert queue[..k] == [queue[0]] + queue[1..k];
    assert next[..k - 1] == queue[1..k];
    assert next[k - 1..] == queue[k..] + next[|queue| - 1..];
    SweepPop(R, root, visited, Elems(queue[..k]), far, d, queue[0], Elems(next[..k - 1]));
  }

  lemma QueuedDone<V(!new), A(!new)>(R: set<(V, V)>, declares: V -> Option<A>, root: V, visited: set<V>, k: nat, d: nat)
    requires Queued(R, root, visited, [], k, d) && Silent(declares, visited)
    ensures Nearest(R, declares, root, [])
  {
    assert Elems<V>([]) == {};
    SweepDone(R, root, visited, d);
  }

  /** A lookup under way: `left` types have not been seen, and none that has declares the member. */
  ghost predicate Going<V(!new), A>(bases: map<V, seq<V>>, declares: V -> Option<A>, root: V, visited: set<V>,
                                    queue: seq<V>,
                                    k: nat, d: nat, left: nat)
  {
    && Queued(BaseRel(bases), root, visited, queue, k, d) && Silent(declares, visited)
    && visited <= {root} + AllBases(bases) && left == |{root} + AllBases(bases) - visited|
  }

  lemma GoingStart<V(!new), A>(bases: map<V, seq<V>>, declares: V -> Option<A>, root: V) returns (left: nat)
    requires declares(root).None?
    ensures Going(bases, declares, root, {root}, [root], 1, 0, left)
  {
    QueuedStart(BaseRel(bases), root);
    left := |{root} + AllBases(bases) - {root}|;
  }

  lemma GoingDone<V(!new), A(!new)>(bases: map<V, seq<V>>, declares: V -> Option<A>, root: V, visited: set<V>,
                                    k: nat, d: nat, left: nat)
    requires Going(bases, declares, root, visited, [], k, d, left)
    ensures Nearest(BaseRel(bases), declares, root, [])
  {
    QueuedDone(BaseRel(bases), declares, root, visited, k, d);
  }

  lemma GoingShift<V(!new), A>(bases: map<V, seq<V>>, declares: V -> Option<A>, root: V, visited: set<V>, queue: seq<V>,
                               k: nat, d: nat, left: nat)
    returns (k': nat, d': nat)
    requires Going(bases, declares, root, visited, queue, k, d, left) && queue != []
    ensures Going(bases, declares, root, visited, queue, k', d', left) && k' > 0
  {
    k', d' := k, d;
    if k == 0 {
      QueuedShift(BaseRel(bases), root, visited, queue, d);
      k', d' := |queue|, d + 1;
    }
  }

  /** Takes one type off the queue. */
  method Turn<V(==,!new), A(!new)>(bases: map<V, seq<V>>, declares: V -> Option<A>, firstOnly: bool, ghost root: V,
                                   visited0: set<V>, queue0: seq<V>, ghost k0: nat, ghost d0: nat, ghost left0: nat)
    returns (visited: set<V>, queue: seq<V>, results: seq<A>, ghost k: nat, ghost d: nat, ghost left: nat)
    requires queue0 != [] && Going(bases, declares, root, visited0, queue0, k0, d0, left0)
    ensures |results| > 0 ==> Nearest(BaseRel(bases), declares, root, results)
    ensures |results| == 0 ==> Going(bases, declares, root, visited, queue, k, d, left)
    ensures firstOnly ==> |results| <= 1
    ensures left < left0 || (left == left0 && |queue| < |queue0|)
  {
    k, d := GoingShift(bases, declares, root, visited0, queue0, k0, d0, left0);
    visited, queue, results := TakeHead(bases, declares, firstOnly, root, visited0, queue0, k, d);
    left := TypesLeft(bases, declares, root, visited0, queue0, k, d, left0, visited, queue);
    if |results| == 0 {
      k := k - 1;
    } else {
      GoingFound(bases, declares, root, visited0, queue0, k, d, left0, results);
    }
  }

  method TakeHead<V(==,!new), A(!new)>(bases: map<V, seq<V>>, declares: V -> Option<A>, firstOnly: bool, ghost root: V,
                                       visited0: set<V>, queue0: seq<V>, ghost k: nat, ghost d: nat)
    returns (visited: set<V>, queue: seq<V>, results: seq<A>)
    requires 0 < k <= |queue0| && Queued(BaseRel(bases), root, visited0, queue0, k, d) && Silent(declares, visited0)
    ensures |results| == 0 ==> Queued(BaseRel(bases), root, visited, queue, k - 1, d) && Silent(declares, visited)
    ensures Marked(visited0, queue0[1..], visited, queue, visited0 + AllBases(bases))
    ensures firstOnly ==> |results| <= 1
    ensures forall a :: a in results ==> DeclaredAt(BaseRel(bases), declares, root, a, d + 1)
  {
    ghost var far;
    assert queue0[..k][0] == queue0[0];
    visited, queue, results, far := ScanBases(bases, declares, firstOnly, root, queue0[0], visited0, queue0[1..],
                                              Elems(queue0[..k]), Elems(queue0[k..]), d);
    if |results| == 0 {
      QueuedPop(BaseRel(bases), root, visited, queue0, queue, far, k, d);
    }
  }

  lemma TypesLeft<V(!new), A>(bases: map<V, seq<V>>, declares: V -> Option<A>, root: V, visited0: set<V>,
                              queue0: seq<V>,
                              k: nat, d: nat, left0: nat, visited: set<V>, queue: seq<V>)
    returns (left: nat)
    requires queue0 != [] && Going(bases, declares, root, visited0, queue0, k, d, left0)
    requires Marked(visited0, queue0[1..], visited, queue, visited0 + AllBases(bases))
    ensures visited <= {root} + AllBases(bases) && left == |{root} + AllBases(bases) - visited|
    ensures left < left0 || (left == left0 && |queue| < |queue0|)
  {
    LessLeft(visited0, visited, {root} + AllBases(bases));
    left := |{root} + AllBases(bases) - visited|;
  }

  lemma GoingFound<V(!new), A(!new)>(bases: map<V, seq<V>>, declares: V -> Option<A>, root: V, visited: set<V>,
                                     queue: seq<V>,
                                     k: nat, d: nat, left: nat, results: seq<A>)
    requires Going(bases, declares, root, visited, queue, k, d, left) && |results| > 0
    requires forall a :: a in results ==> DeclaredAt(BaseRel(bases), declares, root, a, d + 1)
    ensures Nearest(BaseRel(bases), declares, root, results)
  {
    FoundIsNearest(BaseRel(bases), declares, root, visited, d, results);
  }

  /** The type's own declaration, or those of the first type whose bases have any. */
  method FindInHierarchy<V(==,!new), A(!new)>(bases: map<V, seq<V>>, declares: V -> Option<A>, firstOnly: bool, root: V)
    returns (results: seq<A>)
    ensures Nearest(BaseRel(bases), declares, root, results)
    ensures firstOnly ==> |results| <= 1
  {
    if declares(root).Some? {
      OwnIsNearest(BaseRel(bases), declares, root);
      return [declares(root).value];
    }
    results := [];
    var visited, queue := {root}, [root];
    ghost var k: nat, d: nat := 1, 0;
    ghost var left := GoingStart(bases, declares, root);
    while |queue| > 0
      invariant results == [] && Going(bases, declares, root, visited, queue, k, d, left)
      decreases left, |queue|
    {
      visited, queue, results, k, d, left := Turn(bases, declares, firstOnly, root, visited, queue, k, d, left);
      if |results| > 0 {
        return;
      }
    }
    GoingDone(bases, declares, root, visited, k, d, left);
  }
}
