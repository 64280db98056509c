/** Tarjan's algorithm: one pass that finds every strongly connected component. */
module Tarjan {
  import opened Orders
  import opened Digraph

  /** Targets by source.  Every target is itself a key: the builder of the map sees to that. */
  type Adjacency<V(==)> = m: map<V, set<V>> | forall v :: v in m ==> m[v] <= m.Keys witness map[]

  ghost function AdjRel<T(!new)>(adj: Adjacency<T>): (E: set<(T, T)>)
    ensures forall v, w :: (v, w) in E <==> v in adj && w in adj[v]
  {
    set v, w | v in adj && w in adj[v] :: (v, w)
  }

  /** A strongly connected component: whatever one member shares a cycle with, and no more. */
  ghost predicate IsScc<T(!new)>(E: set<(T, T)>, C: set<T>) {
    && C != {}
    && forall x, y :: x in C ==> (y in C <==> Reaches(E, x, y) && Reaches(E, y, x))
  }

  lemma SccsAgree<T(!new)>(E: set<(T, T)>, C: set<T>, D: set<T>, x: T)
    requires IsScc(E, C) && IsScc(E, D) && x in C && x in D
    ensures C == D
  {
  }

  /** The state of a search.  `gray` are the vertices whose call is still running, `done`
      those popped off the stack, `groups` the components popped so far. */
  datatype Search<V> = Search(
    index: map<V, nat>, low: map<V, nat>, stack: seq<V>, counter: nat,
    gray: set<V>, done: set<V>, groups: set<set<V>>)

  ghost predicate Shape<T(!new)>(s: Search<T>) {
    && s.index.Keys == Elems(s.stack) + s.done
    && Elems(s.stack) !! s.done
    && s.gray <= Elems(s.stack)
    && s.low.Keys == s.index.Keys
    && (forall i :: 0 <= i < |s.stack| ==> s.stack[i] in s.index)
    && (forall i, j :: 0 <= i < j < |s.stack| ==> s.index[s.stack[i]] < s.index[s.stack[j]])
    && (forall v :: v in s.index ==> s.index[v] < s.counter)
  }

  /** No edge leaves a finished vertex for an unvisited one, nor a popped one for the stack. */
  ghost predicate Edges<T(!new)>(E: set<(T, T)>, s: Search<T>) {
    && (forall v, w :: v in s.index && v !in s.gray && (v, w) in E ==> w in s.index)
    && Closed(E, s.done)
  }

  /** The stack is a chain: every vertex reaches all those above it. */
  ghost predicate Chain<T(!new)>(E: set<(T, T)>, s: Search<T>) {
    forall i, j :: 0 <= i <= j < |s.stack| ==> Reaches(E, s.stack[i], s.stack[j])
  }

  ghost predicate AnchoredAt<T(!new)>(E: set<(T, T)>, s: Search<T>, y: T) {
    exists x :: x in s.gray && x in s.index && y in s.index && s.index[x] <= s.index[y] && Reaches(E, y, x)
  }

  /** Every vertex still on the stack reaches a running call at or below it. */
  ghost predicate Anchored<T(!new)>(E: set<(T, T)>, s: Search<T>) {
    forall y {:trigger AnchoredAt(E, s, y)} :: y in s.stack ==> AnchoredAt(E, s, y)
  }

  ghost predicate InGroup<T(!new)>(groups: set<set<T>>, v: T) {
    exists C :: C in groups && v in C
  }

  ghost predicate Grouped<T(!new)>(E: set<(T, T)>, s: Search<T>) {
    && (forall C :: C in s.groups ==> IsScc(E, C) && C <= s.done)
    && (forall v {:trigger InGroup(s.groups, v)} :: v in s.done ==> InGroup(s.groups, v))
  }

  ghost predicate Inv<T(!new)>(E: set<(T, T)>, s: Search<T>) {
    Shape(s) && Edges(E, s) && Chain(E, s) && Anchored(E, s) && Grouped(E, s)
  }

  /** `low` bounds the index at the far end of every edge from `xs` into `ys`. */
  ghost predicate Bounds<T(!new)>(E: set<(T, T)>, xs: seq<T>, ys: seq<T>, index: map<T, nat>, low: nat) {
    forall x, y :: x in xs && y in ys && (x, y) in E ==> y in index && low <= index[y]
  }

  /** `low` is the index of a vertex of `xs` that `v` reaches. */
  ghost predicate Attained<T(!new)>(E: set<(T, T)>, v: T, xs: seq<T>, index: map<T, nat>, low: nat) {
    exists y :: y in xs && y in index && index[y] == low && Reaches(E, v, y)
  }

  /** What a running call may count on after a nested one returns. */
  ghost predicate Grown<T(!new)>(s: Search<T>, t: Search<T>) {
    && t.gray == s.gray && s.stack <= t.stack && s.done <= t.done
    && (forall v :: v in s.index ==> v in t.index && t.index[v] == s.index[v])
    && (forall v :: v in t.index && v !in s.index ==> s.counter <= t.index[v])
    && s.counter <= t.counter
  }

  lemma StackReaches<T(!new)>(E: set<(T, T)>, s: Search<T>, y: T, v: T)
    requires Inv(E, s) && y in s.stack
    requires forall g :: g in s.gray ==> Reaches(E, g, v)
    ensures Reaches(E, y, v)
  {
    assert AnchoredAt(E, s, y);
    var x :| x in s.gray && Reaches(E, y, x);
    ReachesTransitive(E, y, x, v);
  }

  /** Starting a call on an unvisited vertex. */
  ghost function Entered<T(!new)>(s: Search<T>, v: T): Search<T> {
    s.(index := s.index[v := s.counter], low := s.low[v := s.counter], stack := s.stack + [v],
       counter := s.counter + 1, gray := s.gray + {v})
  }

  lemma EnterKeepsInv<T(!new)>(E: set<(T, T)>, s: Search<T>, v: T)
    requires Inv(E, s) && v !in s.index
    requires forall g :: g in s.gray ==> Reaches(E, g, v)
    ensures Inv(E, Entered(s, v))
  {
    var t := Entered(s, v);
    assert Elems(t.stack) == Elems(s.stack) + {v};
    assert Shape(t);
    ReachesSelf(E, v);
    forall i, j | 0 <= i <= j < |t.stack| ensures Reaches(E, t.stack[i], t.stack[j]) {
      if j == |s.stack| && i < j {
        StackReaches(E, s, s.stack[i], v);
      }
    }
    forall y | y in t.stack ensures AnchoredAt(E, t, y) {
      if y in s.stack {
        assert AnchoredAt(E, s, y);
        var x :| x in s.gray && x in s.index && s.index[x] <= s.index[y] && Reaches(E, y, x);
        assert x in t.gray && t.index[x] <= t.index[y];
      } else {
        assert y == v;
      }
    }
  }

  /** Half-way through the call on `v`, entered from state `s`: `low` is attained by a
      vertex `v` reaches, and bounds every edge found so far back into the old stack. */
  ghost predicate InCall<T(!new)>(E: set<(T, T)>, s: Search<T>, v: T, t: Search<T>, low: nat, seen: set<T>) {
    && Inv(E, t) && Grown(Entered(s, v), t)
    && low <= t.index[v] && seen <= t.index.Keys
    && Attained(E, v, t.stack, t.index, low)
    && Bounds(E, t.stack[|s.stack| + 1..], s.stack, t.index, low)
    && (forall y :: y in seen && y in s.stack ==> low <= t.index[y])
  }

  /** The promise of a call on `v`, from state `s` to state `t`. */
  ghost predicate Called<T(!new)>(E: set<(T, T)>, s: Search<T>, v: T, t: Search<T>, low: nat) {
    && Inv(E, t) && Grown(s, t) && v in t.index
    && low <= t.index[v]
    && (v in t.stack ==> Attained(E, v, s.stack, t.index, low))
    && (v !in t.stack ==> low == t.index[v] && t.stack == s.stack)
    && Bounds(E, t.stack[|s.stack|..], s.stack, t.index, low)
  }

  lemma CallStarts<T(!new)>(E: set<(T, T)>, s: Search<T>, v: T)
    requires Inv(E, s) && v !in s.index
    requires forall g :: g in s.gray ==> Reaches(E, g, v)
    ensures InCall(E, s, v, Entered(s, v), s.counter, {})
  {
    EnterKeepsInv(E, s, v);
    ReachesSelf(E, v);
    var t := Entered(s, v);
    assert v == t.stack[|s.stack|];
    assert v in t.stack && t.index[v] == s.counter;
  }

  /** The running calls reach whatever the current vertex has an edge to. */
  lemma GrayReachNext<T(!new)>(E: set<(T, T)>, s: Search<T>, v: T, t: Search<T>, w: T)
    requires Inv(E, t) && Grown(Entered(s, v), t) && (v, w) in E
    requires forall g :: g in s.gray ==> Reaches(E, g, v)
    ensures forall g :: g in t.gray ==> Reaches(E, g, w)
  {
    ReachesEdge(E, v, w);
    forall g | g in t.gray ensures Reaches(E, g, w) {
      if g == v {
      } else {
        ReachesTransitive(E, g, v, w);
      }
    }
  }

  /** An edge to a vertex already visited: `low` takes its index if it is on the stack. */
  lemma SeenNeighbour<T(!new)>(E: set<(T, T)>, s: Search<T>, v: T, t: Search<T>, low: nat, seen: set<T>, w: T)
    requires InCall(E, s, v, t, low, seen) && (v, w) in E && w in t.index
    ensures InCall(E, s, v, t, if w in t.stack && t.index[w] < low then t.index[w] else low, seen + {w})
  {
    ReachesEdge(E, v, w);
    assert s.stack <= t.stack;
    assert w in s.stack ==> w in t.stack;
  }

  /** An edge to a new vertex: the nested call's `low` is taken over if smaller. */
  lemma NewNeighbour<T(!new)>(E: set<(T, T)>, s: Search<T>, v: T, t: Search<T>, low: nat, seen: set<T>,
                     w: T, u: Search<T>, lowW: nat)
    requires InCall(E, s, v, t, low, seen) && (v, w) in E && w !in t.index
    requires Called(E, t, w, u, lowW)
    ensures InCall(E, s, v, u, if lowW < low then lowW else low, seen + {w})
  {
    var low' := if lowW < low then lowW else low;
    GrownTwice(Entered(s, v), t, u);
    NewAttained(E, v, t, low, w, u, lowW);
    BoundsGrow(E, s, v, t, low, w, u, lowW, low');
    SeenStillBounded(E, s, v, t, low, seen, w, u, low');
  }

  lemma GrownTwice<T(!new)>(s: Search<T>, t: Search<T>, u: Search<T>)
    requires Grown(s, t) && Grown(t, u)
    ensures Grown(s, u)
  {
  }

  lemma SeenStillBounded<T(!new)>(E: set<(T, T)>, s: Search<T>, v: T, t: Search<T>, low: nat, seen: set<T>,
                                  w: T, u: Search<T>, low': nat)
    requires Grown(Entered(s, v), t) && Grown(t, u) && Shape(t) && seen <= t.index.Keys && low' <= low
    requires forall y :: y in seen && y in s.stack ==> low <= t.index[y]
    requires w !in t.index && w in u.index
    ensures seen + {w} <= u.index.Keys
    ensures forall y :: y in seen + {w} && y in s.stack ==> low' <= u.index[y]
  {
    OldStackKept(s, v, t);
  }

  lemma NewAttained<T(!new)>(E: set<(T, T)>, v: T, t: Search<T>, low: nat, w: T, u: Search<T>, lowW: nat)
    requires Inv(E, t) && Called(E, t, w, u, lowW) && (v, w) in E && w !in t.index
    requires Attained(E, v, t.stack, t.index, low)
    requires v in t.index && low <= t.index[v]
    ensures Attained(E, v, u.stack, u.index, if lowW < low then lowW else low)
  {
    PrefixMembers(t.stack, u.stack);
    if lowW < low {
      NewIndexLarger(E, t, w, u, lowW, v);
      var y :| y in t.stack && y in u.index && u.index[y] == lowW && Reaches(E, w, y);
      ReachesEdge(E, v, w);
      ReachesTransitive(E, v, w, y);
    } else {
      var y :| y in t.stack && y in t.index && t.index[y] == low && Reaches(E, v, y);
    }
  }

  lemma PrefixMembers<T(!new)>(a: seq<T>, b: seq<T>)
    requires a <= b
    ensures forall y :: y in a ==> y in b
  {
    assert b[..|a|] == a;
  }

  lemma OldStackKept<T(!new)>(s: Search<T>, v: T, t: Search<T>)
    requires Entered(s, v).stack <= t.stack
    ensures v in t.stack && forall y :: y in s.stack ==> y in t.stack
  {
    assert t.stack[..|s.stack| + 1] == Entered(s, v).stack;
    assert t.stack[|s.stack|] == v;
    assert t.stack[..|s.stack|] == s.stack;
  }

  lemma BoundsGrow<T(!new)>(E: set<(T, T)>, s: Search<T>, v: T, t: Search<T>, low: nat, w: T, u: Search<T>,
                            lowW: nat, low': nat)
    requires Grown(Entered(s, v), t) && Grown(t, u)
    requires Bounds(E, t.stack[|s.stack| + 1..], s.stack, t.index, low)
    requires Bounds(E, u.stack[|t.stack|..], t.stack, u.index, lowW)
    requires low' <= low && low' <= lowW
    ensures Bounds(E, u.stack[|s.stack| + 1..], s.stack, u.index, low')
  {
    var n := |s.stack| + 1;
    assert u.stack[n..] == t.stack[n..] + u.stack[|t.stack|..];
    OldStackKept(s, v, t);
  }

  /** A vertex that is popped before its caller resumes has the larger index. */
  lemma NewIndexLarger<T(!new)>(E: set<(T, T)>, t: Search<T>, w: T, u: Search<T>, lowW: nat, v: T)
    requires Inv(E, t) && w !in t.index && Called(E, t, w, u, lowW)
    requires v in t.index && lowW < t.index[v]
    ensures w in u.stack
  {
  }

  /** The call on `v` has looked at every edge out of `v`. */
  ghost predicate Exhausted<T(!new)>(E: set<(T, T)>, s: Search<T>, v: T, t: Search<T>, low: nat, seen: set<T>) {
    && v !in s.index && Inv(E, s)
    && InCall(E, s, v, t, low, seen)
    && forall w :: (v, w) in E ==> w in seen
  }

  lemma Position<T(!new)>(s: Search<T>, v: T, t: Search<T>)
    requires Grown(Entered(s, v), t)
    ensures |s.stack| < |t.stack| && t.stack[|s.stack|] == v && t.stack[..|s.stack|] == s.stack
    ensures v in t.stack && t.gray == s.gray + {v}
    ensures forall y :: y in s.stack ==> y in t.stack
    ensures t.stack[|s.stack|..] == [v] + t.stack[|s.stack| + 1..]
  {
    OldStackKept(s, v, t);
    assert t.stack[..|s.stack| + 1] == Entered(s, v).stack;
    assert t.stack[..|s.stack|] == t.stack[..|s.stack| + 1][..|s.stack|];
  }

  /** A vertex with an index below that of `v` lies in the old part of the stack. */
  lemma BelowIsOld<T(!new)>(s: Search<T>, v: T, t: Search<T>, y: T)
    requires Grown(Entered(s, v), t) && Shape(t) && y in t.stack
    requires v in t.index && y in t.index && t.index[y] < t.index[v]
    ensures y in s.stack
  {
    Position(s, v, t);
    var i :| 0 <= i < |t.stack| && t.stack[i] == y;
    if i < |s.stack| {
      assert s.stack[i] == y;
    }
  }

  /** What the last of the edges out of `v` adds to the bound. */
  lemma BoundsWithTop<T(!new)>(E: set<(T, T)>, s: Search<T>, v: T, t: Search<T>, low: nat, seen: set<T>)
    requires Exhausted(E, s, v, t, low, seen)
    ensures Bounds(E, t.stack[|s.stack|..], s.stack, t.index, low)
  {
    Position(s, v, t);
    forall x, y | x in t.stack[|s.stack|..] && y in s.stack && (x, y) in E ensures y in t.index && low <= t.index[y] {
      if x == v {
        assert y in seen;
      } else {
        assert x in t.stack[|s.stack| + 1..];
      }
    }
  }

  lemma AnchorOf<T(!new)>(E: set<(T, T)>, s: Search<T>, y: T) returns (x: T)
    requires Anchored(E, s) && y in s.stack
    ensures x in s.gray && x in s.index && y in s.index && s.index[x] <= s.index[y] && Reaches(E, y, x)
  {
    assert AnchoredAt(E, s, y);
    x :| x in s.gray && x in s.index && y in s.index && s.index[x] <= s.index[y] && Reaches(E, y, x);
  }

  /** When `v` stops running, what was anchored at `v` is anchored further down. */
  lemma AnchorsMoveDown<T(!new)>(E: set<(T, T)>, t: Search<T>, gray: set<T>, v: T, low: nat)
    requires Anchored(E, t) && t.gray == gray + {v} && v in t.index
    requires Attained(E, v, t.stack, t.index, low) && low < t.index[v]
    ensures Anchored(E, t.(gray := gray))
  {
    var u := t.(gray := gray);
    var y0 :| y0 in t.stack && y0 in t.index && t.index[y0] == low && Reaches(E, v, y0);
    var x0 := AnchorOf(E, t, y0);
    ReachesTransitive(E, v, y0, x0);
    forall y | y in u.stack ensures AnchoredAt(E, u, y) {
      var x := AnchorOf(E, t, y);
      if x == v {
        ReachesTransitive(E, y, v, x0);
        assert x0 in u.gray && u.index[x0] <= u.index[y];
      } else {
        assert x in u.gray;
      }
    }
  }

  lemma AttainedBelow<T(!new)>(E: set<(T, T)>, s: Search<T>, v: T, t: Search<T>, low: nat)
    requires Grown(Entered(s, v), t) && Shape(t) && v in t.index
    requires Attained(E, v, t.stack, t.index, low) && low < t.index[v]
    ensures Attained(E, v, s.stack, t.index, low)
  {
    var y :| y in t.stack && y in t.index && t.index[y] == low && Reaches(E, v, y);
    BelowIsOld(s, v, t, y);
  }

  lemma GrownThrough<T(!new)>(s: Search<T>, v: T, t: Search<T>)
    requires v !in s.index && Grown(Entered(s, v), t)
    ensures Grown(s, t.(gray := s.gray)) && v in t.index && s.index.Keys <= t.index.Keys
    ensures forall y :: y in s.index ==> t.index[y] == s.index[y]
  {
    Position(s, v, t);
    var m := Entered(s, v);
    assert forall y :: y in s.index ==> y in m.index && m.index[y] == s.index[y];
    assert m.index[v] == s.counter;
    assert forall y :: y in m.index ==> y in t.index && t.index[y] == m.index[y];
  }

  lemma SameGroups<T(!new)>(E: set<(T, T)>, t: Search<T>, u: Search<T>)
    requires Grouped(E, t) && u.groups == t.groups && u.done == t.done
    ensures Grouped(E, u)
  {
    forall v | v in u.done ensures InGroup(u.groups, v) {
      assert InGroup(t.groups, v);
    }
  }

  lemma RecolourKeeps<T(!new)>(E: set<(T, T)>, t: Search<T>, gray: set<T>)
    requires Shape(t) && Chain(E, t) && Grouped(E, t) && gray <= t.gray
    ensures Shape(t.(gray := gray)) && Chain(E, t.(gray := gray)) && Grouped(E, t.(gray := gray))
  {
    SameGroups(E, t, t.(gray := gray));
  }

  lemma FinishedEdges<T(!new)>(E: set<(T, T)>, s: Search<T>, v: T, t: Search<T>, seen: set<T>)
    requires Edges(E, t) && t.gray == s.gray + {v}
    requires seen <= t.index.Keys && forall w :: (v, w) in E ==> w in seen
    ensures Edges(E, t.(gray := s.gray))
  {
    var u := t.(gray := s.gray);
    forall x, w | x in u.index && x !in u.gray && (x, w) in E ensures w in u.index {
      assert x == v ==> w in seen;
    }
  }

  /** `v` stays on the stack: its call ends, the vertex waits for one below it. */
  lemma EndWaiting<T(!new)>(E: set<(T, T)>, s: Search<T>, v: T, t: Search<T>, low: nat, seen: set<T>)
    requires Exhausted(E, s, v, t, low, seen) && low < t.index[v]
    ensures Called(E, s, v, t.(gray := s.gray), low)
  {
    Position(s, v, t);
    BoundsWithTop(E, s, v, t, low, seen);
    AnchorsMoveDown(E, t, s.gray, v, low);
    AttainedBelow(E, s, v, t, low);
    GrownThrough(s, v, t);
    var u := t.(gray := s.gray);
    FinishedEdges(E, s, v, t, seen);
    RecolourKeeps(E, t, s.gray);
  }

  ghost function Popped<T(!new)>(s: Search<T>, t: Search<T>): Search<T>
    requires |s.stack| <= |t.stack|
  {
    var C := Elems(t.stack[|s.stack|..]);
    t.(gray := s.gray, stack := s.stack, done := t.done + C, groups := t.groups + {C})
  }

  /** Nothing above `v` on the stack has an edge to a place below it or outside. */
  lemma TopIsClosed<T(!new)>(E: set<(T, T)>, s: Search<T>, v: T, t: Search<T>, low: nat, seen: set<T>)
    requires Exhausted(E, s, v, t, low, seen) && low == t.index[v]
    ensures Closed(E, t.done + Elems(t.stack[|s.stack|..]))
  {
    Position(s, v, t);
    BoundsWithTop(E, s, v, t, low, seen);
    var top := t.stack[|s.stack|..];
    forall e | e in E && e.0 in t.done + Elems(top) ensures e.1 in t.done + Elems(top) {
      var x, y := e.0, e.1;
      assert e == (x, y);
      if x in top {
        TopIsBlack(s, v, t, x);
        assert x == v ==> y in seen;
        assert y in t.index;
        if y in t.stack && y !in top {
          OldBelow(s, v, t, y);
        }
      }
    }
  }

  lemma TopIsBlack<T(!new)>(s: Search<T>, v: T, t: Search<T>, x: T)
    requires Grown(Entered(s, v), t) && Shape(s) && Shape(t) && v !in s.index && x in t.stack[|s.stack|..]
    ensures x in t.index && (x == v || x !in t.gray) && x !in s.stack
  {
    Position(s, v, t);
    var i :| |s.stack| <= i < |t.stack| && t.stack[i] == x;
    forall j | 0 <= j < |s.stack| ensures s.stack[j] != x {
      assert t.stack[j] == s.stack[j];
      assert t.index[t.stack[j]] < t.index[t.stack[i]];
    }
  }

  lemma OldBelow<T(!new)>(s: Search<T>, v: T, t: Search<T>, y: T)
    requires Grown(Entered(s, v), t) && Shape(t) && y in t.stack && y !in t.stack[|s.stack|..]
    ensures y in s.stack && y in t.index && v in t.index && t.index[y] < t.index[v]
  {
    Position(s, v, t);
    var i :| 0 <= i < |t.stack| && t.stack[i] == y;
    forall k | |s.stack| <= k < |t.stack| ensures t.stack[k] in t.stack[|s.stack|..] {
      assert t.stack[|s.stack|..][k - |s.stack|] == t.stack[k];
    }
    assert s.stack[i] == y;
  }

  /** The vertices from `v` up are one component. */
  lemma TopIsScc<T(!new)>(E: set<(T, T)>, s: Search<T>, v: T, t: Search<T>, low: nat, seen: set<T>)
    requires Exhausted(E, s, v, t, low, seen) && low == t.index[v]
    ensures IsScc(E, Elems(t.stack[|s.stack|..]))
  {
    Position(s, v, t);
    TopIsClosed(E, s, v, t, low, seen);
    var top := t.stack[|s.stack|..];
    var C := Elems(top);
    assert top[0] == v;
    assert v in C;
    forall x | x in C ensures Reaches(E, v, x) && Reaches(E, x, v) {
      TopReachesRoot(E, s, v, t, x);
    }
    forall x, y | x in C ensures y in C <==> Reaches(E, x, y) && Reaches(E, y, x) {
      assert x in t.stack && x !in t.done;
      if y in C {
        ReachesTransitive(E, x, v, y);
        ReachesTransitive(E, y, v, x);
      } else if Reaches(E, x, y) && Reaches(E, y, x) {
        ClosedReaches(E, t.done + C, x, y);
        ClosedReaches(E, t.done, y, x);
      }
    }
  }

  lemma TopReachesRoot<T(!new)>(E: set<(T, T)>, s: Search<T>, v: T, t: Search<T>, x: T)
    requires Shape(t) && Chain(E, t) && Anchored(E, t) && Grown(Entered(s, v), t) && Shape(s)
    requires x in t.stack[|s.stack|..]
    ensures Reaches(E, v, x) && Reaches(E, x, v)
  {
    Position(s, v, t);
    var n := |s.stack|;
    var i :| n <= i < |t.stack| && t.stack[i] == x;
    assert Reaches(E, t.stack[n], t.stack[i]);
    var g := AnchorOf(E, t, x);
    if g != v {
      GrayReachesRoot(E, s, v, t, g);
      ReachesTransitive(E, x, g, v);
    }
  }

  lemma GrayReachesRoot<T(!new)>(E: set<(T, T)>, s: Search<T>, v: T, t: Search<T>, g: T)
    requires Chain(E, t) && Grown(Entered(s, v), t) && Shape(s) && g in s.gray
    ensures Reaches(E, g, v)
  {
    Position(s, v, t);
    var j :| 0 <= j < |s.stack| && s.stack[j] == g;
    assert t.stack[j] == g;
    assert Reaches(E, t.stack[j], t.stack[|s.stack|]);
  }

  /** Dropping the top of the stack leaves the rest anchored below `v`. */
  lemma AnchorsAfterPop<T(!new)>(E: set<(T, T)>, s: Search<T>, v: T, t: Search<T>)
    requires Grown(Entered(s, v), t) && Shape(t) && Anchored(E, t) && v in t.index
    ensures Anchored(E, Popped(s, t))
  {
    Position(s, v, t);
    var u := Popped(s, t);
    forall y | y in s.stack ensures AnchoredAt(E, u, y) {
      var x := AnchorOf(E, t, y);
      var i :| 0 <= i < |s.stack| && s.stack[i] == y;
      assert t.stack[i] == y && t.stack[|s.stack|] == v;
      assert t.index[t.stack[i]] < t.index[t.stack[|s.stack|]];
      assert x in u.gray;
    }
  }

  lemma StackSplits<T(!new)>(s: Search<T>, v: T, t: Search<T>)
    requires Grown(Entered(s, v), t) && Shape(s) && Shape(t) && v !in s.index
    ensures |s.stack| < |t.stack|
    ensures Elems(t.stack) == Elems(s.stack) + Elems(t.stack[|s.stack|..])
    ensures Elems(s.stack) !! Elems(t.stack[|s.stack|..])
  {
    Position(s, v, t);
    var top := t.stack[|s.stack|..];
    assert t.stack == s.stack + top;
    forall x | x in top ensures x !in s.stack { TopIsBlack(s, v, t, x); }
  }

  lemma PrefixOrdered<T(!new)>(stack: seq<T>, t: Search<T>)
    requires Shape(t) && stack <= t.stack
    ensures forall i :: 0 <= i < |stack| ==> stack[i] in t.index
    ensures forall i, j :: 0 <= i < j < |stack| ==> t.index[stack[i]] < t.index[stack[j]]
  {
    assert forall i :: 0 <= i < |stack| ==> stack[i] == t.stack[i];
  }

  lemma ShapeAfterPop<T(!new)>(s: Search<T>, v: T, t: Search<T>)
    requires Grown(Entered(s, v), t) && Shape(s) && Shape(t) && v !in s.index
    ensures Shape(Popped(s, t))
  {
    Position(s, v, t);
    StackSplits(s, v, t);
    PrefixOrdered(s.stack, t);
    assert s.gray <= Elems(Popped(s, t).stack);
  }

  lemma GroupsAfterPop<T(!new)>(E: set<(T, T)>, s: Search<T>, t: Search<T>)
    requires |s.stack| <= |t.stack| && Grouped(E, t) && IsScc(E, Elems(t.stack[|s.stack|..]))
    ensures Grouped(E, Popped(s, t))
  {
    var u, C := Popped(s, t), Elems(t.stack[|s.stack|..]);
    forall x | x in u.done ensures InGroup(u.groups, x) {
      if x in C {
        assert C in u.groups;
      } else {
        assert InGroup(t.groups, x);
        var D :| D in t.groups && x in D;
        assert D in u.groups;
      }
    }
  }

  /** `v` is the root of its component: everything from `v` up is popped. */
  lemma EndPopped<T(!new)>(E: set<(T, T)>, s: Search<T>, v: T, t: Search<T>, low: nat, seen: set<T>)
    requires Exhausted(E, s, v, t, low, seen) && low == t.index[v] && |s.stack| <= |t.stack|
    ensures Called(E, s, v, Popped(s, t), low)
  {
    Position(s, v, t);
    TopIsClosed(E, s, v, t, low, seen);
    TopIsScc(E, s, v, t, low, seen);
    GroupsAfterPop(E, s, t);
    ShapeAfterPop(s, v, t);
    AnchorsAfterPop(E, s, v, t);
    GrownThrough(s, v, t);
    var u := Popped(s, t);
    FinishedEdges(E, s, v, t, seen);
    assert Edges(E, u) && Chain(E, u);
    assert v in Elems(t.stack[|s.stack|..]);
  }

  /** A call as a trace.  It begins as the first call of the search, after an earlier
      outermost call returned, or inside a call that follows an edge; then it follows
      edges, to vertices already visited or by a nested call that has returned. */
  datatype Run<V> =
    | First(v: V)
    | Later(v: V, before: Run<V>)
    | Inside(v: V, outer: Run<V>)
    | Skip(prev: Run<V>, w: V)
    | Nest(prev: Run<V>, inner: Run<V>)

  ghost function Root<T>(r: Run<T>): T {
    match r
    case First(v) => v
    case Later(v, _) => v
    case Inside(v, _) => v
    case Skip(p, _) => Root(p)
    case Nest(p, _) => Root(p)
  }

  ghost function Seen<T>(r: Run<T>): set<T> {
    match r
    case Skip(p, w) => Seen(p) + {w}
    case Nest(p, i) => Seen(p) + {Root(i)}
    case _ => {}
  }

  ghost predicate Outermost<T>(r: Run<T>) {
    match r
    case First(_) => true
    case Later(_, _) => true
    case Inside(_, _) => false
    case Skip(p, _) => Outermost(p)
    case Nest(p, _) => Outermost(p)
  }

  ghost function Nothing<T>(): Search<T> {
    Search(map[], map[], [], 0, {}, {}, {})
  }

  ghost function Lowered<T>(s: Search<T>, v: T, x: nat): Search<T> {
    if v in s.low && x < s.low[v] then s.(low := s.low[v := x]) else s
  }

  /** The state the call was entered in. */
  ghost function Entry<T(!new)>(r: Run<T>): Search<T>
    decreases r, 0
  {
    match r
    case First(_) => Nothing()
    case Later(_, b) => Exit(b)
    case Inside(_, o) => After(o)
    case Skip(p, _) => Entry(p)
    case Nest(p, _) => Entry(p)
  }

  /** The state once the edges in the trace have been followed. */
  ghost function After<T(!new)>(r: Run<T>): Search<T>
    decreases r, 1
  {
    match r
    case Skip(p, w) =>
      var t := After(p);
      if w in t.stack && w in t.index then Lowered(t, Root(p), t.index[w]) else t
    case Nest(p, i) =>
      var u := Exit(i);
      if Root(i) in u.low then Lowered(u, Root(p), u.low[Root(i)]) else u
    case _ => Entered(Entry(r), Root(r))
  }

  /** The state when the call returns. */
  ghost function Exit<T(!new)>(r: Run<T>): Search<T>
    decreases r, 2
  {
    var s, t, v := Entry(r), After(r), Root(r);
    if v in t.low && v in t.index && t.low[v] == t.index[v] && |s.stack| <= |t.stack|
    then Popped(s, t) else t.(gray := s.gray)
  }

  ghost predicate Whole<T(!new)>(E: set<(T, T)>, r: Run<T>) {
    forall w :: (Root(r), w) in E ==> w in Seen(r)
  }

  /** The trace only follows edges of the graph, and only enters unvisited vertices. */
  ghost predicate Traces<T(!new)>(E: set<(T, T)>, r: Run<T>) {
    match r
    case First(_) => true
    case Later(v, b) => Traces(E, b) && Whole(E, b) && Outermost(b) && v !in Exit(b).index
    case Inside(v, o) => Traces(E, o) && (Root(o), v) in E && v !in After(o).index
    case Skip(p, w) => Traces(E, p) && (Root(p), w) in E && w in After(p).index
    case Nest(p, i) =>
      && Traces(E, p) && Traces(E, i) && Whole(E, i)
      && (Root(p), Root(i)) in E && Entry(i) == After(p)
  }

  ghost predicate Ready<T(!new)>(E: set<(T, T)>, s: Search<T>, v: T) {
    Inv(E, s) && v !in s.index && forall g :: g in s.gray ==> Reaches(E, g, v)
  }

  ghost predicate KeepsLow<T>(s: Search<T>, t: Search<T>) {
    forall u :: u in s.low ==> u in t.low && t.low[u] == s.low[u]
  }

  lemma SameAnchors<T(!new)>(E: set<(T, T)>, t: Search<T>, u: Search<T>)
    requires Anchored(E, t) && u.stack == t.stack && u.index == t.index && u.gray == t.gray
    ensures Anchored(E, u)
  {
    forall y | y in u.stack ensures AnchoredAt(E, u, y) {
      var x := AnchorOf(E, t, y);
    }
  }

  lemma LowIrrelevant<T(!new)>(E: set<(T, T)>, s: Search<T>, v: T, t: Search<T>, low: nat, seen: set<T>,
                               m: map<T, nat>)
    requires InCall(E, s, v, t, low, seen) && m.Keys == t.low.Keys
    ensures InCall(E, s, v, t.(low := m), low, seen)
  {
    var u := t.(low := m);
    SameGroups(E, t, u);
    SameAnchors(E, t, u);
    assert Shape(u) && Chain(E, u) && Edges(E, u);
  }

  /** What is known at any point of a call: `InCall`, and older `low` entries untouched. */
  ghost predicate Sound<T(!new)>(E: set<(T, T)>, s: Search<T>, v: T, t: Search<T>, seen: set<T>) {
    v in t.low && v !in s.low && InCall(E, s, v, t, t.low[v], seen) && KeepsLow(s, t)
  }

  /** Taking a smaller `low`, or not, keeps the search inside the call on `v`. */
  lemma LoweredInCall<T(!new)>(E: set<(T, T)>, s: Search<T>, v: T, t: Search<T>, x: nat, seen: set<T>)
    requires v in t.low && InCall(E, s, v, t, if x < t.low[v] then x else t.low[v], seen)
    ensures v in Lowered(t, v, x).low && InCall(E, s, v, Lowered(t, v, x), Lowered(t, v, x).low[v], seen)
  {
    var u := Lowered(t, v, x);
    LowIrrelevant(E, s, v, t, u.low[v], seen, u.low);
  }

  lemma LoweredKeepsOld<T(!new)>(s: Search<T>, t: Search<T>, v: T, x: nat)
    requires KeepsLow(s, t) && v !in s.low
    ensures KeepsLow(s, Lowered(t, v, x))
  {
  }

  lemma SeenSound<T(!new)>(E: set<(T, T)>, s: Search<T>, v: T, t: Search<T>, seen: set<T>, w: T)
    requires Sound(E, s, v, t, seen) && (v, w) in E && w in t.index
    ensures Sound(E, s, v, if w in t.stack then Lowered(t, v, t.index[w]) else t, seen + {w})
  {
    SeenNeighbour(E, s, v, t, t.low[v], seen, w);
    if w in t.stack {
      LoweredInCall(E, s, v, t, t.index[w], seen + {w});
      LoweredKeepsOld(s, t, v, t.index[w]);
    }
  }

  lemma NestedSound<T(!new)>(E: set<(T, T)>, s: Search<T>, v: T, t: Search<T>, seen: set<T>, w: T, u: Search<T>)
    requires Sound(E, s, v, t, seen) && (v, w) in E && w !in t.index
    requires w in u.low && KeepsLow(t, u) && Called(E, t, w, u, u.low[w])
    ensures Sound(E, s, v, Lowered(u, v, u.low[w]), seen + {w})
  {
    assert v in u.low && u.low[v] == t.low[v];
    assert KeepsLow(s, u);
    NewNeighbour(E, s, v, t, t.low[v], seen, w, u, u.low[w]);
    LoweredInCall(E, s, v, u, u.low[w], seen + {w});
    LoweredKeepsOld(s, u, v, u.low[w]);
  }

  lemma EndSound<T(!new)>(E: set<(T, T)>, s: Search<T>, v: T, t: Search<T>, seen: set<T>)
    requires Ready(E, s, v) && Sound(E, s, v, t, seen) && forall w :: (v, w) in E ==> w in seen
    ensures v in t.index && |s.stack| <= |t.stack|
    ensures var u := if t.low[v] == t.index[v] then Popped(s, t) else t.(gray := s.gray);
      v in u.low && Called(E, s, v, u, u.low[v]) && KeepsLow(s, u)
  {
    Position(s, v, t);
    if t.low[v] == t.index[v] {
      EndPopped(E, s, v, t, t.low[v], seen);
    } else {
      EndWaiting(E, s, v, t, t.low[v], seen);
    }
  }

  /** A call is only ever entered in a state where it may start. */
  lemma {:induction false} EntryReady<T(!new)>(E: set<(T, T)>, r: Run<T>)
    requires Traces(E, r)
    ensures Ready(E, Entry(r), Root(r))
    ensures Outermost(r) ==> Entry(r).gray == {}
    decreases r, 0
  {
    match r
    case First(v) =>
      assert Inv(E, Nothing<T>());
    case Later(v, b) =>
      EntryReady(E, b);
      ExitSound(E, b);
    case Inside(v, o) =>
      EntryReady(E, o);
      RunSound(E, o);
      GrayReachNext(E, Entry(o), Root(o), After(o), v);
    case Skip(p, _) =>
      EntryReady(E, p);
    case Nest(p, _) =>
      EntryReady(E, p);
  }

  /** Every trace keeps the invariant, at every point of the search. */
  lemma {:induction false} RunSound<T(!new)>(E: set<(T, T)>, r: Run<T>)
    requires Traces(E, r)
    ensures Sound(E, Entry(r), Root(r), After(r), Seen(r))
    decreases r, 1
  {
    EntryReady(E, r);
    match r
    case Skip(p, w) =>
      RunSound(E, p);
      SeenSound(E, Entry(p), Root(p), After(p), Seen(p), w);
    case Nest(p, i) =>
      RunSound(E, p);
      EntryReady(E, i);
      ExitSound(E, i);
      NestedSound(E, Entry(p), Root(p), After(p), Seen(p), Root(i), Exit(i));
    case _ =>
      CallStarts(E, Entry(r), Root(r));
  }

  lemma {:induction false} ExitSound<T(!new)>(E: set<(T, T)>, r: Run<T>)
    requires Traces(E, r) && Whole(E, r)
    ensures Root(r) in Exit(r).low
    ensures Called(E, Entry(r), Root(r), Exit(r), Exit(r).low[Root(r)])
    ensures KeepsLow(Entry(r), Exit(r))
    decreases r, 2
  {
    EntryReady(E, r);
    RunSound(E, r);
    EndSound(E, Entry(r), Root(r), After(r), Seen(r));
  }

  /** Where the outermost loop stands: before any call, or after one returned. */
  datatype Progress<V> = Idle | Returned(run: Run<V>)

  ghost function Reached<T(!new)>(p: Progress<T>): Search<T> {
    if p.Idle? then Nothing() else Exit(p.run)
  }

  ghost predicate Progressed<T(!new)>(E: set<(T, T)>, p: Progress<T>) {
    p.Idle? || (Traces(E, p.run) && Whole(E, p.run) && Outermost(p.run))
  }

  ghost function Next<T>(p: Progress<T>, v: T): Run<T> {
    if p.Idle? then First(v) else Later(v, p.run)
  }

  lemma NextTraces<T(!new)>(E: set<(T, T)>, p: Progress<T>, v: T)
    requires Progressed(E, p) && v !in Reached(p).index
    ensures Traces(E, Next(p, v)) && Outermost(Next(p, v))
    ensures Root(Next(p, v)) == v && Entry(Next(p, v)) == Reached(p)
    ensures After(Next(p, v)) == Entered(Reached(p), v)
  {
  }

  /** Between outermost calls the stack is empty and what was visited is in components. */
  lemma Quiet<T(!new)>(E: set<(T, T)>, p: Progress<T>)
    requires Progressed(E, p)
    ensures Reached(p).stack == [] && Reached(p).done == Reached(p).index.Keys
    ensures forall C :: C in Reached(p).groups ==> IsScc(E, C)
    ensures forall v :: v in Reached(p).index ==> InGroup(Reached(p).groups, v)
  {
    var s := Reached(p);
    if p.Returned? {
      EntryReady(E, p.run);
      ExitSound(E, p.run);
      assert Inv(E, s) && s.gray == {};
      if s.stack != [] {
        var x := AnchorOf(E, s, s.stack[0]);
      }
    }
  }
}
