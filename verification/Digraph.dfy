/** Directed graphs as finite edge relations: walks, reachability and distance. */
module Digraph {

  ghost predicate Step<T(!new)>(E: set<(T, T)>, p: seq<T>, i: nat)
    requires i + 1 < |p|
  {
    (p[i], p[i + 1]) in E
  }

  ghost predicate Walk<T(!new)>(E: set<(T, T)>, p: seq<T>) {
    |p| > 0 && forall i: nat :: i + 1 < |p| ==> Step(E, p, i)
  }

  /** A walk of exactly `|p| - 1` edges from `x` to `y`. */
  ghost predicate WalkFrom<T(!new)>(E: set<(T, T)>, x: T, y: T, p: seq<T>) {
    Walk(E, p) && p[0] == x && p[|p| - 1] == y
  }

  ghost predicate Reaches<T(!new)>(E: set<(T, T)>, x: T, y: T) {
    exists p :: WalkFrom(E, x, y, p)
  }

  /** There is a walk of at most `d` edges from `x` to `y`. */
  ghost predicate Within<T(!new)>(E: set<(T, T)>, x: T, y: T, d: nat) {
    exists p :: WalkFrom(E, x, y, p) && |p| - 1 <= d
  }

  /** `d` is the length of a shortest walk from `x` to `y`. */
  ghost predicate Distance<T(!new)>(E: set<(T, T)>, x: T, y: T, d: nat) {
    Within(E, x, y, d) && (d > 0 ==> !Within(E, x, y, d - 1))
  }

  ghost predicate Closed<T(!new)>(E: set<(T, T)>, S: set<T>) {
    forall e :: e in E && e.0 in S ==> e.1 in S
  }

  ghost function Flip<T(!new)>(E: set<(T, T)>): (F: set<(T, T)>)
    ensures forall x, y :: (x, y) in F <==> (y, x) in E
  {
    set e | e in E :: (e.1, e.0)
  }

  lemma WalkTail<T(!new)>(E: set<(T, T)>, p: seq<T>, k: nat)
    requires Walk(E, p) && k < |p|
    ensures Walk(E, p[k..])
  {
    forall i: nat | i + 1 < |p[k..]| ensures Step(E, p[k..], i) {
      assert Step(E, p, k + i);
    }
  }

  lemma WalkInit<T(!new)>(E: set<(T, T)>, p: seq<T>, k: nat)
    requires Walk(E, p) && 0 < k <= |p|
    ensures Walk(E, p[..k])
  {
    forall i: nat | i + 1 < k ensures Step(E, p[..k], i) {
      assert Step(E, p, i);
    }
  }

  lemma WalkSnoc<T(!new)>(E: set<(T, T)>, p: seq<T>, z: T)
    requires Walk(E, p) && (p[|p| - 1], z) in E
    ensures Walk(E, p + [z])
  {
    forall i: nat | i + 1 < |p + [z]| ensures Step(E, p + [z], i) {
      if i + 1 < |p| {
        assert Step(E, p, i);
      }
    }
  }

  lemma ReachesSelf<T(!new)>(E: set<(T, T)>, x: T)
    ensures Reaches(E, x, x)
  {
    assert WalkFrom(E, x, x, [x]);
  }

  lemma ReachesEdge<T(!new)>(E: set<(T, T)>, x: T, y: T)
    requires (x, y) in E
    ensures Reaches(E, x, y)
  {
    WalkSnoc(E, [x], y);
    assert WalkFrom(E, x, y, [x, y]);
  }

  lemma ReachesTransitive<T(!new)>(E: set<(T, T)>, x: T, y: T, z: T)
    requires Reaches(E, x, y) && Reaches(E, y, z)
    ensures Reaches(E, x, z)
  {
    var p :| WalkFrom(E, x, y, p);
    var q :| WalkFrom(E, y, z, q);
    JoinWalks(E, x, y, z, p, q);
  }

  lemma JoinWalks<T(!new)>(E: set<(T, T)>, x: T, y: T, z: T, p: seq<T>, q: seq<T>)
    requires WalkFrom(E, x, y, p) && WalkFrom(E, y, z, q)
    ensures WalkFrom(E, x, z, p + q[1..])
  {
    var r := p + q[1..];
    forall i: nat | i + 1 < |r| ensures Step(E, r, i) {
      if i + 1 < |p| {
        assert Step(E, p, i);
      } else {
        var k := i + 1 - |p|;
        assert Step(E, q, k);
        assert r[i] == q[k] && r[i + 1] == q[k + 1];
      }
    }
  }

  /** A set closed under the edges contains everything reachable from a member. */
  lemma {:induction false} ClosedWalk<T(!new)>(E: set<(T, T)>, S: set<T>, p: seq<T>)
    requires Closed(E, S) && Walk(E, p) && p[0] in S
    ensures p[|p| - 1] in S
    decreases |p|
  {
    if |p| > 1 {
      assert Step(E, p, 0);
      WalkTail(E, p, 1);
      ClosedWalk(E, S, p[1..]);
    }
  }

  lemma ClosedReaches<T(!new)>(E: set<(T, T)>, S: set<T>, x: T, y: T)
    requires Closed(E, S) && x in S && Reaches(E, x, y)
    ensures y in S
  {
    var p :| WalkFrom(E, x, y, p);
    ClosedWalk(E, S, p);
  }

  lemma WithinStep<T(!new)>(E: set<(T, T)>, x: T, y: T, z: T, d: nat)
    requires Within(E, x, y, d) && (y, z) in E
    ensures Within(E, x, z, d + 1)
  {
    var p :| WalkFrom(E, x, y, p) && |p| - 1 <= d;
    WalkSnoc(E, p, z);
    assert WalkFrom(E, x, z, p + [z]);
  }

  /** The last edge of a walk of `1..d + 1` edges. */
  lemma WithinSplit<T(!new)>(E: set<(T, T)>, x: T, z: T, d: nat) returns (y: T)
    requires Within(E, x, z, d + 1) && x != z
    ensures Within(E, x, y, d) && (y, z) in E
  {
    var p :| WalkFrom(E, x, z, p) && |p| - 1 <= d + 1;
    assert |p| > 1;
    y := p[|p| - 2];
    assert Step(E, p, |p| - 2);
    WalkInit(E, p, |p| - 1);
    assert WalkFrom(E, x, y, p[..|p| - 1]);
  }

  lemma WithinZero<T(!new)>(E: set<(T, T)>, x: T, y: T)
    ensures Within(E, x, y, 0) <==> x == y
  {
    if x == y {
      assert WalkFrom(E, x, y, [x]);
    }
  }

  lemma WithinMonotone<T(!new)>(E: set<(T, T)>, x: T, y: T, d: nat, d': nat)
    requires Within(E, x, y, d) && d <= d'
    ensures Within(E, x, y, d')
  {
    var p :| WalkFrom(E, x, y, p) && |p| - 1 <= d;
    assert |p| - 1 <= d';
  }

  lemma DistanceUnique<T(!new)>(E: set<(T, T)>, x: T, y: T, d: nat, d': nat)
    requires Distance(E, x, y, d) && Distance(E, x, y, d')
    ensures d == d'
  {
  }

  ghost function Reversed<T(!new)>(p: seq<T>): seq<T> {
    seq(|p|, i requires 0 <= i < |p| => p[|p| - 1 - i])
  }

  lemma FlipWalk<T(!new)>(E: set<(T, T)>, x: T, y: T, p: seq<T>)
    requires WalkFrom(E, x, y, p)
    ensures WalkFrom(Flip(E), y, x, Reversed(p))
  {
    var q := Reversed(p);
    forall i: nat | i + 1 < |q| ensures Step(Flip(E), q, i) {
      var k := |p| - 2 - i;
      assert Step(E, p, k);
      assert q[i] == p[k + 1] && q[i + 1] == p[k];
    }
  }

  lemma FlipWithin<T(!new)>(E: set<(T, T)>, x: T, y: T, d: nat)
    ensures Within(E, x, y, d) <==> Within(Flip(E), y, x, d)
  {
    if Within(E, x, y, d) {
      var p :| WalkFrom(E, x, y, p) && |p| - 1 <= d;
      FlipWalk(E, x, y, p);
    }
    if Within(Flip(E), y, x, d) {
      var p :| WalkFrom(Flip(E), y, x, p) && |p| - 1 <= d;
      FlipWalk(Flip(E), y, x, p);
      assert Flip(Flip(E)) == E;
    }
  }

  /** Distances are the same read along the edges or against them. */
  lemma FlipDistance<T(!new)>(E: set<(T, T)>, x: T, y: T, d: nat)
    ensures Distance(E, x, y, d) <==> Distance(Flip(E), y, x, d)
  {
    FlipWithin(E, x, y, d);
    if d > 0 {
      FlipWithin(E, x, y, d - 1);
    }
  }
}
