/** Orders on keys and the contract of the library sort.

    `sort.Slice` and `sort.Strings` are calls into Go's standard library.  What the
    callers rely on is that the result is a sorted permutation; nothing is promised
    about elements the comparator cannot tell apart.  `SortSlice` has exactly that
    contract, and `SortedUnique` says when it pins the result down completely. */
module Orders {

  ghost predicate StrictWeak<T(!new)>(less: (T, T) -> bool) {
    && (forall x :: !less(x, x))
    && (forall x, y, z :: less(x, y) && less(y, z) ==> less(x, z))
    && (forall x, y, z :: less(x, z) ==> less(x, y) || less(y, z))
  }

  /** A strict weak order that tells any two different elements of `s` apart. */
  ghost predicate Separates<T>(less: (T, T) -> bool, s: seq<T>) {
    forall x, y :: x in s && y in s && x != y ==> less(x, y) || less(y, x)
  }

  ghost predicate Sorted<T>(s: seq<T>, less: (T, T) -> bool) {
    forall i, j :: 0 <= i < j < |s| ==> !less(s[j], s[i])
  }

  ghost predicate StrictlySorted<T>(s: seq<T>, less: (T, T) -> bool) {
    forall i, j :: 0 <= i < j < |s| ==> less(s[i], s[j])
  }

  ghost predicate Distinct<T>(s: seq<T>) {
    forall i, j :: 0 <= i < j < |s| ==> s[i] != s[j]
  }

  ghost function Elems<T>(s: seq<T>): set<T> {
    set x | x in s
  }

  lemma SplicedSorted<T(!new)>(x: T, s: seq<T>, i: nat, less: (T, T) -> bool)
    requires StrictWeak(less) && Sorted(s, less) && i <= |s|
    requires i > 0 ==> !less(x, s[i - 1])
    requires forall k :: i <= k < |s| ==> less(x, s[k])
    ensures Sorted(s[..i] + [x] + s[i..], less)
  {
    forall k | 0 <= k < i ensures !less(x, s[k]) {
      var y, z := s[i - 1], s[k];
      assert less(x, z) ==> less(x, y) || less(y, z);
    }
    forall k | i <= k < |s| ensures !less(s[k], x) {
      var z := s[k];
      assert less(z, x) && less(x, z) ==> less(z, z);
    }
  }

  /** Insertion into a sorted sequence, after every element that is not greater. */
  method Insert<T(!new)>(x: T, s: seq<T>, less: (T, T) -> bool) returns (r: seq<T>)
    requires StrictWeak(less) && Sorted(s, less)
    ensures Sorted(r, less)
    ensures multiset(r) == multiset(s) + multiset{x}
  {
    var i := |s|;
    while i > 0 && less(x, s[i - 1])
      invariant 0 <= i <= |s|
      invariant forall k :: i <= k < |s| ==> less(x, s[k])
    {
      i := i - 1;
    }
    r := s[..i] + [x] + s[i..];
    assert s == s[..i] + s[i..];
    SplicedSorted(x, s, i, less);
  }

  /** `sort.Slice`: some sorted permutation of the argument. */
  method SortSlice<T(!new)>(s: seq<T>, less: (T, T) -> bool) returns (r: seq<T>)
    requires StrictWeak(less)
    ensures Sorted(r, less)
    ensures multiset(r) == multiset(s)
  {
    r := [];
    for k := 0 to |s|
      invariant Sorted(r, less)
      invariant multiset(r) == multiset(s[..k])
    {
      r := Insert(s[k], r, less);
      assert s[..k + 1] == s[..k] + [s[k]];
    }
    assert s[..|s|] == s;
  }

  ghost function Placed<T>(x: T, s: seq<T>, less: (T, T) -> bool): (r: seq<T>)
    ensures multiset(r) == multiset(s) + multiset{x}
  {
    if s == [] || !less(x, s[|s| - 1]) then s + [x]
    else
      assert s == s[..|s| - 1] + [s[|s| - 1]];
      Placed(x, s[..|s| - 1], less) + [s[|s| - 1]]
  }

  /** The elements of `s` in order. */
  ghost function Arranged<T>(s: seq<T>, less: (T, T) -> bool): (r: seq<T>)
    ensures multiset(r) == multiset(s)
  {
    if s == [] then []
    else
      assert s == s[..|s| - 1] + [s[|s| - 1]];
      Placed(s[|s| - 1], Arranged(s[..|s| - 1], less), less)
  }

  lemma {:induction false} PlacedSorted<T(!new)>(x: T, s: seq<T>, less: (T, T) -> bool)
    requires StrictWeak(less) && Sorted(s, less)
    ensures Sorted(Placed(x, s, less), less)
  {
    if s == [] {
    } else if less(x, s[|s| - 1]) {
      var init, last := s[..|s| - 1], s[|s| - 1];
      PlacedSorted(x, init, less);
      var p := Placed(x, init, less);
      forall i | 0 <= i < |p| ensures !less(last, p[i]) {
        assert p[i] in multiset(p);
        assert p[i] == x || p[i] in init;
      }
    } else {
      forall i | 0 <= i < |s| ensures !less(x, s[i]) {
        var y, z := s[|s| - 1], s[i];
        assert less(x, z) ==> less(x, y) || less(y, z);
      }
    }
  }

  lemma {:induction false} ArrangedSorted<T(!new)>(s: seq<T>, less: (T, T) -> bool)
    requires StrictWeak(less)
    ensures Sorted(Arranged(s, less), less)
  {
    if s != [] {
      ArrangedSorted(s[..|s| - 1], less);
      PlacedSorted(s[|s| - 1], Arranged(s[..|s| - 1], less), less);
    }
  }

  /** The keys of the elements that pass, in order. */
  ghost function Chosen<T, K>(list: seq<T>, keep: T -> bool, key: T -> K): seq<K> {
    if list == [] then []
    else
      var last := list[|list| - 1];
      Chosen(list[..|list| - 1], keep, key) + if keep(last) then [key(last)] else []
  }

  lemma {:induction false} ChosenConcat<T, K>(a: seq<T>, b: seq<T>, keep: T -> bool, key: T -> K)
    ensures Chosen(a + b, keep, key) == Chosen(a, keep, key) + Chosen(b, keep, key)
  {
    if b == [] {
      assert a + b == a;
    } else {
      ChosenConcat(a, b[..|b| - 1], keep, key);
      assert (a + b)[..|a + b| - 1] == a + b[..|b| - 1];
    }
  }

  lemma {:induction false} ChosenMembers<T(!new), K>(list: seq<T>, keep: T -> bool, key: T -> K)
    ensures forall k :: k in Chosen(list, keep, key) <==> exists x :: x in list && keep(x) && key(x) == k
  {
    if list != [] {
      ChosenMembers(list[..|list| - 1], keep, key);
      assert list == list[..|list| - 1] + [list[|list| - 1]];
    }
  }

  lemma ChosenSome<T(!new), K>(list: seq<T>, i: nat, keep: T -> bool, key: T -> K)
    requires i < |list| && keep(list[i])
    ensures Chosen(list, keep, key) != []
  {
    ChosenMembers(list, keep, key);
    assert list[i] in list;
  }

  lemma ChosenWithout<T, K>(list: seq<T>, j: nat, keep: T -> bool, key: T -> K)
    requires j < |list|
    ensures multiset(Chosen(list, keep, key)) == multiset(Chosen(list[..j] + list[j + 1..], keep, key))
                                                 + if keep(list[j]) then multiset{key(list[j])} else multiset{}
  {
    var front, x, back := list[..j], list[j], list[j + 1..];
    assert list == front + ([x] + back);
    ChosenConcat(front, [x] + back, keep, key);
    ChosenConcat([x], back, keep, key);
    ChosenConcat(front, back, keep, key);
    ChosenOne(x, keep, key);
  }

  lemma ChosenOne<T, K>(x: T, keep: T -> bool, key: T -> K)
    ensures Chosen([x], keep, key) == if keep(x) then [key(x)] else []
  {
    assert [x][..|[x]| - 1] == [];
  }

  lemma Without<T>(list: seq<T>, j: nat)
    requires j < |list|
    ensures multiset(list[..j] + list[j + 1..]) == multiset(list) - multiset{list[j]}
  {
    assert list == list[..j] + ([list[j]] + list[j + 1..]);
  }

  lemma {:induction false} ChosenPermuted<T, K>(a: seq<T>, b: seq<T>, keep: T -> bool, key: T -> K)
    requires multiset(a) == multiset(b)
    ensures multiset(Chosen(a, keep, key)) == multiset(Chosen(b, keep, key))
    decreases |a|
  {
    PermutationElems(a, b);
    if a != [] {
      assert a[0] in b;
      var j :| 0 <= j < |b| && b[j] == a[0];
      var rest := b[..j] + b[j + 1..];
      HeadOut(a);
      Without(b, j);
      ChosenPermuted(a[1..], rest, keep, key);
      ChosenConcat([a[0]], a[1..], keep, key);
      ChosenOne(a[0], keep, key);
      ChosenWithout(b, j, keep, key);
    }
  }

  lemma {:induction false} ChosenSorted<T(!new), K(!new)>(list: seq<T>, keep: T -> bool, key: T -> K,
                                                          less: (T, T) -> bool, keyLess: (K, K) -> bool)
    requires Sorted(list, less)
    requires forall x, y :: less(x, y) <==> keyLess(key(x), key(y))
    ensures Sorted(Chosen(list, keep, key), keyLess)
  {
    if list != [] {
      var init, last := list[..|list| - 1], list[|list| - 1];
      var keys := Chosen(init, keep, key);
      ChosenSorted(init, keep, key, less, keyLess);
      ChosenMembers(init, keep, key);
      forall i | 0 <= i < |keys| ensures !keyLess(key(last), keys[i]) {
        assert keys[i] in keys;
        var x :| x in init && key(x) == keys[i];
        var k :| 0 <= k < |init| && init[k] == x;
        assert !less(list[|list| - 1], list[k]);
      }
    }
  }

  /** How many results a limit allows. */
  function AtLeastNone(limit: int): nat {
    if limit < 0 then 0 else limit
  }

  /** The lists `f` gives for each element, end to end. */
  function FlatMap<T, K>(list: seq<T>, f: T -> seq<K>): seq<K> {
    if list == [] then [] else FlatMap(list[..|list| - 1], f) + f(list[|list| - 1])
  }

  lemma {:induction false} FlatMapConcat<T, K>(a: seq<T>, b: seq<T>, f: T -> seq<K>)
    ensures FlatMap(a + b, f) == FlatMap(a, f) + FlatMap(b, f)
  {
    if b == [] {
      assert a + b == a;
    } else {
      FlatMapConcat(a, b[..|b| - 1], f);
      assert (a + b)[..|a + b| - 1] == a + b[..|b| - 1];
    }
  }

  lemma {:induction false} FlatMapMembers<T, K>(list: seq<T>, f: T -> seq<K>, x: K)
    ensures x in FlatMap(list, f) <==> exists y :: y in list && x in f(y)
  {
    if list != [] {
      var init, last := list[..|list| - 1], list[|list| - 1];
      FlatMapMembers(init, f, x);
      assert list == init + [last];
    }
  }

  lemma FlatMapOne<T, K>(x: T, f: T -> seq<K>)
    ensures FlatMap([x], f) == f(x)
  {
    assert [x][..|[x]| - 1] == [];
  }

  /** What expanding vertices does to the marks: they grow within `universe`, and do grow
      if anything new is queued. */
  ghost predicate Marked<V(!new)>(visited0: set<V>, next0: seq<V>, visited: set<V>, next: seq<V>, universe: set<V>) {
    visited0 <= visited <= universe && (next == next0 || visited0 < visited)
  }

  lemma MarkedPush<V(!new)>(visited0: set<V>, next0: seq<V>, visited: set<V>, next: seq<V>, universe: set<V>, y: V)
    requires Marked(visited0, next0, visited, next, universe) && y !in visited && y in universe
    ensures Marked(visited0, next0, visited + {y}, next + [y], universe)
  {
  }

  lemma MarkedTwice<V(!new)>(visited0: set<V>, next0: seq<V>, visited1: set<V>, next1: seq<V>,
                            visited2: set<V>, next2: seq<V>, universe: set<V>)
    requires Marked(visited0, next0, visited1, next1, universe) && Marked(visited1, next1, visited2, next2, universe)
    ensures Marked(visited0, next0, visited2, next2, universe)
  {
  }

  lemma LessLeft<V>(a: set<V>, b: set<V>, universe: set<V>)
    requires a <= b <= universe
    ensures a == b || |universe - b| < |universe - a|
  {
    if a != b {
      assert universe - a == (universe - b) + (b - a);
      assert b == a + (b - a);
    }
  }

  lemma PermutationElems<T>(a: seq<T>, b: seq<T>)
    requires multiset(a) == multiset(b)
    ensures |a| == |b| && Elems(a) == Elems(b)
    ensures forall x :: x in a <==> x in b
  {
    assert |multiset(a)| == |a| && |multiset(b)| == |b|;
    forall x ensures x in a <==> x in b {
      assert x in a <==> x in multiset(a);
      assert x in b <==> x in multiset(b);
    }
  }

  lemma PermutationDistinct<T>(a: seq<T>, b: seq<T>)
    requires multiset(a) == multiset(b) && Distinct(a)
    ensures Distinct(b)
  {
    forall i, j | 0 <= i < j < |b| ensures b[i] != b[j] {
      if b[i] == b[j] {
        var x := b[i];
        assert b == b[..i] + [x] + b[i + 1..j] + [x] + b[j + 1..];
        assert multiset(b)[x] >= 2;
        DistinctCount(a, x);
      }
    }
  }

  lemma {:induction false} DistinctCount<T>(a: seq<T>, x: T)
    requires Distinct(a)
    ensures multiset(a)[x] <= 1
  {
    if a != [] {
      assert a == [a[0]] + a[1..];
      DistinctCount(a[1..], x);
      if a[0] == x {
        assert x !in a[1..];
        assert x !in multiset(a[1..]);
      }
    }
  }

  /** Two sorted permutations of the same elements are the same sequence. */
  lemma {:induction false} SortedUnique<T(!new)>(a: seq<T>, b: seq<T>, less: (T, T) -> bool)
    requires StrictWeak(less) && Separates(less, a)
    requires Sorted(a, less) && Sorted(b, less) && multiset(a) == multiset(b)
    ensures a == b
    decreases |a|
  {
    PermutationElems(a, b);
    if a != [] {
      LeastFirst(a, b, less);
      LeastFirst(b, a, less);
      HeadOut(a);
      HeadOut(b);
      SortedUnique(a[1..], b[1..], less);
    }
  }

  lemma HeadOut<T>(s: seq<T>)
    requires s != []
    ensures s == [s[0]] + s[1..] && multiset(s[1..]) == multiset(s) - multiset{s[0]}
  {
    assert s == [s[0]] + s[1..];
  }

  lemma LeastFirst<T(!new)>(a: seq<T>, b: seq<T>, less: (T, T) -> bool)
    requires StrictWeak(less) && Sorted(a, less) && a != [] && b != [] && b[0] in a
    ensures !less(b[0], a[0])
  {
    var i :| 0 <= i < |a| && a[i] == b[0];
    assert i > 0 ==> !less(a[i], a[0]);
  }

  /** A strictly sorted sequence is determined by its set of elements. */
  lemma {:induction false} StrictlySortedUnique<T(!new)>(a: seq<T>, b: seq<T>, less: (T, T) -> bool)
    requires StrictWeak(less) && StrictlySorted(a, less) && StrictlySorted(b, less)
    requires forall x :: x in a <==> x in b
    ensures a == b
    decreases |a|
  {
    assert |a| > 0 ==> a[0] in a;
    assert |b| > 0 ==> b[0] in b;
    if a != [] && b != [] {
      assert a[0] in b && b[0] in a;
      assert a[0] == b[0];
      forall x ensures x in a[1..] <==> x in b[1..] {
        assert x in a[1..] ==> x in a && x != a[0];
        assert x in b[1..] ==> x in b && x != b[0];
        assert x in a && x != a[0] ==> x in a[1..];
        assert x in b && x != b[0] ==> x in b[1..];
      }
      StrictlySortedUnique(a[1..], b[1..], less);
    }
  }

  lemma DistinctSortedIsStrict<T(!new)>(s: seq<T>, less: (T, T) -> bool)
    requires Distinct(s) && Sorted(s, less) && Separates(less, s)
    ensures StrictlySorted(s, less)
  {
    forall i, j | 0 <= i < j < |s| ensures less(s[i], s[j]) {
      assert s[i] in s && s[j] in s && s[i] != s[j];
    }
  }

  /** Go compares strings byte by byte; on UTF-8 that is the order of code points. */
  predicate StrLess(a: string, b: string) {
    if b == [] then false
    else if a == [] then true
    else a[0] < b[0] || (a[0] == b[0] && StrLess(a[1..], b[1..]))
  }

  /** Up to some place the texts are the same; there `a` ends, or has the smaller character. */
  ghost predicate ComesBefore(a: string, b: string) {
    exists k: nat :: DiffersAt(a, b, k)
  }

  ghost predicate DiffersAt(a: string, b: string, k: nat) {
    && k <= |a| && k < |b| && a[..k] == b[..k]
    && (k == |a| || a[k] < b[k])
  }

  lemma FirstDiffers(a: string, b: string, k: nat)
    requires a != [] && b != [] && DiffersAt(a, b, k)
    ensures k > 0 ==> a[0] == b[0]
  {
    if k > 0 {
      assert a[..k][0] == a[0] && b[..k][0] == b[0];
    }
  }

  lemma {:induction false} StrLessExactly(a: string, b: string)
    ensures StrLess(a, b) <==> ComesBefore(a, b)
  {
    if b != [] && a == [] {
      assert DiffersAt(a, b, 0);
    } else if b != [] && a[0] != b[0] {
      forall k: nat | DiffersAt(a, b, k) ensures k == 0 {
        FirstDiffers(a, b, k);
      }
      if a[0] < b[0] {
        assert DiffersAt(a, b, 0);
      }
    } else if b != [] {
      StrLessExactly(a[1..], b[1..]);
      if k: nat :| DiffersAt(a, b, k) {
        assert a[1..][..k - 1] == a[..k][1..] == b[..k][1..] == b[1..][..k - 1];
        assert DiffersAt(a[1..], b[1..], k - 1);
      }
      if k: nat :| DiffersAt(a[1..], b[1..], k) {
        assert a[..k + 1] == [a[0]] + a[1..][..k] && b[..k + 1] == [b[0]] + b[1..][..k];
        assert DiffersAt(a, b, k + 1);
      }
    }
  }

  lemma {:induction false} StrLessIrreflexive(a: string)
    ensures !StrLess(a, a)
  {
    if a != [] { StrLessIrreflexive(a[1..]); }
  }

  lemma {:induction false} StrLessTransitive(a: string, b: string, c: string)
    requires StrLess(a, b) && StrLess(b, c)
    ensures StrLess(a, c)
  {
    if a != [] && a[0] == b[0] && b[0] == c[0] {
      StrLessTransitive(a[1..], b[1..], c[1..]);
    }
  }

  lemma {:induction false} StrLessConnected(a: string, b: string)
    ensures a == b || StrLess(a, b) || StrLess(b, a)
  {
    if a != [] && b != [] && a[0] == b[0] {
      StrLessConnected(a[1..], b[1..]);
      if a[1..] == b[1..] {
        assert a == [a[0]] + a[1..] == [b[0]] + b[1..] == b;
      }
    }
  }

  lemma StrLessTotal()
    ensures StrictWeak(StrLess)
    ensures forall a, b :: a == b || StrLess(a, b) || StrLess(b, a)
    ensures forall a, b :: !(StrLess(a, b) && StrLess(b, a))
  {
    forall a ensures !StrLess(a, a) { StrLessIrreflexive(a); }
    forall a, b ensures a == b || StrLess(a, b) || StrLess(b, a) { StrLessConnected(a, b); }
    forall a, b, c | StrLess(a, b) && StrLess(b, c) ensures StrLess(a, c) { StrLessTransitive(a, b, c); }
  }
}
