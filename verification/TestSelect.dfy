/** Choosing the tests a change can affect: minimum reverse distance over many seeds. */
module TestSelect {
  import opened Orders
  import opened Digraph
  import opened CodeGraph
  import opened Reach
  import opened Text

  datatype TestMatch = TestMatch(testNode: Node, targetId: Id, depth: int, confidence: Confidence)

  datatype Selection = Selection(
    matches: seq<TestMatch>, testFiles: seq<string>, totalTests: nat, totalTestFiles: nat, reduction: real)

  const DEFAULT_DEPTH := 10
  const SEARCH_LIMIT := 2000

  /** The edges a change travels against. */
  function AffectKinds(): set<EdgeKind> {
    {EdgeCalls, EdgeInherits, EdgeOverrides, EdgeImplements}
  }

  function DepthOr(maxDepth: int): (d: int)
    ensures maxDepth > 0 ==> d == maxDepth
    ensures maxDepth <= 0 ==> d == 10
  {
    if maxDepth <= 0 then DEFAULT_DEPTH else maxDepth
  }

  /** Lower-casing is taken as given. */
  predicate IsTestNode(lower: string -> string, n: Node) {
    || n.isTest
    || HasPrefix(n.name, "Test") || HasPrefix(n.name, "test_")
    || (IsTestPath(lower(n.filePath)) && (n.kind.KindFunction? || n.kind.KindMethod?))
  }

  predicate IsTestPath(path: string) {
    || HasSuffix(path, "_test.go") || HasSuffix(path, ".test.ts") || HasSuffix(path, ".spec.ts")
    || HasPrefix(path, "test_") || Contains(path, "/tests/") || Contains(path, "/test/")
  }

  /** What a selection looks at. */
  datatype Scene = Scene(nodes: map<Id, Node>, edges: seq<Edge>, maxDepth: int, isTest: Node -> bool) {
    ghost function Asked(seed: Id): Query {
      Query(Backward, seed, AffectKinds(), maxDepth, SEARCH_LIMIT)
    }
  }

  /** The changed symbol `c` puts test `id` at depth `d`: it is that test, or the test leads
      to it in `d` steps and no fewer. */
  ghost predicate Offers(s: Scene, c: Node, id: Id, d: int) {
    || (d == 0 && c.id == id && s.isTest(c))
    || (1 <= d <= s.maxDepth && id in s.nodes && s.isTest(s.nodes[id])
        && Distance(s.Asked(c.id).Steps(s.edges), c.id, id, d))
  }

  /** A recorded match is one some changed symbol offers. */
  ghost predicate Backed(s: Scene, changed: seq<Node>, id: Id, m: TestMatch) {
    && m.testNode.id == id && s.isTest(m.testNode)
    && exists c :: c in changed && c.id == m.targetId && Offers(s, c, id, m.depth)
  }

  ghost predicate AllBacked(s: Scene, changed: seq<Node>, best: map<Id, TestMatch>) {
    forall id :: id in best ==> Backed(s, changed, id, best[id])
  }

  /** Everything `c` offers is recorded, at that depth or less. */
  ghost predicate Beaten(s: Scene, c: Node, best: map<Id, TestMatch>) {
    forall id, d :: Offers(s, c, id, d) ==> id in best && best[id].depth <= d
  }

  /** No entry is lost and no depth grows. */
  ghost predicate Improves(before: map<Id, TestMatch>, after: map<Id, TestMatch>) {
    forall id :: id in before ==> id in after && after[id].depth <= before[id].depth
  }

  lemma BeatenStays(s: Scene, c: Node, before: map<Id, TestMatch>, after: map<Id, TestMatch>)
    requires Beaten(s, c, before) && Improves(before, after)
    ensures Beaten(s, c, after)
  {
  }

  /** The changed symbol itself, if it is a test: depth 0 whatever was recorded before. */
  method TakeSelf(isTest: Node -> bool, c: Node, best0: map<Id, TestMatch>, ghost s: Scene, ghost changed: seq<Node>)
    returns (best: map<Id, TestMatch>)
    requires s.isTest == isTest && c in changed && AllBacked(s, changed, best0)
    ensures AllBacked(s, changed, best) && Improves(best0, best)
    ensures isTest(c) ==> c.id in best && best[c.id].depth == 0
  {
    best := best0;
    if isTest(c) {
      var m := TestMatch(c, c.id, 0, ConfExact);
      assert Offers(s, c, c.id, 0);
      assert Backed(s, changed, c.id, m);
      best := best[c.id := m];
      forall id | id in best0 ensures best[id].depth <= best0[id].depth {
        assert Backed(s, changed, id, best0[id]);
      }
    }
  }

  lemma ReachedBacked(s: Scene, changed: seq<Node>, c: Node, r: Reached)
    requires c in changed && Honest(s.nodes, s.edges, s.Asked(c.id), r) && s.isTest(r.node)
    ensures Backed(s, changed, r.node.id, TestMatch(r.node, c.id, r.depth, r.confidence))
  {
    assert Offers(s, c, r.node.id, r.depth);
  }

  /** Every test among those reached is recorded as at least that near. */
  ghost predicate Recorded(isTest: Node -> bool, reached: seq<Reached>, best: map<Id, TestMatch>) {
    forall r :: r in reached && isTest(r.node) ==> r.node.id in best && best[r.node.id].depth <= r.depth
  }

  lemma RecordedMore(isTest: Node -> bool, reached: seq<Reached>, r: Reached, first: map<Id, TestMatch>,
                     before: map<Id, TestMatch>, after: map<Id, TestMatch>)
    requires Recorded(isTest, reached, before) && Improves(first, before) && Improves(before, after)
    requires isTest(r.node) ==> r.node.id in after && after[r.node.id].depth <= r.depth
    ensures Recorded(isTest, reached + [r], after) && Improves(first, after)
  {
  }

  /** One reached node: recorded, if it is a test, unless one as near is recorded already. */
  method TakeOne(isTest: Node -> bool, c: Node, r: Reached, best0: map<Id, TestMatch>, ghost s: Scene,
                 ghost changed: seq<Node>)
    returns (best: map<Id, TestMatch>)
    requires s.isTest == isTest && c in changed && AllBacked(s, changed, best0)
    requires Honest(s.nodes, s.edges, s.Asked(c.id), r)
    ensures AllBacked(s, changed, best) && Improves(best0, best)
    ensures isTest(r.node) ==> r.node.id in best && best[r.node.id].depth <= r.depth
  {
    best := best0;
    if !isTest(r.node) {
      return;
    }
    if r.node.id !in best || r.depth < best[r.node.id].depth {
      ReachedBacked(s, changed, c, r);
      best := best[r.node.id := TestMatch(r.node, c.id, r.depth, r.confidence)];
    }
  }

  /** The tests one search reached. */
  method TakeReached(isTest: Node -> bool, c: Node, reached: seq<Reached>, best0: map<Id, TestMatch>,
                     ghost s: Scene, ghost changed: seq<Node>)
    returns (best: map<Id, TestMatch>)
    requires s.isTest == isTest && c in changed && AllBacked(s, changed, best0)
    requires forall r :: r in reached ==> Honest(s.nodes, s.edges, s.Asked(c.id), r)
    ensures AllBacked(s, changed, best) && Improves(best0, best) && Recorded(isTest, reached, best)
  {
    best := best0;
    for i := 0 to |reached|
      invariant AllBacked(s, changed, best) && Improves(best0, best) && Recorded(isTest, reached[..i], best)
    {
      ghost var before := best;
      assert reached[i] in reached;
      best := TakeOne(isTest, c, reached[i], best, s, changed);
      RecordedMore(isTest, reached[..i], reached[i], best0, before, best);
      assert reached[..i + 1] == reached[..i] + [reached[i]];
    }
    assert reached[..|reached|] == reached;
  }

  lemma NotOwnDistance<V(!new)>(R: set<(V, V)>, x: V, d: nat)
    requires d > 0
    ensures !Distance(R, x, x, d)
  {
    WithinZero(R, x, x);
    WithinMonotone(R, x, x, 0, d - 1);
  }

  /** A search that was not cut short recorded everything its seed offers. */
  lemma SearchBeats(s: Scene, c: Node, reached: seq<Reached>, best: map<Id, TestMatch>)
    requires Answers(s.nodes, s.edges, s.Asked(c.id), reached, false)
    requires s.isTest(c) ==> c.id in best && best[c.id].depth <= 0
    requires Recorded(s.isTest, reached, best)
    ensures Beaten(s, c, best)
  {
    forall id, d | Offers(s, c, id, d) ensures id in best && best[id].depth <= d {
      if d > 0 {
        NotOwnDistance(s.Asked(c.id).Steps(s.edges), c.id, d);
        ReportedAtDistance(s.nodes, s.edges, s.Asked(c.id), reached, id, d);
        var r :| r in reached && r.node.id == id && r.depth == d;
      }
    }
  }

  /** The search for what leads to `c` came back, cut short or not. */
  ghost predicate Answered(s: Scene, c: Node, cut: bool) {
    exists reached :: Answers(s.nodes, s.edges, s.Asked(c.id), reached, cut)
  }

  ghost predicate AllAnswered(s: Scene, changed: seq<Node>, cuts: seq<bool>) {
    |cuts| == |changed| && forall i :: 0 <= i < |cuts| ==> Answered(s, changed[i], cuts[i])
  }

  lemma IsAnswered(s: Scene, c: Node, reached: seq<Reached>, cut: bool)
    requires Answers(s.nodes, s.edges, s.Asked(c.id), reached, cut)
    ensures Answered(s, c, cut)
  {
  }

  /** One changed symbol: itself, and whatever leads to it. */
  method TakeSymbol(g: Graph, isTest: Node -> bool, maxDepth: int, c: Node, best0: map<Id, TestMatch>,
                    ghost s: Scene, ghost changed: seq<Node>)
    returns (best: map<Id, TestMatch>, ghost cut: bool)
    requires g.Valid() && s == Scene(g.nodes, g.edges, maxDepth, isTest)
    requires c in changed && AllBacked(s, changed, best0)
    ensures AllBacked(s, changed, best) && Improves(best0, best)
    ensures Answered(s, c, cut) && (!cut ==> Beaten(s, c, best))
  {
    var own := TakeSelf(isTest, c, best0, s, changed);
    var reached, truncated := ReverseReach(g, c.id, AffectKinds(), maxDepth, SEARCH_LIMIT);
    cut := truncated;
    IsAnswered(s, c, reached, cut);
    best := TakeReached(isTest, c, reached, own, s, changed);
    if !cut {
      SearchBeats(s, c, reached, best);
    }
  }

  /** Every symbol whose search was not cut short has all it offers recorded. */
  ghost predicate AllBeaten(s: Scene, changed: seq<Node>, cuts: seq<bool>, best: map<Id, TestMatch>) {
    |cuts| == |changed| && forall i :: 0 <= i < |cuts| && !cuts[i] ==> Beaten(s, changed[i], best)
  }

  lemma AllBeatenGrows(s: Scene, changed: seq<Node>, k: nat, cuts: seq<bool>, cut: bool,
                       before: map<Id, TestMatch>, after: map<Id, TestMatch>)
    requires k < |changed| && AllBeaten(s, changed[..k], cuts, before) && Improves(before, after)
    requires !cut ==> Beaten(s, changed[k], after)
    ensures AllBeaten(s, changed[..k + 1], cuts + [cut], after)
  {
    forall i | 0 <= i < k && !cuts[i] ensures Beaten(s, changed[i], after) {
      assert changed[..k][i] == changed[i];
      BeatenStays(s, changed[i], before, after);
    }
  }

  method BestMatches(g: Graph, isTest: Node -> bool, maxDepth: int, changed: seq<Node>)
    returns (best: map<Id, TestMatch>, ghost cuts: seq<bool>)
    requires g.Valid()
    ensures AllBacked(Scene(g.nodes, g.edges, maxDepth, isTest), changed, best)
    ensures AllAnswered(Scene(g.nodes, g.edges, maxDepth, isTest), changed, cuts)
    ensures AllBeaten(Scene(g.nodes, g.edges, maxDepth, isTest), changed, cuts, best)
  {
    ghost var s := Scene(g.nodes, g.edges, maxDepth, isTest);
    best, cuts := map[], [];
    for i := 0 to |changed|
      invariant AllBacked(s, changed, best)
      invariant AllAnswered(s, changed[..i], cuts) && AllBeaten(s, changed[..i], cuts, best)
    {
      ghost var before, cut := best, false;
      assert changed[i] in changed;
      best, cut := TakeSymbol(g, isTest, maxDepth, changed[i], best, s, changed);
      AllBeatenGrows(s, changed, i, cuts, cut, before, best);
      cuts := cuts + [cut];
    }
    assert changed[..|changed|] == changed;
  }

  /** On a graph whose edges end at known nodes, a search is not cut short unless there is more
      in range than it may report. */
  lemma CutMeansMore(s: Scene, c: Node, cut: bool)
    requires EndpointClosed(s.nodes, s.edges) && Answered(s, c, cut)
    ensures cut <==> |Wanted(s.nodes, s.edges, s.Asked(c.id))| > 2000
  {
    var reached :| Answers(s.nodes, s.edges, s.Asked(c.id), reached, cut);
    TruncatesExactly(s.nodes, s.edges, s.Asked(c.id), reached, cut);
  }

  // ---------------------------------------------------------------------------------
  // The report

  ghost function TestsIn(nodes: map<Id, Node>, isTest: Node -> bool): set<Id> {
    set id | id in nodes && isTest(nodes[id])
  }

  ghost predicate Lists(best: map<Id, TestMatch>, matches: seq<TestMatch>) {
    && (forall m :: m in matches ==> m.testNode.id in best && best[m.testNode.id] == m)
    && (forall id :: id in best ==> best[id] in matches)
    && Distinct(matches)
  }

  lemma ListsMore(best: map<Id, TestMatch>, matches: seq<TestMatch>, m: TestMatch)
    requires Lists(best, matches) && m.testNode.id !in best
    ensures Lists(best[m.testNode.id := m], matches + [m])
  {
    assert m !in matches;
    assert forall x :: x in matches + [m] <==> x in matches || x == m;
  }

  /** The matches in no particular order, and the files they are in. */
  method ListMatches(best: map<Id, TestMatch>) returns (matches: seq<TestMatch>, files: set<string>)
    requires forall id :: id in best ==> best[id].testNode.id == id
    ensures Lists(best, matches)
    ensures files == set m | m in matches && m.testNode.filePath != "" :: m.testNode.filePath
  {
    matches, files := [], {};
    var todo := best.Keys;
    while todo != {}
      invariant todo <= best.Keys && Lists(best - todo, matches)
      invariant files == set m | m in matches && m.testNode.filePath != "" :: m.testNode.filePath
      decreases todo
    {
      var id :| id in todo;
      var m := best[id];
      ListsMore(best - todo, matches, m);
      assert best - (todo - {id}) == (best - todo)[id := m];
      todo := todo - {id};
      assert forall x :: x in matches + [m] <==> x in matches || x == m;
      matches := matches + [m];
      if m.testNode.filePath != "" {
        files := files + {m.testNode.filePath};
      }
    }
    assert best - {} == best;
  }

  /** The files some nodes are in. */
  ghost function FilesOf(nodes: map<Id, Node>, ids: set<Id>): set<string> {
    set id | id in ids && id in nodes && nodes[id].filePath != "" :: nodes[id].filePath
  }

  lemma FilesOfMore(nodes: map<Id, Node>, ids: set<Id>, id: Id)
    requires id in nodes
    ensures nodes[id].filePath != "" ==> FilesOf(nodes, ids + {id}) == FilesOf(nodes, ids) + {nodes[id].filePath}
    ensures nodes[id].filePath == "" ==> FilesOf(nodes, ids + {id}) == FilesOf(nodes, ids)
  {
  }

  /** The tests outside `todo` and their files have been counted. */
  ghost predicate Tallied(nodes: map<Id, Node>, tests: set<Id>, todo: set<Id>, count: nat, files: set<string>) {
    count == |tests - todo| && files == FilesOf(nodes, tests - todo)
  }

  lemma OneTallied(tests: set<Id>, todo: set<Id>, id: Id)
    requires id in todo
    ensures id in tests ==>
              tests - (todo - {id}) == (tests - todo) + {id} && |tests - (todo - {id})| == |tests - todo| + 1
    ensures id !in tests ==> tests - (todo - {id}) == tests - todo
  {
    if id in tests {
      assert tests - (todo - {id}) == (tests - todo) + {id};
    } else {
      assert tests - (todo - {id}) == tests - todo;
    }
  }

  /** Counts the tests of the repository and the files they are in. */
  method Census(nodes: map<Id, Node>, isTest: Node -> bool) returns (count: nat, files: set<string>)
    ensures count == |TestsIn(nodes, isTest)|
    ensures files == FilesOf(nodes, TestsIn(nodes, isTest))
  {
    count, files := 0, {};
    var todo := nodes.Keys;
    ghost var tests := TestsIn(nodes, isTest);
    assert tests - todo == {};
    while todo != {}
      invariant todo <= nodes.Keys && Tallied(nodes, tests, todo, count, files)
      decreases todo
    {
      var id :| id in todo;
      OneTallied(tests, todo, id);
      if isTest(nodes[id]) {
        files := WithFile(nodes, tests - todo, id, files);
        count := count + 1;
      }
      todo := todo - {id};
    }
    assert tests - {} == tests;
  }

  method WithFile(nodes: map<Id, Node>, ghost seen: set<Id>, id: Id, files0: set<string>) returns (files: set<string>)
    requires id in nodes && files0 == FilesOf(nodes, seen)
    ensures files == FilesOf(nodes, seen + {id})
  {
    FilesOfMore(nodes, seen, id);
    files := if nodes[id].filePath != "" then files0 + {nodes[id].filePath} else files0;
  }

  function Reduction(total: nat, selected: nat): (r: real)
    ensures 0.0 <= r <= 100.0
    ensures r == 0.0 <==> selected >= total
    ensures r == 100.0 <==> selected == 0 && total > 0
    ensures selected <= total ==> r * total as real == 100.0 * (total - selected) as real
  {
    if total > 0 && total - selected > 0 then
      ReductionInRange(total, selected);
      ((total - selected) as real / total as real) * 100.0
    else 0.0
  }

  lemma ReductionInRange(total: nat, selected: nat)
    requires total > selected
    ensures 0.0 < (total - selected) as real / total as real <= 1.0
    ensures (total - selected) as real / total as real == 1.0 <==> selected == 0
  {
    var q := (total - selected) as real / total as real;
    assert q * total as real == (total - selected) as real;
  }

  /** A test is affected if some changed symbol puts it at some depth. */
  ghost predicate Affected(s: Scene, changed: seq<Node>, id: Id) {
    exists c, d :: c in changed && Offers(s, c, id, d)
  }

  ghost predicate IsSelected(matches: seq<TestMatch>, id: Id) {
    exists m :: m in matches && m.testNode.id == id
  }

  /** The promise: only affected tests, each once, at a depth and for a symbol that account
      for it; and, if no search was cut short, all of them at their least depth. */
  ghost predicate Selects(s: Scene, changed: seq<Node>, whole: bool, matches: seq<TestMatch>) {
    && (forall m :: m in matches ==> Backed(s, changed, m.testNode.id, m))
    && (forall i, j :: 0 <= i < j < |matches| ==> matches[i].testNode.id != matches[j].testNode.id)
    && (whole ==>
          && (forall id :: IsSelected(matches, id) <==> Affected(s, changed, id))
          && (forall m, c, d :: m in matches && c in changed && Offers(s, c, m.testNode.id, d) ==> m.depth <= d))
  }

  method SelectTests(changed: seq<Node>, g: Graph, maxDepth: int, lower: string -> string)
    returns (sel: Selection, ghost cuts: seq<bool>)
    requires g.Valid()
    ensures AllAnswered(Scene(g.nodes, g.edges, DepthOr(maxDepth), (n: Node) => IsTestNode(lower, n)), changed, cuts)
    ensures Selects(Scene(g.nodes, g.edges, DepthOr(maxDepth), (n: Node) => IsTestNode(lower, n)), changed,
                    true !in cuts, sel.matches)
    ensures StrictlySorted(sel.testFiles, StrLess)
    ensures forall f :: f in sel.testFiles <==> f != "" && exists m :: m in sel.matches && m.testNode.filePath == f
    ensures sel.totalTests == |TestsIn(g.nodes, (n: Node) => IsTestNode(lower, n))|
    ensures sel.totalTestFiles == |FilesOf(g.nodes, TestsIn(g.nodes, (n: Node) => IsTestNode(lower, n)))|
    ensures sel.reduction == Reduction(sel.totalTests, |sel.matches|)
  {
    var depth := DepthOr(maxDepth);
    var isTest := (n: Node) => IsTestNode(lower, n);
    ghost var s := Scene(g.nodes, g.edges, depth, isTest);
    var total, allFiles := Census(g.nodes, isTest);
    var best;
    best, cuts := BestMatches(g, isTest, depth, changed);
    assert forall id :: id in best ==> Backed(s, changed, id, best[id]);
    var matches, files := ListMatches(best);
    ListedSelects(s, changed, cuts, best, matches);
    var testFiles := SortedNames(files);
    sel := Selection(matches, testFiles, total, |allFiles|, Reduction(total, |matches|));
  }

  method SortedNames(names: set<string>) returns (sorted: seq<string>)
    ensures StrictlySorted(sorted, StrLess)
    ensures forall f :: f in sorted <==> f in names
  {
    var list: seq<string> := [];
    var todo := names;
    while todo != {}
      invariant todo <= names && Distinct(list) && Elems(list) == names - todo
      decreases todo
    {
      var f :| f in todo;
      todo := todo - {f};
      assert f !in list by { assert f !in Elems(list); }
      assert Elems(list + [f]) == Elems(list) + {f};
      list := list + [f];
    }
    StrLessTotal();
    sorted := SortSlice(list, StrLess);
    PermutationElems(list, sorted);
    PermutationDistinct(list, sorted);
    assert forall f :: f in sorted <==> f in Elems(list);
  }

  lemma ListedSelects(s: Scene, changed: seq<Node>, cuts: seq<bool>, best: map<Id, TestMatch>, matches: seq<TestMatch>)
    requires AllBacked(s, changed, best) && Lists(best, matches) && AllBeaten(s, changed, cuts, best)
    ensures Selects(s, changed, true !in cuts, matches)
  {
    forall m | m in matches ensures Backed(s, changed, m.testNode.id, m) {
      assert Backed(s, changed, m.testNode.id, best[m.testNode.id]);
    }
    forall i, j | 0 <= i < j < |matches| ensures matches[i].testNode.id != matches[j].testNode.id {
      assert matches[i] in matches && matches[j] in matches;
    }
    if true !in cuts {
      forall c | c in changed ensures Beaten(s, c, best) {
        var i :| 0 <= i < |changed| && changed[i] == c;
        assert cuts[i] in cuts;
      }
      forall id ensures IsSelected(matches, id) <==> Affected(s, changed, id) {
        if IsSelected(matches, id) {
          var m :| m in matches && m.testNode.id == id;
          assert Backed(s, changed, id, m);
        }
        if Affected(s, changed, id) {
          var c, d :| c in changed && Offers(s, c, id, d);
          assert Beaten(s, c, best);
          assert Backed(s, changed, id, best[id]);
        }
      }
      forall m, c, d | m in matches && c in changed && Offers(s, c, m.testNode.id, d) ensures m.depth <= d {
        assert Beaten(s, c, best);
      }
    }
  }

  // ---------------------------------------------------------------------------------
  // What it means to be affected

  /** Being affected, in terms of walks: the test is itself changed, or leads to a changed
      symbol in at most `maxDepth` steps. */
  lemma AffectedMeans(s: Scene, changed: seq<Node>, id: Id)
    ensures Affected(s, changed, id) <==> exists c :: c in changed && LeadsTo(s, c, id)
  {
    forall c | c in changed ensures LeadsTo(s, c, id) <==> exists d :: Offers(s, c, id, d) {
      NearIsOffered(s, c, id);
    }
  }

  /** What makes a node a test. */
  lemma TestMeans(lower: string -> string, n: Node)
    ensures IsTestNode(lower, n) <==>
              || n.isTest || Begins(n.name, "Test") || Begins(n.name, "test_")
              || ((n.kind == KindFunction || n.kind == KindMethod) && LiesInTests(lower(n.filePath)))
  {
    PrefixMeans(n.name, "Test");
    PrefixMeans(n.name, "test_");
    var path := lower(n.filePath);
    SuffixMeans(path, "_test.go");
    SuffixMeans(path, ".test.ts");
    SuffixMeans(path, ".spec.ts");
    PrefixMeans(path, "test_");
    ContainsMeans(path, "/tests/");
    ContainsMeans(path, "/test/");
  }

  ghost predicate LiesInTests(path: string) {
    || Ends(path, "_test.go") || Ends(path, ".test.ts") || Ends(path, ".spec.ts")
    || Begins(path, "test_") || Has(path, "/tests/") || Has(path, "/test/")
  }

  ghost predicate LeadsTo(s: Scene, c: Node, id: Id) {
    || (c.id == id && s.isTest(c))
    || (id in s.nodes && s.isTest(s.nodes[id]) && id != c.id && s.maxDepth >= 0
        && Within(KindRel(s.edges, {EdgeCalls, EdgeInherits, EdgeOverrides, EdgeImplements}), id, c.id, s.maxDepth))
  }

  lemma NearIsOffered(s: Scene, c: Node, id: Id)
    ensures LeadsTo(s, c, id) <==> exists d :: Offers(s, c, id, d)
  {
    var R := s.Asked(c.id).Steps(s.edges);
    if s.maxDepth >= 0 {
      FlipWithin(KindRel(s.edges, {EdgeCalls, EdgeInherits, EdgeOverrides, EdgeImplements}), id, c.id, s.maxDepth);
    }
    if c.id == id && s.isTest(c) {
      assert Offers(s, c, id, 0);
    } else if LeadsTo(s, c, id) {
      var d := SomeDistance(R, c.id, id, s.maxDepth);
      WithinZero(R, c.id, id);
      assert Offers(s, c, id, d);
    }
    if d :| Offers(s, c, id, d) && d > 0 {
      WithinMonotone(R, c.id, id, d, s.maxDepth);
      if id == c.id {
        NotOwnDistance(R, id, d);
      }
    }
  }

  lemma {:induction false} SomeDistance<V(!new)>(R: set<(V, V)>, x: V, y: V, n: nat) returns (d: nat)
    requires Within(R, x, y, n)
    ensures d <= n && Distance(R, x, y, d)
  {
    if n > 0 && Within(R, x, y, n - 1) {
      d := SomeDistance(R, x, y, n - 1);
    } else {
      d := n;
    }
  }

  /** A larger change selects at least the same tests, none of them at a greater depth. */
  lemma MoreChangesMoreTests(s: Scene, changed: seq<Node>, more: seq<Node>, a: seq<TestMatch>, b: seq<TestMatch>,
                             m: TestMatch, whole: bool)
    requires forall c :: c in changed ==> c in more
    requires Selects(s, changed, whole, a) && Selects(s, more, true, b)
    requires m in a
    ensures IsSelected(b, m.testNode.id)
    ensures forall n :: n in b && n.testNode.id == m.testNode.id ==> n.depth <= m.depth
  {
    assert Backed(s, changed, m.testNode.id, m);
    var c :| c in changed && c.id == m.targetId && Offers(s, c, m.testNode.id, m.depth);
    assert Affected(s, more, m.testNode.id);
  }

  // ---------------------------------------------------------------------------------
  // The order of the report

  /** The comparator the report is sorted with. */
  predicate MatchLess(a: TestMatch, b: TestMatch) {
    if a.depth != b.depth then a.depth < b.depth
    else if a.confidence != b.confidence then a.confidence.ConfExact?
    else StrLess(a.testNode.id, b.testNode.id)
  }

  /** `MatchLess` is a strict weak order on matches with confidences in `cs`. */
  ghost predicate OrdersWithin(cs: set<Confidence>) {
    && (forall x: TestMatch, y: TestMatch, z: TestMatch ::
          AllIn(cs, x, y, z) && MatchLess(x, y) && MatchLess(y, z) ==> MatchLess(x, z))
    && (forall x: TestMatch, y: TestMatch, z: TestMatch ::
          AllIn(cs, x, y, z) && MatchLess(x, z) ==> MatchLess(x, y) || MatchLess(y, z))
  }

  predicate AllIn(cs: set<Confidence>, x: TestMatch, y: TestMatch, z: TestMatch) {
    x.confidence in cs && y.confidence in cs && z.confidence in cs
  }

  /** The report has a well-defined order exactly when at most one confidence other than
      exact occurs in it: two of them cannot be told apart, yet stand differently to others. */
  lemma OrderedExactly(cs: set<Confidence>, n: Node)
    ensures OrdersWithin(cs) <==> forall a, b :: a in cs && b in cs && a != b ==> a.ConfExact? || b.ConfExact?
  {
    StrLessTotal();
    if a, b :| a in cs && b in cs && a != b && !a.ConfExact? && !b.ConfExact? {
      var x := TestMatch(n.(id := "a"), "", 0, a);
      var y := TestMatch(n.(id := "a"), "", 0, b);
      var z := TestMatch(n.(id := "b"), "", 0, a);
      assert AllIn(cs, x, y, z) && MatchLess(x, z) && !MatchLess(x, y) && !MatchLess(y, z);
    }
  }
}
