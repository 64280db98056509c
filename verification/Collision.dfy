/** Files whose calls deduplication cannot tell apart, from their parses to the lost edge. */
module Collision {
  import opened CodeGraph
  import opened Orders
  import opened Text
  import opened NameIndex
  import opened Resolver
  import opened Pipeline
  import GraphDiff

  function SomeNode(path: string, rest: string): Node {
    Node(path + ":" + rest, KindFunction, rest, rest, path, 1, 1, 0, 0, "", "", "", false, false, EntryNone,
         VisExported)
  }

  function CallOf(from: Id): Ref {
    Ref(EdgeCalls, "g", "", from, 1)
  }

  const NO_FACTS: TypeFacts := TypeFacts(map[], map[], map[], map[])

  /** Two functions of one file, one with a bar in its name, that both call `g`; and two files
      that declare a `g`, one with a bar in its path. */
  const CALLERS: FileIR :=
    FileIR("p", "go", [SomeNode("p", "f"), SomeNode("p", "f|q")], [], [CallOf("p:f"), CallOf("p:f|q")], NO_FACTS)
  const BARRED: FileIR := FileIR("q|r", "go", [SomeNode("q|r", "g")], [], [], NO_FACTS)
  const PLAIN: FileIR := FileIR("r", "go", [SomeNode("r", "g")], [], [], NO_FACTS)
  const FILES: seq<FileIR> := [CALLERS, BARRED, PLAIN]

  lemma Ids()
    ensures SomeNode("p", "f").id == "p:f" && SomeNode("p", "f|q").id == "p:f|q"
    ensures SomeNode("q|r", "g").id == "q|r:g" && SomeNode("r", "g").id == "r:g"
  {
  }

  lemma NodeNamed(path: string, rest: string)
    requires ':' !in path && path != "external" && path != ""
    ensures NodeOf(path, SomeNode(path, rest))
  {
    assert SomeNode(path, rest).id == path + ":" + rest;
  }

  lemma CallersPromised()
    ensures RefsOwned(CALLERS)
  {
    Ids();
    assert SomeNode("p", "f") in CALLERS.nodes && SomeNode("p", "f|q") in CALLERS.nodes;
  }

  /** They are such files as the parsers promise. */
  lemma FilesPromised()
    ensures NamedByFile(FILES) && forall f :: f in FILES ==> RefsOwned(f)
  {
    CallersPromised();
    NodeNamed("p", "f");
    NodeNamed("p", "f|q");
    NodeNamed("q|r", "g");
    NodeNamed("r", "g");
  }

  lemma FileSlices()
    ensures FILES[..2] == [CALLERS, BARRED] && FILES[..2][..1] == [CALLERS] && [CALLERS][..0] == []
  {
  }

  lemma OneFamily()
    ensures OfFamily(FILES, "go") == FILES && Family("go") == "go"
  {
    FileSlices();
    assert OfFamily([CALLERS], "go") == [] + [CALLERS];
    assert OfFamily([CALLERS, BARRED], "go") == [CALLERS] + [BARRED];
    assert OfFamily(FILES, "go") == [CALLERS, BARRED] + [PLAIN];
  }

  lemma NoImports()
    ensures FlatMap(FILES, ImportsOf) == []
  {
    FileSlices();
    assert ImportsOf(CALLERS) == [] && ImportsOf(BARRED) == [] && ImportsOf(PLAIN) == [];
    assert FlatMap([CALLERS], ImportsOf) == [] + [];
    assert FlatMap([CALLERS, BARRED], ImportsOf) == [] + [];
  }

  lemma TheNodes()
    ensures AllNodes(FILES) == CALLERS.nodes + BARRED.nodes + PLAIN.nodes
    ensures Named(AllNodes(FILES), "g") == [SomeNode("q|r", "g"), SomeNode("r", "g")]
  {
    FileSlices();
    var f, h, g, k := SomeNode("p", "f"), SomeNode("p", "f|q"), SomeNode("q|r", "g"), SomeNode("r", "g");
    assert AllNodes([CALLERS]) == [] + CALLERS.nodes;
    assert AllNodes([CALLERS, BARRED]) == CALLERS.nodes + BARRED.nodes;
    assert CALLERS.nodes + BARRED.nodes + PLAIN.nodes == [f, h, g, k];
    assert [f, h, g, k][..3] == [f, h, g] && [f, h, g][..2] == [f, h] && [f, h][..1] == [f] && [f][..0] == [];
    assert "f" != "g" && |"f|q"| != |"g"|;
    assert Named([f, h], "g") == [];
    assert Named([f, h, g], "g") == [] + [g];
    assert Named([f, h, g, k], "g") == [g] + [k];
  }

  lemma NotLocal()
    ensures Local(FILES, "p", "g") == None
  {
    FileSlices();
    var f, h := SomeNode("p", "f"), SomeNode("p", "f|q");
    assert [f, h][..1] == [f] && [f][..0] == [];
    assert "f" != "g" && |"f|q"| != |"g"|;
    assert |"q|r"| != |"p"| && "r" != "p";
    assert LastNamed([f, h], "g") == None;
    assert Local([CALLERS], "p", "g") == None;
    assert Local([CALLERS, BARRED], "p", "g") == None;
  }

  /** The name leads to both declarations. */
  lemma BothMeant(paths: Paths, idx: Index, imports: seq<Import>, from: Id, v: Verdict)
    requires Indexed(idx, FILES, paths, imports) && Judged(idx, "p", CallOf(from), v)
    ensures v == Verdict(ConfAmbiguous, ["q|r:g", "r:g"])
  {
    NoImports();
    TheNodes();
    NotLocal();
    Ids();
    assert Find(idx.inFile, "p", "g") == None;
    assert Find(idx.bindings, "p", "g") == Binding(idx.inFile, imports, "p", "g");
    assert NodeIds([SomeNode("q|r", "g"), SomeNode("r", "g")]) == ["q|r:g", "r:g"];
  }

  lemma TheUses()
    ensures FlatMap(FILES, UsesIn) == [Use("p", CallOf("p:f")), Use("p", CallOf("p:f|q"))]
  {
    FileSlices();
    var a, b := CallOf("p:f"), CallOf("p:f|q");
    assert [a, b][..1] == [a] && [a][..0] == [];
    assert UsesAt("p", [a]) == [] + [Use("p", a)];
    assert UsesAt("p", [a, b]) == [Use("p", a)] + [Use("p", b)];
    assert FlatMap([CALLERS], UsesIn) == [] + UsesIn(CALLERS);
    assert FlatMap([CALLERS, BARRED], UsesIn) == UsesIn(CALLERS) + [];
    assert FlatMap(FILES, UsesIn) == UsesIn(CALLERS) + [];
  }

  function CallEdge(from: Id, to: Id): Edge {
    Edge(from, to, EdgeCalls, 1, ConfAmbiguous, 2)
  }

  /** The verdict on a use, and its edges among those emitted. */
  lemma UseSettled(idx: Index, uses: seq<Use>, js: seq<Judgement>, edges: seq<Edge>, use: Use)
    returns (v: Verdict)
    requires Settles(idx, uses, js, edges) && use in uses
    ensures Judged(idx, use.path, use.ref, v) && forall e :: e in EdgesOf(use.ref, v) ==> e in edges
  {
    FlatMapMembers(js, UseOf, use);
    var j :| j in js && use in UseOf(j);
    v := j.verdict;
    forall e | e in EdgesOf(use.ref, v) ensures e in edges {
      FlatMapMembers(js, EmittedBy, e);
    }
  }

  /** The part of a family in the account of a pass. */
  lemma FamilyPart(paths: Paths, files: seq<FileIR>, families: seq<string>, parts: seq<Part>, emitted: seq<Edge>,
                   counts: Counts, fam: string)
    returns (part: Part)
    requires Accounts(paths, files, families, parts, emitted, counts) && fam in families
    ensures part in parts && PartOk(paths, files, fam, part) && emitted == FlatMap(parts, PartEdges)
  {
    var i :| 0 <= i < |families| && families[i] == fam;
    part := parts[i];
  }

  lemma PartEmits(parts: seq<Part>, part: Part)
    requires part in parts && part.refEdges <= part.edges
    ensures forall e :: e in part.refEdges ==> e in FlatMap(parts, PartEdges)
  {
    forall e | e in part.refEdges ensures e in FlatMap(parts, PartEdges) {
      var k :| 0 <= k < |part.refEdges| && part.refEdges[k] == e;
      assert part.edges[k] == e && e in PartEdges(part);
      FlatMapMembers(parts, PartEdges, e);
    }
  }

  /** A use on which there is only one verdict has the edges of it emitted. */
  lemma UseEmits(paths: Paths, files: seq<FileIR>, families: seq<string>, parts: seq<Part>, emitted: seq<Edge>,
                 counts: Counts, fam: string, use: Use, verdict: Verdict)
    requires Accounts(paths, files, families, parts, emitted, counts) && fam in families
    requires OfFamily(files, fam) == files && use in FlatMap(files, UsesIn)
    requires forall idx, imports, v :: Indexed(idx, files, paths, imports) && Judged(idx, use.path, use.ref, v) ==>
               v == verdict
    ensures forall e :: e in EdgesOf(use.ref, verdict) ==> e in emitted
  {
    var part := FamilyPart(paths, files, families, parts, emitted, counts, fam);
    PartEmits(parts, part);
    var imports :| Indexed(part.idx, files, paths, imports);
    var v := UseSettled(part.idx, FlatMap(files, UsesIn), part.js, part.refEdges, use);
  }

  /** Both callers have an edge to both declarations. */
  lemma BothCalled(paths: Paths, families: seq<string>, parts: seq<Part>, emitted: seq<Edge>, counts: Counts, from: Id)
    requires Accounts(paths, FILES, families, parts, emitted, counts) && "go" in families
    requires from == "p:f" || from == "p:f|q"
    ensures CallEdge(from, "q|r:g") in emitted && CallEdge(from, "r:g") in emitted
  {
    TheUses();
    OneFamily();
    var use, verdict := Use("p", CallOf(from)), Verdict(ConfAmbiguous, ["q|r:g", "r:g"]);
    forall idx, imports, v | Indexed(idx, FILES, paths, imports) && Judged(idx, use.path, use.ref, v)
      ensures v == verdict
    {
      BothMeant(paths, idx, imports, from, v);
    }
    UseEmits(paths, FILES, families, parts, emitted, counts, "go", use, verdict);
    TwoEdges(from);
  }

  lemma TwoEdges(from: Id)
    ensures CallEdge(from, "q|r:g") in EdgesOf(CallOf(from), Verdict(ConfAmbiguous, ["q|r:g", "r:g"]))
    ensures CallEdge(from, "r:g") in EdgesOf(CallOf(from), Verdict(ConfAmbiguous, ["q|r:g", "r:g"]))
  {
    var edges := EdgesOf(CallOf(from), Verdict(ConfAmbiguous, ["q|r:g", "r:g"]));
    assert edges[0] == CallEdge(from, "q|r:g") && edges[1] == CallEdge(from, "r:g");
  }

  lemma CallsCollide()
    ensures Shifted(CallEdge("p:f", "q|r:g"), CallEdge("p:f|q", "r:g"))
  {
    assert "p:f|q"[..4] == "p:f" + "|" && "p:f|q"[4..] == "q" && "q" + "|" + "r:g" == "q|r:g";
  }

  /** Resolving these files loses an edge, whatever the order of the pass. */
  method ResolveLosesEdge(paths: Paths) returns (res: GraphDiff.Resolution, ghost emitted: seq<Edge>)
    ensures Allowed(FILES, res) && Deduplicated(emitted, res.edges)
    ensures CallEdge("p:f", "q|r:g") in emitted && CallEdge("p:f|q", "r:g") in emitted
    ensures exists e :: e in emitted && !Kept(res.edges, e)
  {
    FilesPromised();
    var counts;
    ghost var families, parts, externals;
    res, counts, families, parts, emitted, externals := Resolve(paths, FILES);
    OneFamily();
    assert FILES[0] in FILES && Family(FILES[0].language) == "go";
    BothCalled(paths, families, parts, emitted, counts, "p:f");
    BothCalled(paths, families, parts, emitted, counts, "p:f|q");
    CallsCollide();
    NothingLostExactly(emitted, res.edges);
  }
}
