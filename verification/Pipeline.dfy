/** From parsed files to stored tables: what the resolver promises is what the commit needs. */
module Pipeline {
  import opened CodeGraph
  import opened Text
  import opened NameIndex
  import opened Resolver
  import opened GraphStore
  import opened GraphDiff
  import opened ReceiverTypes
  import Freshness

  /** What the parsers promise about declarations: an ID is the file's path, a colon and more,
      no file has a colon in its path or is called as external nodes are, and none declares an
      external node. */
  ghost predicate NamedByFile(files: seq<NameIndex.FileIR>) {
    forall f, n :: f in files && n in f.nodes ==> NodeOf(f.path, n)
  }

  ghost predicate NodeOf(path: string, n: Node) {
    && n.kind != KindExternal && n.filePath == path && ':' !in path && path != "external" && path != ""
    && exists rest :: n.id == path + ":" + rest
  }

  /** The file a node ID belongs to, none for external ones. */
  function Owner(id: Id): Path {
    if ScopeFile(id) == "external" then "" else ScopeFile(id)
  }

  lemma DeclaredOwner(path: string, n: Node)
    requires NodeOf(path, n)
    ensures Owner(n.id) == n.filePath
  {
    var rest :| n.id == path + ":" + rest;
    CutAt(path, ':', rest);
  }

  lemma ExternalOwner(name: string)
    ensures Owner(ExternalNode(name).id) == ExternalNode(name).filePath
  {
    assert EXTERNAL + name == "external" + ":" + name;
    CutAt("external", ':', name);
  }

  /** Every node the resolver hands over is in the file its ID names. */
  lemma OwnedById(files: seq<NameIndex.FileIR>, res: Resolution)
    requires NamedByFile(files) && Resolver.Sound(files, res)
    ensures forall n :: n in res.nodes ==> n.filePath == Owner(n.id)
    ensures forall n :: n in res.nodes ==> n.filePath == "" || exists f :: f in files && f.path == n.filePath
  {
    forall n | n in res.nodes
      ensures n.filePath == Owner(n.id)
      ensures n.filePath == "" || exists f :: f in files && f.path == n.filePath
    {
      if Declared(files, n) {
        var f :| f in files && n in f.nodes;
        assert NodeOf(f.path, n);
        DeclaredOwner(f.path, n);
      } else {
        ExternalOwner(n.name);
      }
    }
  }

  /** The IDs that read as those of external nodes. */
  ghost const EXTERNAL_IDS: iset<Id> := iset id: Id | ScopeFile(id) == "external"

  /** Whether a node is external can be read off its ID, which is what the text index needs. */
  lemma SortedById(files: seq<NameIndex.FileIR>, res: Resolution)
    requires NamedByFile(files) && Resolver.Sound(files, res)
    ensures SortsAll(EXTERNAL_IDS, res.nodes)
  {
    forall n | n in res.nodes ensures Sorts(EXTERNAL_IDS, n) {
      if Declared(files, n) {
        var f :| f in files && n in f.nodes;
        assert NodeOf(f.path, n);
        var rest :| n.id == f.path + ":" + rest;
        CutAt(f.path, ':', rest);
      } else {
        assert EXTERNAL + n.name == "external" + ":" + n.name;
        CutAt("external", ':', n.name);
      }
    }
  }

  lemma ClosedIsConsistent(res: Resolution)
    requires ClosedResult(res)
    ensures Consistent(LastWins(res.nodes), EdgesByKey(res.edges))
  {
    LastWinsKeys(res.nodes);
    EdgesByKeyKeys(res.edges);
    NewEdgesLinked(res);
  }

  /** What the resolver makes of the files can always be committed over what it made of an
      earlier set of files, and leaves exactly its own tables, as long as no file that is
      still there is reported gone. */
  lemma ResolvedIsCommitted(before: seq<NameIndex.FileIR>, old': Resolution, files: seq<NameIndex.FileIR>,
                            res: Resolution, b: Content)
    requires NamedByFile(before) && Resolver.Sound(before, old') && NamedByFile(files) && Resolver.Sound(files, res)
    requires HoldsDelta(LastWins(old'.nodes), EdgesByKey(old'.edges), b, res)
    requires "" !in b.removed && forall f :: f in files ==> f.path !in b.removed
    ensures WritesGraph(LastWins(old'.nodes), EdgesByKey(old'.edges), b, res)
  {
    ClosedIsConsistent(old');
    OwnedById(before, old');
    OwnedById(files, res);
    LastWinsKeys(old'.nodes);
    LastWinsKeys(res.nodes);
    forall id | id in LastWins(res.nodes) ensures Owner(id) !in PathsIn(b.removed) {
      var n := LastWins(res.nodes)[id];
      assert n in res.nodes && n.id == id;
    }
    OwnersFixedById(LastWins(old'.nodes), EdgesByKey(old'.edges), res, PathsIn(b.removed), Owner);
    DeltaRefinesRewrite(LastWins(old'.nodes), EdgesByKey(old'.edges), b, res);
  }

  /** No files, no graph. */
  lemma NothingOfNothing(res: Resolution)
    requires Allowed([], res)
    ensures res == Resolution([], [])
  {
    var families: seq<string>, externals: seq<Node>, emitted: seq<Edge> :|
      AllowedBy([], res, families, externals, emitted);
    forall e ensures !Homely([], IdsOf(externals), e) {
      NobodyHome(IdsOf(externals), e);
    }
    SomeMember(emitted);
    assert TargetsOf(emitted) == {};
    forall n ensures n !in externals {
      assert n in externals ==> n.id in IdsOf(externals);
    }
    SomeMember(externals);
    NoFamilyNodes(families);
    assert |multiset(res.nodes)| == |res.nodes|;
    SomeMember(res.edges);
  }

  lemma SomeMember<T>(s: seq<T>)
    ensures s != [] ==> exists x :: x in s
  {
    if s != [] {
      assert s[0] in s;
    }
  }

  lemma NobodyHome(externals: set<Id>, e: Edge)
    ensures !Homely([], externals, e)
  {
    forall fam ensures FamilyIds([], fam) == {} {
    }
  }

  lemma {:induction false} NoFamilyNodes(families: seq<string>)
    ensures NodesOfFamilies([], families) == []
  {
    if families != [] {
      NoFamilyNodes(families[..|families| - 1]);
    }
  }

  /** What one release's plugins make of the files, and the resolver of that. */
  ghost predicate ResolvesAs<IR>(w: Freshness.World<IR>, v: nat, m: map<Path, IR>, files: seq<NameIndex.FileIR>) {
    && NamedByFile(files) && (forall f :: f in files ==> f.path in m)
    && Allowed(files, w.resolve(v, m))
  }

  /** A world whose resolver takes values the modelled one may come to, with owners and externals
      read off IDs, is one that the indexer is right in. */
  lemma ModelledResolverSound<IR(!new)>(w: Freshness.World<IR>,
                                        filesOf: (nat, map<Path, IR>) -> seq<NameIndex.FileIR>)
    requires w.owner == Owner && w.externals == EXTERNAL_IDS
    requires forall v: nat, m: map<Path, IR> :: ResolvesAs(w, v, m, filesOf(v, m))
    ensures Freshness.ResolverSound(w)
  {
    forall v: nat, m: map<Path, IR>
      ensures ClosedResult(w.resolve(v, m)) && Freshness.OwnedBy(w, m, w.resolve(v, m))
      ensures SortsAll(w.externals, w.resolve(v, m).nodes)
    {
      assert ResolvesAs(w, v, m, filesOf(v, m));
      OwnedById(filesOf(v, m), w.resolve(v, m));
      SortedById(filesOf(v, m), w.resolve(v, m));
    }
    forall v: nat ensures w.resolve(v, map[]) == Resolution([], []) {
      var files := filesOf(v, map[]);
      assert ResolvesAs(w, v, map[], files);
      SomeMember(files);
      NothingOfNothing(w.resolve(v, map[]));
    }
  }

  // ---------------------------------------------------------------------------------
  // What deduplication loses

  /** Every emitted edge survives if no declaration has a bar in its name, whatever the names
      of files and of what lies outside. */
  lemma NothingLostInNames(files: seq<NameIndex.FileIR>, externals: set<Id>, emitted: seq<Edge>, kept: seq<Edge>)
    requires NamedByFile(files) && AllHomely(files, externals, emitted) && Deduplicated(emitted, kept)
    requires forall n :: Declared(files, n) ==> PlainName(n.id)
    ensures forall e :: e in emitted ==> Kept(kept, e)
  {
    forall e | e in emitted ensures PlainName(e.source) {
      assert Homely(files, externals, e);
      var fam :| e.source in FamilyIds(files, fam);
      AllNodesMembers(OfFamily(files, fam));
      OfFamilyMembers(files, fam);
      var n :| n in AllNodes(OfFamily(files, fam)) && n.id == e.source;
      assert Declared(files, n);
    }
    NoBarsNothingLost(emitted, kept);
  }
}
