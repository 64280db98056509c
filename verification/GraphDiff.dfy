/** The incremental write: queue only the rows that differ, and commit. */
module GraphDiff {
  import opened CodeGraph
  import opened GraphStore

  /** What the resolver hands over. */
  datatype Resolution = Resolution(nodes: seq<Node>, edges: seq<Edge>)

  /** Every edge joins nodes of the same result. */
  ghost predicate ClosedResult(res: Resolution) {
    Linked(LastWins(res.nodes).Keys, res.edges)
  }

  predicate SameIn<K, V(==)>(old': map<K, V>, new': map<K, V>, k: K) {
    k in old' && k in new' && old'[k] == new'[k]
  }

  /** The keys whose rows have to be written. */
  function Changed<K, V(==)>(old': map<K, V>, new': map<K, V>): set<K> {
    set k | k in new' && !SameIn(old', new', k)
  }

  function Restricted<K, V>(m: map<K, V>, ks: set<K>): map<K, V> {
    map k | k in ks && k in m :: m[k]
  }

  /** The queued nodes carry exactly the new values of the changed rows. */
  ghost predicate NodesQueued(stored: NodeMap, new': NodeMap, queued: seq<Node>) {
    && (forall n :: n in queued ==> n.id in Changed(stored, new') && new'[n.id] == n)
    && (forall id :: id in Changed(stored, new') ==> new'[id] in queued)
  }

  ghost predicate EdgesQueued(stored: EdgeMap, new': EdgeMap, queued: seq<Edge>) {
    && (forall e :: e in queued ==> KeyOf(e) in Changed(stored, new') && new'[KeyOf(e)] == e)
    && (forall k :: k in Changed(stored, new') ==> new'[k] in queued)
  }

  /** The delta between what is stored and what was resolved. */
  ghost predicate DeltaQueued(nodes: NodeMap, edges: EdgeMap, res: Resolution,
                              addNodes: seq<Node>, addEdges: seq<Edge>, delNodes: seq<Id>, delEdges: seq<Edge>)
  {
    && NodesQueued(nodes, LastWins(res.nodes), addNodes)
    && EdgesQueued(edges, EdgesByKey(res.edges), addEdges)
    && IdsIn(delNodes) == nodes.Keys - LastWins(res.nodes).Keys
    && KeysIn(delEdges) == edges.Keys - EdgesByKey(res.edges).Keys
  }

  /** A batch that holds a delta and files to forget, and nothing else of the graph. */
  ghost predicate HoldsDelta(nodes: NodeMap, edges: EdgeMap, b: Content, res: Resolution) {
    && b.touched == []
    && DeltaQueued(nodes, edges, res, b.nodes, b.edges, b.deletedNodes, b.deletedEdges)
  }

  ghost predicate CarriesNoGraph(b: Content) {
    b.touched == [] && b.nodes == [] && b.edges == [] && b.deletedNodes == [] && b.deletedEdges == []
  }

  method QueueGraphDiff(s: Store, batch: Batch, res: Resolution)
    requires s.Valid()
    modifies batch`nodes, batch`edges, batch`deletedNodes, batch`deletedEdges
    ensures old(batch.nodes) <= batch.nodes && old(batch.edges) <= batch.edges
    ensures old(batch.deletedNodes) <= batch.deletedNodes && old(batch.deletedEdges) <= batch.deletedEdges
    ensures DeltaQueued(s.Nodes(), s.edges, res,
                        batch.nodes[|old(batch.nodes)|..], batch.edges[|old(batch.edges)|..],
                        batch.deletedNodes[|old(batch.deletedNodes)|..],
                        batch.deletedEdges[|old(batch.deletedEdges)|..])
    ensures old(CarriesNoGraph(batch.Content())) ==> HoldsDelta(s.Nodes(), s.edges, batch.Content(), res)
  {
    var newNodes := NodesById(res.nodes);
    var newEdges := EdgesKeyed(res.edges);
    ghost var delNodes := QueueStaleNodes(batch, s.Nodes(), newNodes);
    ghost var delEdges := QueueStaleEdges(batch, s.edges, newEdges);
    ghost var addNodes := QueueChangedNodes(batch, s.Nodes(), newNodes, res.nodes);
    ghost var addEdges := QueueChangedEdges(batch, s.edges, newEdges, res.edges);
    assert batch.nodes[|old(batch.nodes)|..] == addNodes;
    assert batch.edges[|old(batch.edges)|..] == addEdges;
    assert batch.deletedNodes[|old(batch.deletedNodes)|..] == delNodes;
    assert batch.deletedEdges[|old(batch.deletedEdges)|..] == delEdges;
  }

  method NodesById(list: seq<Node>) returns (m: NodeMap)
    ensures m == LastWins(list)
  {
    m := map[];
    for i := 0 to |list|
      invariant m == LastWins(list[..i])
    {
      assert list[..i + 1] == list[..i] + [list[i]];
      LastWinsAppend(list[..i], list[i]);
      m := m[list[i].id := list[i]];
    }
    assert list[..|list|] == list;
  }

  method EdgesKeyed(list: seq<Edge>) returns (m: EdgeMap)
    ensures m == EdgesByKey(list)
  {
    m := map[];
    for i := 0 to |list|
      invariant m == EdgesByKey(list[..i])
    {
      assert list[..i + 1] == list[..i] + [list[i]];
      EdgesByKeyAppend(list[..i], list[i]);
      m := m[KeyOf(list[i]) := Normalize(list[i])];
    }
    assert list[..|list|] == list;
  }

  method QueueStaleNodes(batch: Batch, stored: NodeMap, new': NodeMap) returns (ghost stale: seq<Id>)
    modifies batch`deletedNodes
    ensures batch.deletedNodes == old(batch.deletedNodes) + stale
    ensures IdsIn(stale) == stored.Keys - new'.Keys
  {
    stale := [];
    var todo := stored.Keys;
    while todo != {}
      invariant todo <= stored.Keys
      invariant batch.deletedNodes == old(batch.deletedNodes) + stale
      invariant IdsIn(stale) == stored.Keys - todo - new'.Keys
      decreases todo
    {
      var id :| id in todo;
      todo := todo - {id};
      if id !in new' {
        batch.DeleteNode(id);
        IdsInAppend(stale, id);
        stale := stale + [id];
      }
    }
  }

  method QueueStaleEdges(batch: Batch, stored: EdgeMap, new': EdgeMap) returns (ghost stale: seq<Edge>)
    requires forall k :: k in stored ==> KeyOf(stored[k]) == k
    modifies batch`deletedEdges
    ensures batch.deletedEdges == old(batch.deletedEdges) + stale
    ensures KeysIn(stale) == stored.Keys - new'.Keys
  {
    stale := [];
    var todo := stored.Keys;
    while todo != {}
      invariant todo <= stored.Keys
      invariant batch.deletedEdges == old(batch.deletedEdges) + stale
      invariant KeysIn(stale) == stored.Keys - todo - new'.Keys
      decreases todo
    {
      var k :| k in todo;
      todo := todo - {k};
      if k !in new' {
        batch.DeleteEdge(stored[k]);
        KeysInAppend(stale, stored[k]);
        stale := stale + [stored[k]];
      }
    }
  }

  lemma IdsInAppend(list: seq<Id>, id: Id)
    ensures IdsIn(list + [id]) == IdsIn(list) + {id}
  {
  }

  lemma KeysInAppend(list: seq<Edge>, e: Edge)
    ensures KeysIn(list + [e]) == KeysIn(list) + {KeyOf(e)}
  {
    assert forall x :: x in list + [e] <==> x in list || x == e;
  }

  /** Walks the resolver's list, so that the write order is stable. */
  method QueueChangedNodes(batch: Batch, stored: NodeMap, new': NodeMap, list: seq<Node>)
    returns (ghost queued: seq<Node>)
    requires new' == LastWins(list)
    modifies batch`nodes
    ensures batch.nodes == old(batch.nodes) + queued
    ensures NodesQueued(stored, new', queued)
  {
    queued := [];
    LastWinsKeys(list);
    for i := 0 to |list|
      invariant batch.nodes == old(batch.nodes) + queued
      invariant forall n :: n in queued ==> n.id in Changed(stored, new') && new'[n.id] == n
      invariant forall k :: 0 <= k < i && list[k].id in Changed(stored, new') ==> new'[list[k].id] in queued
    {
      var id := list[i].id;
      assert list[i] in list;
      if id !in stored || stored[id] != new'[id] {
        batch.AddNode(new'[id]);
        queued := queued + [new'[id]];
      }
    }
    forall id | id in Changed(stored, new') ensures new'[id] in queued {
      assert new'[id] in list;
    }
  }

  method QueueChangedEdges(batch: Batch, stored: EdgeMap, new': EdgeMap, list: seq<Edge>)
    returns (ghost queued: seq<Edge>)
    requires new' == EdgesByKey(list)
    modifies batch`edges
    ensures batch.edges == old(batch.edges) + queued
    ensures EdgesQueued(stored, new', queued)
  {
    queued := [];
    EdgesByKeyKeys(list);
    for i := 0 to |list|
      invariant batch.edges == old(batch.edges) + queued
      invariant forall e :: e in queued ==> KeyOf(e) in Changed(stored, new') && new'[KeyOf(e)] == e
      invariant forall j :: 0 <= j < i && KeyOf(list[j]) in Changed(stored, new') ==> new'[KeyOf(list[j])] in queued
    {
      var k := KeyOf(list[i]);
      assert list[i] in list;
      if k !in stored || stored[k] != new'[k] {
        batch.AddEdge(new'[k]);
        queued := queued + [new'[k]];
      }
    }
    forall k | k in Changed(stored, new') ensures new'[k] in queued {
      var e :| e in list && KeyOf(e) == k;
    }
  }

  lemma {:induction false} EdgesByKeyKeys(list: seq<Edge>)
    ensures forall e :: e in list ==> KeyOf(e) in EdgesByKey(list)
    ensures forall k :: k in EdgesByKey(list) ==> KeyOf(EdgesByKey(list)[k]) == k
    ensures forall k :: k in EdgesByKey(list) ==> Normalize(EdgesByKey(list)[k]) == EdgesByKey(list)[k]
    ensures forall k :: k in EdgesByKey(list) ==> exists e :: e in list && KeyOf(e) == k
  {
    if list != [] {
      var init, last := list[..|list| - 1], list[|list| - 1];
      EdgesByKeyKeys(init);
      assert list == init + [last];
    }
  }

  // ---------------------------------------------------------------------------------
  // The delta refines a full rewrite

  /** A row counts as purged when its file is reported gone although the resolver kept
      its ID.  Nothing is lost as long as such a row is written again and no edge at it
      was left unqueued because it did not change. */
  ghost predicate NothingKeptIsPurged(nodes: NodeMap, edges: EdgeMap, newNodes: NodeMap, newEdges: EdgeMap,
                                      removed: set<Path>)
  {
    forall id :: id in newNodes && id in Owned(nodes, removed) ==>
      && !SameIn(nodes, newNodes, id)
      && forall k :: SameIn(edges, newEdges, k) ==> k.source != id && k.target != id
  }

  /** The commit went through and left exactly the tables of the new graph. */
  ghost predicate WritesGraph(nodes: NodeMap, edges: EdgeMap, b: Content, res: Resolution) {
    && Acceptable(nodes, b)
    && CommittedNodes(nodes, b) == LastWins(res.nodes)
    && CommittedEdges(nodes, edges, b) == EdgesByKey(res.edges)
  }

  /** Dropping the stale keys and some `lost` ones, then writing the changed ones, gives
      the new map exactly when no unchanged key was lost. */
  lemma DeltaExact<K, V>(stored: map<K, V>, new': map<K, V>, lost: set<K>)
    ensures (stored - ((stored.Keys - new'.Keys) + lost)) + Restricted(new', Changed(stored, new')) == new'
       <==> forall k :: SameIn(stored, new', k) ==> k !in lost
  {
    var m := (stored - ((stored.Keys - new'.Keys) + lost)) + Restricted(new', Changed(stored, new'));
    if m == new' {
      forall k | SameIn(stored, new', k) ensures k !in lost {
        assert k !in Changed(stored, new') && k in m;
      }
    } else if forall k :: SameIn(stored, new', k) ==> k !in lost {
      forall k ensures k in m <==> k in new' {
        assert k in new' ==> k in Changed(stored, new') || SameIn(stored, new', k);
      }
      forall k | k in new' ensures m[k] == new'[k] {
        assert k in Changed(stored, new') || SameIn(stored, new', k);
      }
    }
  }

  lemma QueuedNodesMap(stored: NodeMap, new': NodeMap, queued: seq<Node>)
    requires NodesQueued(stored, new', queued) && forall id :: id in new' ==> new'[id].id == id
    ensures LastWins(queued) == Restricted(new', Changed(stored, new'))
  {
    LastWinsKeys(queued);
    forall id | id in Changed(stored, new') ensures id in LastWins(queued) {
      assert new'[id] in queued;
    }
  }

  lemma QueuedEdgesMap(stored: EdgeMap, new': EdgeMap, queued: seq<Edge>)
    requires EdgesQueued(stored, new', queued)
    requires forall k :: k in new' ==> KeyOf(new'[k]) == k && Normalize(new'[k]) == new'[k]
    ensures EdgesByKey(queued) == Restricted(new', Changed(stored, new'))
  {
    EdgesByKeyKeys(queued);
    EdgesByKeyValues(queued);
    forall k | k in Changed(stored, new') ensures k in EdgesByKey(queued) {
      assert new'[k] in queued;
    }
    forall k | k in EdgesByKey(queued) ensures k in Changed(stored, new') && EdgesByKey(queued)[k] == new'[k] {
      var e :| e in queued && Normalize(e) == EdgesByKey(queued)[k] && KeyOf(e) == k;
    }
  }

  lemma {:induction false} EdgesByKeyValues(list: seq<Edge>)
    ensures forall k :: k in EdgesByKey(list) ==>
              exists e :: e in list && Normalize(e) == EdgesByKey(list)[k] && KeyOf(e) == k
  {
    if list != [] {
      var init, last := list[..|list| - 1], list[|list| - 1];
      EdgesByKeyValues(init);
      assert list == init + [last];
      forall k | k in EdgesByKey(list)
        ensures exists e :: e in list && Normalize(e) == EdgesByKey(list)[k] && KeyOf(e) == k
      {
        if k == KeyOf(last) {
          assert last in list;
        } else {
          var e :| e in init && Normalize(e) == EdgesByKey(init)[k] && KeyOf(e) == k;
          assert e in list;
        }
      }
    }
  }

  /** The stored edges that go when `gone` nodes go. */
  function Attached(edges: EdgeMap, gone: set<Id>): set<EdgeKey> {
    set k | k in edges && (k.source in gone || k.target in gone)
  }

  lemma CascadeIsMinus(edges: EdgeMap, dropped: set<EdgeKey>, gone: set<Id>)
    ensures Cascade(edges - dropped, gone) == edges - (dropped + Attached(edges, gone))
  {
  }

  lemma NewEdgesLinked(res: Resolution)
    requires ClosedResult(res)
    ensures forall k :: k in EdgesByKey(res.edges) ==>
              k.source in LastWins(res.nodes) && k.target in LastWins(res.nodes)
  {
    EdgesByKeyKeys(res.edges);
    forall k | k in EdgesByKey(res.edges)
      ensures k.source in LastWins(res.nodes) && k.target in LastWins(res.nodes)
    {
      var e :| e in res.edges && KeyOf(e) == k;
    }
  }

  lemma NodesExact(nodes: NodeMap, edges: EdgeMap, b: Content, res: Resolution)
    requires HoldsDelta(nodes, edges, b, res)
    ensures CommittedNodes(nodes, b) == LastWins(res.nodes)
       <==> forall id :: SameIn(nodes, LastWins(res.nodes), id) ==> id !in Owned(nodes, PathsIn(b.removed))
  {
    var new' := LastWins(res.nodes);
    LastWinsKeys(res.nodes);
    QueuedNodesMap(nodes, new', b.nodes);
    assert PurgedPaths(b) == PathsIn(b.removed);
    DeltaExact(nodes, new', Owned(nodes, PathsIn(b.removed)));
  }

  lemma EdgesExact(nodes: NodeMap, edges: EdgeMap, b: Content, res: Resolution)
    requires HoldsDelta(nodes, edges, b, res)
    ensures CommittedEdges(nodes, edges, b) == EdgesByKey(res.edges)
       <==> forall k :: SameIn(edges, EdgesByKey(res.edges), k) ==> k !in Attached(edges, Dropped(nodes, b))
  {
    var new' := EdgesByKey(res.edges);
    EdgesByKeyKeys(res.edges);
    QueuedEdgesMap(edges, new', b.edges);
    CascadeIsMinus(edges, KeysIn(b.deletedEdges), Dropped(nodes, b));
    DeltaExact(edges, new', Attached(edges, Dropped(nodes, b)));
  }

  lemma QueuedEdgesLinked(nodes: NodeMap, edges: EdgeMap, b: Content, res: Resolution)
    requires HoldsDelta(nodes, edges, b, res) && ClosedResult(res)
    requires CommittedNodes(nodes, b) == LastWins(res.nodes)
    ensures Acceptable(nodes, b)
  {
    NewEdgesLinked(res);
    forall e | e in b.edges ensures e.source in LastWins(res.nodes) && e.target in LastWins(res.nodes) {
      assert KeyOf(e) in EdgesByKey(res.edges);
    }
  }

  lemma TableWritten(nodes: NodeMap, edges: EdgeMap, b: Content, res: Resolution)
    requires WritesGraph(nodes, edges, b, res)
    ensures TableOf(res.edges, CommittedEdges(nodes, edges, b))
  {
    EdgesByKeyExactly(res.edges, EdgesByKey(res.edges));
  }

  /** Applying the delta is a full rewrite, exactly when nothing kept is purged. */
  lemma DeltaRefinesRewrite(nodes: NodeMap, edges: EdgeMap, b: Content, res: Resolution)
    requires Consistent(nodes, edges) && ClosedResult(res) && HoldsDelta(nodes, edges, b, res)
    ensures WritesGraph(nodes, edges, b, res)
       <==> NothingKeptIsPurged(nodes, edges, LastWins(res.nodes), EdgesByKey(res.edges), PathsIn(b.removed))
    ensures WritesGraph(nodes, edges, b, res) ==> TableOf(res.edges, CommittedEdges(nodes, edges, b))
  {
    if WritesGraph(nodes, edges, b, res) {
      TableWritten(nodes, edges, b, res);
    }
    var newNodes, newEdges, owned := LastWins(res.nodes), EdgesByKey(res.edges), Owned(nodes, PathsIn(b.removed));
    NodesExact(nodes, edges, b, res);
    EdgesExact(nodes, edges, b, res);
    NewEdgesLinked(res);
    assert PurgedPaths(b) == PathsIn(b.removed);
    assert Dropped(nodes, b) == (nodes.Keys - newNodes.Keys) + owned;
    if CommittedNodes(nodes, b) == newNodes {
      QueuedEdgesLinked(nodes, edges, b, res);
    }
    if WritesGraph(nodes, edges, b, res) {
      forall id | id in newNodes && id in owned
        ensures !SameIn(nodes, newNodes, id)
        ensures forall k :: SameIn(edges, newEdges, k) ==> k.source != id && k.target != id
      {
        forall k | SameIn(edges, newEdges, k) ensures k.source != id && k.target != id {
          assert k !in Attached(edges, Dropped(nodes, b));
        }
      }
    }
    if NothingKeptIsPurged(nodes, edges, newNodes, newEdges, PathsIn(b.removed)) {
      forall k | SameIn(edges, newEdges, k) ensures k !in Attached(edges, Dropped(nodes, b)) {
        assert k.source in newNodes && k.target in newNodes;
      }
    }
  }

  /** The same tables a store starting from nothing would get by writing every row. */
  lemma ScratchWritesGraph(res: Resolution)
    requires ClosedResult(res)
    ensures WritesGraph(map[], map[], EMPTY_CONTENT.(nodes := res.nodes, edges := res.edges), res)
    ensures TableOf(res.edges, CommittedEdges(map[], map[], EMPTY_CONTENT.(nodes := res.nodes, edges := res.edges)))
  {
    EdgesByKeyExactly(res.edges, EdgesByKey(res.edges));
  }

  /** Nodes carry their file in their ID, so a file that is gone cannot own a kept node. */
  lemma OwnersFixedById(nodes: NodeMap, edges: EdgeMap, res: Resolution, removed: set<Path>, owner: Id -> Path)
    requires forall id :: id in nodes ==> nodes[id].filePath == owner(id)
    requires forall id :: id in LastWins(res.nodes) ==> owner(id) !in removed
    ensures NothingKeptIsPurged(nodes, edges, LastWins(res.nodes), EdgesByKey(res.edges), removed)
  {
  }

  /** The condition is needed: a kept, unchanged node of a file reported gone is lost. */
  lemma PurgeLosesKeptNode(n: Node)
    ensures var b := EMPTY_CONTENT.(removed := [n.filePath]);
      var res := Resolution([n], []);
      && ClosedResult(res) && Consistent(map[n.id := n], map[])
      && HoldsDelta(map[n.id := n], map[], b, res) && !WritesGraph(map[n.id := n], map[], b, res)
  {
    var b, res, nodes := EMPTY_CONTENT.(removed := [n.filePath]), Resolution([n], []), map[n.id := n];
    assert res.nodes[..0] == [];
    assert LastWins(res.nodes) == nodes;
    assert n.filePath in PathsIn(b.removed);
    assert SameIn(nodes, LastWins(res.nodes), n.id) && n.id in Owned(nodes, PathsIn(b.removed));
    NodesExact(nodes, map[], b, res);
  }
}
