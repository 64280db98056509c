/** The store: tables of nodes, edges, files and cached parses, a full-text index that
    shares row numbers with the node table, and the one ordered transaction that writes them. */
module GraphStore {
  import opened CodeGraph

  type Path = string
  type Hash = string

  datatype Row = Row(rowid: int, node: Node)

  datatype EdgeKey = EdgeKey(source: Id, target: Id, kind: EdgeKind, line: int)

  datatype FileRecord = FileRecord(path: Path, contentHash: Hash, indexedAt: int, size: int, modTimeNs: int)

  datatype FileIR = FileIR(path: Path, contentHash: Hash, data: seq<int>)

  datatype FtsRow = FtsRow(nodeId: Id, tokens: string, docstring: string)

  function KeyOf(e: Edge): EdgeKey {
    EdgeKey(e.source, e.target, e.kind, e.line)
  }

  function Normalize(e: Edge): Edge {
    if e.candidateCount == 0 then e.(candidateCount := 1) else e
  }

  type NodeMap = map<Id, Node>
  type EdgeMap = map<EdgeKey, Edge>

  /** The node table without its row numbers. */
  function NodesOf(rows: map<Id, Row>): NodeMap {
    map id | id in rows :: rows[id].node
  }

  /** Foreign keys: every stored edge joins stored nodes, and is filed under its own key. */
  ghost predicate Consistent(nodes: NodeMap, edges: EdgeMap) {
    && (forall id :: id in nodes ==> nodes[id].id == id)
    && (forall k :: k in edges ==> k.source in nodes && k.target in nodes)
    && (forall k :: k in edges ==> KeyOf(edges[k]) == k && edges[k].candidateCount != 0)
  }

  ghost predicate RowidsUnique(rows: map<Id, Row>) {
    forall a, b :: a in rows && b in rows && rows[a].rowid == rows[b].rowid ==> a == b
  }

  /** Deleting nodes takes their edges along. */
  function Cascade(edges: EdgeMap, gone: set<Id>): EdgeMap {
    map k | k in edges && k.source !in gone && k.target !in gone :: edges[k]
  }

  function Owned(nodes: NodeMap, paths: set<Path>): set<Id> {
    set id | id in nodes && nodes[id].filePath in paths
  }

  function IdsIn(ids: seq<Id>): set<Id> {
    set id | id in ids
  }

  function KeysIn(edges: seq<Edge>): set<EdgeKey> {
    set e | e in edges :: KeyOf(e)
  }

  function EdgesByKey(edges: seq<Edge>): EdgeMap {
    if edges == [] then map[]
    else
      var e := edges[|edges| - 1];
      EdgesByKey(edges[..|edges| - 1])[KeyOf(e) := Normalize(e)]
  }

  /** Everything one indexing pass has queued. */
  class Batch {
    var nodes: seq<Node>
    var edges: seq<Edge>
    var touched: seq<FileRecord>
    var removed: seq<Path>
    var recorded: seq<FileRecord>
    var deletedNodes: seq<Id>
    var deletedEdges: seq<Edge>
    var irs: seq<FileIR>

    constructor ()
      ensures Content() == EMPTY_CONTENT
    {
      nodes, edges, touched, removed := [], [], [], [];
      recorded, deletedNodes, deletedEdges, irs := [], [], [], [];
    }

    function Content(): Content
      reads this
    {
      Queued(nodes, edges, touched, removed, recorded, deletedNodes, deletedEdges, irs)
    }

    method AddNode(n: Node)
      modifies this`nodes
      ensures nodes == old(nodes) + [n]
    {
      nodes := nodes + [n];
    }

    method AddEdge(e: Edge)
      modifies this`edges
      ensures edges == old(edges) + [e]
    {
      edges := edges + [e];
    }

    method TouchFile(f: FileRecord)
      modifies this`touched
      ensures touched == old(touched) + [f]
    {
      touched := touched + [f];
    }

    method RemoveFile(path: Path)
      modifies this`removed
      ensures removed == old(removed) + [path]
    {
      removed := removed + [path];
    }

    method RecordFile(f: FileRecord)
      modifies this`recorded
      ensures recorded == old(recorded) + [f]
    {
      recorded := recorded + [f];
    }

    method DeleteNode(id: Id)
      modifies this`deletedNodes
      ensures deletedNodes == old(deletedNodes) + [id]
    {
      deletedNodes := deletedNodes + [id];
    }

    method DeleteEdge(e: Edge)
      modifies this`deletedEdges
      ensures deletedEdges == old(deletedEdges) + [e]
    {
      deletedEdges := deletedEdges + [e];
    }

    method PutIR(ir: FileIR)
      modifies this`irs
      ensures irs == old(irs) + [ir]
    {
      irs := irs + [ir];
    }
  }

  /** The tables a transaction may have to restore. */
  datatype Tables = Tables(
    rows: map<Id, Row>, edges: EdgeMap, fts: map<int, FtsRow>,
    files: map<Path, FileRecord>, irs: map<Path, FileIR>)

  /** What a batch holds, as a value. */
  datatype Content = Queued(
    nodes: seq<Node>, edges: seq<Edge>, touched: seq<FileRecord>, removed: seq<Path>,
    recorded: seq<FileRecord>, deletedNodes: seq<Id>, deletedEdges: seq<Edge>, irs: seq<FileIR>)

  const EMPTY_CONTENT: Content := Queued([], [], [], [], [], [], [], [])

  function TouchedPaths(list: seq<FileRecord>): set<Path> {
    set f | f in list :: f.path
  }

  function PathsIn(paths: seq<Path>): set<Path> {
    set p | p in paths
  }

  function PurgedPaths(b: Content): set<Path> {
    TouchedPaths(b.touched) + PathsIn(b.removed)
  }

  /** The nodes that leave the table before anything is written. */
  function Dropped(nodes: NodeMap, b: Content): set<Id> {
    IdsIn(b.deletedNodes) + Owned(nodes, PurgedPaths(b))
  }

  /** The node table a commit is meant to leave. */
  function CommittedNodes(nodes: NodeMap, b: Content): NodeMap {
    (nodes - Dropped(nodes, b)) + LastWins(b.nodes)
  }

  /** The edge table a commit is meant to leave. */
  function CommittedEdges(nodes: NodeMap, edges: EdgeMap, b: Content): EdgeMap {
    Cascade(edges - KeysIn(b.deletedEdges), Dropped(nodes, b)) + EdgesByKey(b.edges)
  }

  /** No queued edge would dangle. */
  predicate Acceptable(nodes: NodeMap, b: Content) {
    Linked(CommittedNodes(nodes, b).Keys, b.edges)
  }

  predicate Linked(ids: set<Id>, edges: seq<Edge>) {
    forall e :: e in edges ==> e.source in ids && e.target in ids
  }

  function PutRecords(files: map<Path, FileRecord>, list: seq<FileRecord>): map<Path, FileRecord> {
    if list == [] then files
    else PutRecords(files, list[..|list| - 1])[list[|list| - 1].path := list[|list| - 1]]
  }

  function PutIRs(irs: map<Path, FileIR>, list: seq<FileIR>): map<Path, FileIR> {
    if list == [] then irs
    else PutIRs(irs, list[..|list| - 1])[list[|list| - 1].path := list[|list| - 1]]
  }

  function CommittedFiles(files: map<Path, FileRecord>, b: Content): map<Path, FileRecord> {
    PutRecords(PutRecords(files - PathsIn(b.removed), b.touched), b.recorded)
  }

  function CommittedIRs(irs: map<Path, FileIR>, b: Content): map<Path, FileIR> {
    PutIRs(irs - PathsIn(b.removed), b.irs)
  }

  // ---------------------------------------------------------------------------------
  // The full-text index

  ghost function FtsOf(tokens: Node -> string, n: Node): FtsRow {
    FtsRow(n.id, tokens(n), n.docstring)
  }

  ghost predicate OwnsRow(rows: map<Id, Row>, r: int) {
    exists id :: id in rows && rows[id].rowid == r && rows[id].node.kind != KindExternal
  }

  /** The index rows are exactly those of the current non-external nodes, each with the
      text of the node's current value. */
  ghost predicate Indexed(rows: map<Id, Row>, fts: map<int, FtsRow>, tokens: Node -> string) {
    && RowidsUnique(rows)
    && (forall id :: id in rows && rows[id].node.kind != KindExternal ==>
          rows[id].rowid in fts && fts[rows[id].rowid] == FtsOf(tokens, rows[id].node))
    && (forall r {:trigger OwnsRow(rows, r)} :: r in fts ==> OwnsRow(rows, r))
  }

  function RowidsOf(rows: map<Id, Row>, ids: set<Id>): set<int> {
    set id | id in ids && id in rows :: rows[id].rowid
  }

  /** The row a node is written to: its own if it has one, else a row number not in use. */
  function RowFor(rows: map<Id, Row>, n: Node, free: int): int {
    if n.id in rows then rows[n.id].rowid else free
  }

  ghost function UpsertedFts(rows: map<Id, Row>, fts: map<int, FtsRow>, tokens: Node -> string, n: Node, free: int)
    : map<int, FtsRow>
  {
    if n.kind == KindExternal then fts else fts[RowFor(rows, n, free) := FtsOf(tokens, n)]
  }

  ghost predicate UnusedRow(rows: map<Id, Row>, r: int) {
    forall id :: id in rows ==> rows[id].rowid != r
  }

  /** Writing one node keeps the index exact, unless an external node takes the place of
      one that was not: then its old text stays behind. */
  lemma UpsertIndexedExactly(rows: map<Id, Row>, fts: map<int, FtsRow>, tokens: Node -> string, n: Node, free: int)
    requires Indexed(rows, fts, tokens) && UnusedRow(rows, free)
    ensures Indexed(rows[n.id := Row(RowFor(rows, n, free), n)], UpsertedFts(rows, fts, tokens, n, free), tokens)
       <==> !(n.kind == KindExternal && n.id in rows && rows[n.id].node.kind != KindExternal)
  {
    var r := RowFor(rows, n, free);
    var rows', fts' := rows[n.id := Row(r, n)], UpsertedFts(rows, fts, tokens, n, free);
    assert RowidsUnique(rows');
    if n.kind == KindExternal && n.id in rows && rows[n.id].node.kind != KindExternal {
      assert r in fts';
      assert !OwnsRow(rows', r);
    } else {
      forall q | q in fts' ensures OwnsRow(rows', q) {
        if q == r && n.kind != KindExternal {
          assert rows'[n.id].rowid == q;
        } else {
          assert OwnsRow(rows, q);
          var id :| id in rows && rows[id].rowid == q && rows[id].node.kind != KindExternal;
          assert id in rows' && rows'[id].rowid == q;
        }
      }
    }
  }

  // ---------------------------------------------------------------------------------
  // Text that is left behind

  /** The index has the text of every non-external node and no row without a node. */
  ghost predicate NearlyIndexed(rows: map<Id, Row>, fts: map<int, FtsRow>, tokens: Node -> string) {
    && RowidsUnique(rows)
    && (forall id :: id in rows && rows[id].node.kind != KindExternal ==>
          rows[id].rowid in fts && fts[rows[id].rowid] == FtsOf(tokens, rows[id].node))
    && (forall r {:trigger HasNode(rows, r)} :: r in fts ==> HasNode(rows, r))
  }

  ghost predicate HasNode(rows: map<Id, Row>, r: int) {
    exists id :: id in rows && rows[id].rowid == r
  }

  /** The external nodes that still have a text in the index. */
  ghost function LeftBehind(rows: map<Id, Row>, fts: map<int, FtsRow>): set<Id> {
    set id | id in rows && rows[id].node.kind == KindExternal && rows[id].rowid in fts
  }

  lemma ExternalOwnsNone(rows: map<Id, Row>, id: Id)
    requires RowidsUnique(rows) && id in rows && rows[id].node.kind == KindExternal
    ensures !OwnsRow(rows, rows[id].rowid)
  {
  }

  lemma IndexedNearly(rows: map<Id, Row>, fts: map<int, FtsRow>, tokens: Node -> string)
    ensures Indexed(rows, fts, tokens) <==> NearlyIndexed(rows, fts, tokens) && LeftBehind(rows, fts) == {}
  {
    if NearlyIndexed(rows, fts, tokens) && LeftBehind(rows, fts) == {} {
      forall r | r in fts ensures OwnsRow(rows, r) {
        assert HasNode(rows, r);
        var id :| id in rows && rows[id].rowid == r;
        assert id !in LeftBehind(rows, fts);
      }
    }
    if Indexed(rows, fts, tokens) {
      forall r | r in fts ensures HasNode(rows, r) {
        assert OwnsRow(rows, r);
      }
      forall id | id in rows && rows[id].node.kind == KindExternal ensures rows[id].rowid !in fts {
        ExternalOwnsNone(rows, id);
      }
    }
  }

  /** What one more node written leaves behind. */
  ghost function OneLeft(nodes: NodeMap, left: set<Id>, n: Node): set<Id> {
    if n.kind != KindExternal then left - {n.id}
    else if n.id in nodes && nodes[n.id].kind != KindExternal then left + {n.id}
    else left
  }

  lemma UpsertLeaves(rows: map<Id, Row>, fts: map<int, FtsRow>, tokens: Node -> string, n: Node, free: int)
    requires NearlyIndexed(rows, fts, tokens) && UnusedRow(rows, free)
    ensures var rows', fts' := rows[n.id := Row(RowFor(rows, n, free), n)], UpsertedFts(rows, fts, tokens, n, free);
      && NearlyIndexed(rows', fts', tokens)
      && LeftBehind(rows', fts') == OneLeft(NodesOf(rows), LeftBehind(rows, fts), n)
  {
    var r := RowFor(rows, n, free);
    var rows', fts' := rows[n.id := Row(r, n)], UpsertedFts(rows, fts, tokens, n, free);
    assert !HasNode(rows, free);
    assert RowidsUnique(rows');
    forall q | q in fts' ensures HasNode(rows', q) {
      if q == r {
        assert rows'[n.id].rowid == q;
      } else {
        assert HasNode(rows, q);
        var id :| id in rows && rows[id].rowid == q;
        assert rows'[id].rowid == q;
      }
    }
    forall id ensures id in LeftBehind(rows', fts') <==> id in OneLeft(NodesOf(rows), LeftBehind(rows, fts), n) {
    }
  }

  lemma DeleteLeaves(rows: map<Id, Row>, fts: map<int, FtsRow>, tokens: Node -> string, gone: set<Id>)
    requires NearlyIndexed(rows, fts, tokens)
    ensures var rows', fts' := rows - gone, fts - RowidsOf(rows, gone);
      NearlyIndexed(rows', fts', tokens) && LeftBehind(rows', fts') == LeftBehind(rows, fts) - gone
  {
    var rows', fts' := rows - gone, fts - RowidsOf(rows, gone);
    forall r | r in fts' ensures HasNode(rows', r) {
      assert HasNode(rows, r);
      var id :| id in rows && rows[id].rowid == r;
      assert id in gone ==> r in RowidsOf(rows, gone);
      assert id in rows' && rows'[id].rowid == r;
    }
    forall id | id in rows' ensures rows[id].rowid !in RowidsOf(rows, gone) {
    }
  }

  ghost predicate WrittenInside(list: seq<Node>, id: Id) {
    exists n :: n in list && n.id == id && n.kind != KindExternal
  }

  /** What a list of writes leaves behind: the nodes that end as external after being something
      else, in the table or earlier in the list. */
  ghost function WritesLeave(nodes: NodeMap, left: set<Id>, list: seq<Node>): set<Id> {
    set id | id in nodes + LastWins(list) && (nodes + LastWins(list))[id].kind == KindExternal
             && (id in left || (id in nodes && nodes[id].kind != KindExternal) || WrittenInside(list, id))
  }

  /** `left` holds external nodes of the table. */
  ghost predicate AreLeft(nodes: NodeMap, left: set<Id>) {
    forall id :: id in left ==> id in nodes && nodes[id].kind == KindExternal
  }

  lemma WrittenMore(list: seq<Node>, n: Node, id: Id)
    ensures WrittenInside(list + [n], id) <==> WrittenInside(list, id) || (n.id == id && n.kind != KindExternal)
  {
    assert forall x :: x in list + [n] <==> x in list || x == n;
  }

  lemma LastOrNever(list: seq<Node>, id: Id)
    ensures id !in LastWins(list) ==> !WrittenInside(list, id)
    ensures id in LastWins(list) && LastWins(list)[id].kind != KindExternal ==> WrittenInside(list, id)
  {
    LastWinsKeys(list);
  }

  lemma OneWriteAt(nodes: NodeMap, left: set<Id>, list: seq<Node>, n: Node, id: Id)
    requires AreLeft(nodes, left)
    ensures id in WritesLeave(nodes, left, list + [n])
       <==> id in OneLeft(nodes + LastWins(list), WritesLeave(nodes, left, list), n)
  {
    LastWinsAppend(list, n);
    WrittenMore(list, n, id);
    LastOrNever(list, id);
  }

  lemma OneWriteLeaves(nodes: NodeMap, left: set<Id>, list: seq<Node>, n: Node)
    requires AreLeft(nodes, left)
    ensures WritesLeave(nodes, left, list + [n])
         == OneLeft(nodes + LastWins(list), WritesLeave(nodes, left, list), n)
  {
    forall id
      ensures id in WritesLeave(nodes, left, list + [n])
         <==> id in OneLeft(nodes + LastWins(list), WritesLeave(nodes, left, list), n)
    {
      OneWriteAt(nodes, left, list, n, id);
    }
  }

  lemma NoWritesLeave(nodes: NodeMap, left: set<Id>)
    requires AreLeft(nodes, left)
    ensures WritesLeave(nodes, left, []) == left
  {
  }

  /** What a commit leaves behind. */
  ghost function CommitLeaves(nodes: NodeMap, left: set<Id>, b: Content): set<Id> {
    WritesLeave(nodes - Dropped(nodes, b), left - Dropped(nodes, b), b.nodes)
  }

  /** No node that the commit keeps or rewrites ends as external with a text from before, and
      none is written as external after being written as something else. */
  ghost predicate LeavesNothing(nodes: NodeMap, left: set<Id>, b: Content) {
    forall id :: id in CommittedNodes(nodes, b) && CommittedNodes(nodes, b)[id].kind == KindExternal ==>
      && !WrittenInside(b.nodes, id)
      && (id in nodes && id !in Dropped(nodes, b) ==> id !in left && nodes[id].kind == KindExternal)
  }

  lemma CommitLeavesExactly(nodes: NodeMap, left: set<Id>, b: Content)
    requires left <= nodes.Keys
    ensures CommitLeaves(nodes, left, b) == {} <==> LeavesNothing(nodes, left, b)
  {
    assert CommittedNodes(nodes, b) == (nodes - Dropped(nodes, b)) + LastWins(b.nodes);
    forall id ensures id in CommitLeaves(nodes, left, b) <==>
                      && id in CommittedNodes(nodes, b) && CommittedNodes(nodes, b)[id].kind == KindExternal
                      && (WrittenInside(b.nodes, id)
                          || (id in nodes && id !in Dropped(nodes, b)
                              && (id in left || nodes[id].kind != KindExternal)))
    {
    }
    if LeavesNothing(nodes, left, b) {
      assert CommitLeaves(nodes, left, b) == {};
    }
  }

  /** The index stays right over commits if whether a node is external is fixed by its ID. */
  lemma FixedByIdLeavesNothing(nodes: NodeMap, b: Content, externals: iset<Id>)
    requires AllSort(externals, nodes) && SortsAll(externals, b.nodes)
    ensures LeavesNothing(nodes, {}, b) && AllSort(externals, CommittedNodes(nodes, b))
  {
    LastWinsKeys(b.nodes);
  }

  /** Text is left behind by an external node in place of another, but not if the other is
      deleted by the same commit or comes back in it. */
  lemma ReplacingLeaves(n: Node, x: Node)
    requires n.id == x.id && n.kind != KindExternal && x.kind == KindExternal
    ensures var nodes := map[n.id := n];
      && !LeavesNothing(nodes, {}, EMPTY_CONTENT.(nodes := [x]))
      && LeavesNothing(nodes, {}, EMPTY_CONTENT.(nodes := [x, n]))
      && LeavesNothing(nodes, {}, EMPTY_CONTENT.(nodes := [x], deletedNodes := [n.id]))
  {
    var nodes := map[n.id := n];
    assert [x][..0] == [] && LastWins([x]) == map[n.id := x];
    assert [x, n][..1] == [x] && LastWins([x, n]) == map[n.id := n];
    var one, two, three := EMPTY_CONTENT.(nodes := [x]), EMPTY_CONTENT.(nodes := [x, n]),
      EMPTY_CONTENT.(nodes := [x], deletedNodes := [n.id]);
    assert Dropped(nodes, one) == {} && Dropped(nodes, two) == {};
    assert n.id in IdsIn([n.id]) && n.id in Dropped(nodes, three);
    assert CommittedNodes(nodes, one)[n.id] == x;
    assert CommittedNodes(nodes, two) == map[n.id := n];
    assert CommittedNodes(nodes, three) == map[n.id := x];
  }

  // ---------------------------------------------------------------------------------
  // Steps of the transaction, on the tables' contents

  lemma DropKeepsConsistent(nodes: NodeMap, edges: EdgeMap, gone: set<Id>)
    requires Consistent(nodes, edges)
    ensures Consistent(nodes - gone, Cascade(edges, gone))
  {
  }

  lemma NodesOfDrop(rows: map<Id, Row>, gone: set<Id>)
    ensures NodesOf(rows - gone) == NodesOf(rows) - gone
  {
  }

  lemma OwnedSplit(nodes: NodeMap, a: set<Path>, p: Path)
    ensures var once := Owned(nodes, a);
      once + Owned(nodes - once, {p}) == Owned(nodes, a + {p})
  {
  }

  lemma LessTwice<T>(s: set<T>, a: set<T>, b: set<T>)
    ensures s - a - b == s - (a + b)
  {
  }

  lemma DropTwice(nodes: NodeMap, edges: EdgeMap, a: set<Id>, b: set<Id>)
    ensures nodes - a - b == nodes - (a + b)
    ensures Cascade(Cascade(edges, a), b) == Cascade(edges, a + b)
  {
  }

  /** Deleting, purging the touched and purging the removed drops exactly `Dropped`. */
  lemma ClearInSteps(nodes: NodeMap, edges: EdgeMap, left: set<Id>, b: Content)
    ensures var d := IdsIn(b.deletedNodes);
      var n1, e1 := nodes - d, Cascade(edges, d);
      var o1 := Owned(n1, TouchedPaths(b.touched));
      var n2, e2 := n1 - o1, Cascade(e1, o1);
      var o2 := Owned(n2, PathsIn(b.removed));
      && n2 - o2 == nodes - Dropped(nodes, b) && Cascade(e2, o2) == Cascade(edges, Dropped(nodes, b))
      && left - d - o1 - o2 == left - Dropped(nodes, b)
  {
    var d := IdsIn(b.deletedNodes);
    var o1 := Owned(nodes - d, TouchedPaths(b.touched));
    var o2 := Owned(nodes - d - o1, PathsIn(b.removed));
    assert d + o1 + o2 == Dropped(nodes, b);
    DropTwice(nodes, edges, d, o1);
    DropTwice(nodes, edges, d + o1, o2);
    LessTwice(left, d, o1);
    LessTwice(left, d + o1, o2);
  }

  lemma DeleteEdgesKeepsConsistent(nodes: NodeMap, edges: EdgeMap, keys: set<EdgeKey>)
    requires Consistent(nodes, edges)
    ensures Consistent(nodes, edges - keys)
  {
  }

  lemma LastWinsAppend(nodes: seq<Node>, n: Node)
    ensures LastWins(nodes + [n]) == LastWins(nodes)[n.id := n]
  {
    assert (nodes + [n])[..|nodes|] == nodes;
  }

  lemma EdgesByKeyAppend(edges: seq<Edge>, e: Edge)
    ensures EdgesByKey(edges + [e]) == EdgesByKey(edges)[KeyOf(e) := Normalize(e)]
  {
    assert (edges + [e])[..|edges|] == edges;
  }

  ghost predicate HasKey(e: Edge, k: EdgeKey) {
    e.source == k.source && e.target == k.target && e.kind == k.kind && e.line == k.line
  }

  ghost predicate Names(list: seq<Edge>, k: EdgeKey) {
    exists e :: e in list && HasKey(e, k)
  }

  ghost predicate LastFor(list: seq<Edge>, k: EdgeKey, i: nat) {
    i < |list| && HasKey(list[i], k) && forall j :: i < j < |list| ==> !HasKey(list[j], k)
  }

  /** The row of an edge: the edge itself, but for a candidate count that is not given. */
  ghost predicate StoredAs(e: Edge, row: Edge) {
    && row.source == e.source && row.target == e.target && row.kind == e.kind && row.line == e.line
    && row.confidence == e.confidence
    && (e.candidateCount != 0 ==> row.candidateCount == e.candidateCount)
    && (e.candidateCount == 0 ==> row.candidateCount == 1)
  }

  ghost predicate RowFrom(list: seq<Edge>, k: EdgeKey, row: Edge) {
    exists i: nat :: LastFor(list, k, i) && StoredAs(list[i], row)
  }

  /** The table of a list of edges: a row for every key, from the last edge that has it. */
  ghost predicate TableOf(list: seq<Edge>, table: EdgeMap) {
    forall k :: (k in table <==> Names(list, k)) && (k in table ==> RowFrom(list, k, table[k]))
  }

  lemma {:induction false} RowOfKey(list: seq<Edge>, k: EdgeKey)
    ensures k in EdgesByKey(list) <==> Names(list, k)
    ensures k in EdgesByKey(list) ==> RowFrom(list, k, EdgesByKey(list)[k])
  {
    if list != [] {
      var init, last := list[..|list| - 1], list[|list| - 1];
      RowOfKey(init, k);
      assert list == init + [last];
      assert forall e :: e in list <==> e in init || e == last;
      if HasKey(last, k) {
        assert KeyOf(last) == k && LastFor(list, k, |list| - 1);
      } else if k in EdgesByKey(init) {
        var i: nat :| LastFor(init, k, i) && StoredAs(init[i], EdgesByKey(init)[k]);
        assert LastFor(list, k, i);
      }
    }
  }

  lemma EdgesByKeyExactly(list: seq<Edge>, table: EdgeMap)
    ensures table == EdgesByKey(list) <==> TableOf(list, table)
  {
    forall k
      ensures k in EdgesByKey(list) <==> Names(list, k)
      ensures k in EdgesByKey(list) ==> RowFrom(list, k, EdgesByKey(list)[k])
    {
      RowOfKey(list, k);
    }
    if TableOf(list, table) {
      forall k | k in table ensures table[k] == EdgesByKey(list)[k] {
        var i: nat :| LastFor(list, k, i) && StoredAs(list[i], table[k]);
        var j: nat :| LastFor(list, k, j) && StoredAs(list[j], EdgesByKey(list)[k]);
        assert i == j;
      }
    }
  }

  /** What a commit does to the edge table, key by key. */
  ghost predicate EdgesWritten(nodes: NodeMap, before: EdgeMap, b: Content, after: EdgeMap) {
    forall k ::
      if Names(b.edges, k) then k in after && RowFrom(b.edges, k, after[k])
      else
        var stays := k in before && !Names(b.deletedEdges, k)
                     && k.source !in Dropped(nodes, b) && k.target !in Dropped(nodes, b);
        (k in after <==> stays) && (k in after ==> after[k] == before[k])
  }

  lemma CommittedEdgesMean(nodes: NodeMap, edges: EdgeMap, b: Content)
    ensures EdgesWritten(nodes, edges, b, CommittedEdges(nodes, edges, b))
  {
    EdgesByKeyExactly(b.edges, EdgesByKey(b.edges));
    forall k ensures k in KeysIn(b.deletedEdges) <==> Names(b.deletedEdges, k) {
      if e :| e in b.deletedEdges && HasKey(e, k) {
        assert KeyOf(e) == k;
      }
    }
  }

  /** Externality is fixed by the ID: `externals` are the IDs of external nodes. */
  ghost predicate Sorts(externals: iset<Id>, n: Node) {
    n.kind == KindExternal <==> n.id in externals
  }

  ghost predicate SortsAll(externals: iset<Id>, nodes: seq<Node>) {
    forall n :: n in nodes ==> Sorts(externals, n)
  }

  lemma MinusTwice<K, V>(m: map<K, V>, a: set<K>, b: set<K>)
    ensures m - a - b == m - (a + b)
  {
  }

  lemma MergePut<K, V>(a: map<K, V>, b: map<K, V>, k: K, v: V)
    ensures (a + b)[k := v] == a + b[k := v]
  {
  }

  lemma PutRow(rows: map<Id, Row>, n: Node, r: int)
    requires RowidsUnique(rows) && (if n.id in rows then rows[n.id].rowid == r else UnusedRow(rows, r))
    ensures NodesOf(rows[n.id := Row(r, n)]) == NodesOf(rows)[n.id := n]
    ensures RowidsUnique(rows[n.id := Row(r, n)])
  {
  }

  lemma OneMoreEdge(before: EdgeMap, ids: set<Id>, list: seq<Edge>, i: nat)
    requires i < |list| && Linked(ids, list[..i]) && list[i].source in ids && list[i].target in ids
    ensures Linked(ids, list[..i + 1])
    ensures (before + EdgesByKey(list[..i]))[KeyOf(list[i]) := Normalize(list[i])] == before + EdgesByKey(list[..i + 1])
  {
    assert list[..i + 1] == list[..i] + [list[i]];
    EdgesByKeyAppend(list[..i], list[i]);
    MergePut(before, EdgesByKey(list[..i]), KeyOf(list[i]), Normalize(list[i]));
  }

  lemma PutKeepsConsistent(nodes: NodeMap, edges: EdgeMap, n: Node)
    requires Consistent(nodes, edges)
    ensures Consistent(nodes[n.id := n], edges)
  {
  }

  lemma PutEdgeKeepsConsistent(nodes: NodeMap, edges: EdgeMap, e: Edge)
    requires Consistent(nodes, edges) && e.source in nodes && e.target in nodes
    ensures Consistent(nodes, edges[KeyOf(e) := Normalize(e)])
  {
  }

  ghost predicate AllSort(externals: iset<Id>, nodes: NodeMap) {
    forall id :: id in nodes ==> nodes[id].id == id && Sorts(externals, nodes[id])
  }

  // ---------------------------------------------------------------------------------

  class Store {
    var rows: map<Id, Row>
    var edges: EdgeMap
    var fts: map<int, FtsRow>
    var files: map<Path, FileRecord>
    var irs: map<Path, FileIR>
    /** The value under the meta key `ir_version`; "" when there is none. */
    var irVersion: string
    const tokens: Node -> string

    function Nodes(): NodeMap
      reads this`rows
    {
      NodesOf(rows)
    }

    /** Keys and foreign keys hold, and no text is missing from the index. */
    ghost predicate Valid()
      reads this`rows, this`edges, this`fts
    {
      Consistent(Nodes(), edges) && NearlyIndexed(rows, fts, tokens)
    }

    /** The external nodes whose old text is still in the index. */
    ghost function Left(): set<Id>
      reads this`rows, this`fts
    {
      LeftBehind(rows, fts)
    }

    /** The text index holds exactly the texts of the nodes that are not external. */
    ghost predicate IndexRight()
      reads this`rows, this`fts
    {
      Indexed(rows, fts, tokens)
    }

    /** ... and whether a node is external is fixed by its ID. */
    ghost predicate IndexOk(externals: iset<Id>)
      reads this`rows, this`fts
    {
      IndexRight() && AllSort(externals, Nodes())
    }

    constructor (tokens: Node -> string)
      ensures this.tokens == tokens
      ensures Nodes() == map[] && edges == map[] && files == map[] && irs == map[] && irVersion == ""
      ensures Valid() && forall externals :: IndexOk(externals)
    {
      this.tokens := tokens;
      rows, edges, fts, files, irs, irVersion := map[], map[], map[], map[], map[], "";
    }

    method DeleteEdges(list: seq<Edge>)
      modifies this`edges
      ensures edges == old(edges) - KeysIn(list)
    {
      for i := 0 to |list|
        invariant edges == old(edges) - KeysIn(list[..i])
      {
        assert KeysIn(list[..i + 1]) == KeysIn(list[..i]) + {KeyOf(list[i])};
        edges := edges - {KeyOf(list[i])};
      }
      assert list[..|list|] == list;
    }

    /** Removes rows with their index text; the edges go with them. */
    method Remove(gone: set<Id>)
      requires Valid()
      modifies this`rows, this`fts, this`edges
      ensures Nodes() == old(Nodes()) - gone && edges == Cascade(old(edges), gone)
      ensures Valid()
      ensures Left() == old(Left()) - gone
    {
      NodesOfDrop(rows, gone);
      DropKeepsConsistent(Nodes(), edges, gone);
      DeleteLeaves(rows, fts, tokens, gone);
      fts := fts - RowidsOf(rows, gone);
      rows := rows - gone;
      edges := Cascade(edges, gone);
    }

    method DeleteNodes(ids: seq<Id>)
      requires Valid()
      modifies this`rows, this`fts, this`edges
      ensures Nodes() == old(Nodes()) - IdsIn(ids) && edges == Cascade(old(edges), IdsIn(ids))
      ensures Valid()
      ensures Left() == old(Left()) - IdsIn(ids)
    {
      assert Nodes() - {} == Nodes() && Cascade(edges, {}) == edges;
      for i := 0 to |ids|
        invariant Nodes() == old(Nodes()) - IdsIn(ids[..i]) && edges == Cascade(old(edges), IdsIn(ids[..i]))
        invariant Valid()
        invariant Left() == old(Left()) - IdsIn(ids[..i])
      {
        assert IdsIn(ids[..i + 1]) == IdsIn(ids[..i]) + {ids[i]};
        DropTwice(old(Nodes()), old(edges), IdsIn(ids[..i]), {ids[i]});
        LessTwice(old(Left()), IdsIn(ids[..i]), {ids[i]});
        Remove({ids[i]});
      }
      assert ids[..|ids|] == ids;
    }

    method PurgeFile(path: Path)
      requires Valid()
      modifies this`rows, this`fts, this`edges
      ensures Nodes() == old(Nodes()) - Owned(old(Nodes()), {path})
      ensures edges == Cascade(old(edges), Owned(old(Nodes()), {path}))
      ensures Valid()
      ensures Left() == old(Left()) - Owned(old(Nodes()), {path})
    {
      Remove(Owned(Nodes(), {path}));
    }

    /** The first purge of a commit: files indexed again. */
    method PurgeTouched(list: seq<FileRecord>)
      requires Valid()
      modifies this`rows, this`fts, this`edges
      ensures Nodes() == old(Nodes()) - Owned(old(Nodes()), TouchedPaths(list))
      ensures edges == Cascade(old(edges), Owned(old(Nodes()), TouchedPaths(list)))
      ensures Valid()
      ensures Left() == old(Left()) - Owned(old(Nodes()), TouchedPaths(list))
    {
      ghost var nodes0, edges0 := Nodes(), edges;
      assert Owned(nodes0, {}) == {} && nodes0 - {} == nodes0 && Cascade(edges0, {}) == edges0;
      assert TouchedPaths(list[..0]) == {};
      for i := 0 to |list|
        invariant Nodes() == nodes0 - Owned(nodes0, TouchedPaths(list[..i]))
        invariant edges == Cascade(edges0, Owned(nodes0, TouchedPaths(list[..i])))
        invariant Valid()
        invariant Left() == old(Left()) - Owned(nodes0, TouchedPaths(list[..i]))
      {
        ghost var a := TouchedPaths(list[..i]);
        assert TouchedPaths(list[..i + 1]) == a + {list[i].path};
        OwnedSplit(nodes0, a, list[i].path);
        DropTwice(nodes0, edges0, Owned(nodes0, a), Owned(Nodes(), {list[i].path}));
        PurgeFile(list[i].path);
      }
      assert list[..|list|] == list;
    }

    /** The second: files gone from disk, whose records and parses are forgotten too. */
    method RemoveFiles(list: seq<Path>)
      requires Valid()
      modifies this`rows, this`fts, this`edges, this`files, this`irs
      ensures Nodes() == old(Nodes()) - Owned(old(Nodes()), PathsIn(list))
      ensures edges == Cascade(old(edges), Owned(old(Nodes()), PathsIn(list)))
      ensures files == old(files) - PathsIn(list) && irs == old(irs) - PathsIn(list)
      ensures Valid()
      ensures Left() == old(Left()) - Owned(old(Nodes()), PathsIn(list))
    {
      ghost var nodes0, edges0 := Nodes(), edges;
      assert Owned(nodes0, {}) == {} && nodes0 - {} == nodes0 && Cascade(edges0, {}) == edges0;
      assert PathsIn(list[..0]) == {};
      for i := 0 to |list|
        invariant Nodes() == nodes0 - Owned(nodes0, PathsIn(list[..i]))
        invariant edges == Cascade(edges0, Owned(nodes0, PathsIn(list[..i])))
        invariant files == old(files) - PathsIn(list[..i]) && irs == old(irs) - PathsIn(list[..i])
        invariant Valid()
        invariant Left() == old(Left()) - Owned(nodes0, PathsIn(list[..i]))
      {
        ghost var a := PathsIn(list[..i]);
        assert PathsIn(list[..i + 1]) == a + {list[i]};
        OwnedSplit(nodes0, a, list[i]);
        DropTwice(nodes0, edges0, Owned(nodes0, a), Owned(Nodes(), {list[i]}));
        MinusTwice(old(files), a, {list[i]});
        MinusTwice(old(irs), a, {list[i]});
        PurgeFile(list[i]);
        files := files - {list[i]};
        irs := irs - {list[i]};
      }
      assert list[..|list|] == list;
    }

    /** Everything a commit deletes, in its order. */
    method Clear(b: Batch)
      requires Valid()
      modifies this`rows, this`fts, this`edges, this`files, this`irs
      ensures Nodes() == old(Nodes()) - Dropped(old(Nodes()), b.Content())
      ensures edges == Cascade(old(edges) - KeysIn(b.deletedEdges), Dropped(old(Nodes()), b.Content()))
      ensures files == old(files) - PathsIn(b.removed) && irs == old(irs) - PathsIn(b.removed)
      ensures Valid()
      ensures Left() == old(Left()) - Dropped(old(Nodes()), b.Content())
    {
      DeleteEdgesKeepsConsistent(Nodes(), edges, KeysIn(b.deletedEdges));
      DeleteEdges(b.deletedEdges);
      ClearNodes(b);
    }

    method ClearNodes(b: Batch)
      requires Valid()
      modifies this`rows, this`fts, this`edges, this`files, this`irs
      ensures Nodes() == old(Nodes()) - Dropped(old(Nodes()), b.Content())
      ensures edges == Cascade(old(edges), Dropped(old(Nodes()), b.Content()))
      ensures files == old(files) - PathsIn(b.removed) && irs == old(irs) - PathsIn(b.removed)
      ensures Valid()
      ensures Left() == old(Left()) - Dropped(old(Nodes()), b.Content())
    {
      ClearInSteps(Nodes(), edges, Left(), b.Content());
      DeleteNodes(b.deletedNodes);
      PurgeTouched(b.touched);
      RemoveFiles(b.removed);
    }

    /** Everything a commit writes, in its order. */
    method Write(b: Batch) returns (ok: bool)
      requires Valid()
      modifies this`rows, this`fts, this`edges, this`files, this`irs
      ensures ok <==> Linked((old(Nodes()) + LastWins(b.nodes)).Keys, b.edges)
      ensures ok ==> Nodes() == old(Nodes()) + LastWins(b.nodes) && edges == old(edges) + EdgesByKey(b.edges)
      ensures ok ==> files == PutRecords(PutRecords(old(files), b.touched), b.recorded)
      ensures ok ==> irs == PutIRs(old(irs), b.irs)
      ensures ok ==> Valid()
      ensures ok ==> Left() == WritesLeave(old(Nodes()), old(Left()), b.nodes)
    {
      InsertNodes(b.nodes);
      ok := InsertEdges(b.edges);
      assert rows.Keys == Nodes().Keys;
      if ok {
        PutTables(b);
      }
    }

    method PutTables(b: Batch)
      modifies this`files, this`irs
      ensures files == PutRecords(PutRecords(old(files), b.touched), b.recorded) && irs == PutIRs(old(irs), b.irs)
    {
      PutFiles(b.touched);
      PutFiles(b.recorded);
      PutParses(b.irs);
    }

    /** Writes the whole batch, or nothing. */
    method Apply(b: Batch) returns (ok: bool)
      requires Valid()
      modifies this`rows, this`fts, this`edges, this`files, this`irs
      ensures ok <==> Acceptable(old(Nodes()), b.Content())
      ensures ok ==> Nodes() == CommittedNodes(old(Nodes()), b.Content())
      ensures ok ==> edges == CommittedEdges(old(Nodes()), old(edges), b.Content())
      ensures ok ==> files == CommittedFiles(old(files), b.Content())
      ensures ok ==> irs == CommittedIRs(old(irs), b.Content())
      ensures ok ==> Left() == CommitLeaves(old(Nodes()), old(Left()), b.Content())
      ensures !ok ==> unchanged(this)
      ensures Valid()
    {
      var saved := Tables(rows, edges, fts, files, irs);
      Clear(b);
      ok := Write(b);
      if !ok {
        rows, edges, fts, files, irs := saved.rows, saved.edges, saved.fts, saved.files, saved.irs;
      }
    }

    /** One transaction; the text index is right after it exactly if it leaves nothing behind. */
    method Commit(b: Batch) returns (ok: bool)
      requires Valid()
      modifies this`rows, this`fts, this`edges, this`files, this`irs
      ensures ok <==> Acceptable(old(Nodes()), b.Content())
      ensures ok ==> Nodes() == CommittedNodes(old(Nodes()), b.Content())
      ensures ok ==> edges == CommittedEdges(old(Nodes()), old(edges), b.Content())
      ensures ok ==> EdgesWritten(old(Nodes()), old(edges), b.Content(), edges)
      ensures ok ==> files == CommittedFiles(old(files), b.Content())
      ensures ok ==> irs == CommittedIRs(old(irs), b.Content())
      ensures ok ==> Left() == CommitLeaves(old(Nodes()), old(Left()), b.Content())
      ensures ok ==> (IndexRight() <==> LeavesNothing(old(Nodes()), old(Left()), b.Content()))
      ensures !ok ==> unchanged(this)
      ensures Valid()
    {
      CommitLeavesExactly(Nodes(), Left(), b.Content());
      CommittedEdgesMean(Nodes(), edges, b.Content());
      ok := Apply(b);
      IndexedNearly(rows, fts, tokens);
    }

    /** Writes the nodes in order, each with its index text unless it is external. */
    method InsertNodes(nodes: seq<Node>)
      requires Valid()
      modifies this`rows, this`fts
      ensures Nodes() == old(Nodes()) + LastWins(nodes)
      ensures Valid() && Left() == WritesLeave(old(Nodes()), old(Left()), nodes)
    {
      ghost var before, left := Nodes(), Left();
      NoWritesLeave(before, left);
      assert nodes[..0] == [];
      for i := 0 to |nodes|
        invariant Nodes() == before + LastWins(nodes[..i])
        invariant Valid() && Left() == WritesLeave(before, left, nodes[..i])
      {
        assert nodes[..i + 1] == nodes[..i] + [nodes[i]];
        LastWinsAppend(nodes[..i], nodes[i]);
        MergePut(before, LastWins(nodes[..i]), nodes[i].id, nodes[i]);
        OneWriteLeaves(before, left, nodes[..i], nodes[i]);
        InsertNode(nodes[i]);
      }
      assert nodes[..|nodes|] == nodes;
    }

    method InsertNode(n: Node)
      requires Valid()
      modifies this`rows, this`fts
      ensures Nodes() == old(Nodes())[n.id := n]
      ensures forall id :: id in old(rows) && id != n.id ==> id in rows && rows[id] == old(rows)[id]
      ensures n.id in rows && rows[n.id].node == n
      ensures if n.id in old(rows) then rows[n.id].rowid == old(rows)[n.id].rowid
              else UnusedRow(old(rows), rows[n.id].rowid)
      ensures n.kind != KindExternal ==>
                rows[n.id].rowid in fts && fts[rows[n.id].rowid] == FtsRow(n.id, tokens(n), n.docstring)
      ensures Valid() && Left() == OneLeft(old(Nodes()), old(Left()), n)
    {
      var free := UnusedRowid(rows);
      var r := RowFor(rows, n, free);
      PutRow(rows, n, r);
      PutKeepsConsistent(Nodes(), edges, n);
      UpsertLeaves(rows, fts, tokens, n, free);
      var texts := fts;
      if n.kind != KindExternal {
        texts := texts - {r};
        texts := texts[r := FtsRow(n.id, tokens(n), n.docstring)];
      }
      assert texts == UpsertedFts(rows, fts, tokens, n, free);
      rows, fts := rows[n.id := Row(r, n)], texts;
    }

    /** Writes the edges in order; stops at the first that would dangle. */
    method InsertEdges(list: seq<Edge>) returns (ok: bool)
      requires Valid()
      modifies this`edges
      ensures ok <==> Linked(rows.Keys, list)
      ensures ok ==> edges == old(edges) + EdgesByKey(list) && Valid()
      ensures ok ==> exists table :: TableOf(list, table) && edges == old(edges) + table
    {
      ghost var before := edges;
      for i := 0 to |list|
        invariant Linked(rows.Keys, list[..i])
        invariant edges == before + EdgesByKey(list[..i]) && Consistent(Nodes(), edges)
      {
        var e := list[i];
        if e.source !in rows || e.target !in rows {
          assert e in list;
          return false;
        }
        OneMoreEdge(before, rows.Keys, list, i);
        PutEdgeKeepsConsistent(Nodes(), edges, e);
        var count := if e.candidateCount == 0 then 1 else e.candidateCount;
        edges := edges[EdgeKey(e.source, e.target, e.kind, e.line) := e.(candidateCount := count)];
      }
      assert list[..|list|] == list;
      EdgesByKeyExactly(list, EdgesByKey(list));
      ok := true;
    }

    method PutFiles(list: seq<FileRecord>)
      modifies this`files
      ensures files == PutRecords(old(files), list)
    {
      for i := 0 to |list|
        invariant files == PutRecords(old(files), list[..i])
      {
        assert list[..i + 1][..i] == list[..i];
        files := files[list[i].path := list[i]];
      }
      assert list[..|list|] == list;
    }

    method PutParses(list: seq<FileIR>)
      modifies this`irs
      ensures irs == PutIRs(old(irs), list)
    {
      for i := 0 to |list|
        invariant irs == PutIRs(old(irs), list[..i])
      {
        assert list[..i + 1][..i] == list[..i];
        irs := irs[list[i].path := list[i]];
      }
      assert list[..|list|] == list;
    }
  }

  /** Some row number no node uses; numbers of deleted rows may come up again. */
  method UnusedRowid(rows: map<Id, Row>) returns (free: int)
    ensures UnusedRow(rows, free)
  {
    free := 1;
    var todo := rows.Keys;
    while todo != {}
      invariant todo <= rows.Keys
      invariant forall id :: id in rows && id !in todo ==> rows[id].rowid < free
      decreases todo
    {
      var id :| id in todo;
      todo := todo - {id};
      if rows[id].rowid >= free {
        free := rows[id].rowid + 1;
      }
    }
  }
}
