/** The code graph held in memory: nodes, edges and the two adjacency lists. */
module CodeGraph {
  import opened Digraph

  type Id = string

  /** Edges between nodes, as a relation. */
  type Rel = set<(Id, Id)>

  datatype Option<+T> = None | Some(value: T)

  datatype NodeKind =
    | KindFile | KindModule | KindClass | KindInterface
    | KindFunction | KindMethod | KindPackage | KindExternal

  datatype EdgeKind =
    | EdgeContains | EdgeImports | EdgeCalls | EdgeInherits | EdgeImplements
    | EdgeOverrides | EdgeReferences | EdgeDecorates | EdgeDependsOn

  datatype Confidence = ConfExact | ConfAmbiguous | ConfNameMatch | ConfUnknown

  datatype EntrypointKind =
    | EntryNone | EntryMain | EntryRoute | EntryCLI | EntryHandler | EntryFixture

  datatype Visibility = VisUnset | VisExported | VisPrivate

  datatype Node = Node(
    id: Id, kind: NodeKind, name: string, qualifiedName: string, filePath: string,
    startLine: int, endLine: int, startByte: int, endByte: int, language: string,
    signature: string, docstring: string, isTest: bool, isEntrypoint: bool,
    entrypointKind: EntrypointKind, visibility: Visibility)

  datatype Edge = Edge(
    source: Id, target: Id, kind: EdgeKind, line: int,
    confidence: Confidence, candidateCount: int)

  /** The map built by storing the nodes in order: the last one with an ID wins. */
  function LastWins(nodes: seq<Node>): map<Id, Node> {
    if nodes == [] then map[]
    else LastWins(nodes[..|nodes| - 1])[nodes[|nodes| - 1].id := nodes[|nodes| - 1]]
  }

  lemma {:induction false} LastWinsKeys(nodes: seq<Node>)
    ensures forall id :: id in LastWins(nodes) ==> LastWins(nodes)[id].id == id && LastWins(nodes)[id] in nodes
    ensures forall n :: n in nodes ==> n.id in LastWins(nodes)
  {
    if nodes != [] {
      LastWinsKeys(nodes[..|nodes| - 1]);
      assert nodes == nodes[..|nodes| - 1] + [nodes[|nodes| - 1]];
    }
  }

  function Leaving(edges: seq<Edge>, id: Id): seq<Edge> {
    if edges == [] then []
    else
      var e := edges[|edges| - 1];
      Leaving(edges[..|edges| - 1], id) + if e.source == id then [e] else []
  }

  function Entering(edges: seq<Edge>, id: Id): seq<Edge> {
    if edges == [] then []
    else
      var e := edges[|edges| - 1];
      Entering(edges[..|edges| - 1], id) + if e.target == id then [e] else []
  }

  lemma {:induction false} LeavingMembers(edges: seq<Edge>, id: Id)
    ensures forall e :: e in Leaving(edges, id) <==> e in edges && e.source == id
    ensures forall e :: e in Entering(edges, id) <==> e in edges && e.target == id
  {
    if edges != [] {
      LeavingMembers(edges[..|edges| - 1], id);
      assert edges == edges[..|edges| - 1] + [edges[|edges| - 1]];
    }
  }

  lemma LeavingAppend(edges: seq<Edge>, e: Edge, id: Id)
    ensures Leaving(edges + [e], id) == Leaving(edges, id) + if e.source == id then [e] else []
    ensures Entering(edges + [e], id) == Entering(edges, id) + if e.target == id then [e] else []
  {
    assert (edges + [e])[..|edges|] == edges;
  }

  /** The edges of the given kinds, as a relation on node IDs. */
  ghost function KindRel(edges: seq<Edge>, kinds: set<EdgeKind>): (R: Rel)
    ensures forall x, y :: (x, y) in R <==>
              exists e :: e in edges && e.kind in kinds && e.source == x && e.target == y
  {
    set e | e in edges && e.kind in kinds :: (e.source, e.target)
  }

  /** Every edge of the graph joins two known nodes. */
  ghost predicate EndpointClosed(nodes: map<Id, Node>, edges: seq<Edge>) {
    forall e :: e in edges ==> e.source in nodes && e.target in nodes
  }

  /** A missing key of an adjacency map reads as the empty list. */
  function Lookup(lists: map<Id, seq<Edge>>, id: Id): seq<Edge> {
    if id in lists then lists[id] else []
  }

  ghost predicate FiledOut(out: map<Id, seq<Edge>>, edges: seq<Edge>) {
    && (forall id :: Lookup(out, id) == Leaving(edges, id))
    && (forall id :: id in out ==> out[id] != [])
  }

  ghost predicate FiledInto(into: map<Id, seq<Edge>>, edges: seq<Edge>) {
    && (forall id :: Lookup(into, id) == Entering(edges, id))
    && (forall id :: id in into ==> into[id] != [])
  }

  lemma FileEdge(out: map<Id, seq<Edge>>, into: map<Id, seq<Edge>>, edges: seq<Edge>, e: Edge)
    requires FiledOut(out, edges) && FiledInto(into, edges)
    ensures FiledOut(out[e.source := Lookup(out, e.source) + [e]], edges + [e])
    ensures FiledInto(into[e.target := Lookup(into, e.target) + [e]], edges + [e])
  {
    forall id
      ensures Lookup(out[e.source := Lookup(out, e.source) + [e]], id) == Leaving(edges + [e], id)
      ensures Lookup(into[e.target := Lookup(into, e.target) + [e]], id) == Entering(edges + [e], id)
    {
      LeavingAppend(edges, e, id);
    }
  }

  class Graph {
    var nodes: map<Id, Node>
    var out: map<Id, seq<Edge>>
    var into: map<Id, seq<Edge>>
    ghost var edges: seq<Edge>

    ghost predicate Valid()
      reads this
    {
      && (forall id :: id in nodes ==> nodes[id].id == id)
      && FiledOut(out, edges) && FiledInto(into, edges)
    }

    constructor (nodeList: seq<Node>, edgeList: seq<Edge>)
      ensures Valid()
      ensures nodes == LastWins(nodeList) && edges == edgeList
    {
      var known: map<Id, Node> := map[];
      for i := 0 to |nodeList|
        invariant known == LastWins(nodeList[..i])
      {
        assert nodeList[..i + 1][..i] == nodeList[..i];
        known := known[nodeList[i].id := nodeList[i]];
      }
      assert nodeList[..|nodeList|] == nodeList;
      var leaving: map<Id, seq<Edge>>, entering: map<Id, seq<Edge>> := map[], map[];
      for i := 0 to |edgeList|
        invariant FiledOut(leaving, edgeList[..i]) && FiledInto(entering, edgeList[..i])
      {
        var e := edgeList[i];
        assert edgeList[..i + 1] == edgeList[..i] + [e];
        FileEdge(leaving, entering, edgeList[..i], e);
        leaving := leaving[e.source := Lookup(leaving, e.source) + [e]];
        entering := entering[e.target := Lookup(entering, e.target) + [e]];
      }
      assert edgeList[..|edgeList|] == edgeList;
      LastWinsKeys(nodeList);
      nodes, out, into, edges := known, leaving, entering, edgeList;
    }

    method EdgeCount() returns (count: nat)
      requires Valid()
      ensures count == |edges|
    {
      count := 0;
      var todo := out.Keys;
      ghost var summed: set<Id> := {};
      LeavingAnyNone(edges);
      while todo != {}
        invariant summed !! todo && summed + todo == out.Keys
        invariant count == |LeavingAny(edges, summed)|
        decreases |todo|
      {
        var id :| id in todo;
        LeavingAnyGrows(edges, summed, id);
        count := count + |out[id]|;
        todo := todo - {id};
        summed := summed + {id};
      }
      forall e | e in edges ensures e.source in summed {
        LeavingMembers(edges, e.source);
        assert e in Lookup(out, e.source);
      }
      LeavingAnyAll(edges, summed);
    }
  }

  ghost function LeavingAny(edges: seq<Edge>, S: set<Id>): seq<Edge> {
    if edges == [] then []
    else
      var e := edges[|edges| - 1];
      LeavingAny(edges[..|edges| - 1], S) + if e.source in S then [e] else []
  }

  lemma LeavingAnyNone(edges: seq<Edge>)
    ensures LeavingAny(edges, {}) == []
  {
  }

  lemma {:induction false} LeavingAnyGrows(edges: seq<Edge>, S: set<Id>, id: Id)
    requires id !in S
    ensures |LeavingAny(edges, S + {id})| == |LeavingAny(edges, S)| + |Leaving(edges, id)|
  {
    if edges != [] {
      LeavingAnyGrows(edges[..|edges| - 1], S, id);
    }
  }

  lemma {:induction false} LeavingAnyAll(edges: seq<Edge>, S: set<Id>)
    requires forall e :: e in edges ==> e.source in S
    ensures LeavingAny(edges, S) == edges
  {
    if edges != [] {
      assert edges[|edges| - 1] in edges;
      LeavingAnyAll(edges[..|edges| - 1], S);
      assert edges == edges[..|edges| - 1] + [edges[|edges| - 1]];
    }
  }

  /** Each edge is filed under its own source and its own target as often as it was
      given, and nowhere else. */
  lemma {:induction false} FiledOnce(edges: seq<Edge>, e: Edge, id: Id)
    ensures multiset(Leaving(edges, id))[e] == if e.source == id then multiset(edges)[e] else 0
    ensures multiset(Entering(edges, id))[e] == if e.target == id then multiset(edges)[e] else 0
  {
    if edges != [] {
      var init, last := edges[..|edges| - 1], edges[|edges| - 1];
      FiledOnce(init, e, id);
      assert edges == init + [last];
      LeavingAppend(init, last, id);
    }
  }
}
