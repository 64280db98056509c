/** Turning references into edges: tiers of lookup, structural interfaces, deduplication. */
module Resolver {
  import opened Orders
  import opened CodeGraph
  import opened Text
  import opened Hierarchy
  import opened NameIndex
  import opened ReceiverTypes
  import Store = GraphStore
  import Diff = GraphDiff

  const EXTERNAL := "external:"

  function ExternalNode(name: string): Node {
    Node(EXTERNAL + name, KindExternal, name, name, "", 0, 0, 0, 0, "", "", "", false, false, EntryNone, VisExported)
  }

  datatype Counts = Counts(total: nat, exact: nat, ambiguous: nat, nameMatch: nat, unknown: nat)

  /** One more reference under the heading of its confidence. */
  function Bumped(c: Counts, conf: Confidence): Counts {
    match conf
    case ConfExact => c.(total := c.total + 1, exact := c.exact + 1)
    case ConfAmbiguous => c.(total := c.total + 1, ambiguous := c.ambiguous + 1)
    case ConfNameMatch => c.(total := c.total + 1, nameMatch := c.nameMatch + 1)
    case ConfUnknown => c.(total := c.total + 1, unknown := c.unknown + 1)
  }

  /** One pass over all files: the external nodes made so far and the counts of references
      by how they were resolved. */
  class Pass {
    var seen: set<Id>
    var extNodes: seq<Node>
    var totalRefs: nat
    var exact: nat
    var ambiguous: nat
    var nameMatch: nat
    var unknown: nat

    /** One node per external name, and every reference counted under one heading. */
    ghost predicate Valid()
      reads this
    {
      && ExternalsOk(seen, extNodes)
      && totalRefs == exact + ambiguous + nameMatch + unknown
    }

    function Tally(): Counts
      reads this
    {
      Counts(totalRefs, exact, ambiguous, nameMatch, unknown)
    }

    constructor ()
      ensures Valid() && extNodes == [] && Tally() == Counts(0, 0, 0, 0, 0)
    {
      seen, extNodes := {}, [];
      totalRefs, exact, ambiguous, nameMatch, unknown := 0, 0, 0, 0, 0;
    }

    method ExtNode(name: string) returns (id: Id)
      requires Valid()
      modifies this`seen, this`extNodes
      ensures Valid() && old(extNodes) <= extNodes
      ensures id == EXTERNAL + name && IdsOf(extNodes) == IdsOf(old(extNodes)) + {id}
    {
      id := EXTERNAL + name;
      ExternalsGrow(seen, extNodes, name);
      if id !in seen {
        seen := seen + {id};
        extNodes := extNodes + [ExternalNode(name)];
        assert seen == IdsOf(extNodes);
      }
    }

    method Count(conf: Confidence)
      requires Valid()
      modifies this`totalRefs, this`exact, this`ambiguous, this`nameMatch, this`unknown
      ensures Valid() && Tally() == Bumped(old(Tally()), conf)
    {
      totalRefs := totalRefs + 1;
      match conf
      case ConfExact => exact := exact + 1;
      case ConfAmbiguous => ambiguous := ambiguous + 1;
      case ConfNameMatch => nameMatch := nameMatch + 1;
      case ConfUnknown => unknown := unknown + 1;
    }
  }

  ghost predicate ExternalsOk(seen: set<Id>, extNodes: seq<Node>) {
    && seen == IdsOf(extNodes)
    && (forall n :: n in extNodes ==> n == ExternalNode(n.name))
    && (forall i, j :: 0 <= i < j < |extNodes| ==> extNodes[i].id != extNodes[j].id)
  }

  lemma ExternalsGrow(seen: set<Id>, extNodes: seq<Node>, name: string)
    requires ExternalsOk(seen, extNodes)
    ensures EXTERNAL + name !in seen ==> ExternalsOk(seen + {EXTERNAL + name}, extNodes + [ExternalNode(name)])
  {
    var n := ExternalNode(name);
    assert forall m :: m in extNodes + [n] <==> m in extNodes || m == n;
    assert IdsOf(extNodes + [n]) == IdsOf(extNodes) + {n.id};
    forall i | 0 <= i < |extNodes| ensures extNodes[i].id in IdsOf(extNodes) {
      assert extNodes[i] in extNodes;
    }
  }

  // ---------------------------------------------------------------------------------
  // One reference

  /** What a reference was taken to mean. */
  datatype Verdict = Verdict(confidence: Confidence, targets: seq<Id>)

  function NodeIds(nodes: seq<Node>): seq<Id> {
    seq(|nodes|, i requires 0 <= i < |nodes| => nodes[i].id)
  }

  /** One candidate is a match, several are ambiguous. */
  function Among(found: seq<Node>, single: Confidence): Verdict
    requires |found| > 0
  {
    Verdict(if |found| == 1 then single else ConfAmbiguous, NodeIds(found))
  }

  function Outside(name: string): Verdict {
    Verdict(ConfUnknown, [EXTERNAL + name])
  }

  /** A base type: what the import binds, what the file declares, or the only declaration
      of the name in the family; anything else is external. */
  ghost function BaseVerdict(idx: Index, path: string, name: string): Verdict {
    if Find(idx.bindings, path, name).Some? then Verdict(ConfExact, [Find(idx.bindings, path, name).value])
    else if Find(idx.inFile, path, name).Some? then Verdict(ConfExact, [Find(idx.inFile, path, name).value.id])
    else if |Named(idx.nodes, name)| == 1 then Verdict(ConfExact, NodeIds(Named(idx.nodes, name)))
    else Outside(name)
  }

  /** A bare name: what the file declares, what an import binds, or any declaration of the
      name in the family. */
  ghost function BareVerdict(idx: Index, path: string, name: string): Verdict {
    if Find(idx.inFile, path, name).Some? then Verdict(ConfExact, [Find(idx.inFile, path, name).value.id])
    else if Find(idx.bindings, path, name).Some? then Verdict(ConfExact, [Find(idx.bindings, path, name).value])
    else if |Named(idx.nodes, name)| > 0 then Among(Named(idx.nodes, name), ConfNameMatch)
    else Outside(name)
  }

  function MethodsIn(nodes: seq<Node>): seq<Node> {
    if nodes == [] then []
    else
      var last := nodes[|nodes| - 1];
      if last.kind.KindMethod? then MethodsIn(nodes[..|nodes| - 1]) + [last] else MethodsIn(nodes[..|nodes| - 1])
  }

  /** A call on a receiver: the methods nearest to the receiver's type; the name in the file
      an import alias stands for; or any method of that name in the family. */
  ghost function ReceivedVerdict(idx: Index, path: string, ref: Ref, methods: seq<Node>): Verdict {
    var file := Find(idx.importAliases, path, ref.receiver);
    var candidates := MethodsIn(Named(idx.nodes, ref.name));
    if |methods| > 0 then Among(methods, ConfExact)
    else if file.Some? && Find(idx.inFile, file.value, ref.name).Some? then
      Verdict(ConfExact, [Find(idx.inFile, file.value, ref.name).value.id])
    else if |candidates| > 0 then Among(candidates, ConfNameMatch)
    else Outside(ref.receiver + "." + ref.name)
  }

  predicate IsBaseRef(ref: Ref) {
    ref.kind.EdgeInherits? || ref.kind.EdgeImplements?
  }

  /** The verdict on a reference, for some reading of its receiver. */
  ghost predicate Judged(idx: Index, path: string, ref: Ref, v: Verdict) {
    if IsBaseRef(ref) then v == BaseVerdict(idx, path, ref.name)
    else if ref.receiver == "" then v == BareVerdict(idx, path, ref.name)
    else exists methods :: MethodsMeant(idx, ref, methods) && v == ReceivedVerdict(idx, path, ref, methods)
  }

  /** The methods of the receiver's type, if that type is known. */
  ghost predicate MethodsMeant(idx: Index, ref: Ref, methods: seq<Node>) {
    || (methods == [] && Stuck(idx, ref.fromId, Split(ref.receiver, '.')))
    || exists t :: t != "" && Leads(idx, ref.fromId, Split(ref.receiver, '.'), t)
                   && NearestMethods(idx, t, ref.name, methods)
  }

  method JudgeBase(idx: Index, path: string, name: string) returns (v: Verdict)
    requires NamesReal(idx)
    ensures v == BaseVerdict(idx, path, name)
  {
    var bound := Find(idx.bindings, path, name);
    var local := Find(idx.inFile, path, name);
    assert ListAt(idx.byName, name) == Named(idx.nodes, name);
    if bound.Some? {
      v := Verdict(ConfExact, [bound.value]);
    } else if local.Some? {
      v := Verdict(ConfExact, [local.value.id]);
    } else if name in idx.byName && |idx.byName[name]| == 1 {
      v := Verdict(ConfExact, [idx.byName[name][0].id]);
    } else {
      v := Outside(name);
    }
  }

  method JudgeBare(idx: Index, path: string, name: string) returns (v: Verdict)
    requires NamesReal(idx)
    ensures v == BareVerdict(idx, path, name)
  {
    var bound := Find(idx.bindings, path, name);
    var local := Find(idx.inFile, path, name);
    assert ListAt(idx.byName, name) == Named(idx.nodes, name);
    if local.Some? {
      v := Verdict(ConfExact, [local.value.id]);
    } else if bound.Some? {
      v := Verdict(ConfExact, [bound.value]);
    } else if name in idx.byName {
      v := Among(idx.byName[name], ConfNameMatch);
    } else {
      v := Outside(name);
    }
  }

  method MethodCandidates(idx: Index, name: string) returns (candidates: seq<Node>)
    requires NamesReal(idx)
    ensures candidates == MethodsIn(Named(idx.nodes, name))
  {
    var list := ListAt(idx.byName, name);
    candidates := [];
    for i := 0 to |list|
      invariant candidates == MethodsIn(list[..i])
    {
      assert list[..i + 1][..i] == list[..i];
      if list[i].kind.KindMethod? {
        candidates := candidates + [list[i]];
      }
    }
    assert list[..|list|] == list;
  }

  method JudgeReceived(idx: Index, path: string, ref: Ref) returns (v: Verdict)
    requires NamesReal(idx) && ref.receiver != ""
    ensures exists methods :: MethodsMeant(idx, ref, methods) && v == ReceivedVerdict(idx, path, ref, methods)
  {
    var recvType := ResolveReceiverType(idx, ref.fromId, ref.receiver);
    ghost var methods := [];
    if recvType != "" {
      var found := FindMethodInHierarchy(idx, recvType, ref.name);
      methods := found;
      if |found| > 0 {
        v := Among(found, ConfExact);
        assert MethodsMeant(idx, ref, methods) && v == ReceivedVerdict(idx, path, ref, methods);
        return;
      }
    }
    assert MethodsMeant(idx, ref, methods) && methods == [];
    var file := Find(idx.importAliases, path, ref.receiver);
    if file.Some? && Find(idx.inFile, file.value, ref.name).Some? {
      v := Verdict(ConfExact, [Find(idx.inFile, file.value, ref.name).value.id]);
      return;
    }
    var candidates := MethodCandidates(idx, ref.name);
    if |candidates| > 0 {
      v := Among(candidates, ConfNameMatch);
    } else {
      v := Outside(ref.receiver + "." + ref.name);
    }
    assert v == ReceivedVerdict(idx, path, ref, methods);
  }

  /** The ID of a declaration that goes by the name. */
  ghost predicate Denotes(nodes: seq<Node>, id: Id, name: string) {
    exists n :: n in nodes && n.id == id && GoesBy(n, name)
  }

  /** Whatever the verdict, its targets are declarations of the family that go by the name, or
      the one external node its reference names; how many there are shows in the confidence. */
  ghost predicate Sensible(idx: Index, ref: Ref, v: Verdict) {
    && (v.confidence.ConfUnknown? ==> v.targets == [EXTERNAL + OutsideName(ref)])
    && (!v.confidence.ConfUnknown? ==> forall id :: id in v.targets ==> Denotes(idx.nodes, id, ref.name))
    && (v.confidence.ConfAmbiguous? <==> |v.targets| > 1)
    && |v.targets| > 0
  }

  /** The name an unresolved reference is filed under. */
  function OutsideName(ref: Ref): string {
    if IsBaseRef(ref) || ref.receiver == "" then ref.name else ref.receiver + "." + ref.name
  }

  lemma NodeIdsReal(nodes: seq<Node>, list: seq<Node>, name: string)
    requires forall n :: n in list ==> n in nodes && GoesBy(n, name)
    ensures forall id :: id in NodeIds(list) ==> Denotes(nodes, id, name)
  {
    forall id | id in NodeIds(list) ensures Denotes(nodes, id, name) {
      var i :| 0 <= i < |list| && NodeIds(list)[i] == id;
      assert list[i] in list;
    }
  }

  lemma {:induction false} MethodsInMembers(nodes: seq<Node>)
    ensures forall n :: n in MethodsIn(nodes) <==> n in nodes && n.kind.KindMethod?
  {
    if nodes != [] {
      MethodsInMembers(nodes[..|nodes| - 1]);
      assert nodes == nodes[..|nodes| - 1] + [nodes[|nodes| - 1]];
    }
  }

  lemma FiledReal(idx: Index, path: string, name: string)
    requires NamesReal(idx)
    ensures Find(idx.inFile, path, name).Some? ==> Denotes(idx.nodes, Find(idx.inFile, path, name).value.id, name)
    ensures Find(idx.bindings, path, name).Some? ==> Denotes(idx.nodes, Find(idx.bindings, path, name).value, name)
    ensures forall id :: id in NodeIds(Named(idx.nodes, name)) ==> Denotes(idx.nodes, id, name)
    ensures forall id :: id in NodeIds(MethodsIn(Named(idx.nodes, name))) ==> Denotes(idx.nodes, id, name)
  {
    if Find(idx.inFile, path, name).Some? {
      assert DeclaredAs(idx.nodes, Find(idx.inFile, path, name).value, name);
    }
    if Find(idx.bindings, path, name).Some? {
      assert NamesOne(idx.nodes, Find(idx.bindings, path, name).value, name);
    }
    NamedMembers(idx.nodes, name);
    MethodsInMembers(Named(idx.nodes, name));
    NodeIdsReal(idx.nodes, Named(idx.nodes, name), name);
    NodeIdsReal(idx.nodes, MethodsIn(Named(idx.nodes, name)), name);
  }

  lemma BaseSensible(idx: Index, path: string, ref: Ref)
    requires NamesReal(idx) && IsBaseRef(ref)
    ensures Sensible(idx, ref, BaseVerdict(idx, path, ref.name))
  {
    FiledReal(idx, path, ref.name);
  }

  lemma BareSensible(idx: Index, path: string, ref: Ref)
    requires NamesReal(idx) && !IsBaseRef(ref) && ref.receiver == ""
    ensures Sensible(idx, ref, BareVerdict(idx, path, ref.name))
  {
    FiledReal(idx, path, ref.name);
  }

  lemma ReceivedSensible(idx: Index, path: string, ref: Ref, methods: seq<Node>)
    requires NamesReal(idx) && !IsBaseRef(ref) && ref.receiver != ""
    requires forall m :: m in methods ==> m in idx.nodes && GoesBy(m, ref.name)
    ensures Sensible(idx, ref, ReceivedVerdict(idx, path, ref, methods))
  {
    FiledReal(idx, path, ref.name);
    NodeIdsReal(idx.nodes, methods, ref.name);
    var file := Find(idx.importAliases, path, ref.receiver);
    if file.Some? {
      FiledReal(idx, file.value, ref.name);
    }
  }

  lemma JudgedSensible(idx: Index, path: string, ref: Ref, v: Verdict)
    requires NamesReal(idx) && Judged(idx, path, ref, v)
    ensures Sensible(idx, ref, v)
  {
    if IsBaseRef(ref) {
      BaseSensible(idx, path, ref);
    } else if ref.receiver == "" {
      BareSensible(idx, path, ref);
    } else {
      var methods :| MethodsMeant(idx, ref, methods) && v == ReceivedVerdict(idx, path, ref, methods);
      if methods != [] {
        var t :| NearestMethods(idx, t, ref.name, methods);
        NearestMethodsReal(idx, t, ref.name, methods);
      }
      ReceivedSensible(idx, path, ref, methods);
    }
  }

  // ---------------------------------------------------------------------------------
  // What the tiers come to

  /** The declaration goes by the name, and is a method if only methods count. */
  predicate GoesByName(n: Node, name: string, methodsOnly: bool) {
    n.name == name && (methodsOnly ==> n.kind.KindMethod?)
  }

  /** The last tier: every declaration of the name, one as a match and several as ambiguous, and
      what lies outside if there is none. */
  ghost predicate ByName(nodes: seq<Node>, name: string, methodsOnly: bool, outside: Id, v: Verdict) {
    if exists n :: n in nodes && GoesByName(n, name, methodsOnly) then
      && v.targets != [] && v.confidence == (if |v.targets| == 1 then ConfNameMatch else ConfAmbiguous)
      && forall id :: id in v.targets <==> exists n :: n in nodes && GoesByName(n, name, methodsOnly) && n.id == id
    else v == Verdict(ConfUnknown, [outside])
  }

  lemma NodeIdsMembers(list: seq<Node>)
    ensures forall id :: id in NodeIds(list) <==> exists n :: n in list && n.id == id
  {
    forall id | id in NodeIds(list) ensures exists n :: n in list && n.id == id {
      var i :| 0 <= i < |list| && NodeIds(list)[i] == id;
      assert list[i] in list;
    }
    forall n | n in list ensures n.id in NodeIds(list) {
      var i :| 0 <= i < |list| && list[i] == n;
      assert NodeIds(list)[i] == n.id;
    }
  }

  lemma AmongByName(nodes: seq<Node>, list: seq<Node>, name: string, methodsOnly: bool, outside: Id)
    requires forall n :: n in list <==> n in nodes && GoesByName(n, name, methodsOnly)
    ensures ByName(nodes, name, methodsOnly, outside,
                   if |list| > 0 then Among(list, ConfNameMatch) else Verdict(ConfUnknown, [outside]))
  {
    NodeIdsMembers(list);
    if |list| > 0 {
      assert list[0] in list;
    }
  }

  /** A bare name: what the file declares, else what an import binds, else by name. */
  lemma BareTiers(idx: Index, path: string, ref: Ref, v: Verdict)
    requires NamesReal(idx) && Judged(idx, path, ref, v) && !IsBaseRef(ref) && ref.receiver == ""
    ensures var local, bound := Find(idx.inFile, path, ref.name), Find(idx.bindings, path, ref.name);
      if local.Some? then v == Verdict(ConfExact, [local.value.id])
      else if bound.Some? then v == Verdict(ConfExact, [bound.value])
      else ByName(idx.nodes, ref.name, false, "external:" + ref.name, v)
  {
    NamedMembers(idx.nodes, ref.name);
    AmongByName(idx.nodes, Named(idx.nodes, ref.name), ref.name, false, "external:" + ref.name);
  }

  /** A base type: what an import binds, else what the file declares, else the only declaration
      of the name in the family, else what lies outside. */
  lemma BaseTiers(idx: Index, path: string, ref: Ref, v: Verdict)
    requires NamesReal(idx) && Judged(idx, path, ref, v)
    requires ref.kind.EdgeInherits? || ref.kind.EdgeImplements?
    ensures var local, bound := Find(idx.inFile, path, ref.name), Find(idx.bindings, path, ref.name);
      if bound.Some? then v == Verdict(ConfExact, [bound.value])
      else if local.Some? then v == Verdict(ConfExact, [local.value.id])
      else if v.confidence.ConfExact? then
        exists n :: n in idx.nodes && n.name == ref.name && v.targets == [n.id]
                    && forall m :: m in idx.nodes && m.name == ref.name ==> m == n
      else v == Verdict(ConfUnknown, ["external:" + ref.name]) && |Named(idx.nodes, ref.name)| != 1
  {
    var list := Named(idx.nodes, ref.name);
    NamedMembers(idx.nodes, ref.name);
    if |list| == 1 {
      assert list[0] in list;
      assert NodeIds(list) == [list[0].id];
      forall m | m in list ensures m == list[0] {
      }
    }
  }

  /** A call on a receiver whose type is known: the nearest methods of that type decide, exactly
      or among several; else, or if it has none, what the receiver stands for as an import, and
      else the methods of that name. */
  lemma ReceivedTiers(idx: Index, path: string, ref: Ref, v: Verdict)
    requires NamesReal(idx) && Judged(idx, path, ref, v) && !IsBaseRef(ref) && ref.receiver != ""
    ensures exists methods :: MethodsMeant(idx, ref, methods) && ReceivedAs(idx, path, ref, methods, v)
  {
    var methods :| MethodsMeant(idx, ref, methods) && v == ReceivedVerdict(idx, path, ref, methods);
    var list := MethodsIn(Named(idx.nodes, ref.name));
    NamedMembers(idx.nodes, ref.name);
    MethodsInMembers(Named(idx.nodes, ref.name));
    AmongByName(idx.nodes, list, ref.name, true, "external:" + (ref.receiver + "." + ref.name));
    assert ReceivedAs(idx, path, ref, methods, v);
  }

  ghost predicate ReceivedAs(idx: Index, path: string, ref: Ref, methods: seq<Node>, v: Verdict) {
    var file := Find(idx.importAliases, path, ref.receiver);
    if methods != [] then
      && |v.targets| == |methods| && (forall i :: 0 <= i < |methods| ==> v.targets[i] == methods[i].id)
      && v.confidence == (if |methods| == 1 then ConfExact else ConfAmbiguous)
    else if file.Some? && Find(idx.inFile, file.value, ref.name).Some? then
      v == Verdict(ConfExact, [Find(idx.inFile, file.value, ref.name).value.id])
    else ByName(idx.nodes, ref.name, true, "external:" + (ref.receiver + "." + ref.name), v)
  }

  /** A call on `super` inside a member of a class is judged among the nearest methods of the
      first base that the files give the class. */
  lemma SuperCall(paths: Paths, idx: Index, files: seq<FileIR>, imports: seq<Import>, path: string, ref: Ref,
                  v: Verdict, class': string, member: string)
    requires Indexed(idx, files, paths, imports) && NamesReal(idx) && Judged(idx, path, ref, v) && !IsBaseRef(ref)
    requires ref.receiver == "super" && ':' !in path && '.' !in class'
    requires ref.fromId == path + ":" + (class' + "." + member)
    requires BasesIn(files, class') != [] && BasesIn(files, class')[0] != ""
    ensures exists methods ::
              && NearestMethods(idx, BasesIn(files, class')[0], ref.name, methods)
              && ReceivedAs(idx, path, ref, methods, v)
  {
    ReceivedTiers(idx, path, ref, v);
    var methods :| MethodsMeant(idx, ref, methods) && ReceivedAs(idx, path, ref, methods, v);
    var base := BasesIn(files, class')[0];
    assert ListAt(idx.typeBases, class') == BasesIn(files, class');
    SuperMeans(idx, path, class', member, base);
    CutJoins("super", '.');
    assert Split("super", '.') == ["super"];
    SuperAlone(idx, path, class', member, base);
    if t :| t != "" && Leads(idx, ref.fromId, ["super"], t) && NearestMethods(idx, t, ref.name, methods) {
      SuperMeans(idx, path, class', member, t);
    }
  }

  /** A receiver that is `super` alone leads somewhere if there is a base. */
  lemma SuperAlone(idx: Index, path: string, class': string, member: string, base: string)
    requires base != "" && Leads(idx, path + ":" + (class' + "." + member), ["super"], base)
    ensures !Stuck(idx, path + ":" + (class' + "." + member), ["super"])
  {
    var scope := path + ":" + (class' + "." + member);
    forall n: nat ensures !StuckAt(idx, scope, ["super"], n) {
      assert n == 0 ==> ["super"][..n] == [];
    }
  }

  /** The edges of a verdict, field by field. */
  lemma EdgesMean(ref: Ref, v: Verdict)
    ensures |EdgesOf(ref, v)| == |v.targets|
    ensures forall i :: 0 <= i < |v.targets| ==>
              var e := EdgesOf(ref, v)[i];
              && e.source == ref.fromId && e.target == v.targets[i] && e.kind == ref.kind && e.line == ref.line
              && e.confidence == v.confidence
              && e.candidateCount == (if v.confidence == ConfAmbiguous then |v.targets| else 0)
  {
  }

  /** The edges of a verdict. */
  function EdgesOf(ref: Ref, v: Verdict): seq<Edge> {
    seq(|v.targets|, i requires 0 <= i < |v.targets| =>
      Edge(ref.fromId, v.targets[i], ref.kind, ref.line, v.confidence,
           if v.confidence.ConfAmbiguous? then |v.targets| else 0))
  }

  /** Both ends of every edge are declarations of the family, or the target is external. */
  ghost predicate Inside(edges: seq<Edge>, ids: set<Id>, externals: set<Id>) {
    forall e :: e in edges ==> e.source in ids && (e.target in ids || e.target in externals)
  }

  /** What the edges lead to. */
  ghost function TargetsOf(edges: seq<Edge>): set<Id> {
    set e | e in edges :: e.target
  }

  lemma TargetsMeant(ref: Ref, v: Verdict)
    ensures forall id :: id in v.targets ==> id in TargetsOf(EdgesOf(ref, v))
  {
    forall id | id in v.targets ensures id in TargetsOf(EdgesOf(ref, v)) {
      var i :| 0 <= i < |v.targets| && v.targets[i] == id;
      assert EdgesOf(ref, v)[i] in EdgesOf(ref, v);
    }
  }

  lemma TargetsConcat(a: seq<Edge>, b: seq<Edge>)
    ensures TargetsOf(a + b) == TargetsOf(a) + TargetsOf(b)
  {
  }

  lemma EdgesInside(ref: Ref, v: Verdict, ids: set<Id>, externals: set<Id>)
    requires ref.fromId in ids && forall id :: id in v.targets ==> id in ids || id in externals
    ensures Inside(EdgesOf(ref, v), ids, externals)
  {
  }

  lemma InsideConcat(a: seq<Edge>, b: seq<Edge>, ids: set<Id>, before: set<Id>, after: set<Id>)
    requires Inside(a, ids, before) && Inside(b, ids, after) && before <= after
    ensures Inside(a + b, ids, after)
  {
  }

  lemma IdsPrefix(a: seq<Node>, b: seq<Node>)
    requires a <= b
    ensures IdsOf(a) <= IdsOf(b)
  {
    forall n | n in a ensures n in b {
      var i :| 0 <= i < |a| && a[i] == n;
      assert b[i] == n;
    }
  }

  method Judge(idx: Index, path: string, ref: Ref) returns (v: Verdict)
    requires NamesReal(idx)
    ensures Judged(idx, path, ref, v)
  {
    if ref.kind.EdgeInherits? || ref.kind.EdgeImplements? {
      v := JudgeBase(idx, path, ref.name);
    } else if ref.receiver == "" {
      v := JudgeBare(idx, path, ref.name);
    } else {
      v := JudgeReceived(idx, path, ref);
    }
  }

  /** The work on some references: judged, counted, their edges kept inside, and no external
      node made but for an edge. */
  ghost predicate Done(idx: Index, uses: seq<Use>, js: seq<Judgement>, edges: seq<Edge>, made: set<Id>,
                       extNodes: seq<Node>, before: Counts, after: Counts)
  {
    && Settles(idx, uses, js, edges) && Counted(before, js, after)
    && Inside(edges, IdsOf(idx.nodes), IdsOf(extNodes))
    && IdsOf(extNodes) <= made + TargetsOf(edges)
  }

  lemma DoneNothing(idx: Index, extNodes: seq<Node>, counts: Counts)
    ensures Done(idx, [], [], [], IdsOf(extNodes), extNodes, counts, counts)
  {
  }

  lemma DoneBoth(idx: Index, uses: seq<Use>, js: seq<Judgement>, edges: seq<Edge>, made: set<Id>, extNodes: seq<Node>,
                 uses': seq<Use>, js': seq<Judgement>, edges': seq<Edge>, extNodes': seq<Node>,
                 before: Counts, middle: Counts, after: Counts)
    requires Done(idx, uses, js, edges, made, extNodes, before, middle) && extNodes <= extNodes'
    requires Done(idx, uses', js', edges', IdsOf(extNodes), extNodes', middle, after)
    ensures Done(idx, uses + uses', js + js', edges + edges', made, extNodes', before, after)
  {
    TargetsConcat(edges, edges');
    IdsPrefix(extNodes, extNodes');
    InsideConcat(edges, edges', IdsOf(idx.nodes), IdsOf(extNodes), IdsOf(extNodes'));
    SettlesBoth(idx, uses, js, edges, uses', js', edges');
    CountedBoth(before, js, middle, js', after);
  }

  /** Resolves one reference: counts it once and emits the edges of its verdict. */
  method ResolveRef(idx: Index, path: string, ref: Ref, pass: Pass) returns (edges: seq<Edge>, ghost j: Judgement)
    requires NamesReal(idx) && pass.Valid() && ref.fromId in IdsOf(idx.nodes)
    modifies pass
    ensures pass.Valid() && old(pass.extNodes) <= pass.extNodes
    ensures Done(idx, [Use(path, ref)], [j], edges, IdsOf(old(pass.extNodes)), pass.extNodes,
                 old(pass.Tally()), pass.Tally())
  {
    var v := Judge(idx, path, ref);
    JudgedSensible(idx, path, ref, v);
    if v.confidence.ConfUnknown? {
      var id := pass.ExtNode(OutsideName(ref));
    }
    pass.Count(v.confidence);
    j := Judgement(Use(path, ref), v);
    BumpedIsCounted(old(pass.Tally()), j);
    SettlesOne(idx, Use(path, ref), v);
    EdgesInside(ref, v, IdsOf(idx.nodes), IdsOf(pass.extNodes));
    TargetsMeant(ref, v);
    edges := EdgesOf(ref, v);
  }

  // ---------------------------------------------------------------------------------
  // One family

  /** What the parsers promise: a reference is made from a declaration of its own file. */
  ghost predicate RefsOwned(f: FileIR) {
    forall ref :: ref in f.refs ==> ref.fromId in IdsOf(f.nodes)
  }

  /** A reference and the file it stands in. */
  datatype Use = Use(path: string, ref: Ref)

  function UsesIn(f: FileIR): seq<Use> {
    UsesAt(f.path, f.refs)
  }

  function UsesAt(path: string, refs: seq<Ref>): (uses: seq<Use>)
    ensures |uses| == |refs|
  {
    if refs == [] then [] else UsesAt(path, refs[..|refs| - 1]) + [Use(path, refs[|refs| - 1])]
  }

  /** A reference with the verdict on it. */
  datatype Judgement = Judgement(use: Use, verdict: Verdict)

  function UseOf(j: Judgement): seq<Use> {
    [j.use]
  }

  function EmittedBy(j: Judgement): seq<Edge> {
    EdgesOf(j.use.ref, j.verdict)
  }

  /** Every use has been judged, in order, and the edges are those of the verdicts. */
  ghost predicate Settles(idx: Index, uses: seq<Use>, js: seq<Judgement>, edges: seq<Edge>) {
    && (forall j :: j in js ==> Judged(idx, j.use.path, j.use.ref, j.verdict))
    && FlatMap(js, UseOf) == uses && FlatMap(js, EmittedBy) == edges
  }

  lemma SettlesOne(idx: Index, use: Use, v: Verdict)
    requires Judged(idx, use.path, use.ref, v)
    ensures Settles(idx, [use], [Judgement(use, v)], EdgesOf(use.ref, v))
  {
    FlatMapOne(Judgement(use, v), UseOf);
    FlatMapOne(Judgement(use, v), EmittedBy);
  }

  lemma SettlesBoth(idx: Index, uses: seq<Use>, js: seq<Judgement>, edges: seq<Edge>,
                    uses': seq<Use>, js': seq<Judgement>, edges': seq<Edge>)
    requires Settles(idx, uses, js, edges) && Settles(idx, uses', js', edges')
    ensures Settles(idx, uses + uses', js + js', edges + edges')
  {
    FlatMapConcat(js, js', UseOf);
    FlatMapConcat(js, js', EmittedBy);
  }

  /** How many verdicts carry a confidence. */
  ghost function Headed(js: seq<Judgement>, conf: Confidence): nat {
    if js == [] then 0 else Headed(js[..|js| - 1], conf) + if js[|js| - 1].verdict.confidence == conf then 1 else 0
  }

  /** The counts of a pass after some more verdicts. */
  ghost predicate Counted(before: Counts, js: seq<Judgement>, after: Counts) {
    && after.total == before.total + |js|
    && after.exact == before.exact + Headed(js, ConfExact)
    && after.ambiguous == before.ambiguous + Headed(js, ConfAmbiguous)
    && after.nameMatch == before.nameMatch + Headed(js, ConfNameMatch)
    && after.unknown == before.unknown + Headed(js, ConfUnknown)
  }

  lemma BumpedIsCounted(before: Counts, j: Judgement)
    ensures Counted(before, [j], Bumped(before, j.verdict.confidence))
  {
    HeadedOne(j, ConfExact);
    HeadedOne(j, ConfAmbiguous);
    HeadedOne(j, ConfNameMatch);
    HeadedOne(j, ConfUnknown);
  }

  lemma HeadedOne(j: Judgement, conf: Confidence)
    ensures Headed([j], conf) == if j.verdict.confidence == conf then 1 else 0
  {
    assert [j][..0] == [];
  }

  lemma CountedBoth(before: Counts, js: seq<Judgement>, middle: Counts, js': seq<Judgement>, after: Counts)
    requires Counted(before, js, middle) && Counted(middle, js', after)
    ensures Counted(before, js + js', after)
  {
    forall conf ensures Headed(js + js', conf) == Headed(js, conf) + Headed(js', conf) {
      HeadedConcat(js, js', conf);
    }
  }

  lemma {:induction false} HeadedConcat(js: seq<Judgement>, js': seq<Judgement>, conf: Confidence)
    ensures Headed(js + js', conf) == Headed(js, conf) + Headed(js', conf)
  {
    if js' == [] {
      assert js + js' == js;
    } else {
      HeadedConcat(js, js'[..|js'| - 1], conf);
      assert (js + js')[..|js + js'| - 1] == js + js'[..|js'| - 1];
    }
  }

  lemma {:induction false} FileNodesListed(files: seq<FileIR>, f: FileIR)
    requires f in files
    ensures IdsOf(f.nodes) <= IdsOf(AllNodes(files))
  {
    var init, last := files[..|files| - 1], files[|files| - 1];
    assert files == init + [last];
    if f in init {
      FileNodesListed(init, f);
    }
  }

  lemma UsesNext(path: string, refs: seq<Ref>, i: nat)
    requires i < |refs|
    ensures UsesAt(path, refs[..i + 1]) == UsesAt(path, refs[..i]) + [Use(path, refs[i])]
  {
    assert refs[..i + 1][..i] == refs[..i];
  }

  method ResolveNext(idx: Index, f: FileIR, i: nat, pass: Pass, edges0: seq<Edge>, ghost js0: seq<Judgement>,
                     ghost made: set<Id>, ghost start: Counts)
    returns (edges: seq<Edge>, ghost js: seq<Judgement>)
    requires NamesReal(idx) && pass.Valid() && i < |f.refs| && f.refs[i].fromId in IdsOf(idx.nodes)
    requires Done(idx, UsesAt(f.path, f.refs[..i]), js0, edges0, made, pass.extNodes, start, pass.Tally())
    modifies pass
    ensures pass.Valid() && old(pass.extNodes) <= pass.extNodes
    ensures Done(idx, UsesAt(f.path, f.refs[..i + 1]), js, edges, made, pass.extNodes, start, pass.Tally())
  {
    ghost var j;
    var more;
    more, j := ResolveRef(idx, f.path, f.refs[i], pass);
    DoneBoth(idx, UsesAt(f.path, f.refs[..i]), js0, edges0, made, old(pass.extNodes), [Use(f.path, f.refs[i])], [j],
             more, pass.extNodes, start, old(pass.Tally()), pass.Tally());
    UsesNext(f.path, f.refs, i);
    edges, js := edges0 + more, js0 + [j];
  }

  method ResolveFile(idx: Index, f: FileIR, pass: Pass) returns (edges: seq<Edge>, ghost js: seq<Judgement>)
    requires NamesReal(idx) && pass.Valid() && forall ref :: ref in f.refs ==> ref.fromId in IdsOf(idx.nodes)
    modifies pass
    ensures pass.Valid() && old(pass.extNodes) <= pass.extNodes
    ensures Done(idx, UsesIn(f), js, edges, IdsOf(old(pass.extNodes)), pass.extNodes, old(pass.Tally()), pass.Tally())
  {
    edges, js := [], [];
    DoneNothing(idx, pass.extNodes, pass.Tally());
    for i := 0 to |f.refs|
      invariant pass.Valid() && old(pass.extNodes) <= pass.extNodes
      invariant Done(idx, UsesAt(f.path, f.refs[..i]), js, edges, IdsOf(old(pass.extNodes)), pass.extNodes,
                     old(pass.Tally()), pass.Tally())
    {
      assert f.refs[i] in f.refs;
      edges, js := ResolveNext(idx, f, i, pass, edges, js, IdsOf(old(pass.extNodes)), old(pass.Tally()));
    }
    assert f.refs[..|f.refs|] == f.refs;
  }

  /** The references of all files, one after another. */
  method ResolveFiles(idx: Index, files: seq<FileIR>, pass: Pass) returns (edges: seq<Edge>, ghost js: seq<Judgement>)
    requires NamesReal(idx) && pass.Valid() && idx.nodes == AllNodes(files)
    requires forall f :: f in files ==> RefsOwned(f)
    modifies pass
    ensures pass.Valid() && old(pass.extNodes) <= pass.extNodes
    ensures Done(idx, FlatMap(files, UsesIn), js, edges, IdsOf(old(pass.extNodes)), pass.extNodes,
                 old(pass.Tally()), pass.Tally())
  {
    edges, js := [], [];
    DoneNothing(idx, pass.extNodes, pass.Tally());
    for i := 0 to |files|
      invariant pass.Valid() && old(pass.extNodes) <= pass.extNodes
      invariant Done(idx, FlatMap(files[..i], UsesIn), js, edges, IdsOf(old(pass.extNodes)), pass.extNodes,
                     old(pass.Tally()), pass.Tally())
    {
      ghost var before, counts := pass.extNodes, pass.Tally();
      FileNodesListed(files, files[i]);
      assert RefsOwned(files[i]);
      ghost var js';
      var more;
      more, js' := ResolveFile(idx, files[i], pass);
      DoneBoth(idx, FlatMap(files[..i], UsesIn), js, edges, IdsOf(old(pass.extNodes)), before, UsesIn(files[i]), js',
               more, pass.extNodes, old(pass.Tally()), counts, pass.Tally());
      assert files[..i + 1][..i] == files[..i];
      edges, js := edges + more, js + js';
    }
    assert files[..|files|] == files;
  }

  // ---------------------------------------------------------------------------------
  // Structural interfaces

  /** The method names the files list for a type. */
  ghost function FactMethods(files: seq<FileIR>, name: string): set<string> {
    set f, m | f in files && m in ListAt(f.types.methods, name) :: m
  }

  /** What a type must have to count as the interface. */
  ghost function Required(idx: Index, files: seq<FileIR>, iface: string): set<string> {
    (if iface in idx.typeMethods then idx.typeMethods[iface].Keys else {}) + FactMethods(files, iface)
  }

  /** The type has the method: declared on it, inherited, or listed by a file. */
  ghost predicate Provides(idx: Index, files: seq<FileIR>, typeName: string, method': string) {
    || !NoneAtAll(BaseRel(idx.typeBases), MethodOf(idx.typeMethods, method'), typeName)
    || method' in FactMethods(files, typeName)
  }

  /** The class has every method of the interface, which has at least one. */
  ghost predicate Satisfies(idx: Index, files: seq<FileIR>, typeName: string, iface: string) {
    && Required(idx, files, iface) != {}
    && forall m :: m in Required(idx, files, iface) ==> Provides(idx, files, typeName, m)
  }

  function ImplementsEdge(c: Node, n: Node): Edge {
    Edge(c.id, n.id, EdgeImplements, c.startLine, ConfExact, 0)
  }

  ghost predicate Implements(idx: Index, files: seq<FileIR>, c: Node, n: Node) {
    n.kind.KindInterface? && c.kind.KindClass? && c.id != n.id && Satisfies(idx, files, c.name, n.name)
  }

  method ListFacts(files: seq<FileIR>, name: string) returns (names: set<string>)
    ensures names == FactMethods(files, name)
  {
    names := {};
    for i := 0 to |files|
      invariant names == FactMethods(files[..i], name)
    {
      var list := ListAt(files[i].types.methods, name);
      assert files[..i + 1] == files[..i] + [files[i]];
      FactsMore(files[..i], files[i], name);
      names := names + set m | m in list;
    }
    assert files[..|files|] == files;
  }

  lemma FactsMore(files: seq<FileIR>, f: FileIR, name: string)
    ensures FactMethods(files + [f], name) == FactMethods(files, name) + Elems(ListAt(f.types.methods, name))
  {
    assert forall g :: g in files + [f] <==> g in files || g == f;
  }

  method HasAll(idx: Index, files: seq<FileIR>, typeName: string, required: set<string>) returns (has: bool)
    ensures has <==> forall m :: m in required ==> Provides(idx, files, typeName, m)
  {
    var facts := ListFacts(files, typeName);
    var todo := required;
    has := true;
    while todo != {}
      invariant todo <= required && forall m :: m in required && m !in todo ==> Provides(idx, files, typeName, m)
      decreases todo
    {
      var m :| m in todo;
      todo := todo - {m};
      var found := FindMethodInHierarchy(idx, typeName, m);
      FoundOrNot(idx, typeName, m, found);
      if |found| == 0 && m !in facts {
        return false;
      }
    }
  }

  lemma FoundOrNot(idx: Index, typeName: string, m: string, found: seq<Node>)
    requires NearestMethods(idx, typeName, m, found)
    ensures |found| == 0 <==> NoneAtAll(BaseRel(idx.typeBases), MethodOf(idx.typeMethods, m), typeName)
  {
  }

  /** The classes that satisfy one interface. */
  method MatchClasses(idx: Index, files: seq<FileIR>, n: Node) returns (edges: seq<Edge>)
    requires n in idx.nodes
    ensures forall e :: e in edges <==>
              exists c :: c in idx.nodes && Implements(idx, files, c, n) && e == ImplementsEdge(c, n)
  {
    edges := [];
    if !n.kind.KindInterface? {
      return;
    }
    var facts := ListFacts(files, n.name);
    var required := (if n.name in idx.typeMethods then idx.typeMethods[n.name].Keys else {}) + facts;
    if required == {} {
      return;
    }
    for i := 0 to |idx.nodes|
      invariant forall e :: e in edges <==>
                  exists k :: 0 <= k < i && Implements(idx, files, idx.nodes[k], n)
                              && e == ImplementsEdge(idx.nodes[k], n)
    {
      var c := idx.nodes[i];
      if !c.kind.KindClass? || c.id == n.id {
        continue;
      }
      var has := HasAll(idx, files, c.name, required);
      if has {
        edges := edges + [ImplementsEdge(c, n)];
      }
    }
  }

  /** All structural edges of a family. */
  ghost predicate AllImplements(idx: Index, files: seq<FileIR>, edges: seq<Edge>) {
    forall e :: e in edges <==>
      exists c, n :: c in idx.nodes && n in idx.nodes && Implements(idx, files, c, n) && e == ImplementsEdge(c, n)
  }

  method MatchInterfaces(idx: Index, files: seq<FileIR>) returns (edges: seq<Edge>)
    ensures AllImplements(idx, files, edges)
  {
    edges := [];
    for i := 0 to |idx.nodes|
      invariant forall e :: e in edges <==>
                  exists c, k :: c in idx.nodes && 0 <= k < i && Implements(idx, files, c, idx.nodes[k])
                                 && e == ImplementsEdge(c, idx.nodes[k])
    {
      assert idx.nodes[i] in idx.nodes;
      var more := MatchClasses(idx, files, idx.nodes[i]);
      edges := edges + more;
    }
  }

  /** What resolving one family leaves: its declarations, the edges of its verdicts and its
      structural edges. */
  ghost predicate FamilyResolved(paths: Paths, idx: Index, files: seq<FileIR>, js: seq<Judgement>,
                                 refEdges: seq<Edge>, edges: seq<Edge>)
  {
    && (exists imports :: Indexed(idx, files, paths, imports))
    && Settles(idx, FlatMap(files, UsesIn), js, refEdges)
    && refEdges <= edges && AllImplements(idx, files, edges[|refEdges|..])
  }

  /** A structural edge leads from the class to the interface, on the line the class begins. */
  lemma ImplementsMean(idx: Index, files: seq<FileIR>, edges: seq<Edge>, e: Edge)
    requires AllImplements(idx, files, edges)
    ensures e in edges <==>
              && e.kind == EdgeImplements && e.confidence == ConfExact && e.candidateCount == 0
              && exists c, n ::
                && c in idx.nodes && n in idx.nodes && c.kind == KindClass && n.kind == KindInterface && c.id != n.id
                && Satisfies(idx, files, c.name, n.name)
                && e.source == c.id && e.target == n.id && e.line == c.startLine
  {
    if e in edges {
      var c, n :| c in idx.nodes && n in idx.nodes && Implements(idx, files, c, n) && e == ImplementsEdge(c, n);
    }
    if c, n :| && c in idx.nodes && n in idx.nodes && c.kind == KindClass && n.kind == KindInterface && c.id != n.id
               && Satisfies(idx, files, c.name, n.name)
               && e.source == c.id && e.target == n.id && e.line == c.startLine {
      assert Implements(idx, files, c, n);
      if e.kind == EdgeImplements && e.confidence == ConfExact && e.candidateCount == 0 {
        assert e == ImplementsEdge(c, n);
      }
    }
  }

  lemma ImplementsInside(idx: Index, files: seq<FileIR>, edges: seq<Edge>, externals: set<Id>)
    requires AllImplements(idx, files, edges)
    ensures Inside(edges, IdsOf(idx.nodes), externals)
  {
  }

  method ResolveFamily(paths: Paths, files: seq<FileIR>, pass: Pass)
    returns (nodes: seq<Node>, edges: seq<Edge>, ghost idx: Index, ghost js: seq<Judgement>, ghost refEdges: seq<Edge>)
    requires pass.Valid() && forall f :: f in files ==> RefsOwned(f)
    modifies pass
    ensures pass.Valid() && old(pass.extNodes) <= pass.extNodes && Counted(old(pass.Tally()), js, pass.Tally())
    ensures pass.totalRefs == old(pass.totalRefs) + |FlatMap(files, UsesIn)|
    ensures nodes == AllNodes(files) && FamilyResolved(paths, idx, files, js, refEdges, edges)
    ensures Inside(edges, IdsOf(nodes), IdsOf(pass.extNodes))
    ensures IdsOf(pass.extNodes) <= IdsOf(old(pass.extNodes)) + TargetsOf(edges)
  {
    var tables, imports := BuildIndex(paths, files);
    var found;
    found, js := ResolveFiles(tables, files, pass);
    JudgementsCounted(js);
    var structural := MatchInterfaces(tables, files);
    ImplementsInside(tables, files, structural, IdsOf(pass.extNodes));
    InsideConcat(found, structural, IdsOf(tables.nodes), IdsOf(pass.extNodes), IdsOf(pass.extNodes));
    TargetsConcat(found, structural);
    nodes, edges, idx, refEdges := tables.nodes, found + structural, tables, found;
    assert edges[|refEdges|..] == structural;
  }

  // ---------------------------------------------------------------------------------
  // Families

  /** Languages whose declarations may refer to one another. */
  function Family(language: string): string {
    if language == "cpp" then "c" else language
  }

  /** C and C++ refer to one another, and no two other languages do. */
  lemma FamilyMeans(a: string, b: string)
    ensures Family(a) == Family(b) <==> a == b || (a == "c" && b == "cpp") || (a == "cpp" && b == "c")
  {
  }

  function OfFamily(files: seq<FileIR>, fam: string): seq<FileIR> {
    if files == [] then []
    else
      var last := files[|files| - 1];
      var init := OfFamily(files[..|files| - 1], fam);
      if Family(last.language) == fam then init + [last] else init
  }

  lemma {:induction false} OfFamilyMembers(files: seq<FileIR>, fam: string)
    ensures forall f :: f in OfFamily(files, fam) <==> f in files && Family(f.language) == fam
  {
    if files != [] {
      OfFamilyMembers(files[..|files| - 1], fam);
      assert files == files[..|files| - 1] + [files[|files| - 1]];
    }
  }

  lemma OfFamilyMore(files: seq<FileIR>, f: FileIR, fam: string)
    ensures Family(f.language) == fam ==> OfFamily(files + [f], fam) == OfFamily(files, fam) + [f]
    ensures Family(f.language) != fam ==> OfFamily(files + [f], fam) == OfFamily(files, fam)
  {
    assert (files + [f])[..|files|] == files;
  }

  ghost predicate GroupsOk(files: seq<FileIR>, groups: map<string, seq<FileIR>>) {
    && (forall fam {:trigger ListAt(groups, fam)} :: ListAt(groups, fam) == OfFamily(files, fam))
    && (forall fam :: fam in groups ==> groups[fam] != [])
  }

  ghost predicate Grouped(files: seq<FileIR>, groups: map<string, seq<FileIR>>, families: seq<string>) {
    GroupsOk(files, groups) && Distinct(families) && forall fam :: fam in families <==> fam in groups
  }

  lemma GroupsMore(files: seq<FileIR>, f: FileIR, groups: map<string, seq<FileIR>>)
    requires GroupsOk(files, groups)
    ensures GroupsOk(files + [f], Append(groups, Family(f.language), f))
  {
    forall fam ensures ListAt(Append(groups, Family(f.language), f), fam) == OfFamily(files + [f], fam) {
      OfFamilyMore(files, f, fam);
      assert ListAt(groups, fam) == OfFamily(files, fam);
    }
  }

  method GroupFile(ghost done: seq<FileIR>, f: FileIR, groups0: map<string, seq<FileIR>>, families0: seq<string>)
    returns (groups: map<string, seq<FileIR>>, families: seq<string>)
    requires Grouped(done, groups0, families0)
    ensures Grouped(done + [f], groups, families)
  {
    var fam := Family(f.language);
    GroupsMore(done, f, groups0);
    families := if fam in groups0 then families0 else families0 + [fam];
    groups := Append(groups0, fam, f);
  }

  method GroupByFamily(files: seq<FileIR>) returns (groups: map<string, seq<FileIR>>, families: seq<string>)
    ensures Grouped(files, groups, families)
  {
    groups, families := map[], [];
    for i := 0 to |files|
      invariant Grouped(files[..i], groups, families)
    {
      groups, families := GroupFile(files[..i], files[i], groups, families);
      assert files[..i + 1] == files[..i] + [files[i]];
    }
    assert files[..|files|] == files;
  }

  method SortFamilies(ghost files: seq<FileIR>, ghost groups: map<string, seq<FileIR>>, families: seq<string>)
    returns (sorted: seq<string>)
    requires Grouped(files, groups, families)
    ensures Grouped(files, groups, sorted) && StrictlySorted(sorted, StrLess)
  {
    StrLessTotal();
    sorted := SortSlice(families, StrLess);
    PermutationElems(families, sorted);
    PermutationDistinct(families, sorted);
    DistinctSortedIsStrict(sorted, StrLess);
  }

  ghost function FamilyIds(files: seq<FileIR>, fam: string): set<Id> {
    IdsOf(AllNodes(OfFamily(files, fam)))
  }

  /** Both ends of the edge are of one family, or the target is external. */
  ghost predicate Homely(files: seq<FileIR>, externals: set<Id>, e: Edge) {
    exists fam {:trigger FamilyIds(files, fam)} ::
      e.source in FamilyIds(files, fam) && (e.target in FamilyIds(files, fam) || e.target in externals)
  }

  /** ... for all edges, and every external node is the target of one. */
  ghost predicate AllHomely(files: seq<FileIR>, externals: set<Id>, edges: seq<Edge>) {
    (forall e :: e in edges ==> Homely(files, externals, e)) && externals <= TargetsOf(edges)
  }

  lemma HomelyMore(files: seq<FileIR>, before: set<Id>, after: set<Id>, a: seq<Edge>, b: seq<Edge>, fam: string)
    requires AllHomely(files, before, a) && before <= after && Inside(b, FamilyIds(files, fam), after)
    requires after <= before + TargetsOf(b)
    ensures AllHomely(files, after, a + b)
  {
    TargetsConcat(a, b);
    forall e | e in a + b ensures Homely(files, after, e) {
      if e in a {
        assert Homely(files, before, e);
        var f :| e.source in FamilyIds(files, f) && (e.target in FamilyIds(files, f) || e.target in before);
        assert e.source in FamilyIds(files, f);
      } else {
        assert e.source in FamilyIds(files, fam);
      }
    }
  }

  /** The declarations of some families, one family after another. */
  ghost function NodesOfFamilies(files: seq<FileIR>, families: seq<string>): seq<Node> {
    if families == [] then []
    else NodesOfFamilies(files, families[..|families| - 1]) + AllNodes(OfFamily(files, families[|families| - 1]))
  }

  ghost function UsesOfFamilies(files: seq<FileIR>, families: seq<string>): nat {
    if families == [] then 0
    else UsesOfFamilies(files, families[..|families| - 1]) + UsesOf(files, families[|families| - 1])
  }

  ghost function UsesOf(files: seq<FileIR>, fam: string): nat {
    |FlatMap(OfFamily(files, fam), UsesIn)|
  }

  lemma UsesOfMore(files: seq<FileIR>, f: FileIR, fam: string)
    ensures UsesOf(files + [f], fam) == UsesOf(files, fam) + if Family(f.language) == fam then |f.refs| else 0
  {
    OfFamilyMore(files, f, fam);
    FlatMapConcat(OfFamily(files, fam), [f], UsesIn);
    FlatMapOne(f, UsesIn);
  }

  lemma {:induction false} JudgementsCounted(js: seq<Judgement>)
    ensures |FlatMap(js, UseOf)| == |js|
  {
    if js != [] {
      JudgementsCounted(js[..|js| - 1]);
    }
  }

  lemma {:induction false} FamilyUsesMore(files: seq<FileIR>, f: FileIR, families: seq<string>)
    requires Distinct(families)
    ensures UsesOfFamilies(files + [f], families)
         == UsesOfFamilies(files, families) + if Family(f.language) in families then |f.refs| else 0
  {
    if families != [] {
      var init, last := families[..|families| - 1], families[|families| - 1];
      FamilyUsesMore(files, f, init);
      UsesOfMore(files, f, last);
      assert families == init + [last];
      assert last !in init;
    }
  }

  /** Grouping by family loses no reference and repeats none. */
  lemma {:induction false} FamiliesCover(files: seq<FileIR>, families: seq<string>)
    requires Distinct(families) && forall f :: f in files ==> Family(f.language) in families
    ensures UsesOfFamilies(files, families) == |FlatMap(files, UsesIn)|
  {
    if files == [] {
      NoUses(families);
    } else {
      var init, last := files[..|files| - 1], files[|files| - 1];
      assert files == init + [last] && last in files;
      FamiliesCover(init, families);
      FamilyUsesMore(init, last, families);
    }
  }

  lemma {:induction false} NoUses(families: seq<string>)
    ensures UsesOfFamilies([], families) == 0
  {
    if families != [] {
      NoUses(families[..|families| - 1]);
    }
  }

  lemma {:induction false} AllNodesMembers(files: seq<FileIR>)
    ensures forall n :: n in AllNodes(files) <==> exists f :: f in files && n in f.nodes
  {
    if files != [] {
      var init, last := files[..|files| - 1], files[|files| - 1];
      AllNodesMembers(init);
      assert files == init + [last];
      assert forall f :: f in files <==> f in init || f == last;
    }
  }

  ghost predicate Declared(files: seq<FileIR>, n: Node) {
    exists f :: f in files && n in f.nodes
  }

  lemma {:induction false} FamilyNodes(files: seq<FileIR>, families: seq<string>)
    ensures forall n :: n in NodesOfFamilies(files, families)
                   <==> exists f :: f in files && Family(f.language) in families && n in f.nodes
  {
    if families != [] {
      var init, last := families[..|families| - 1], families[|families| - 1];
      FamilyNodes(files, init);
      OfFamilyMembers(files, last);
      AllNodesMembers(OfFamily(files, last));
      assert families == init + [last];
      assert forall x :: x in families <==> x in init || x == last;
    }
  }

  /** The account of one family: its tables, its judgements and what they emitted. */
  datatype Part = Part(fam: string, idx: Index, js: seq<Judgement>, refEdges: seq<Edge>, edges: seq<Edge>)

  function PartEdges(p: Part): seq<Edge> {
    p.edges
  }

  function PartJudgements(p: Part): seq<Judgement> {
    p.js
  }

  /** Every family has been resolved, and the edges and counts are those of all of them. */
  ghost predicate Accounts(paths: Paths, files: seq<FileIR>, families: seq<string>, parts: seq<Part>,
                           emitted: seq<Edge>, counts: Counts)
  {
    && |parts| == |families|
    && (forall i :: 0 <= i < |parts| ==> PartOk(paths, files, families[i], parts[i]))
    && emitted == FlatMap(parts, PartEdges)
    && Counted(Counts(0, 0, 0, 0, 0), FlatMap(parts, PartJudgements), counts)
  }

  ghost predicate PartOk(paths: Paths, files: seq<FileIR>, fam: string, p: Part) {
    p.fam == fam && FamilyResolved(paths, p.idx, OfFamily(files, fam), p.js, p.refEdges, p.edges)
  }

  lemma AccountsMore(paths: Paths, files: seq<FileIR>, families: seq<string>, parts: seq<Part>, emitted: seq<Edge>,
                     counts: Counts, fam: string, p: Part, counts': Counts)
    requires Accounts(paths, files, families, parts, emitted, counts) && PartOk(paths, files, fam, p)
    requires Counted(counts, p.js, counts')
    ensures Accounts(paths, files, families + [fam], parts + [p], emitted + p.edges, counts')
  {
    FlatMapConcat(parts, [p], PartEdges);
    FlatMapOne(p, PartEdges);
    FlatMapConcat(parts, [p], PartJudgements);
    FlatMapOne(p, PartJudgements);
    CountedBoth(Counts(0, 0, 0, 0, 0), FlatMap(parts, PartJudgements), counts, p.js, counts');
  }

  method ResolveNextFamily(paths: Paths, ghost files: seq<FileIR>, groups: map<string, seq<FileIR>>,
                           families: seq<string>,
                           i: nat, pass: Pass, nodes0: seq<Node>, edges0: seq<Edge>, ghost parts0: seq<Part>)
    returns (nodes: seq<Node>, edges: seq<Edge>, ghost parts: seq<Part>)
    requires pass.Valid() && i < |families| && Grouped(files, groups, families)
    requires forall f :: f in files ==> RefsOwned(f)
    requires nodes0 == NodesOfFamilies(files, families[..i]) && pass.totalRefs == UsesOfFamilies(files, families[..i])
    requires AllHomely(files, IdsOf(pass.extNodes), edges0)
    requires Accounts(paths, files, families[..i], parts0, edges0, pass.Tally())
    modifies pass
    ensures pass.Valid()
    ensures nodes == NodesOfFamilies(files, families[..i + 1])
    ensures pass.totalRefs == UsesOfFamilies(files, families[..i + 1])
    ensures AllHomely(files, IdsOf(pass.extNodes), edges)
    ensures Accounts(paths, files, families[..i + 1], parts, edges, pass.Tally())
  {
    var fam := families[i];
    FamilyReady(files, groups, families, i);
    ghost var idx, js, refEdges;
    var famNodes, famEdges;
    famNodes, famEdges, idx, js, refEdges := ResolveFamily(paths, groups[fam], pass);
    ghost var part := Part(fam, idx, js, refEdges, famEdges);
    IdsPrefix(old(pass.extNodes), pass.extNodes);
    HomelyMore(files, IdsOf(old(pass.extNodes)), IdsOf(pass.extNodes), edges0, famEdges, fam);
    OneMoreFamily(files, families, i);
    AccountsMore(paths, files, families[..i], parts0, edges0, old(pass.Tally()), fam, part, pass.Tally());
    nodes, edges, parts := nodes0 + famNodes, edges0 + famEdges, parts0 + [part];
  }

  lemma FamilyReady(files: seq<FileIR>, groups: map<string, seq<FileIR>>, families: seq<string>, i: nat)
    requires Grouped(files, groups, families) && i < |families| && forall f :: f in files ==> RefsOwned(f)
    ensures families[i] in groups && groups[families[i]] == OfFamily(files, families[i])
    ensures forall f :: f in groups[families[i]] ==> RefsOwned(f)
  {
    OfFamilyMembers(files, families[i]);
    assert families[i] in families;
    assert ListAt(groups, families[i]) == OfFamily(files, families[i]);
  }

  lemma OneMoreFamily(files: seq<FileIR>, families: seq<string>, i: nat)
    requires i < |families|
    ensures families[..i + 1] == families[..i] + [families[i]]
    ensures NodesOfFamilies(files, families[..i + 1])
         == NodesOfFamilies(files, families[..i]) + AllNodes(OfFamily(files, families[i]))
    ensures UsesOfFamilies(files, families[..i + 1])
         == UsesOfFamilies(files, families[..i]) + UsesOf(files, families[i])
  {
    assert families[..i + 1][..i] == families[..i];
  }

  method ResolveFamilies(paths: Paths, files: seq<FileIR>, groups: map<string, seq<FileIR>>, families: seq<string>,
                         pass: Pass)
    returns (nodes: seq<Node>, edges: seq<Edge>, ghost parts: seq<Part>)
    requires pass.Valid() && pass.extNodes == [] && pass.Tally() == Counts(0, 0, 0, 0, 0)
    requires Grouped(files, groups, families) && forall f :: f in files ==> RefsOwned(f)
    modifies pass
    ensures pass.Valid() && nodes == NodesOfFamilies(files, families)
    ensures pass.totalRefs == UsesOfFamilies(files, families)
    ensures AllHomely(files, IdsOf(pass.extNodes), edges)
    ensures Accounts(paths, files, families, parts, edges, pass.Tally())
  {
    nodes, edges, parts := [], [], [];
    for i := 0 to |families|
      invariant pass.Valid() && nodes == NodesOfFamilies(files, families[..i])
      invariant pass.totalRefs == UsesOfFamilies(files, families[..i])
      invariant AllHomely(files, IdsOf(pass.extNodes), edges)
      invariant Accounts(paths, files, families[..i], parts, edges, pass.Tally())
    {
      nodes, edges, parts := ResolveNextFamily(paths, files, groups, families, i, pass, nodes, edges, parts);
    }
    assert families[..|families|] == families;
  }

  // ---------------------------------------------------------------------------------
  // Deduplication

  function KindName(kind: EdgeKind): string {
    match kind
    case EdgeContains => "contains"
    case EdgeImports => "imports"
    case EdgeCalls => "calls"
    case EdgeInherits => "inherits"
    case EdgeImplements => "implements"
    case EdgeOverrides => "overrides"
    case EdgeReferences => "references"
    case EdgeDecorates => "decorates"
    case EdgeDependsOn => "depends_on"
  }

  /** The text that edges are told apart by. */
  function EdgeText(e: Edge): string {
    e.source + "|" + (e.target + "|" + (KindName(e.kind) + "|" + DecimalInt(e.line)))
  }

  function KindNamed(name: string): Option<EdgeKind> {
    if name == "contains" then Some(EdgeContains)
    else if name == "imports" then Some(EdgeImports)
    else if name == "calls" then Some(EdgeCalls)
    else if name == "inherits" then Some(EdgeInherits)
    else if name == "implements" then Some(EdgeImplements)
    else if name == "overrides" then Some(EdgeOverrides)
    else if name == "references" then Some(EdgeReferences)
    else if name == "decorates" then Some(EdgeDecorates)
    else if name == "depends_on" then Some(EdgeDependsOn)
    else None
  }

  lemma KindNameReads(kind: EdgeKind)
    ensures KindNamed(KindName(kind)) == Some(kind)
    ensures '|' !in KindName(kind)
  {
  }

  lemma BarAt(x: string, w: string)
    requires '|' !in w
    ensures (x + "|" + w)[|x|] == '|'
    ensures forall k :: |x| < k < |x + "|" + w| ==> (x + "|" + w)[k] != '|'
  {
  }

  /** What stands before and after the last bar of a text. */
  lemma LastBar(x: string, w: string, y: string, z: string)
    requires '|' !in w && '|' !in z && x + "|" + w == y + "|" + z
    ensures x == y && w == z
  {
    var s := x + "|" + w;
    BarAt(x, w);
    BarAt(y, z);
    assert |x| == |y|;
    assert s[..|x|] == x && s[..|y|] == y && s[|x| + 1..] == w && s[|y| + 1..] == z;
  }

  /** The kind and the line can always be read off a text. */
  lemma TextTail(a: Edge, b: Edge)
    ensures EdgeText(a) == EdgeText(b) <==>
              a.source + "|" + a.target == b.source + "|" + b.target && a.kind == b.kind && a.line == b.line
  {
    var idsA, idsB := a.source + "|" + a.target, b.source + "|" + b.target;
    var kindA, kindB := KindName(a.kind), KindName(b.kind);
    assert EdgeText(a) == (idsA + "|" + kindA) + "|" + DecimalInt(a.line);
    assert EdgeText(b) == (idsB + "|" + kindB) + "|" + DecimalInt(b.line);
    if EdgeText(a) == EdgeText(b) {
      SignShows(a.line);
      SignShows(b.line);
      KindNameReads(a.kind);
      KindNameReads(b.kind);
      LastBar(idsA + "|" + kindA, DecimalInt(a.line), idsB + "|" + kindB, DecimalInt(b.line));
      LastBar(idsA, kindA, idsB, kindB);
      DecimalIntInjective(a.line, b.line);
    }
  }

  /** The source of `b` is that of `a`, a bar and more, which the target of `a` has in front of
      that of `b`. */
  predicate Shifted(a: Edge, b: Edge) {
    && a.kind == b.kind && a.line == b.line
    && |a.source| < |b.source| && b.source[..|a.source| + 1] == a.source + "|"
    && a.target == b.source[|a.source| + 1..] + "|" + b.target
  }

  lemma JoinSame(a: Edge, b: Edge)
    requires a.source + "|" + a.target == b.source + "|" + b.target && |a.source| == |b.source|
    ensures a.source == b.source && a.target == b.target
  {
    var s, n := a.source + "|" + a.target, |a.source|;
    assert s[..n] == a.source && s[..n] == b.source && s[n + 1..] == a.target && s[n + 1..] == b.target;
  }

  lemma JoinShifted(a: Edge, b: Edge)
    requires a.source + "|" + a.target == b.source + "|" + b.target && a.kind == b.kind && a.line == b.line
    requires |a.source| < |b.source|
    ensures Shifted(a, b)
  {
    var s, n := a.source + "|" + a.target, |a.source|;
    assert s[..n + 1] == a.source + "|" && s[..|b.source|] == b.source;
    assert b.source[..n + 1] == s[..n + 1];
    assert s[n + 1..] == a.target && s[n + 1..] == b.source[n + 1..] + "|" + b.target;
  }

  lemma ShiftedJoin(a: Edge, b: Edge)
    requires Shifted(a, b)
    ensures EdgeText(a) == EdgeText(b) && Store.KeyOf(a) != Store.KeyOf(b)
  {
    var n := |a.source|;
    assert b.source == a.source + "|" + b.source[n + 1..];
    assert a.source + "|" + a.target == b.source + "|" + b.target;
    TextTail(a, b);
  }

  /** Two edges share a text exactly if they are the same edge or one is the other shifted. */
  lemma TextExactly(a: Edge, b: Edge)
    ensures EdgeText(a) == EdgeText(b) <==> Store.KeyOf(a) == Store.KeyOf(b) || Shifted(a, b) || Shifted(b, a)
  {
    TextTail(a, b);
    if EdgeText(a) == EdgeText(b) {
      if |a.source| == |b.source| {
        JoinSame(a, b);
      } else if |a.source| < |b.source| {
        JoinShifted(a, b);
      } else {
        JoinShifted(b, a);
      }
    }
    if Shifted(a, b) { ShiftedJoin(a, b); }
    if Shifted(b, a) { ShiftedJoin(b, a); }
  }

  /** Without a bar in the sources, the text says exactly which edge it is, whatever the
      targets. */
  lemma TextTells(a: Edge, b: Edge)
    requires '|' !in a.source && '|' !in b.source && EdgeText(a) == EdgeText(b)
    ensures Store.KeyOf(a) == Store.KeyOf(b)
  {
    TextExactly(a, b);
    if Shifted(a, b) { ShiftedHasBar(a, b); }
    if Shifted(b, a) { ShiftedHasBar(b, a); }
  }

  lemma ShiftedHasBar(a: Edge, b: Edge)
    requires Shifted(a, b)
    ensures '|' in b.source
  {
    assert b.source[..|a.source| + 1][|a.source|] == '|' && b.source[|a.source|] in b.source;
  }

  predicate EdgeLess(a: Edge, b: Edge) {
    if a.source != b.source then StrLess(a.source, b.source)
    else if a.target != b.target then StrLess(a.target, b.target)
    else if a.kind != b.kind then StrLess(KindName(a.kind), KindName(b.kind))
    else a.line < b.line
  }

  lemma EdgeLessWeak()
    ensures StrictWeak(EdgeLess)
    ensures forall a, b :: Store.KeyOf(a) != Store.KeyOf(b) ==> EdgeLess(a, b) || EdgeLess(b, a)
  {
    StrLessTotal();
    forall k ensures KindNamed(KindName(k)) == Some(k) { KindNameReads(k); }
    forall x, y, z | EdgeLess(x, y) && EdgeLess(y, z) ensures EdgeLess(x, z) {
    }
    forall x, y, z | EdgeLess(x, z) ensures EdgeLess(x, y) || EdgeLess(y, z) {
    }
  }

  /** The map built by storing edges under their text: the last one stays. */
  function LastByText(edges: seq<Edge>): map<string, Edge> {
    if edges == [] then map[]
    else LastByText(edges[..|edges| - 1])[EdgeText(edges[|edges| - 1]) := edges[|edges| - 1]]
  }

  lemma {:induction false} LastByTextKeys(edges: seq<Edge>)
    ensures forall k :: k in LastByText(edges) ==> LastByText(edges)[k] in edges && EdgeText(LastByText(edges)[k]) == k
    ensures forall e :: e in edges ==> EdgeText(e) in LastByText(edges)
  {
    if edges != [] {
      LastByTextKeys(edges[..|edges| - 1]);
      assert edges == edges[..|edges| - 1] + [edges[|edges| - 1]];
    }
  }

  /** One edge for each text, the last emitted, in the order of the edges' own keys. */
  ghost predicate Deduplicated(emitted: seq<Edge>, kept: seq<Edge>) {
    && (forall e :: e in kept <==> EdgeText(e) in LastByText(emitted) && LastByText(emitted)[EdgeText(e)] == e)
    && StrictlySorted(kept, EdgeLess)
  }

  method EdgesByText(edges: seq<Edge>) returns (m: map<string, Edge>)
    ensures m == LastByText(edges)
  {
    m := map[];
    for i := 0 to |edges|
      invariant m == LastByText(edges[..i])
    {
      assert edges[..i + 1][..i] == edges[..i];
      m := m[EdgeText(edges[i]) := edges[i]];
    }
    assert edges[..|edges|] == edges;
  }

  method ListEdges(m: map<string, Edge>) returns (list: seq<Edge>)
    requires forall k :: k in m ==> EdgeText(m[k]) == k
    ensures forall e :: e in list <==> EdgeText(e) in m && m[EdgeText(e)] == e
    ensures Distinct(list)
  {
    list := [];
    var todo := m.Keys;
    while todo != {}
      invariant todo <= m.Keys && Distinct(list)
      invariant forall e :: e in list <==> EdgeText(e) in m && EdgeText(e) !in todo && m[EdgeText(e)] == e
      decreases todo
    {
      var k :| k in todo;
      todo := todo - {k};
      list := list + [m[k]];
    }
  }

  method Dedup(emitted: seq<Edge>) returns (kept: seq<Edge>)
    ensures Deduplicated(emitted, kept)
  {
    var m := EdgesByText(emitted);
    LastByTextKeys(emitted);
    var list := ListEdges(m);
    EdgeLessWeak();
    kept := SortSlice(list, EdgeLess);
    PermutationElems(list, kept);
    PermutationDistinct(list, kept);
    TextsApart(m, kept);
  }

  lemma TextsApart(m: map<string, Edge>, kept: seq<Edge>)
    requires forall e :: e in kept ==> EdgeText(e) in m && m[EdgeText(e)] == e
    requires Distinct(kept) && Sorted(kept, EdgeLess)
    ensures StrictlySorted(kept, EdgeLess)
  {
    EdgeLessWeak();
    forall i, j | 0 <= i < j < |kept| ensures EdgeLess(kept[i], kept[j]) {
      assert kept[i] in kept && kept[j] in kept && kept[i] != kept[j];
      assert Store.KeyOf(kept[i]) == Store.KeyOf(kept[j]) ==> EdgeText(kept[i]) == EdgeText(kept[j]);
    }
  }

  /** No two emitted edges with different keys share a text. */
  ghost predicate TextsTell(emitted: seq<Edge>) {
    forall a, b :: a in emitted && b in emitted && EdgeText(a) == EdgeText(b) ==> Store.KeyOf(a) == Store.KeyOf(b)
  }

  ghost predicate Kept(kept: seq<Edge>, e: Edge) {
    exists k :: k in kept && Store.KeyOf(k) == Store.KeyOf(e)
  }

  lemma SurvivesByText(emitted: seq<Edge>, kept: seq<Edge>)
    requires Deduplicated(emitted, kept)
    ensures (forall e :: e in emitted ==> Kept(kept, e)) <==> TextsTell(emitted)
  {
    LastByTextKeys(emitted);
    if forall e :: e in emitted ==> Kept(kept, e) {
      forall a, b | a in emitted && b in emitted && EdgeText(a) == EdgeText(b)
        ensures Store.KeyOf(a) == Store.KeyOf(b)
      {
        assert Kept(kept, a) && Kept(kept, b);
        var k :| k in kept && Store.KeyOf(k) == Store.KeyOf(a);
        var l :| l in kept && Store.KeyOf(l) == Store.KeyOf(b);
        assert EdgeText(k) == EdgeText(a) && EdgeText(l) == EdgeText(b);
      }
    }
    forall e | e in emitted && TextsTell(emitted)
      ensures Kept(kept, e)
    {
      var k := LastByText(emitted)[EdgeText(e)];
      assert k in kept;
    }
  }

  /** An edge of every emitted key survives exactly when no emitted edge is another one
      shifted. */
  lemma NothingLostExactly(emitted: seq<Edge>, kept: seq<Edge>)
    requires Deduplicated(emitted, kept)
    ensures (forall e :: e in emitted ==> Kept(kept, e)) <==>
              forall a, b :: a in emitted && b in emitted ==> !Shifted(a, b)
  {
    SurvivesByText(emitted, kept);
    forall a, b | a in emitted && b in emitted && Shifted(a, b) ensures !TextsTell(emitted) {
      ShiftedJoin(a, b);
    }
    if forall a, b :: a in emitted && b in emitted ==> !Shifted(a, b) {
      forall a, b | a in emitted && b in emitted && EdgeText(a) == EdgeText(b)
        ensures Store.KeyOf(a) == Store.KeyOf(b)
      {
        TextExactly(a, b);
      }
    }
  }

  /** An ID of the form path:name without a bar in the name. */
  predicate PlainName(id: Id) {
    Cut(id, ':').Some? && '|' !in Cut(id, ':').value.1
  }

  lemma ShiftedName(a: Edge, b: Edge)
    requires Shifted(a, b) && Cut(a.source, ':').Some?
    ensures Cut(b.source, ':').Some? && '|' in Cut(b.source, ':').value.1
  {
    var n, c := |a.source|, Cut(a.source, ':').value;
    var more := b.source[n + 1..];
    CutJoins(a.source, ':');
    assert b.source == a.source + "|" + more;
    assert b.source == c.0 + [':'] + (c.1 + "|" + more);
    CutAt(c.0, ':', c.1 + "|" + more);
    assert (c.1 + "|" + more)[|c.1|] == '|';
  }

  lemma PlainNeverShifted(a: Edge, b: Edge)
    requires PlainName(a.source) && PlainName(b.source)
    ensures !Shifted(a, b)
  {
    if Shifted(a, b) { ShiftedName(a, b); }
  }

  /** So nothing is lost as long as no declared name that refers to something has a bar in it:
      bars in paths, in targets and in external names do no harm. */
  lemma NoBarsNothingLost(emitted: seq<Edge>, kept: seq<Edge>)
    requires Deduplicated(emitted, kept)
    requires forall e :: e in emitted ==> PlainName(e.source)
    ensures forall e :: e in emitted ==> Kept(kept, e)
  {
    NothingLostExactly(emitted, kept);
    forall a, b | a in emitted && b in emitted ensures !Shifted(a, b) {
      PlainNeverShifted(a, b);
    }
  }

  /** Of two edges of which one is the other shifted, deduplication keeps the later alone. */
  lemma ShiftedIsLost(a: Edge, b: Edge, kept: seq<Edge>)
    requires Shifted(a, b) && Deduplicated([a, b], kept)
    ensures b in kept && !Kept(kept, a)
  {
    ShiftedJoin(a, b);
    assert [a][..0] == [] && LastByText([a]) == map[EdgeText(a) := a];
    assert [a, b][..1] == [a];
    assert LastByText([a, b]) == map[EdgeText(b) := b];
    forall k | k in kept ensures k == b {
      assert EdgeText(k) in LastByText([a, b]) && LastByText([a, b])[EdgeText(k)] == k;
    }
  }

  /** The kept edges in their order, field by field. */
  lemma KeptOrdered(emitted: seq<Edge>, kept: seq<Edge>, i: nat, j: nat)
    requires Deduplicated(emitted, kept) && i < j < |kept|
    ensures var a, b := kept[i], kept[j];
      || ComesBefore(a.source, b.source)
      || (a.source == b.source && ComesBefore(a.target, b.target))
      || (a.source == b.source && a.target == b.target && ComesBefore(KindName(a.kind), KindName(b.kind)))
      || (a.source == b.source && a.target == b.target && a.kind == b.kind && a.line < b.line)
  {
    var a, b := kept[i], kept[j];
    assert EdgeLess(a, b);
    StrLessExactly(a.source, b.source);
    StrLessExactly(a.target, b.target);
    StrLessExactly(KindName(a.kind), KindName(b.kind));
  }

  // ---------------------------------------------------------------------------------
  // The whole pass

  predicate NodeLess(a: Node, b: Node) {
    if a.filePath != b.filePath then StrLess(a.filePath, b.filePath)
    else if a.startByte != b.startByte then a.startByte < b.startByte
    else StrLess(a.id, b.id)
  }

  /** The nodes are the declarations and the external nodes, the edges stay in one family or
      lead outside, and the result can be committed. */
  ghost predicate Sound(files: seq<FileIR>, res: Diff.Resolution) {
    && (forall n :: n in res.nodes ==> Declared(files, n) || n == ExternalNode(n.name))
    && (forall n :: Declared(files, n) ==> n in res.nodes)
    && (forall e :: e in res.edges ==> Homely(files, ExternalIds(res.nodes), e))
    && Diff.ClosedResult(res)
  }

  /** The nodes in their order: the declarations, as often as they are declared, and one
      external node for each name that some edge had to lead out to. */
  ghost predicate Listed(files: seq<FileIR>, families: seq<string>, externals: seq<Node>, emitted: seq<Edge>,
                         nodes: seq<Node>)
  {
    && Sorted(nodes, NodeLess)
    && multiset(nodes) == multiset(NodesOfFamilies(files, families) + externals)
    && ExternalsOk(IdsOf(externals), externals) && IdsOf(externals) <= TargetsOf(emitted)
  }

  /** The nodes in their order, field by field. */
  lemma NodesOrdered(files: seq<FileIR>, families: seq<string>, externals: seq<Node>, emitted: seq<Edge>,
                     nodes: seq<Node>, i: nat, j: nat)
    requires Listed(files, families, externals, emitted, nodes) && i < j < |nodes|
    ensures var a, b := nodes[i], nodes[j];
      || ComesBefore(a.filePath, b.filePath)
      || (a.filePath == b.filePath && a.startByte < b.startByte)
      || (a.filePath == b.filePath && a.startByte == b.startByte && (a.id == b.id || ComesBefore(a.id, b.id)))
  {
    var a, b := nodes[i], nodes[j];
    assert !NodeLess(b, a);
    StrLessTotal();
    StrLessExactly(a.filePath, b.filePath);
    StrLessExactly(a.id, b.id);
  }

  /** An external node, field by field. */
  lemma ExternalMeans(name: string)
    ensures var n := ExternalNode(name);
      && n.id == "external:" + name && n.kind == KindExternal && n.name == name && n.qualifiedName == name
      && n.filePath == "" && n.visibility == VisExported && n.entrypointKind == EntryNone
      && !n.isTest && !n.isEntrypoint
  {
  }

  /** What a pass over the files may come to. */
  ghost predicate Allowed(files: seq<FileIR>, res: Diff.Resolution) {
    && Sound(files, res)
    && exists families, externals, emitted :: AllowedBy(files, res, families, externals, emitted)
  }

  ghost predicate AllowedBy(files: seq<FileIR>, res: Diff.Resolution, families: seq<string>, externals: seq<Node>,
                            emitted: seq<Edge>)
  {
    && AllHomely(files, IdsOf(externals), emitted)
    && Deduplicated(emitted, res.edges) && Listed(files, families, externals, emitted, res.nodes)
  }

  /** Every reference is counted once. */
  predicate AddsUp(files: seq<FileIR>, counts: Counts) {
    && counts.total == |FlatMap(files, UsesIn)|
    && counts.total == counts.exact + counts.ambiguous + counts.nameMatch + counts.unknown
  }

  ghost function ExternalIds(nodes: seq<Node>): set<Id> {
    set n | n in nodes && n == ExternalNode(n.name) :: n.id
  }

  method Resolve(paths: Paths, files: seq<FileIR>)
    returns (res: Diff.Resolution, counts: Counts,
             ghost families: seq<string>, ghost parts: seq<Part>, ghost emitted: seq<Edge>,
             ghost externals: seq<Node>)
    requires forall f :: f in files ==> RefsOwned(f)
    ensures Sound(files, res) && AddsUp(files, counts) && Allowed(files, res)
    ensures StrictlySorted(families, StrLess) && forall f :: f in files ==> Family(f.language) in families
    ensures Accounts(paths, files, families, parts, emitted, counts)
    ensures AllHomely(files, IdsOf(externals), emitted)
    ensures Deduplicated(emitted, res.edges) && Listed(files, families, externals, emitted, res.nodes)
  {
    var groups, fams := GroupByFamily(files);
    fams := SortFamilies(files, groups, fams);
    families := fams;
    var pass := new Pass();
    var nodes, edges;
    nodes, edges, parts := ResolveFamilies(paths, files, groups, fams, pass);
    FamiliesAreAll(files, groups, fams);
    FamiliesCover(files, fams);
    res := Assemble(files, fams, nodes, pass.extNodes, pass.seen, edges);
    counts, emitted, externals := pass.Tally(), edges, pass.extNodes;
    assert AllowedBy(files, res, families, externals, emitted);
  }

  /** Sorts the nodes and drops repeated edges. */
  method Assemble(ghost files: seq<FileIR>, ghost families: seq<string>, nodes: seq<Node>, extNodes: seq<Node>,
                  ghost seen: set<Id>, edges: seq<Edge>)
    returns (res: Diff.Resolution)
    requires nodes == NodesOfFamilies(files, families) && forall f :: f in files ==> Family(f.language) in families
    requires ExternalsOk(seen, extNodes) && AllHomely(files, IdsOf(extNodes), edges)
    ensures Sound(files, res) && Deduplicated(edges, res.edges)
    ensures Listed(files, families, extNodes, edges, res.nodes)
  {
    StrLessTotal();
    var sorted := SortSlice(nodes + extNodes, NodeLess);
    var kept := Dedup(edges);
    res := Diff.Resolution(sorted, kept);
    ResolvedAll(files, families, nodes, extNodes, seen, edges, sorted, kept);
  }

  lemma FamiliesAreAll(files: seq<FileIR>, groups: map<string, seq<FileIR>>, families: seq<string>)
    requires Grouped(files, groups, families)
    ensures forall f :: f in files ==> Family(f.language) in families
  {
    forall f | f in files ensures Family(f.language) in families {
      OfFamilyMembers(files, Family(f.language));
      assert f in ListAt(groups, Family(f.language));
    }
  }

  lemma ResolvedAll(files: seq<FileIR>, families: seq<string>, nodes: seq<Node>, extNodes: seq<Node>, seen: set<Id>,
                    edges: seq<Edge>, sorted: seq<Node>, kept: seq<Edge>)
    requires nodes == NodesOfFamilies(files, families) && forall f :: f in files ==> Family(f.language) in families
    requires ExternalsOk(seen, extNodes) && AllHomely(files, IdsOf(extNodes), edges)
    requires multiset(sorted) == multiset(nodes + extNodes) && Deduplicated(edges, kept)
    ensures Sound(files, Diff.Resolution(sorted, kept))
  {
    PermutationElems(sorted, nodes + extNodes);
    FamilyNodes(files, families);
    LastByTextKeys(edges);
    assert IdsOf(extNodes) <= ExternalIds(sorted);
    forall e | e in kept ensures Homely(files, ExternalIds(sorted), e) {
      assert e in edges;
      assert Homely(files, IdsOf(extNodes), e);
      var fam :| e.source in FamilyIds(files, fam)
                 && (e.target in FamilyIds(files, fam) || e.target in IdsOf(extNodes));
      assert e.source in FamilyIds(files, fam);
    }
    LastWinsKeys(sorted);
    forall e | e in kept ensures e.source in LastWins(sorted).Keys && e.target in LastWins(sorted).Keys {
      HomelyListed(files, sorted, e);
    }
  }

  lemma HomelyListed(files: seq<FileIR>, sorted: seq<Node>, e: Edge)
    requires Homely(files, ExternalIds(sorted), e)
    requires forall n :: Declared(files, n) ==> n in sorted
    ensures exists n :: n in sorted && n.id == e.source
    ensures exists n :: n in sorted && n.id == e.target
  {
    var fam :| e.source in FamilyIds(files, fam)
               && (e.target in FamilyIds(files, fam) || e.target in ExternalIds(sorted));
    AllNodesMembers(OfFamily(files, fam));
    OfFamilyMembers(files, fam);
    forall n | n in AllNodes(OfFamily(files, fam)) ensures n in sorted {
      var f :| f in OfFamily(files, fam) && n in f.nodes;
      assert Declared(files, n);
    }
  }
}
