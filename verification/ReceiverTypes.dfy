/** What type the receiver of a call has, and which methods it may mean. */
module ReceiverTypes {
  import opened CodeGraph
  import opened Text
  import opened Digraph
  import opened Hierarchy
  import opened NameIndex

  /** The declaration of a method, by the type it is filed under. */
  function MethodOf(methods: map<string, map<string, Node>>, name: string): string -> Option<Node> {
    (t: string) => Find(methods, t, name)
  }

  /** The declared type of a field, by the type that has it. */
  function FieldOf(fields: map<string, string>, name: string): string -> Option<string> {
    (t: string) =>
      var key := t + "." + name;
      if key in fields && fields[key] != "" then Some(fields[key]) else None
  }

  ghost predicate NearestMethods(idx: Index, typeName: string, name: string, methods: seq<Node>) {
    Nearest(BaseRel(idx.typeBases), MethodOf(idx.typeMethods, name), typeName, methods)
  }

  /** `fieldType` is the type of the field in a nearest type that declares it. */
  ghost predicate NearestField(idx: Index, typeName: string, field: string, fieldType: string) {
    IsNearest(BaseRel(idx.typeBases), FieldOf(idx.typeFields, field), typeName, fieldType)
  }

  ghost predicate NoField(idx: Index, typeName: string, field: string) {
    NoneAtAll(BaseRel(idx.typeBases), FieldOf(idx.typeFields, field), typeName)
  }

  /** A declaration of that name, or a method qualified by it. */
  predicate GoesBy(n: Node, name: string) {
    || n.name == name
    || (n.kind.KindMethod? && Cut(n.qualifiedName, '.').Some? && Cut(n.qualifiedName, '.').value.1 == name)
  }

  method FindMethodInHierarchy(idx: Index, typeName: string, name: string) returns (methods: seq<Node>)
    ensures NearestMethods(idx, typeName, name, methods)
  {
    methods := FindInHierarchy(idx.typeBases, MethodOf(idx.typeMethods, name), false, typeName);
  }

  method FindFieldInHierarchy(idx: Index, typeName: string, field: string) returns (fieldType: string)
    ensures if fieldType == "" then NoField(idx, typeName, field) else NearestField(idx, typeName, field, fieldType)
  {
    var found := FindInHierarchy(idx.typeBases, FieldOf(idx.typeFields, field), true, typeName);
    if |found| == 0 {
      return "";
    }
    fieldType := found[0];
    NearestFieldNamed(idx, typeName, field, found);
  }

  lemma NearestFieldNamed(idx: Index, typeName: string, field: string, found: seq<string>)
    requires Nearest(BaseRel(idx.typeBases), FieldOf(idx.typeFields, field), typeName, found) && |found| > 0
    ensures found[0] != "" && NearestField(idx, typeName, field, found[0])
  {
    var R, declares := BaseRel(idx.typeBases), FieldOf(idx.typeFields, field);
    assert found[0] in found;
    assert IsNearest(R, declares, typeName, found[0]);
    var d: nat :| DeclaredAt(R, declares, typeName, found[0], d) && NoneNearer(R, declares, typeName, d);
    var x :| declares(x) == Some(found[0]);
  }

  /** A nearest method is a method of the family, qualified by the name asked for. */
  lemma NearestMethodsReal(idx: Index, typeName: string, name: string, methods: seq<Node>)
    requires MethodsOk(idx.typeMethods, idx.nodes) && NearestMethods(idx, typeName, name, methods)
    ensures forall m :: m in methods ==> m in idx.nodes && GoesBy(m, name)
  {
    var R, declares := BaseRel(idx.typeBases), MethodOf(idx.typeMethods, name);
    forall m | m in methods ensures m in idx.nodes && GoesBy(m, name) {
      assert IsNearest(R, declares, typeName, m);
      var d: nat :| DeclaredAt(R, declares, typeName, m, d) && NoneNearer(R, declares, typeName, d);
      var x :| declares(x) == Some(m);
      assert Find(idx.typeMethods, x, name) == LastMethod(idx.nodes, x, name);
      LastMethodIn(idx.nodes, x, name);
    }
  }

  /** The table of fields gives type `t` to the field of type `u`. */
  ghost predicate HasField(fields: map<string, string>, u: string, field: string, t: string) {
    exists key :: key in fields && key == u + "." + field && fields[key] == t
  }

  /** What is found for a field, in terms of the tables. */
  lemma FieldMeans(idx: Index, typeName: string, field: string, t: string)
    ensures NearestField(idx, typeName, field, t) <==>
              t != "" && exists d: nat :: FieldAt(idx, typeName, field, t, d) && NoFieldWithin(idx, typeName, field, d)
    ensures NoField(idx, typeName, field) <==>
              forall w, x :: Reaches(BaseRel(idx.typeBases), typeName, w) && HasField(idx.typeFields, w, field, x) ==>
                x == ""
  {
    var R, declares := BaseRel(idx.typeBases), FieldOf(idx.typeFields, field);
    forall u, x ensures x != "" ==> (declares(u) == Some(x) <==> HasField(idx.typeFields, u, field, x)) {
    }
    forall u ensures declares(u).Some? ==> declares(u).value != "" {
    }
    if NearestField(idx, typeName, field, t) {
      var d: nat :| DeclaredAt(R, declares, typeName, t, d) && NoneNearer(R, declares, typeName, d);
      var u :| declares(u) == Some(t) && Distance(R, typeName, u, d);
      assert FieldAt(idx, typeName, field, t, d);
    }
    if d: nat :| t != "" && FieldAt(idx, typeName, field, t, d) && NoFieldWithin(idx, typeName, field, d) {
      assert DeclaredAt(R, declares, typeName, t, d) && NoneNearer(R, declares, typeName, d);
    }
  }

  ghost predicate FieldAt(idx: Index, typeName: string, field: string, t: string, d: nat) {
    exists u :: Distance(BaseRel(idx.typeBases), typeName, u, d) && HasField(idx.typeFields, u, field, t)
  }

  ghost predicate NoFieldWithin(idx: Index, typeName: string, field: string, d: nat) {
    d == 0 || forall w, x :: Within(BaseRel(idx.typeBases), typeName, w, d - 1) && HasField(idx.typeFields, w, field, x)
                ==> x == ""
  }

  /** What is found for a method: one filed under a type at the least distance that has any. */
  lemma MethodsMean(idx: Index, typeName: string, name: string, methods: seq<Node>, m: Node)
    requires NearestMethods(idx, typeName, name, methods) && m in methods
    ensures exists d: nat, u ::
              && Distance(BaseRel(idx.typeBases), typeName, u, d)
              && u in idx.typeMethods && name in idx.typeMethods[u] && idx.typeMethods[u][name] == m
              && (d == 0 || forall w :: Within(BaseRel(idx.typeBases), typeName, w, d - 1) ==>
                                          w !in idx.typeMethods || name !in idx.typeMethods[w])
  {
    var R, declares := BaseRel(idx.typeBases), MethodOf(idx.typeMethods, name);
    assert IsNearest(R, declares, typeName, m);
    var d: nat :| DeclaredAt(R, declares, typeName, m, d) && NoneNearer(R, declares, typeName, d);
    var u :| declares(u) == Some(m) && Distance(R, typeName, u, d);
    forall w ensures declares(w).None? ==> w !in idx.typeMethods || name !in idx.typeMethods[w] {
    }
  }

  // ---------------------------------------------------------------------------------
  // Scopes

  function VarKey(scope: string, name: string): string {
    scope + "\0" + name
  }

  /** A scope is a node ID, "path:qualified.name": the class is what stands before a dot. */
  function EnclosingClass(scope: Id): string {
    match Cut(scope, ':')
    case None => ""
    case Some(p) => var parts := Split(p.1, '.'); if |parts| >= 2 then parts[0] else ""
  }

  function ScopeFile(scope: Id): string {
    match Cut(scope, ':')
    case None => scope
    case Some(p) => p.0
  }

  /** Both read a node ID apart as it was put together. */
  lemma ScopeReadsBack(path: string, class': string, member: string)
    requires ':' !in path && '.' !in class'
    ensures var id := path + ":" + (class' + "." + member);
      ScopeFile(id) == path && EnclosingClass(id) == class'
  {
    CutAt(path, ':', class' + "." + member);
    CutAt(class', '.', member);
  }

  /** Nor is anything read into an ID that is not put together so. */
  lemma ScopeWithout(path: string, name: string)
    requires ':' !in path && '.' !in name
    ensures ScopeFile(path) == path && EnclosingClass(path) == ""
    ensures ScopeFile(path + ":" + name) == path && EnclosingClass(path + ":" + name) == ""
  {
    CutJoins(path, ':');
    CutAt(path, ':', name);
    CutJoins(name, '.');
  }

  function TypedVar(vars: map<string, string>, scope: string, name: string): string {
    if VarKey(scope, name) in vars then vars[VarKey(scope, name)] else ""
  }

  /** The type the first name of a receiver stands for, "" if it cannot be told. */
  ghost function StartType(idx: Index, scope: Id, first: string): string {
    if first == "super" then
      if ListAt(idx.typeBases, EnclosingClass(scope)) != [] then idx.typeBases[EnclosingClass(scope)][0] else ""
    else if TypedVar(idx.varTypes, scope, first) != "" then TypedVar(idx.varTypes, scope, first)
    else if first == "this" || first == "self" then EnclosingClass(scope)
    else if TypedVar(idx.varTypes, ScopeFile(scope), first) != "" then TypedVar(idx.varTypes, ScopeFile(scope), first)
    else if first in idx.typeMethods then first
    else ""
  }

  method FindStart(idx: Index, scope: Id, first: string) returns (t: string)
    ensures t == StartType(idx, scope, first)
  {
    t := "";
    if first == "this" || first == "self" {
      t := TypedVar(idx.varTypes, scope, first);
      if t == "" {
        t := EnclosingClass(scope);
      }
    } else if first == "super" {
      var bases := ListAt(idx.typeBases, EnclosingClass(scope));
      if |bases| > 0 {
        t := bases[0];
      }
    } else {
      t := TypedVar(idx.varTypes, scope, first);
      if t == "" {
        t := TypedVar(idx.varTypes, ScopeFile(scope), first);
        if t == "" && first in idx.typeMethods {
          t := first;
        }
      }
    }
  }

  /** The table of variables gives type `t` to a variable of the scope, and not "". */
  ghost predicate IsTyped(vars: map<string, string>, scope: string, name: string, t: string) {
    t != "" && scope + "\0" + name in vars && vars[scope + "\0" + name] == t
  }

  /** No variable of that name has a type in the scope. */
  ghost predicate Untyped(vars: map<string, string>, scope: string, name: string) {
    forall t :: !IsTyped(vars, scope, name, t)
  }

  lemma TypedExactly(vars: map<string, string>, scope: string, name: string, t: string)
    ensures IsTyped(vars, scope, name, t) <==> t != "" && TypedVar(vars, scope, name) == t
    ensures Untyped(vars, scope, name) <==> TypedVar(vars, scope, name) == ""
  {
    assert TypedVar(vars, scope, name) != "" ==> IsTyped(vars, scope, name, TypedVar(vars, scope, name));
  }

  /** What stands for `super`, `this`, `self` and any other name inside a member of a class, in
      terms of the tables. */
  lemma SuperMeans(idx: Index, path: string, class': string, member: string, t: string)
    requires ':' !in path && '.' !in class' && t != ""
    ensures Leads(idx, path + ":" + (class' + "." + member), ["super"], t) <==>
              class' in idx.typeBases && idx.typeBases[class'] != [] && idx.typeBases[class'][0] == t
  {
    ScopeReadsBack(path, class', member);
  }

  lemma SelfMeans(idx: Index, path: string, class': string, member: string, self: string, t: string)
    requires ':' !in path && '.' !in class' && t != "" && (self == "this" || self == "self")
    ensures var scope := path + ":" + (class' + "." + member);
      Leads(idx, scope, [self], t) <==>
        IsTyped(idx.varTypes, scope, self, t) || (Untyped(idx.varTypes, scope, self) && t == class')
  {
    var scope := path + ":" + (class' + "." + member);
    ScopeReadsBack(path, class', member);
    TypedExactly(idx.varTypes, scope, self, t);
  }

  lemma NameMeans(idx: Index, path: string, class': string, member: string, first: string, t: string)
    requires ':' !in path && '.' !in class' && t != "" && first != "this" && first != "self" && first != "super"
    ensures var scope := path + ":" + (class' + "." + member);
      Leads(idx, scope, [first], t) <==>
        || IsTyped(idx.varTypes, scope, first, t)
        || (Untyped(idx.varTypes, scope, first) && IsTyped(idx.varTypes, path, first, t))
        || (Untyped(idx.varTypes, scope, first) && Untyped(idx.varTypes, path, first)
            && t == first && first in idx.typeMethods)
  {
    var scope := path + ":" + (class' + "." + member);
    ScopeReadsBack(path, class', member);
    TypedExactly(idx.varTypes, scope, first, t);
    TypedExactly(idx.varTypes, path, first, t);
  }

  /** Following the names of a receiver, field by field, leads to type `t`. */
  ghost predicate Leads(idx: Index, scope: Id, parts: seq<string>, t: string) {
    parts != [] &&
    if |parts| == 1 then t != "" && t == StartType(idx, scope, parts[0])
    else exists u {:trigger NearestField(idx, u, parts[|parts| - 1], t)} ::
      Leads(idx, scope, parts[..|parts| - 1], u) && NearestField(idx, u, parts[|parts| - 1], t)
  }

  /** The chain ends at the `n`th name: the type reached by then has no such field. */
  ghost predicate StuckAt(idx: Index, scope: Id, parts: seq<string>, n: nat) {
    n < |parts| && exists u :: Leads(idx, scope, parts[..n], u) && NoField(idx, u, parts[n])
  }

  ghost predicate Stuck(idx: Index, scope: Id, parts: seq<string>) {
    (parts != [] && StartType(idx, scope, parts[0]) == "") || exists n :: StuckAt(idx, scope, parts, n)
  }

  lemma LeadsOn(idx: Index, scope: Id, parts: seq<string>, i: nat, u: string, t: string)
    requires 1 <= i < |parts| && Leads(idx, scope, parts[..i], u) && NearestField(idx, u, parts[i], t)
    ensures Leads(idx, scope, parts[..i + 1], t)
  {
    var taken := parts[..i + 1];
    assert |taken| == i + 1 && taken[..|taken| - 1] == parts[..i] && taken[|taken| - 1] == parts[i];
    assert Leads(idx, scope, taken[..|taken| - 1], u) && NearestField(idx, u, taken[|taken| - 1], t);
  }

  method ResolveReceiverType(idx: Index, scope: Id, receiver: string) returns (t: string)
    ensures receiver == "" ==> t == ""
    ensures receiver != "" && t != "" ==> Leads(idx, scope, Split(receiver, '.'), t)
    ensures receiver != "" && t == "" ==> Stuck(idx, scope, Split(receiver, '.'))
  {
    if receiver == "" {
      return "";
    }
    var parts := Split(receiver, '.');
    t := FollowParts(idx, scope, parts);
    assert if t != "" then Leads(idx, scope, parts, t) else Stuck(idx, scope, parts);
  }

  method FollowParts(idx: Index, scope: Id, parts: seq<string>) returns (t: string)
    requires parts != []
    ensures t != "" ==> Leads(idx, scope, parts, t)
    ensures t == "" ==> Stuck(idx, scope, parts)
  {
    t := FindStart(idx, scope, parts[0]);
    if t == "" {
      return;
    }
    assert parts[..1] == [parts[0]];
    for i := 1 to |parts|
      invariant t != "" && Leads(idx, scope, parts[..i], t)
    {
      var fieldType := FindFieldInHierarchy(idx, t, parts[i]);
      if fieldType == "" {
        assert StuckAt(idx, scope, parts, i);
        return "";
      }
      LeadsOn(idx, scope, parts, i, t, fieldType);
      t := fieldType;
    }
    assert parts[..|parts|] == parts;
  }
}
