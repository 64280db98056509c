/** The tables a resolver pass looks names up in, built from the parsed files of one
    language family. */
module NameIndex {
  import opened CodeGraph
  import opened Orders
  import opened Text

  datatype Ref = Ref(kind: EdgeKind, name: string, receiver: string, fromId: Id, line: int)

  datatype ImportRef = ImportRef(path: string, alias: string, names: seq<string>, wildcard: bool)

  /** What a file says about types: variables by scope, fields by "Type.field", method names
      and base types by type name. */
  datatype TypeFacts = TypeFacts(
    vars: map<string, string>, fields: map<string, string>,
    methods: map<string, seq<string>>, bases: map<string, seq<string>>)

  datatype FileIR = FileIR(
    path: string, language: string, nodes: seq<Node>, imports: seq<ImportRef>, refs: seq<Ref>, types: TypeFacts)

  /** Path arithmetic, taken as given: the module a file is imported as, if a plugin claims
      it; an import path read relative to a file; and the last element of a path. */
  datatype Paths = Paths(
    modulePath: string -> Option<string>,
    relative: (string, string) -> string,
    base: string -> string)

  datatype Index = Index(
    nodes: seq<Node>,
    moduleToFiles: map<string, seq<string>>,
    inFile: map<string, map<string, Node>>,
    byName: map<string, seq<Node>>,
    bindings: map<string, map<string, Id>>,
    importAliases: map<string, map<string, string>>,
    typeBases: map<string, seq<string>>,
    typeMethods: map<string, map<string, Node>>,
    typeFields: map<string, string>,
    varTypes: map<string, string>)

  const EMPTY: Index := Index([], map[], map[], map[], map[], map[], map[], map[], map[], map[])

  // ---------------------------------------------------------------------------------
  // Tables of tables

  function Find<K, L, A>(m: map<K, map<L, A>>, k: K, l: L): Option<A> {
    if k in m && l in m[k] then Some(m[k][l]) else None
  }

  function Put<K, L, A>(m: map<K, map<L, A>>, k: K, l: L, a: A): map<K, map<L, A>> {
    m[k := (if k in m then m[k] else map[])[l := a]]
  }

  lemma FindPut<K, L, A>(m: map<K, map<L, A>>, k: K, l: L, a: A, k': K, l': L)
    ensures Find(Put(m, k, l, a), k', l') == if k' == k && l' == l then Some(a) else Find(m, k', l')
  {
  }

  function ListAt<K, A>(m: map<K, seq<A>>, k: K): seq<A> {
    if k in m then m[k] else []
  }

  function Append<K, A>(m: map<K, seq<A>>, k: K, a: A): map<K, seq<A>> {
    m[k := ListAt(m, k) + [a]]
  }

  function AppendEach<K, A>(m: map<K, seq<A>>, more: map<K, seq<A>>): map<K, seq<A>> {
    map k | k in m.Keys + more.Keys :: ListAt(m, k) + ListAt(more, k)
  }

  // ---------------------------------------------------------------------------------
  // What the tables promise

  ghost function IdsOf(nodes: seq<Node>): set<Id> {
    set n | n in nodes :: n.id
  }

  /** The nodes of a given name, in order. */
  function Named(nodes: seq<Node>, name: string): seq<Node> {
    if nodes == [] then []
    else
      var last := nodes[|nodes| - 1];
      if last.name == name then Named(nodes[..|nodes| - 1], name) + [last] else Named(nodes[..|nodes| - 1], name)
  }

  lemma {:induction false} NamedMembers(nodes: seq<Node>, name: string)
    ensures forall n :: n in Named(nodes, name) <==> n in nodes && n.name == name
  {
    if nodes != [] {
      NamedMembers(nodes[..|nodes| - 1], name);
      assert nodes == nodes[..|nodes| - 1] + [nodes[|nodes| - 1]];
    }
  }

  lemma NamedMore(nodes: seq<Node>, n: Node, name: string)
    ensures n.name == name ==> Named(nodes + [n], name) == Named(nodes, name) + [n]
    ensures n.name != name ==> Named(nodes + [n], name) == Named(nodes, name)
  {
    assert (nodes + [n])[..|nodes|] == nodes;
  }

  ghost predicate DeclaredAs(nodes: seq<Node>, n: Node, name: string) {
    n in nodes && n.name == name
  }

  ghost predicate InFileOk(inFile: map<string, map<string, Node>>, nodes: seq<Node>) {
    forall p, name {:trigger Find(inFile, p, name)} ::
      Find(inFile, p, name).Some? ==> DeclaredAs(nodes, Find(inFile, p, name).value, name)
  }

  ghost predicate ByNameOk(byName: map<string, seq<Node>>, nodes: seq<Node>) {
    && (forall name {:trigger ListAt(byName, name)} :: ListAt(byName, name) == Named(nodes, name))
    && (forall name :: name in byName ==> byName[name] != [])
  }

  /** A method is filed under the text before and after the first dot of its qualified name. */
  predicate MethodAs(n: Node, typeName: string, name: string) {
    n.kind.KindMethod? && Cut(n.qualifiedName, '.') == Some((typeName, name))
  }

  /** The last declaration of a method. */
  function LastMethod(nodes: seq<Node>, typeName: string, name: string): Option<Node> {
    if nodes == [] then None
    else
      var last := nodes[|nodes| - 1];
      if MethodAs(last, typeName, name) then Some(last) else LastMethod(nodes[..|nodes| - 1], typeName, name)
  }

  lemma {:induction false} LastMethodIn(nodes: seq<Node>, typeName: string, name: string)
    ensures LastMethod(nodes, typeName, name).Some? ==>
              LastMethod(nodes, typeName, name).value in nodes
              && MethodAs(LastMethod(nodes, typeName, name).value, typeName, name)
    ensures LastMethod(nodes, typeName, name).None? ==> forall n :: n in nodes ==> !MethodAs(n, typeName, name)
  {
    if nodes != [] {
      LastMethodIn(nodes[..|nodes| - 1], typeName, name);
      assert nodes == nodes[..|nodes| - 1] + [nodes[|nodes| - 1]];
    }
  }

  ghost predicate MethodsOk(typeMethods: map<string, map<string, Node>>, nodes: seq<Node>) {
    forall t, name {:trigger Find(typeMethods, t, name)} :: Find(typeMethods, t, name) == LastMethod(nodes, t, name)
  }

  /** A binding stands for a declaration of that name. */
  ghost predicate NamesOne(nodes: seq<Node>, id: Id, name: string) {
    exists n :: n in nodes && n.id == id && n.name == name
  }

  ghost predicate BindingsOk(bindings: map<string, map<string, Id>>, nodes: seq<Node>) {
    forall p, name {:trigger Find(bindings, p, name)} ::
      Find(bindings, p, name).Some? ==> NamesOne(nodes, Find(bindings, p, name).value, name)
  }

  /** The tables of declarations name only declarations of the family. */
  ghost predicate TablesReal(idx: Index) {
    && InFileOk(idx.inFile, idx.nodes) && ByNameOk(idx.byName, idx.nodes) && MethodsOk(idx.typeMethods, idx.nodes)
  }

  /** ... and so does every table. */
  ghost predicate NamesReal(idx: Index) {
    TablesReal(idx) && BindingsOk(idx.bindings, idx.nodes)
  }

  // ---------------------------------------------------------------------------------
  // Declarations

  function WithNode(idx: Index, path: string, n: Node): Index {
    var filed := idx.(nodes := idx.nodes + [n], inFile := Put(idx.inFile, path, n.name, n),
                      byName := Append(idx.byName, n.name, n));
    var parts := Cut(n.qualifiedName, '.');
    if n.kind.KindMethod? && parts.Some? then
      filed.(typeMethods := Put(idx.typeMethods, parts.value.0, parts.value.1, n))
    else filed
  }

  lemma FiledInFile(m: map<string, map<string, Node>>, nodes: seq<Node>, path: string, n: Node)
    requires InFileOk(m, nodes)
    ensures InFileOk(Put(m, path, n.name, n), nodes + [n])
  {
    forall p, name | Find(Put(m, path, n.name, n), p, name).Some?
      ensures DeclaredAs(nodes + [n], Find(Put(m, path, n.name, n), p, name).value, name)
    {
      FindPut(m, path, n.name, n, p, name);
      if !(p == path && name == n.name) {
        assert DeclaredAs(nodes, Find(m, p, name).value, name);
      }
    }
  }

  lemma FiledByName(m: map<string, seq<Node>>, nodes: seq<Node>, n: Node)
    requires ByNameOk(m, nodes)
    ensures ByNameOk(Append(m, n.name, n), nodes + [n])
  {
    forall name ensures ListAt(Append(m, n.name, n), name) == Named(nodes + [n], name) {
      NamedMore(nodes, n, name);
      assert ListAt(m, name) == Named(nodes, name);
    }
  }

  lemma FiledMethod(m: map<string, map<string, Node>>, nodes: seq<Node>, n: Node)
    requires MethodsOk(m, nodes)
    ensures n.kind.KindMethod? && Cut(n.qualifiedName, '.').Some? ==>
              MethodsOk(Put(m, Cut(n.qualifiedName, '.').value.0, Cut(n.qualifiedName, '.').value.1, n), nodes + [n])
    ensures !(n.kind.KindMethod? && Cut(n.qualifiedName, '.').Some?) ==> MethodsOk(m, nodes + [n])
  {
    assert (nodes + [n])[..|nodes|] == nodes;
    var parts := Cut(n.qualifiedName, '.');
    if n.kind.KindMethod? && parts.Some? {
      var filed := Put(m, parts.value.0, parts.value.1, n);
      forall t, name ensures Find(filed, t, name) == LastMethod(nodes + [n], t, name) {
        FindPut(m, parts.value.0, parts.value.1, n, t, name);
        assert Find(m, t, name) == LastMethod(nodes, t, name);
      }
    }
  }

  /** The last node of a name. */
  function LastNamed(nodes: seq<Node>, name: string): Option<Node> {
    if nodes == [] then None
    else if nodes[|nodes| - 1].name == name then Some(nodes[|nodes| - 1])
    else LastNamed(nodes[..|nodes| - 1], name)
  }

  /** What a name stands for inside a file: its last declaration there. */
  function Local(files: seq<FileIR>, p: string, name: string): Option<Node> {
    if files == [] then None
    else
      var last := files[|files| - 1];
      if last.path == p && LastNamed(last.nodes, name).Some? then LastNamed(last.nodes, name)
      else Local(files[..|files| - 1], p, name)
  }

  /** The table of a file's names while the nodes of `path` are being filed. */
  ghost predicate Filing(before: map<string, map<string, Node>>, after: map<string, map<string, Node>>,
                         path: string, list: seq<Node>)
  {
    forall p, name {:trigger Find(after, p, name)} ::
      Find(after, p, name) == if p == path && LastNamed(list, name).Some? then LastNamed(list, name)
                              else Find(before, p, name)
  }

  lemma FilingMore(before: map<string, map<string, Node>>, after: map<string, map<string, Node>>,
                   path: string, list: seq<Node>, n: Node)
    requires Filing(before, after, path, list)
    ensures Filing(before, Put(after, path, n.name, n), path, list + [n])
  {
    var put := Put(after, path, n.name, n);
    assert (list + [n])[..|list|] == list;
    forall p, name
      ensures Find(put, p, name) == if p == path && LastNamed(list + [n], name).Some? then LastNamed(list + [n], name)
                                    else Find(before, p, name)
    {
      FindPut(after, path, n.name, n, p, name);
      assert Find(after, p, name) == if p == path && LastNamed(list, name).Some? then LastNamed(list, name)
                                     else Find(before, p, name);
    }
  }

  ghost predicate LocalOk(inFile: map<string, map<string, Node>>, files: seq<FileIR>) {
    forall p, name {:trigger Find(inFile, p, name)} :: Find(inFile, p, name) == Local(files, p, name)
  }

  lemma LocalMore(before: map<string, map<string, Node>>, after: map<string, map<string, Node>>,
                  files: seq<FileIR>, f: FileIR)
    requires LocalOk(before, files) && Filing(before, after, f.path, f.nodes)
    ensures LocalOk(after, files + [f])
  {
    assert (files + [f])[..|files|] == files;
    forall p, name ensures Find(after, p, name) == Local(files + [f], p, name) {
      assert Find(before, p, name) == Local(files, p, name);
    }
  }

  lemma WithNodeReal(idx: Index, path: string, n: Node)
    requires TablesReal(idx)
    ensures TablesReal(WithNode(idx, path, n))
    ensures WithNode(idx, path, n).nodes == idx.nodes + [n]
    ensures WithNode(idx, path, n).inFile == Put(idx.inFile, path, n.name, n)
    ensures SameFacts(idx, WithNode(idx, path, n))
  {
    FiledInFile(idx.inFile, idx.nodes, path, n);
    FiledByName(idx.byName, idx.nodes, n);
    FiledMethod(idx.typeMethods, idx.nodes, n);
  }

  /** All declarations of some files, in order. */
  function AllNodes(files: seq<FileIR>): seq<Node> {
    if files == [] then [] else AllNodes(files[..|files| - 1]) + files[|files| - 1].nodes
  }

  /** The base types some files give a type, in order. */
  function BasesIn(files: seq<FileIR>, t: string): seq<string> {
    if files == [] then []
    else BasesIn(files[..|files| - 1], t) + ListAt(files[|files| - 1].types.bases, t)
  }

  ghost predicate BasesFrom(typeBases: map<string, seq<string>>, files: seq<FileIR>) {
    forall t {:trigger ListAt(typeBases, t)} :: ListAt(typeBases, t) == BasesIn(files, t)
  }

  /** The files imported by a module's name, in order. */
  function ModuleFiles(paths: Paths, files: seq<FileIR>, m: string): seq<string> {
    if files == [] then []
    else
      var last := files[|files| - 1].path;
      ModuleFiles(paths, files[..|files| - 1], m) + if paths.modulePath(last) == Some(m) then [last] else []
  }

  ghost predicate ModulesFrom(modules: map<string, seq<string>>, files: seq<FileIR>, paths: Paths) {
    && (forall m {:trigger ListAt(modules, m)} :: ListAt(modules, m) == ModuleFiles(paths, files, m))
    && forall m :: m in modules ==> modules[m] != []
  }

  /** The typed variables and fields of all files; a later file overrides an earlier one. */
  function VarsOf(files: seq<FileIR>): map<string, string> {
    if files == [] then map[] else VarsOf(files[..|files| - 1]) + files[|files| - 1].types.vars
  }

  function FieldsOf(files: seq<FileIR>): map<string, string> {
    if files == [] then map[] else FieldsOf(files[..|files| - 1]) + files[|files| - 1].types.fields
  }

  /** What filing a declaration leaves as it was. */
  predicate SameFacts(a: Index, b: Index) {
    && a.typeBases == b.typeBases && a.moduleToFiles == b.moduleToFiles
    && a.varTypes == b.varTypes && a.typeFields == b.typeFields
    && a.bindings == b.bindings && a.importAliases == b.importAliases
  }

  method AddNode(idx0: Index, path: string, n: Node) returns (idx: Index)
    requires TablesReal(idx0)
    ensures TablesReal(idx) && idx.nodes == idx0.nodes + [n] && SameFacts(idx0, idx)
    ensures idx.inFile == Put(idx0.inFile, path, n.name, n)
  {
    WithNodeReal(idx0, path, n);
    idx := WithNode(idx0, path, n);
  }

  method AddNodes(idx0: Index, path: string, list: seq<Node>) returns (idx: Index)
    requires TablesReal(idx0)
    ensures TablesReal(idx) && idx.nodes == idx0.nodes + list && SameFacts(idx0, idx)
    ensures Filing(idx0.inFile, idx.inFile, path, list)
  {
    idx := idx0;
    for i := 0 to |list|
      invariant TablesReal(idx) && idx.nodes == idx0.nodes + list[..i] && SameFacts(idx0, idx)
      invariant Filing(idx0.inFile, idx.inFile, path, list[..i])
    {
      FilingMore(idx0.inFile, idx.inFile, path, list[..i], list[i]);
      idx := AddNode(idx, path, list[i]);
      assert list[..i + 1] == list[..i] + [list[i]];
    }
    assert list[..|list|] == list;
  }

  lemma BasesGrow(typeBases: map<string, seq<string>>, files: seq<FileIR>, f: FileIR)
    requires BasesFrom(typeBases, files)
    ensures BasesFrom(AppendEach(typeBases, f.types.bases), files + [f])
  {
    var after := AppendEach(typeBases, f.types.bases);
    assert (files + [f])[..|files|] == files;
    forall t ensures ListAt(after, t) == BasesIn(files + [f], t) {
      assert ListAt(typeBases, t) == BasesIn(files, t);
    }
  }

  lemma ModulesGrow(modules: map<string, seq<string>>, files: seq<FileIR>, paths: Paths, f: FileIR)
    requires ModulesFrom(modules, files, paths)
    ensures paths.modulePath(f.path).None? ==> ModulesFrom(modules, files + [f], paths)
    ensures paths.modulePath(f.path).Some? ==>
              ModulesFrom(Append(modules, paths.modulePath(f.path).value, f.path), files + [f], paths)
  {
    var mod := paths.modulePath(f.path);
    var after := if mod.Some? then Append(modules, mod.value, f.path) else modules;
    assert (files + [f])[..|files|] == files;
    forall m ensures ListAt(after, m) == ModuleFiles(paths, files + [f], m) {
      assert ListAt(modules, m) == ModuleFiles(paths, files, m);
    }
  }

  /** The tables of facts, after some files. */
  ghost predicate FactsOf(idx: Index, files: seq<FileIR>, paths: Paths) {
    && idx.varTypes == VarsOf(files) && idx.typeFields == FieldsOf(files)
    && BasesFrom(idx.typeBases, files) && ModulesFrom(idx.moduleToFiles, files, paths)
  }

  /** What filing facts leaves as it was. */
  predicate SameTables(a: Index, b: Index) {
    && a.nodes == b.nodes && a.inFile == b.inFile && a.byName == b.byName && a.typeMethods == b.typeMethods
    && a.bindings == b.bindings && a.importAliases == b.importAliases
  }

  method AddFacts(paths: Paths, idx0: Index, ghost done: seq<FileIR>, f: FileIR) returns (idx: Index)
    requires FactsOf(idx0, done, paths)
    ensures FactsOf(idx, done + [f], paths) && SameTables(idx0, idx)
  {
    var modules := AddModule(paths, idx0.moduleToFiles, done, f);
    BasesGrow(idx0.typeBases, done, f);
    FactsGrow(done, f);
    idx := idx0.(varTypes := idx0.varTypes + f.types.vars, typeFields := idx0.typeFields + f.types.fields,
                 typeBases := AppendEach(idx0.typeBases, f.types.bases), moduleToFiles := modules);
  }

  lemma FactsGrow(files: seq<FileIR>, f: FileIR)
    ensures VarsOf(files + [f]) == VarsOf(files) + f.types.vars
    ensures FieldsOf(files + [f]) == FieldsOf(files) + f.types.fields
  {
    assert (files + [f])[..|files|] == files;
  }

  method AddModule(paths: Paths, modules0: map<string, seq<string>>, ghost done: seq<FileIR>, f: FileIR)
    returns (modules: map<string, seq<string>>)
    requires ModulesFrom(modules0, done, paths)
    ensures ModulesFrom(modules, done + [f], paths)
  {
    modules := modules0;
    ModulesGrow(modules, done, paths, f);
    var mod := paths.modulePath(f.path);
    if mod.Some? {
      modules := Append(modules, mod.value, f.path);
    }
  }

  /** The tables of declarations say what the files declare, and nothing else. */
  ghost predicate Built(idx: Index, files: seq<FileIR>, paths: Paths) {
    && TablesReal(idx) && idx.nodes == AllNodes(files) && LocalOk(idx.inFile, files)
    && FactsOf(idx, files, paths)
  }

  /** One file: its facts, its module and its declarations. */
  method AddFile(paths: Paths, idx0: Index, ghost done: seq<FileIR>, f: FileIR) returns (idx: Index)
    requires Built(idx0, done, paths)
    ensures Built(idx, done + [f], paths)
    ensures idx.bindings == idx0.bindings && idx.importAliases == idx0.importAliases
  {
    idx := AddFacts(paths, idx0, done, f);
    idx := AddNodes(idx, f.path, f.nodes);
    LocalMore(idx0.inFile, idx.inFile, done, f);
    assert (done + [f])[..|done|] == done;
  }

  // ---------------------------------------------------------------------------------
  // Imports

  /** One import of a file, and the files it was read as meaning. */
  datatype Import = Import(path: string, ref: ImportRef, targets: seq<string>)

  predicate Alike(m: string, importPath: string) {
    HasSuffix(m, importPath) || HasSuffix(importPath, m)
  }

  function WithoutDots(importPath: string): string {
    TrimPrefix(TrimPrefix(importPath, "./"), "../")
  }

  /** The files an import may mean: those of the module it names, outright, without its
      leading dots or relative to the importing file; or else of some module whose name ends
      like it; and none only if there is no such module. */
  ghost predicate Means(paths: Paths, modules: map<string, seq<string>>, currentFile: string, importPath: string,
                        targets: seq<string>)
  {
    if ListAt(modules, importPath) != [] then targets == ListAt(modules, importPath)
    else if ListAt(modules, WithoutDots(importPath)) != [] then targets == ListAt(modules, WithoutDots(importPath))
    else if ListAt(modules, paths.relative(currentFile, importPath)) != [] then
      targets == ListAt(modules, paths.relative(currentFile, importPath))
    else if exists m :: m in modules && Alike(m, importPath) then
      exists m :: m in modules && Alike(m, importPath) && targets == modules[m]
    else targets == []
  }

  /** The last of the four tries ranges over a map, so any module that is alike may win. */
  method ResolveImportTarget(paths: Paths, modules: map<string, seq<string>>, currentFile: string, importPath: string)
    returns (targets: seq<string>)
    ensures Means(paths, modules, currentFile, importPath, targets)
  {
    if |ListAt(modules, importPath)| > 0 {
      return modules[importPath];
    }
    var clean := TrimPrefix(TrimPrefix(importPath, "./"), "../");
    if |ListAt(modules, clean)| > 0 {
      return modules[clean];
    }
    var relative := paths.relative(currentFile, importPath);
    if |ListAt(modules, relative)| > 0 {
      return modules[relative];
    }
    var like := set m | m in modules && (HasSuffix(m, importPath) || HasSuffix(importPath, m));
    if like != {} {
      var m :| m in like;
      assert Alike(m, importPath);
      return modules[m];
    }
    assert forall m :: m in modules && Alike(m, importPath) ==> m in like;
    targets := [];
  }

  /** The declaration a name has in the last of some files to export it. */
  function LastExported(inFile: map<string, map<string, Node>>, targets: seq<string>, name: string): Option<Node> {
    if targets == [] then None
    else
      var last := Find(inFile, targets[|targets| - 1], name);
      if last.Some? && last.value.visibility.VisExported? then last
      else LastExported(inFile, targets[..|targets| - 1], name)
  }

  /** ... and in the first of them to declare it at all. */
  function FirstDeclared(inFile: map<string, map<string, Node>>, targets: seq<string>, name: string): Option<Node> {
    if targets == [] then None
    else if Find(inFile, targets[0], name).Some? then Find(inFile, targets[0], name)
    else FirstDeclared(inFile, targets[1..], name)
  }

  /** What an import makes a name stand for: `from x import *`, or `from x import name`. */
  function BoundBy(inFile: map<string, map<string, Node>>, i: Import, name: string): Option<Node> {
    if i.ref.wildcard then LastExported(inFile, i.targets, name)
    else if name in i.ref.names then FirstDeclared(inFile, i.targets, name)
    else None
  }

  /** The file an import makes an alias stand for: `import x as alias`, or `import a.alias`. */
  function AliasedBy(paths: Paths, i: Import, alias: string): Option<string> {
    if i.targets == [] || i.ref.wildcard then None
    else if i.ref.alias != "" then if alias == i.ref.alias then Some(i.targets[0]) else None
    else if i.ref.names == [] && alias == paths.base(i.ref.path) then Some(i.targets[0])
    else None
  }

  /** The meaning of a name in a file: that of the last import to bind it. */
  function Binding(inFile: map<string, map<string, Node>>, list: seq<Import>, p: string, name: string): Option<Id> {
    if list == [] then None
    else
      var last := list[|list| - 1];
      if last.path == p && BoundBy(inFile, last, name).Some? then Some(BoundBy(inFile, last, name).value.id)
      else Binding(inFile, list[..|list| - 1], p, name)
  }

  function Aliasing(paths: Paths, list: seq<Import>, p: string, alias: string): Option<string> {
    if list == [] then None
    else
      var last := list[|list| - 1];
      if last.path == p && AliasedBy(paths, last, alias).Some? then AliasedBy(paths, last, alias)
      else Aliasing(paths, list[..|list| - 1], p, alias)
  }

  /** The two import tables, after some imports. */
  ghost predicate Imported(idx: Index, paths: Paths, list: seq<Import>) {
    && (forall p, name {:trigger Find(idx.bindings, p, name)} ::
          Find(idx.bindings, p, name) == Binding(idx.inFile, list, p, name))
    && (forall p, alias {:trigger Find(idx.importAliases, p, alias)} ::
          Find(idx.importAliases, p, alias) == Aliasing(paths, list, p, alias))
  }

  function ImportsOf(f: FileIR): seq<(string, ImportRef)> {
    seq(|f.imports|, i requires 0 <= i < |f.imports| => (f.path, f.imports[i]))
  }

  /** Every import has been read, in order. */
  ghost predicate Read(paths: Paths, modules: map<string, seq<string>>, imports: seq<(string, ImportRef)>,
                       list: seq<Import>)
  {
    && |list| == |imports|
    && forall i :: 0 <= i < |list| ==>
      (list[i].path, list[i].ref) == imports[i]
      && Means(paths, modules, list[i].path, list[i].ref.path, list[i].targets)
  }

  /** The whole index: the tables of declarations, and those of the imports of every file. */
  ghost predicate Indexed(idx: Index, files: seq<FileIR>, paths: Paths, list: seq<Import>) {
    && Built(idx, files, paths)
    && Read(paths, idx.moduleToFiles, FlatMap(files, ImportsOf), list) && Imported(idx, paths, list)
  }

  lemma {:induction false} ExportedThere(inFile: map<string, map<string, Node>>, targets: seq<string>, name: string)
    ensures LastExported(inFile, targets, name).Some? ==>
              exists t :: t in targets && Find(inFile, t, name) == LastExported(inFile, targets, name)
  {
    if targets != [] {
      var t := targets[|targets| - 1];
      var last := Find(inFile, t, name);
      if last.Some? && last.value.visibility.VisExported? {
        assert t in targets;
      } else {
        ExportedThere(inFile, targets[..|targets| - 1], name);
      }
    }
  }

  lemma {:induction false} DeclaredThere(inFile: map<string, map<string, Node>>, targets: seq<string>, name: string)
    ensures FirstDeclared(inFile, targets, name).Some? ==>
              exists t :: t in targets && Find(inFile, t, name) == FirstDeclared(inFile, targets, name)
  {
    if targets != [] {
      if Find(inFile, targets[0], name).Some? {
        assert targets[0] in targets;
      } else {
        DeclaredThere(inFile, targets[1..], name);
      }
    }
  }

  /** A binding stands for a declaration of that name, whatever the imports. */
  lemma {:induction false} BindingReal(inFile: map<string, map<string, Node>>, nodes: seq<Node>, list: seq<Import>,
                                       p: string, name: string)
    requires InFileOk(inFile, nodes)
    ensures Binding(inFile, list, p, name).Some? ==> NamesOne(nodes, Binding(inFile, list, p, name).value, name)
  {
    if list != [] {
      var last := list[|list| - 1];
      if last.path == p && BoundBy(inFile, last, name).Some? {
        ExportedThere(inFile, last.targets, name);
        DeclaredThere(inFile, last.targets, name);
        assert DeclaredAs(nodes, BoundBy(inFile, last, name).value, name);
      } else {
        BindingReal(inFile, nodes, list[..|list| - 1], p, name);
      }
    }
  }

  /** `after` is `before` with what one import binds laid over it. */
  ghost predicate Overlaid(before: map<string, map<string, Id>>, after: map<string, map<string, Id>>,
                           inFile: map<string, map<string, Node>>, i: Import)
  {
    forall p, name {:trigger Find(after, p, name)} ::
      Find(after, p, name) == if p == i.path && BoundBy(inFile, i, name).Some?
                              then Some(BoundBy(inFile, i, name).value.id)
                              else Find(before, p, name)
  }

  /** The names of a file still to be looked at, while its exported ones are being bound. */
  ghost predicate Exporting(before: map<string, map<string, Id>>, after: map<string, map<string, Id>>,
                            inFile: map<string, map<string, Node>>, path: string, file: string, left: set<string>)
  {
    forall p, name {:trigger Find(after, p, name)} ::
      Find(after, p, name) == if p == path && name !in left && Exported(inFile, file, name)
                              then Some(Find(inFile, file, name).value.id)
                              else Find(before, p, name)
  }

  predicate Exported(inFile: map<string, map<string, Node>>, file: string, name: string) {
    Find(inFile, file, name).Some? && Find(inFile, file, name).value.visibility.VisExported?
  }

  /** The exported names of one file, in no particular order. */
  method BindFile(bindings0: map<string, map<string, Id>>, inFile: map<string, map<string, Node>>,
                  path: string, file: string)
    returns (bindings: map<string, map<string, Id>>)
    ensures Exporting(bindings0, bindings, inFile, path, file, {})
  {
    bindings := bindings0;
    var names := if file in inFile then inFile[file].Keys else {};
    while names != {}
      invariant forall name :: name in names ==> file in inFile && name in inFile[file]
      invariant Exporting(bindings0, bindings, inFile, path, file, names)
      decreases names
    {
      var name :| name in names;
      ghost var before := bindings;
      if inFile[file][name].visibility.VisExported? {
        bindings := Put(bindings, path, name, inFile[file][name].id);
      }
      forall p, l
        ensures Find(bindings, p, l) == if p == path && l !in names - {name} && Exported(inFile, file, l)
                                        then Some(Find(inFile, file, l).value.id)
                                        else Find(bindings0, p, l)
      {
        assert Find(before, p, l) == if p == path && l !in names && Exported(inFile, file, l)
                                     then Some(Find(inFile, file, l).value.id)
                                     else Find(bindings0, p, l);
      }
      names := names - {name};
    }
  }

  /** `from x import *`: every exported declaration of the target files. */
  method BindExported(bindings0: map<string, map<string, Id>>, inFile: map<string, map<string, Node>>, i: Import)
    returns (bindings: map<string, map<string, Id>>)
    requires i.ref.wildcard
    ensures Overlaid(bindings0, bindings, inFile, i)
  {
    bindings := bindings0;
    for k := 0 to |i.targets|
      invariant Overlaid(bindings0, bindings, inFile, i.(targets := i.targets[..k]))
    {
      ghost var before := bindings;
      bindings := BindFile(bindings, inFile, i.path, i.targets[k]);
      OneFileMore(bindings0, before, bindings, inFile, i, k);
    }
    assert i.targets[..|i.targets|] == i.targets;
  }

  lemma OneFileMore(first: map<string, map<string, Id>>, before: map<string, map<string, Id>>,
                    after: map<string, map<string, Id>>, inFile: map<string, map<string, Node>>, i: Import, k: nat)
    requires i.ref.wildcard && k < |i.targets|
    requires Overlaid(first, before, inFile, i.(targets := i.targets[..k]))
    requires Exporting(before, after, inFile, i.path, i.targets[k], {})
    ensures Overlaid(first, after, inFile, i.(targets := i.targets[..k + 1]))
  {
    var more := i.(targets := i.targets[..k + 1]);
    assert i.targets[..k + 1][..k] == i.targets[..k];
    forall p, name
      ensures Find(after, p, name) == if p == i.path && BoundBy(inFile, more, name).Some?
                                      then Some(BoundBy(inFile, more, name).value.id)
                                      else Find(first, p, name)
    {
      assert Find(before, p, name) == Find(before, p, name);
    }
  }

  /** `from x import a, b`: each name, from the first target file that declares it. */
  method BindNames(bindings0: map<string, map<string, Id>>, inFile: map<string, map<string, Node>>, i: Import)
    returns (bindings: map<string, map<string, Id>>)
    requires !i.ref.wildcard
    ensures Overlaid(bindings0, bindings, inFile, i)
  {
    bindings := bindings0;
    for k := 0 to |i.ref.names|
      invariant Overlaid(bindings0, bindings, inFile, WithNames(i, k))
    {
      ghost var before := bindings;
      var n := FindFirst(inFile, i.targets, i.ref.names[k]);
      if n.Some? {
        bindings := Put(bindings, i.path, i.ref.names[k], n.value.id);
      }
      OneNameMore(bindings0, before, bindings, inFile, i, k);
    }
    assert i.ref.names[..|i.ref.names|] == i.ref.names;
  }

  /** The import with only its first `k` names. */
  ghost function WithNames(i: Import, k: nat): Import
    requires k <= |i.ref.names|
  {
    i.(ref := i.ref.(names := i.ref.names[..k]))
  }

  lemma OneNameMore(first: map<string, map<string, Id>>, before: map<string, map<string, Id>>,
                    after: map<string, map<string, Id>>, inFile: map<string, map<string, Node>>, i: Import, k: nat)
    requires !i.ref.wildcard && k < |i.ref.names|
    requires Overlaid(first, before, inFile, WithNames(i, k))
    requires var n := FirstDeclared(inFile, i.targets, i.ref.names[k]);
             after == if n.Some? then Put(before, i.path, i.ref.names[k], n.value.id) else before
    ensures Overlaid(first, after, inFile, WithNames(i, k + 1))
  {
    var more := WithNames(i, k + 1);
    assert more.ref.names == i.ref.names[..k] + [i.ref.names[k]];
    forall p, name
      ensures Find(after, p, name) == if p == i.path && BoundBy(inFile, more, name).Some?
                                      then Some(BoundBy(inFile, more, name).value.id)
                                      else Find(first, p, name)
    {
      assert Find(before, p, name) == Find(before, p, name);
    }
  }

  method FindFirst(inFile: map<string, map<string, Node>>, targets: seq<string>, name: string)
    returns (n: Option<Node>)
    ensures n == FirstDeclared(inFile, targets, name)
  {
    for k := 0 to |targets|
      invariant FirstDeclared(inFile, targets, name) == FirstDeclared(inFile, targets[k..], name)
    {
      n := Find(inFile, targets[k], name);
      if n.Some? {
        return;
      }
    }
    n := None;
  }

  /** The aliases after one import. */
  ghost predicate AliasesOverlaid(before: map<string, map<string, string>>, after: map<string, map<string, string>>,
                                  paths: Paths, i: Import)
  {
    forall p, alias {:trigger Find(after, p, alias)} ::
      Find(after, p, alias) == if p == i.path && AliasedBy(paths, i, alias).Some? then AliasedBy(paths, i, alias)
                               else Find(before, p, alias)
  }

  lemma NothingBound(m: map<string, map<string, Id>>, inFile: map<string, map<string, Node>>, i: Import)
    requires i.targets == [] || (!i.ref.wildcard && i.ref.names == [])
    ensures Overlaid(m, m, inFile, i)
  {
  }

  method AddAlias(aliases0: map<string, map<string, string>>, paths: Paths, i: Import)
    returns (aliases: map<string, map<string, string>>)
    requires i.targets != [] && !i.ref.wildcard
    ensures AliasesOverlaid(aliases0, aliases, paths, i)
  {
    aliases := aliases0;
    if i.ref.alias != "" {
      aliases := Put(aliases, i.path, i.ref.alias, i.targets[0]);
    } else if |i.ref.names| == 0 {
      aliases := Put(aliases, i.path, paths.base(i.ref.path), i.targets[0]);
    }
  }

  method BindImport(paths: Paths, idx0: Index, path: string, ref: ImportRef, ghost list: seq<Import>)
    returns (idx: Index, ghost i: Import)
    requires Imported(idx0, paths, list)
    ensures i.path == path && i.ref == ref && Means(paths, idx0.moduleToFiles, path, ref.path, i.targets)
    ensures idx == idx0.(bindings := idx.bindings, importAliases := idx.importAliases)
    ensures Imported(idx, paths, list + [i])
  {
    var targets := ResolveImportTarget(paths, idx0.moduleToFiles, path, ref.path);
    var imp := Import(path, ref, targets);
    i := imp;
    var bindings, aliases := idx0.bindings, idx0.importAliases;
    if |targets| == 0 {
      NothingBound(bindings, idx0.inFile, imp);
    } else if ref.wildcard {
      bindings := BindExported(bindings, idx0.inFile, imp);
    } else {
      aliases := AddAlias(aliases, paths, imp);
      if |ref.names| > 0 {
        bindings := BindNames(bindings, idx0.inFile, imp);
      } else {
        NothingBound(bindings, idx0.inFile, imp);
      }
    }
    idx := idx0.(bindings := bindings, importAliases := aliases);
    OneImportMore(idx0, idx, paths, list, imp);
  }

  lemma OneImportMore(idx0: Index, idx: Index, paths: Paths, list: seq<Import>, i: Import)
    requires Imported(idx0, paths, list) && idx.inFile == idx0.inFile
    requires Overlaid(idx0.bindings, idx.bindings, idx.inFile, i)
    requires AliasesOverlaid(idx0.importAliases, idx.importAliases, paths, i)
    ensures Imported(idx, paths, list + [i])
  {
    assert (list + [i])[..|list|] == list;
    forall p, name ensures Find(idx.bindings, p, name) == Binding(idx.inFile, list + [i], p, name) {
      assert Find(idx0.bindings, p, name) == Binding(idx.inFile, list, p, name);
    }
    forall p, alias ensures Find(idx.importAliases, p, alias) == Aliasing(paths, list + [i], p, alias) {
      assert Find(idx0.importAliases, p, alias) == Aliasing(paths, list, p, alias);
    }
  }

  lemma ReadMore(paths: Paths, modules: map<string, seq<string>>, imports: seq<(string, ImportRef)>, k: nat,
                 list: seq<Import>, i: Import)
    requires k < |imports| && Read(paths, modules, imports[..k], list)
    requires (i.path, i.ref) == imports[k] && Means(paths, modules, i.path, i.ref.path, i.targets)
    ensures Read(paths, modules, imports[..k + 1], list + [i])
  {
  }

  method BindImports(paths: Paths, idx0: Index, f: FileIR, ghost list0: seq<Import>)
    returns (idx: Index, ghost list: seq<Import>)
    requires Imported(idx0, paths, list0)
    ensures idx == idx0.(bindings := idx.bindings, importAliases := idx.importAliases)
    ensures Read(paths, idx0.moduleToFiles, ImportsOf(f), list) && Imported(idx, paths, list0 + list)
  {
    idx, list := idx0, [];
    assert list0 + [] == list0;
    for i := 0 to |f.imports|
      invariant idx == idx0.(bindings := idx.bindings, importAliases := idx.importAliases)
      invariant Read(paths, idx0.moduleToFiles, ImportsOf(f)[..i], list) && Imported(idx, paths, list0 + list)
    {
      ghost var read;
      idx, read := BindImport(paths, idx, f.path, f.imports[i], list0 + list);
      ReadMore(paths, idx0.moduleToFiles, ImportsOf(f), i, list, read);
      assert (list0 + list) + [read] == list0 + (list + [read]);
      list := list + [read];
    }
    assert ImportsOf(f)[..|f.imports|] == ImportsOf(f);
  }

  /** The first pass over the files. */
  method BuildTables(paths: Paths, files: seq<FileIR>) returns (idx: Index)
    ensures Built(idx, files, paths) && idx.bindings == map[] && idx.importAliases == map[]
  {
    idx := EMPTY;
    assert forall name: string :: ListAt<string, Node>(map[], name) == Named([], name);
    for i := 0 to |files|
      invariant Built(idx, files[..i], paths) && idx.bindings == map[] && idx.importAliases == map[]
    {
      idx := AddFile(paths, idx, files[..i], files[i]);
      assert files[..i + 1] == files[..i] + [files[i]];
    }
    assert files[..|files|] == files;
  }

  /** The second. */
  method ReadImports(paths: Paths, files: seq<FileIR>, idx0: Index) returns (idx: Index, ghost list: seq<Import>)
    requires Imported(idx0, paths, [])
    ensures idx == idx0.(bindings := idx.bindings, importAliases := idx.importAliases)
    ensures Read(paths, idx.moduleToFiles, FlatMap(files, ImportsOf), list) && Imported(idx, paths, list)
  {
    idx, list := idx0, [];
    for i := 0 to |files|
      invariant idx == idx0.(bindings := idx.bindings, importAliases := idx.importAliases)
      invariant Read(paths, idx0.moduleToFiles, FlatMap(files[..i], ImportsOf), list) && Imported(idx, paths, list)
    {
      ghost var more;
      idx, more := BindImports(paths, idx, files[i], list);
      ReadFile(paths, idx0.moduleToFiles, files, i, list, more);
      list := list + more;
    }
    assert files[..|files|] == files;
  }

  lemma ReadFile(paths: Paths, modules: map<string, seq<string>>, files: seq<FileIR>, k: nat,
                 list: seq<Import>, more: seq<Import>)
    requires k < |files| && Read(paths, modules, FlatMap(files[..k], ImportsOf), list)
    requires Read(paths, modules, ImportsOf(files[k]), more)
    ensures Read(paths, modules, FlatMap(files[..k + 1], ImportsOf), list + more)
  {
    assert files[..k + 1][..k] == files[..k];
  }

  method BuildIndex(paths: Paths, files: seq<FileIR>) returns (idx: Index, ghost list: seq<Import>)
    ensures Indexed(idx, files, paths, list) && NamesReal(idx)
  {
    idx := BuildTables(paths, files);
    idx, list := ReadImports(paths, files, idx);
    ImportsNameReal(idx, paths, list);
  }

  lemma ImportsNameReal(idx: Index, paths: Paths, list: seq<Import>)
    requires InFileOk(idx.inFile, idx.nodes) && Imported(idx, paths, list)
    ensures BindingsOk(idx.bindings, idx.nodes)
  {
    forall p, name | Find(idx.bindings, p, name).Some?
      ensures NamesOne(idx.nodes, Find(idx.bindings, p, name).value, name)
    {
      BindingReal(idx.inFile, idx.nodes, list, p, name);
    }
  }
}
