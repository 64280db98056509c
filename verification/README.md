# graphContext: a verified model

graphContext keeps a graph of a repository's declarations and their references, and answers questions
about it. This project models the chain that makes those answers right, each link of which supplies
what the next one needs, and proves the links.

1. **Graph analysis** (`CodeGraph`, `Scc`, `Reach`, `Paths`, `CallTrace`, `DeadCode`). The adjacency
   lists, Tarjan's algorithm on the quotient graph, breadth-first search bounded by depth and by number,
   enumeration of simple paths by backtracking, the budgeted call tree and dead code. The loops and the
   recursive searches are methods over the same variables; each is proved against a declarative
   answer: the strongly connected components, true distances, the number of ways to walk a path, the
   unlimited unfolding cut at a budget, reachability. `Digraph` holds walks, reachability and distance;
   `Tarjan` holds the invariant of the search, stated for any linked trace of its calls.
2. **Incremental index** (`GraphStore`, `GraphDiff`, `Freshness`, `Histories`). The tables with their
   foreign keys, cascade and text index; the ordered commit; the delta, proved to leave what a full
   rewrite leaves exactly when a stated condition holds; `EnsureFresh` on a store that any releases may
   have filled; and every history of writes, removals and runs, by releases in any order, interrupted
   or not.
3. **Resolver** (`NameIndex`, `Hierarchy`, `ReceiverTypes`, `Resolver`, `Pipeline`, `Collision`). The tables of names
   and what every import binds, the searches over possibly cyclic base types, the tiers of lookup,
   structural interfaces, deduplication; and that the outcome always meets what the commit needs.
4. **Freshness protocol** (`SyncProtocol`, `Watcher`, `Debouncer`, `Sessions`). Disk writes, event
   delivery, syncs and readers as interleaved steps; the event counter; the coalescing debouncer; and
   the reference-counted session table.
5. **Change mapping** (`UnifiedDiff`, `TestSelect`). The line-counting diff parser against a writer of
   diffs, and minimum-distance test selection built on the reverse search.

`Orders` and `Text` hold what the models share: sorting, sequence and string facts. A call of the Go
sort library is modelled as its promise, some permutation in which no element is less than one before
it, for whatever comparator it was given.

## What is assumed

- Which paths are source files is a function of release and path. Parsing is a function of release,
  path and content and never fails; encoding and decoding a parse is lossless; hashes do not collide
  and are never empty (`Freshness.Sound`).
- The resolver, inside `Freshness`, is a function of the map from paths to parses whose result is
  closed over its own nodes, each of which has its file in its ID and shows by its ID whether it is
  external; `Pipeline.ModelledResolverSound` proves this of the modelled resolver. Independence of the
  order in which files arrive is an assumption, not a result.
- Every write of a file stamps a modification time at or after the start of the second it happens in,
  and a run sees the disk as one snapshot (`Histories.Possible`).
- A declaration's ID is its file's path, a colon and more, no path has a colon in it, and parsers
  declare no external nodes (`Pipeline.NodeOf`).
- Only this daemon writes its store, and no file is written by the daemon.
- The references of a file come from declarations of that file (`Resolver.RefsOwned`).

## What turned out false, and exactly when

- The delta equals a rewrite if and only if no kept, unchanged row belongs to a file reported gone
  (`GraphDiff.DeltaRefinesRewrite`; `GraphDiff.PurgeLosesKeptNode` is an input that fails).
- After a commit the text index is right if and only if no external node of the new table was kept
  with a text from before, took the place of a kept node that was not external, or was written by the
  same commit as something else first (`GraphStore.Store.Commit`, `GraphStore.CommitLeavesExactly`): the
  old text is left behind, until the node is deleted or is written as not external again.
  `GraphStore.ReplacingLeaves` has an input that fails and two near it that do not.
- A run of the indexer leaves the graph of a from-scratch index, whatever parsers and resolver are, if
  and only if it is not misled: the recorded release is its own although another release, whose run
  was interrupted between the commit and the version record, made the graph or a parse that is still
  good for the files on disk (`Histories.RightExactly`). That takes an interruption and a rollback
  (`Histories.AscendingNeverMisled`, `Histories.CompletedNeverMisled`); `Histories.RollbackMisleads` is
  a history where it happens.
- A step lets a later answer be stale if and only if it is a load that fails while what is stored
  differs from what is published (`SyncProtocol.StaleExactly`): the next sync finds nothing changed and
  publishes the old graph as fresh. `SyncProtocol.TornLoadHappens` leads any new daemon there. The next
  sync that does load makes every later answer fresh again (`SyncProtocol.LoadedSyncHeals`).
- Deduplication by `source|target|kind|line` loses an edge if and only if one emitted edge is another
  shifted, its source being the other's, a bar and more, and the other's target having that in front
  (`Resolver.NothingLostExactly`). Bars in paths, targets and external names alone do no harm
  (`Pipeline.NothingLostInNames`); `Collision.ResolveLosesEdge` resolves three files and loses one.
- A section of a diff reads back as it was written if and only if no deleted line starts with `-- `,
  no added line with `++ `, and its names are clear: with hunks, no name ends in a blank; without, no
  name has a blank in it, because the opening line is all there is and is split at blanks
  (`UnifiedDiff.ReadingInvertsWriting`, `UnifiedDiff.BlankMisleads`).
- The comparator that orders the selected tests is a strict weak order on given confidences if and only
  if at most one of them is not exact (`TestSelect.OrderedExactly`).
- `PathsBetween` says it was cut short if and only if there are more paths than the limit, or just as
  many and the search does not end with the last of them (`Paths.FlagExactly`); paths are missing if and
  only if there are more than the limit (`Paths.LossExactly`); `Paths.FlagWithoutLoss` is a graph where
  the flag goes up and nothing is missing.
- `FreshGraph` is said to return a graph that reflects the files on disk right now
  (`pkg/daemon/daemon.go:141`). A call that nothing interrupts does so if and only if the daemon is not
  watching, has not synced, is not healthy or has events to sync, or what it has published happens to
  be the graph of the disk (`SyncProtocol.CurrentExactly`): when everything is up to date it reads
  nothing, so a write whose event has not been counted is missed. `SyncProtocol.UncountedWriteMissed`
  leads every healthy new daemon there. What holds of every answer, interrupted or not, is
  `SyncProtocol.EveryAnswerIsFresh`.

## Model

| member | source | states |
|---|---|---|
| `CodeGraph.Graph.constructor` | pkg/analysis/graph.go:15-29 | the lists built hold, under each ID, exactly the edges that leave and that enter it, in order; of nodes with one ID the last wins |
| `CodeGraph.FiledOnce` | pkg/analysis/graph.go:22-26 | every edge is filed once in `Out`, under its source, and once in `In`, under its target, as often as it occurs |
| `CodeGraph.Graph.EdgeCount` | pkg/analysis/graph.go:50-60 | summing over the lists counts every edge once |
| `Tarjan.EntryReady` | pkg/analysis/scc.go:43-50 | every call is entered with the search invariant in force and all running calls reaching its vertex |
| `Tarjan.RunSound` | pkg/analysis/scc.go:50-59 | the invariant holds at every point of every call, whatever order neighbours are visited in, and `low` bounds what the vertices above can reach |
| `Tarjan.ExitSound` | pkg/analysis/scc.go:43-77 | on return the invariant holds, and `low` of the vertex has the meaning its caller relies on |
| `Tarjan.TopIsScc` | pkg/analysis/scc.go:61-71 | when `low` equals the index, what lies from the vertex up on the stack is mutually reachable and maximal |
| `Tarjan.Quiet` | pkg/analysis/scc.go:84-88 | between outermost calls the stack is empty and every visited vertex is in a component that is a true strongly connected component |
| `Scc.Finder.Connect` | pkg/analysis/scc.go:43-77 | the recursive method does what a complete trace of the algorithm does, on every variable |
| `Scc.Finder.FollowAll` | pkg/analysis/scc.go:50-59 | the neighbour loop follows every edge out of the vertex once, in any order |
| `Scc.Finder.PopTo` | pkg/analysis/scc.go:62-71 | the popping loop takes off exactly the part of the stack from the vertex up, and `onStack` follows |
| `Scc.Finder.PopComponent` | pkg/analysis/scc.go:61-76 | the popped vertices become one new component, listed if it has more than one member |
| `Scc.Finder.FindAll` | pkg/analysis/scc.go:79-88 | every vertex ends in a component, and every component is strongly connected and maximal |
| `Scc.BuildAdjacency` | pkg/analysis/scc.go:10-33 | the adjacency map joins two groups if and only if they are named, differ, and an edge of a kind asked for joins known nodes of theirs |
| `Scc.SCCs` | pkg/analysis/scc.go:9-97 | returns exactly the strongly connected components of more than one group under that relation, whatever set of pairs it is given as, each sorted, disjoint and none missing |
| `Orders.StrLessExactly` | pkg/analysis/scc.go:72-96 | the order of names: one comes before another if and only if up to some place they agree and there it ends or has the smaller character |
| `Scc.CyclesOrdered` | pkg/analysis/scc.go:72-96 | larger components stand first, equally large ones by their first name, and names ascend within each |
| `Scc.CyclesDeterministic` | pkg/analysis/scc.go:41-97 | the answer is one and the same whatever order the maps are ranged over in |
| `Reach.BallGrows` | pkg/analysis/algorithms.go:19-37 | expanding a whole frontier turns the vertices within distance d into those within d + 1, and the next frontier is those at exactly d + 1 |
| `Reach.Expand` | pkg/analysis/algorithms.go:22-34 | one vertex's edges: new vertices are marked, reported with their true distance, and the search stops only at the limit |
| `Reach.Search` | pkg/analysis/algorithms.go:15-46 | both searches meet the same statement: true distances, each node once, complete and sorted by depth and ID unless cut short, and cut short only with the limit reached and none left out nearer |
| `Reach.ReverseReach` | pkg/analysis/algorithms.go:15-46 | the same against the edges |
| `Reach.ForwardReach` | pkg/analysis/algorithms.go:48-79 | the same along them |
| `Reach.AnswerOrdered` | pkg/analysis/algorithms.go:39-45 | an answer that is not cut short ascends by depth, and then by ID |
| `Reach.TruncatesExactly` | pkg/analysis/algorithms.go:27-29 | on graphs whose edges end at known nodes, the search is cut short if and only if there are more nodes in range than the limit |
| `Reach.ReportedAtDistance` | pkg/analysis/algorithms.go:15-46 | a known node other than the seed is reported at d if and only if d is its shortest distance and within `maxDepth` |
| `Reach.ForwardMirrorsReverse` | pkg/analysis/algorithms.go:15-79 | x is reported at d from y against the edges if and only if y is reported at d from x along them |
| `Paths.PathSearch.Dfs` | pkg/analysis/paths.go:12-34 | `current` and `visited` are put back on return, and the paths found and the flag are those of the unlimited search cut at the limit |
| `Paths.CallsCount` | pkg/analysis/paths.go:12-34 | the unlimited search arrives by a given path exactly as often as there are choices of edges for it, if it is simple, short enough and extends the current one, and else never |
| `Paths.FindsExpected` | pkg/analysis/paths.go:7-36 | from the start, each simple linked path of at most `maxDepth` edges is found once per choice of parallel edges, and no other path |
| `Paths.ChoicesPositive` | pkg/analysis/paths.go:24-30 | there is such a choice if and only if every step of the path is an edge |
| `Paths.PathsBetween` | pkg/analysis/paths.go:7-51 | returns only simple linked paths, no more than the limit, all of them with multiplicity unless cut short, sorted |
| `Paths.FlagExactly` | pkg/analysis/paths.go:12-34 | the flag goes up if and only if there are more paths than the limit, or as many and the walk that always takes the last edge not leading back does not end at the target |
| `Paths.LossExactly` | pkg/analysis/paths.go:7-51 | as many paths are reported as there are or the limit allows, so paths are missing if and only if there are more, and a flag without a loss means there are just as many |
| `Paths.FlagWithoutLoss` | pkg/analysis/paths.go:13-16 | a graph with one path, searched with a limit of one, raises the flag |
| `Paths.PathLessTotal` | pkg/analysis/paths.go:38-48 | the order of the paths is total: paths that compare equal are the same |
| `Paths.PathsOrdered` | pkg/analysis/paths.go:38-48 | shorter paths stand first, and of equally long ones the one whose first different node has the smaller ID |
| `Paths.EnumerationUnique` | pkg/analysis/paths.go:7-51 | an answer that was not cut short is the only one, for any limits |
| `CallTrace.SortedSites` | pkg/analysis/algorithms.go:111-121 | the sorted call sites are the same however the sort places equal ones |
| `CallTrace.CallSitesMean` | pkg/analysis/algorithms.go:111-125 | the sites a trace follows from a node are those of its calls edges and no others |
| `CallTrace.CallSitesOrdered` | pkg/analysis/algorithms.go:112-117 | they ascend by line, and then by target |
| `CallTrace.CutHere` | pkg/analysis/algorithms.go:123-126 | stopping at a call with no budget left leaves what the full list of calls leaves at that budget, cut short |
| `CallTrace.NextCall` | pkg/analysis/algorithms.go:122-128 | following one more call adds its own node and what is below it to what the unfolding, cut at the budget, has so far |
| `CallTrace.Tracer.Walk` | pkg/analysis/algorithms.go:95-133 | the subtree is the unlimited unfolding cut at the budget, every node costs one, `Cycle` holds if and only if the ID is a proper ancestor, and `path` is put back |
| `CallTrace.Tracer.WalkCalls` | pkg/analysis/algorithms.go:119-129 | every child comes from a calls edge of its parent, in order |
| `CallTrace.VisitsInjective` | pkg/analysis/algorithms.go:91-136 | a tree is determined by its nodes in order with their depths, so the statement of `Trace` fixes the whole tree |
| `CallTrace.Trace` | pkg/analysis/algorithms.go:91-136 | the tree has one node per unit of budget spent, is the full unfolding to `maxDepth` cut only at repeats unless truncated, and is truncated if and only if a call was dropped for budget |
| `DeadCode.SpreadOut` | pkg/analysis/deadcode.go:21-33 | with nothing left to expand, exactly the vertices reachable from a root are marked |
| `DeadCode.DeadCandidates` | pkg/analysis/deadcode.go:10-43 | ends on every graph and returns, in ID order, exactly the functions and methods that no chain of calls reaches from a root |
| `DeadCode.DeadMeans` | pkg/analysis/deadcode.go:10-56 | dead means a function or method to which no chain of calls edges leads from a file, a marked test or entry point, or a node named main or with a name that begins with Test, test_ or two underscores |
| `DeadCode.DeadOrdered` | pkg/analysis/deadcode.go:41 | the report ascends by ID |
| `DeadCode.DeadUnique` | pkg/analysis/deadcode.go:10-43 | the report does not depend on the order of edges, or of visiting roots and nodes |
| `DeadCode.EdgesOnlyRevive` | pkg/analysis/deadcode.go:21-33 | more edges never make more dead code |
| `GraphStore.Store.DeleteEdges` | pkg/store/write.go:198-215 | drops exactly the edges with the given keys |
| `GraphStore.Store.DeleteNodes` | pkg/store/write.go:170-196 | drops the rows, their index text, and every edge at one of them |
| `GraphStore.Store.PurgeFile` | pkg/store/write.go:136-146 | the same for all rows of a file |
| `GraphStore.Store.Clear` | pkg/store/write.go:71-92 | the four deletions together drop exactly the nodes named or owned, their edges, and the records and parses of removed files |
| `GraphStore.ClearInSteps` | pkg/store/write.go:71-92 | the deletions, each made against what the ones before it left, add up to one deletion with one cascade |
| `GraphStore.DeleteLeaves` | pkg/store/write.go:136-196 | deleting rows with their index text leaves no text missing and takes the deleted nodes' left-over texts away |
| `GraphStore.UpsertIndexedExactly` | pkg/store/write.go:255-273 | writing a node keeps a right text index right if and only if it does not make an indexed node external, also when its row number was in use before |
| `GraphStore.UpsertLeaves` | pkg/store/write.go:255-273 | whatever was left behind before: an external node in place of another leaves its text, any other node clears what was left of its ID |
| `GraphStore.OneWriteLeaves` | pkg/store/write.go:255-273 | what a whole list of writes leaves behind is what its writes leave one after another |
| `GraphStore.CommitLeavesExactly` | pkg/store/write.go:64-128 | a commit leaves nothing behind if and only if no node that it keeps or rewrites ends as external with a text, from before or from within |
| `GraphStore.FixedByIdLeavesNothing` | pkg/store/write.go:217-275 | so nothing is left behind over commits if whether a node is external is fixed by its ID |
| `GraphStore.ReplacingLeaves` | pkg/store/write.go:255-273 | an external node in place of another leaves its text behind, but not when the other comes back in the same commit or is deleted by it |
| `GraphStore.Store.InsertNode` | pkg/store/write.go:255-273 | an upsert keeps the row number of an ID that has one, gives a new one a number not in use, leaves all other rows alone, stores the ID, tokens and docstring of a node that is not external under its row number, and leaves behind what `OneLeft` says |
| `GraphStore.Store.InsertNodes` | pkg/store/write.go:217-275 | of nodes with one ID the last is stored, and the texts left behind are those of nodes that end as external after being something else |
| `GraphStore.EdgesByKeyExactly` | pkg/store/write.go:292-300 | a table is that of a list of edges if and only if it has a row for each source, target, kind and line in the list and no other, equal in every field to the last edge that has them, but that a candidate count of 0 is stored as 1 |
| `GraphStore.Store.InsertEdges` | pkg/store/write.go:277-303 | succeeds if and only if every end is a stored node; writes the table of the list over what is there: the last edge of each key, field by field, a count of 0 as 1 and any other as it is |
| `GraphStore.Store.Write` | pkg/store/write.go:94-122 | the writes together, or failure |
| `GraphStore.Store.Commit` | pkg/store/write.go:64-128 | the whole new state of every table if no foreign key is broken, edge by edge as `EdgesWritten` says, and otherwise nothing changes; every commit keeps foreign keys and unique row numbers and misses no text; exactly when the text index is right afterwards, and which texts are left behind |
| `GraphStore.CommittedEdgesMean` | pkg/store/write.go:64-128 | what a commit does to each key of the edge table: a key that is queued gets the row of the last edge queued for it, with its own count unless that is 0; another keeps its row if and only if it is not deleted and neither end is dropped |
| `GraphDiff.QueueGraphDiff` | pkg/indexer/diff.go:32-80 | queues exactly the rows that are new or differ and the keys that are gone, whatever order the maps are ranged over in |
| `GraphDiff.DeltaExact` | pkg/indexer/diff.go:50-78 | for any tables, the delta applied over a loss of some rows gives the new table if and only if no unchanged row is lost |
| `GraphDiff.NodesExact` | pkg/indexer/diff.go:50-66 | the committed nodes are the resolver's, last one winning, if and only if no unchanged node is owned by a removed file |
| `GraphDiff.EdgesExact` | pkg/indexer/diff.go:56-78 | the committed edges are the table of the resolver's if and only if no unchanged edge goes with a deleted node |
| `GraphDiff.DeltaRefinesRewrite` | pkg/indexer/diff.go:32-80 | on any consistent store and any result closed over its nodes, committing the delta trips no foreign key and leaves exactly the result's graph, if and only if nothing kept is purged; the edges left are then the last of each key, field by field, with a count of 0 stored as 1 |
| `GraphDiff.ScratchWritesGraph` | pkg/store/write.go:64-128 | writing every row into an empty store leaves the same graph, edge by edge |
| `GraphDiff.OwnersFixedById` | pkg/indexer/diff.go:32-80 | nothing kept is purged when nodes carry their file in their ID and no result node is of a removed file |
| `GraphDiff.PurgeLosesKeptNode` | pkg/store/write.go:86-92 | a kept, unchanged node of a file reported gone is lost: the condition is needed |
| `Freshness.Scan` | pkg/indexer/indexer.go:44-110 | every source file is examined once, in some order: its hash is the recorded one if its stat is trusted, and that of its content if not |
| `Freshness.ExamineFinds` | pkg/indexer/indexer.go:83-101 | with trusted stats, the hash taken is that of the content on disk, and dirty means new or changed |
| `Freshness.StatsStayTrusted` | pkg/indexer/indexer.go:25-31 | records written in a run are trusted only for content that cannot change without the stat showing it |
| `Freshness.ScanDecides` | pkg/indexer/indexer.go:121-135 | a file is dirty or missing if and only if the stored contents are not those on disk |
| `Freshness.QueueRecords` | pkg/indexer/indexer.go:137-151 | a record is queued for exactly the files that are new, edited or merely touched, with the path, hash, size and time that the scan found |
| `Freshness.ParseAll` | pkg/indexer/indexer.go:172-234 | what reaches the resolver is every file parsed by the release that the ledger names for it: an earlier one for unchanged files whose parse is cached, this one for the rest |
| `Freshness.CachesUpdated` | pkg/indexer/indexer.go:137-234 | once written, the records are those of the files on disk, and each cached parse is the kept one of an unchanged file or a new one by this release |
| `Freshness.OwnersSurvive` | pkg/indexer/indexer.go:236-246 | the condition under which the delta is exact holds in every run |
| `Freshness.KeepIndex` | pkg/indexer/indexer.go:153-162 | a run that re-indexes nothing changes file records only, and the store still mirrors its ledger |
| `Freshness.Rebuild` | pkg/indexer/indexer.go:164-255 | a run that re-indexes leaves records, parses, graph, text index and version record as the ledger says, stopped before the version record or not |
| `Freshness.EnsureFresh` | pkg/indexer/indexer.go:38-258 | on a store filled by any releases, and whatever files the running one claims: everything stored is what the ledger after the run says; returns false if and only if the contents are those recorded and the version matches or there is no source file, and then no row of the graph has changed |
| `Histories.WriteKeepsTrust` | pkg/indexer/indexer.go:25-31 | a later write, stamped no earlier than the second it happens in, never passes for the recorded file |
| `Histories.RunHistory` | pkg/indexer/indexer.go:38-258 | over every history of writes, removals and runs, by releases in any order, each with its own source files, interrupted or not, starting from an empty store, the store mirrors the ledger; and each run that is not misled leaves the graph and text index of a from-scratch index |
| `Histories.RanUniformExactly` | pkg/indexer/indexer.go:112-135 | a run leaves a store made by its own release alone if and only if it is not misled by what was there |
| `Histories.RightExactly` | pkg/indexer/indexer.go:112-255 | for every history: the last run left the graph of a from-scratch index for all parsers and resolvers if and only if it was not misled |
| `Histories.AscendingNeverMisled` | pkg/indexer/indexer.go:251-255 | interrupted or not, runs are never misled if releases are never rolled back |
| `Histories.CompletedNeverMisled` | pkg/indexer/indexer.go:251-255 | rolled back or not, runs are never misled if earlier ones were completed |
| `Histories.RollbackMisleads` | pkg/indexer/indexer.go:248-255 | an old release, an interrupted newer one and the old one again leave a graph that is not the old one's |
| `NameIndex.WithNodeReal` | pkg/resolver/index.go:72-88 | filing a declaration keeps every table naming only real declarations |
| `NameIndex.AddFile` | pkg/resolver/index.go:51-89 | the tables of declarations and facts stay exactly those of the files so far: names by file, all by name, methods by type, bases and modules in order, later variables and fields overriding |
| `NameIndex.ResolveImportTarget` | pkg/resolver/index.go:146-170 | an import means the files of its module as written, else without leading dots, else relative, else of some module alike, and nothing only if there is none |
| `NameIndex.BindFile` | pkg/resolver/index.go:106-116 | ranging over a file's names in any order binds exactly the exported ones |
| `NameIndex.BindExported` | pkg/resolver/index.go:103-117 | a wildcard import binds every exported name of its files, the last file winning, and touches no other binding |
| `NameIndex.BindNames` | pkg/resolver/index.go:123-131 | each imported name is bound to the declaration in the first file that has it, and no other binding changes |
| `NameIndex.BindImport` | pkg/resolver/index.go:99-140 | after an import, names and aliases stand for what it makes them stand for, and the rest for what they stood for before |
| `NameIndex.BindingReal` | pkg/resolver/index.go:111-129 | whatever the imports and their order, a binding of a name is the ID of a declaration of that name in the family |
| `NameIndex.BuildIndex` | pkg/resolver/index.go:47-144 | the finished tables are exactly those of the files and their imports, the last import to bind a name deciding, and every entry names a real node |
| `Hierarchy.SweepShift` | pkg/resolver/types.go:100-122 | once all types at distance d are done, those queued are exactly the ones at distance d + 1 |
| `Hierarchy.SweepDone` | pkg/resolver/types.go:100-125 | an empty queue means every reachable base type has been seen, cycles or not |
| `Hierarchy.ScanBases` | pkg/resolver/types.go:107-121 | one type's bases: new ones are queued once, and a declaration found is at the next distance |
| `Hierarchy.FindInHierarchy` | pkg/resolver/types.go:65-126 | ends on cyclic bases; empty if and only if no reachable type declares the member; otherwise only declarations at the minimum inheritance distance |
| `ReceiverTypes.FindMethodInHierarchy` | pkg/resolver/types.go:93-126 | that, for methods |
| `ReceiverTypes.FindFieldInHierarchy` | pkg/resolver/types.go:65-91 | that, for the type of a field: one from a nearest declaring type, or none at all |
| `ReceiverTypes.FieldMeans` | pkg/resolver/types.go:65-91 | a type is that of the field if and only if a type at some distance along the bases gives it to that field, and none at a smaller distance gives the field any type |
| `ReceiverTypes.MethodsMean` | pkg/resolver/types.go:93-126 | a method found is filed under its name and a type at some distance along the bases, and under no type at a smaller distance |
| `ReceiverTypes.NearestMethodsReal` | pkg/resolver/types.go:93-126 | the methods returned are declarations of the family that go by the name asked for |
| `ReceiverTypes.ScopeReadsBack` | pkg/resolver/types.go:128-147 | an ID put together as path, class and member is read apart into the same file and class |
| `ReceiverTypes.ScopeWithout` | pkg/resolver/types.go:128-147 | an ID without a colon, or without a dot after it, names its file and no class |
| `ReceiverTypes.SuperMeans` | pkg/resolver/types.go:29-33 | inside a member of a class, super leads to the first base of that class and nowhere else |
| `ReceiverTypes.SelfMeans` | pkg/resolver/types.go:22-28 | this and self lead to the type of the scope's variable of that name, and to the class if it has none |
| `ReceiverTypes.NameMeans` | pkg/resolver/types.go:34-45 | any other name leads to the type of the scope's variable, else of the file's, else to the type of that name if it has methods, and nowhere else |
| `ReceiverTypes.ResolveReceiverType` | pkg/resolver/types.go:10-63 | a type is returned only if the chain of names leads to it, and none only if the chain breaks somewhere |
| `Text.PiecesExactly` | pkg/resolver/types.go:14 | the pieces of a text split at a character are its stretches that are bounded by that character or an end and do not contain it |
| `Text.SplitJoins` | pkg/resolver/types.go:14 | joined by that character the pieces give the text back, and none of them contains it |
| `Resolver.Pass.ExtNode` | pkg/resolver/resolver.go:41-55 | one external node per name, listed once |
| `Resolver.ExternalMeans` | pkg/resolver/resolver.go:41-55 | an external node is a node of no file with the prefix and the name as its ID, exported and neither test nor entry point |
| `Resolver.JudgeReceived` | pkg/resolver/resolver.go:238-329 | a call on a receiver: nearest methods of its type, else the imported file, else methods of the name, else external |
| `Resolver.BaseTiers` | pkg/resolver/resolver.go:130-173 | a base type is exactly what an import binds, else what the file declares, else the only declaration of the name in the family, and else external |
| `Resolver.BareTiers` | pkg/resolver/resolver.go:176-236 | a bare name is exactly what the file declares, else what an import binds, else every declaration of the name, one as a match and several as ambiguous, and else external |
| `Resolver.ReceivedTiers` | pkg/resolver/resolver.go:238-329 | a call on a receiver goes to the nearest methods of its type, exactly or ambiguously; else to what its file as an import declares; else to all methods of the name; and else to the external name of receiver and member |
| `Resolver.SuperCall` | pkg/resolver/resolver.go:238-265 | a call on super in a member of a class is judged among the nearest methods of the first base that the files give the class |
| `Resolver.EdgesMean` | pkg/resolver/resolver.go:258-329 | the edges of a verdict lead from the reference to its targets, with its kind and line, and the number of candidates when ambiguous |
| `Resolver.JudgedSensible` | pkg/resolver/resolver.go:126-331 | every target is a declaration of the family that goes by the name, or the one external node for it; exact and name matches have one target, ambiguous ones several with their count, unknown one external |
| `Resolver.ResolveRef` | pkg/resolver/resolver.go:126-330 | each reference is counted once, under one of the four confidences, and emits the edges of its verdict and no others |
| `Resolver.MatchInterfaces` | pkg/resolver/resolver.go:333-391 | an implements edge for exactly the pairs where the class has every method of a non-empty interface, declared, inherited or listed |
| `Resolver.ImplementsMean` | pkg/resolver/resolver.go:333-391 | an edge of structural matching is an exact implements edge from a class to an interface whose methods it all has, on the line the class begins, and every such pair has one |
| `Resolver.ResolveFamily` | pkg/resolver/resolver.go:121-394 | edges of a family stay between its nodes and externals, and are those of its references and structural matches |
| `Resolver.FamiliesCover` | pkg/resolver/resolver.go:59-74 | grouping by family loses no reference and repeats none |
| `Resolver.FamilyMeans` | pkg/lang/lang.go:76-88 | C and C++ are of one family, and no two other languages are |
| `Resolver.TextExactly` | pkg/resolver/resolver.go:93 | two edges have the same text if and only if they agree in source, target, kind and line or one is the other shifted |
| `Resolver.TextTells` | pkg/resolver/resolver.go:93 | without a bar in the sources, the text determines source, target, kind and line, whatever the targets |
| `Resolver.Dedup` | pkg/resolver/resolver.go:91-111 | the last edge of each text is kept, strictly sorted by source, target, kind and line |
| `Resolver.KeptOrdered` | pkg/resolver/resolver.go:100-111 | the edges ascend by source, target, kind and line, in that order of weight |
| `Resolver.NodesOrdered` | pkg/resolver/resolver.go:80-89 | the nodes ascend by file, position and ID |
| `Resolver.NothingLostExactly` | pkg/resolver/resolver.go:91-98 | every emitted edge survives, up to what the key does not show, if and only if no emitted edge is another shifted |
| `Resolver.NoBarsNothingLost` | pkg/resolver/resolver.go:91-98 | so nothing is lost when the sources are of the form path:name with no bar in the name |
| `Resolver.Resolve` | pkg/resolver/resolver.go:35-118 | every edge has both ends in the node list, its target is of the source's family or external, edges are strictly sorted and unique, the four counts add up to all references, and the nodes, in order, are the declarations and one external node for each name an edge leads out to |
| `Pipeline.OwnedById` | pkg/resolver/resolver.go:80-89 | every node handed over is of the file its ID names, or external |
| `Pipeline.SortedById` | pkg/store/write.go:255-273 | whether a node is external can be read off its ID, which is what keeps the text index right |
| `Pipeline.NothingOfNothing` | pkg/resolver/resolver.go:35-118 | of no files the resolver makes no nodes and no edges |
| `Pipeline.ModelledResolverSound` | pkg/indexer/indexer.go:236-250 | a world whose resolver takes values the modelled one may come to meets all that the indexer asks of it, for every release and every set of parses, the empty one included |
| `Pipeline.NothingLostInNames` | pkg/resolver/resolver.go:91-98 | for files whose declarations have no bar in their names, deduplication loses nothing |
| `Resolver.ShiftedIsLost` | pkg/resolver/resolver.go:91-98 | of two edges of which one is the other shifted, the later alone is kept |
| `Collision.UseEmits` | pkg/resolver/resolver.go:125-331 | in every pass, a reference on which only one verdict is possible has the edges of that verdict emitted |
| `Collision.ResolveLosesEdge` | pkg/resolver/resolver.go:35-118 | resolving three files such as parsers promise emits two calls that collide, and loses an edge |
| `Pipeline.ClosedIsConsistent` | pkg/store/schema.go:37-38 | a closed result, stored, breaks no foreign key |
| `Pipeline.ResolvedIsCommitted` | pkg/indexer/indexer.go:236-250 | from one resolver result to the next, the queued delta is always accepted and leaves exactly the new graph |
| `SyncProtocol.StepKeepsInv` | pkg/daemon/daemon.go:239-312 | every step of every thread keeps the protocol's invariant, with writes, events and readers interleaved anywhere |
| `SyncProtocol.StepNeverRewinds` | pkg/daemon/daemon.go:287-300 | `syncedSeq` never exceeds `Seq`, and neither it nor the published version goes back |
| `SyncProtocol.PublicationExact` | pkg/daemon/daemon.go:263-297 | what is published is the graph of the indexed snapshot if and only if it was loaded or was already that |
| `SyncProtocol.HonestExactly` | pkg/daemon/daemon.go:263-285 | a step leaves the published graph true to the version shown if and only if it is not a load that fails while what is stored differs from what is published |
| `SyncProtocol.ReturnIsFresh` | pkg/daemon/daemon.go:147-166 | an answer contains every write whose event was counted before the question, and after a sync every write completed before it |
| `SyncProtocol.EveryAnswerIsFresh` | pkg/daemon/daemon.go:147-312 | the same for every answer in every run, started on a store that holds anything or nothing, without a load that fails after a changed commit |
| `SyncProtocol.CurrentExactly` | pkg/daemon/daemon.go:141-166 | a call that nothing interrupts is given the graph of the disk if and only if the daemon is not up to date or has published just that |
| `SyncProtocol.CallIsAnswered` | pkg/daemon/daemon.go:147-158 | whenever no sync is under way such a call comes to an answer |
| `SyncProtocol.UncountedWriteMissed` | pkg/daemon/daemon.go:147-166 | every healthy new daemon can be led to where such a call is given a graph that is not that of the disk |
| `SyncProtocol.HealsExactly` | pkg/daemon/daemon.go:287-300 | whatever loads have failed before, a publication makes the published graph true to its version if and only if it loaded or the graph already was that version's |
| `SyncProtocol.LoadedSyncHeals` | pkg/daemon/daemon.go:263-300 | after a sync that loaded, every answer given later is fresh, until a load fails after a changed commit again |
| `SyncProtocol.TornLoadAnswersStale` | pkg/daemon/daemon.go:263-297 | after every such failed load, whether or not the watcher is running or healthy, a run with no other exists in which a reader is given a stale graph |
| `SyncProtocol.StaleExactly` | pkg/daemon/daemon.go:263-297 | a step makes a later stale answer possible without another such load if and only if it is one |
| `SyncProtocol.TornLoadHappens` | pkg/daemon/daemon.go:239-297 | such a load, and a stale answer after it, can happen in every new daemon |
| `Watcher.Watcher.ProcessEvent` | pkg/watcher/watcher.go:154-204 | counts exactly the events outside ignored directories; records exactly the changes the filter lets through; goes degraded exactly when a new directory cannot be watched |
| `Watcher.ChangeMeans` | pkg/watcher/watcher.go:154-236 | an event is recorded if and only if it has a name, is not of a directory, lies in the repository and in no ignored directory, is accepted and has a flag; as a deletion if the file was removed or renamed away, as a creation if it was created and neither removed nor renamed, and else as a change |
| `Watcher.RecordedIsCounted` | pkg/watcher/watcher.go:154-204 | no change reaches a batch without having moved the sequence |
| `Watcher.Watcher.InIgnoredDir` | pkg/watcher/watcher.go:206-217 | true if and only if some stretch of the path, bounded by slashes or the ends of the path and with no slash inside, is ignored |
| `Debouncer.CoalesceIsNet` | pkg/watcher/debouncer.go:95-123 | coalescing keeps the pending operation equal to the net effect on existence since the last cut |
| `Debouncer.ImpossibleKept` | pkg/watcher/debouncer.go:95-123 | an event that cannot follow the pending operation leaves it as it is |
| `Debouncer.Debouncer.Record` | pkg/watcher/debouncer.go:29-57 | one path's pending entry is coalesced or cancelled, the rest are untouched, and nothing happens once stopped |
| `Debouncer.CutBatch` | pkg/watcher/debouncer.go:66-73 | a batch holds exactly the pending changes, one per path, sorted by path |
| `Debouncer.BatchOrdered` | pkg/watcher/debouncer.go:66-73 | the changes of a batch ascend by path |
| `Debouncer.Debouncer.Flush` | pkg/watcher/debouncer.go:59-83 | everything pending is cut into one batch and nothing stays pending; nothing is cut when there is nothing, or once stopped |
| `Debouncer.Debouncer.Stop` | pkg/watcher/debouncer.go:85-93 | nothing is recorded or cut afterwards |
| `Debouncer.SentThenPending` | pkg/watcher/debouncer.go:29-83 | for each path with a well-formed history, the batches and then the pending entry form a well-formed history with the same net effect |
| `Debouncer.Debouncer.NothingLost` | pkg/watcher/debouncer.go:29-83 | that holds after any interleaving of records and flushes |
| `TestSelect.Census` | pkg/testselect/selector.go:37-46 | counts the tests, and the files they are in, once each |
| `TestSelect.BestMatches` | pkg/testselect/selector.go:54-88 | every recorded match is a test at a true distance from a changed symbol, and none is farther than any changed symbol whose search was not cut short offers |
| `TestSelect.CutMeansMore` | pkg/testselect/selector.go:68 | on graphs whose edges end at known nodes, a search is cut short if and only if more than 2000 nodes are in range |
| `TestSelect.SelectTests` | pkg/testselect/selector.go:32-140 | on any graph, when no search came back cut short, exactly the affected tests, each at its minimum depth over all changed symbols, 0 if itself changed; their files sorted; the totals and the reduction |
| `TestSelect.AffectedMeans` | pkg/testselect/selector.go:58-88 | affected means: a test that is itself changed, or another from which a chain of at most `maxDepth` calls, inherits, overrides and implements edges leads to a changed symbol |
| `TestSelect.TestMeans` | pkg/testselect/selector.go:142-159 | a test is a node marked so, one whose name begins with Test or test_, or a function or method in a file whose path, in lower case, ends, begins or has a directory as tests do |
| `TestSelect.DepthOr` | pkg/testselect/selector.go:33-35 | a depth that is not positive means 10 |
| `TestSelect.MoreChangesMoreTests` | pkg/testselect/selector.go:58-88 | more changed symbols never select fewer tests, nor any at a greater depth |
| `TestSelect.Reduction` | pkg/testselect/selector.go:116-122 | is the share of the tests, in percent, that are not selected; lies in [0,100], is 0 exactly when nothing is saved and 100 exactly when nothing is selected |
| `TestSelect.OrderedExactly` | pkg/testselect/selector.go:100-108 | the comparator is a strict weak order on given confidences if and only if no two different ones are both not exact |
| `UnifiedDiff.CondenseLineRanges` | pkg/diff/diff.go:159-179 | expanding the ranges gives back the lines, and no two neighbours could be one |
| `UnifiedDiff.RangesUnique` | pkg/diff/diff.go:159-179 | there is only one way to do that |
| `UnifiedDiff.ParseUnifiedDiff` | pkg/diff/diff.go:33-116 | the loop over its variables computes the line-by-line reading, each file's ranges being those of its added lines |
| `UnifiedDiff.BodyLineReads` | pkg/diff/diff.go:90-106 | context, added and deleted lines, and empty ones, move the two counters as they were written and are reported at their numbers, unless they look like a file header |
| `UnifiedDiff.HeaderReads` | pkg/diff/diff.go:129-157 | a written hunk header reads back as its two starting lines, with or without counts and section text |
| `UnifiedDiff.HeaderIgnoredExactly` | pkg/diff/diff.go:81-88 | a line that starts like a hunk header is no header, and moves nothing, if and only if it has no second marker or no blank in what stands between the two, blanks at the ends apart |
| `UnifiedDiff.CleanExactly` | pkg/diff/diff.go:118-127 | a name at the end of a line reads back if and only if it does not end in a blank |
| `UnifiedDiff.OpeningReads` | pkg/diff/diff.go:45-57 | an opening line gives both names back if and only if neither has a blank in it |
| `UnifiedDiff.OpeningShort` | pkg/diff/diff.go:51-56 | an opening line with fewer than two names still opens a section, without names |
| `UnifiedDiff.FileReads` | pkg/diff/diff.go:45-110 | one file's section, with any names, reads back as its paths, its mode, its added and its deleted lines, after anything before it, if and only if no line of it misleads and its names are clear |
| `UnifiedDiff.ReadingInvertsWriting` | pkg/diff/diff.go:33-116 | for all diffs, after any lines that open no section, every file reads back exactly if and only if no line of it misleads and its names are clear, and whether or not others do; context lines without text may be written as empty lines |
| `UnifiedDiff.BlankMisleads` | pkg/diff/diff.go:51-55 | without hunks, the opening line for "x y" alone is read as a change from "x" to "y"; with them, the blank does no harm |
| `UnifiedDiff.ParsingInvertsWriting` | pkg/diff/diff.go:33-116 | the same of what the parser returns, ranges included |
| `UnifiedDiff.PathReported` | pkg/diff/diff.go:26-31 | of what the parser returns for a clear section, the path is the name after the change, or the one before it if the section names none after |
| `Sessions.SessionTable.Use` | pkg/mcp_server/session.go:97-124 | a use of an open session counts one more holder if it is held, and keeps the invariant |
| `Sessions.SessionTable.Open` | pkg/mcp_server/session.go:66-125 | succeeds exactly when path, store and refresh do; adds at most that path; a failed open holds nothing and touches no session |
| `Sessions.SessionTable.Release` | pkg/mcp_server/session.go:58-63 | one holder fewer |
| `Sessions.SessionTable.WithSession` | pkg/mcp_server/session.go:216-236 | a tool call leaves nothing held behind, whether or not its session could be had |
| `Sessions.SessionTable.Evict` | pkg/mcp_server/session.go:148-162 | closes exactly the sessions with no call in flight that were last used longer ago than the limit, and counts them; no held store is closed |
| `Sessions.SessionTable.CloseAll` | pkg/mcp_server/session.go:165-172 | shutdown closes every session |
| `Sessions.SessionTable.Serve` | pkg/mcp_server/session.go:53-64 | over every interleaving of calls beginning, failing, ending and evictions, `inUse` is the number of running calls and each of them holds the open session of its path |
| `Sessions.SessionTable.OneOpenPerPath` | pkg/mcp_server/session.go:72-95 | a path never has two open sessions |
| `Sessions.SessionTable.HeldIsOpen` | pkg/mcp_server/session.go:148-162 | the count of a held session is the number of its holders, and it is open until shutdown |

## Left out

- NameIndex.ResolveImportTarget: the last of its tries ranges over a map, so the model allows any module whose name is alike, as the code does; path arithmetic (the relative path, the base name, the module of a file) is taken as a parameter.
- Resolver.Resolve: `ResolutionRate` is left out, and no independence of the order of files is claimed; which of two edges with the same text is kept is the last emitted.
- Freshness.EnsureFresh: the disk is read as one snapshot; files that cannot be read, stat'ed or parsed, a store error after the commit, and a file changed between its stat and its read are not modelled.
- GraphStore.UnusedRowid: SQLite picks the number of a new row; the model allows any number not in use, so numbers of deleted rows may come back.
- TestSelect.SelectTests: the order of the matches, the caveat text and its count of uncertain connections are not stated, because the comparator is not a strict weak order; the search limit of 2000 is modelled, and the exact set is claimed when no search was cut short.
- Reach.ReverseReach: when cut short, the code returns before it sorts, so only the set and the distances are claimed then.
- Debouncer.Debouncer.Flush: batches are ordered by when they are cut under the lock; the code sends them after unlocking, and the timer and the channel are not modelled.
- CallTrace.Trace: the tree is a value; the code's nodes are heap objects, which nothing shares.
- Scc.Finder.Connect: call-stack depth is not modelled.
- Watcher.Watcher.ProcessEvent: adding watches below a new directory is one answer of the environment (a directory was missed or not); races for brand-new directories and the shutdown of the batch channel are left out.
- Sessions.SessionTable.Open: whether the path resolves, the store opens and the graph can be had are answers of the environment; the session's graph and its daemon are not modelled.
- Tree-sitter language plugins: they depend on grammars that are not part of this model.
- SQLite, SQL text, write-ahead logging and the encoding of parses: tables are maps and a commit is atomic.
- SHA-256, fsnotify, the clock and file-system errors.
- Quoted file names: a name that is written in quotes with escapes is read as it stands, and no such rendering is modelled.
- Integer widths: counters, offsets and line numbers are unbounded, so overflow of a number in a hunk header is not modelled; nor are the scanner's line limit and a trailing carriage return.
- The daemon's status, listeners and `Stop`; a session's `live` daemon; the reaping timer.
- The index tables nothing reads (`inFileQName`, `byQName`, `wildcardImports`, `typeFacts`).
- Command line, MCP handlers, JSON envelopes, views and Mermaid text: formatting.
- `pkg/storage`, `pkg/parser`, `demo.py`: the earlier pipeline.
- `pkg/archlint`, `Condense`, `DegreeMetrics`, `Neighborhood`, `SplitIdentifier`, `MapDiffToSymbols`: single-pass filters and counts that would add only easy members.
- Search ranking: decided inside SQLite.
