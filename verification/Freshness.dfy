/** Keeping the stored graph equal to a from-scratch index of the files on disk. */
module Freshness {
  import opened CodeGraph
  import opened GraphStore
  import opened GraphDiff

  type Bytes = seq<int>

  datatype DiskFile = DiskFile(content: Bytes, mtimeNs: int)

  /** The files under the repository root. */
  type Disk = map<Path, DiskFile>

  const SECOND: int := 1_000_000_000

  /** The parts of the system that are taken as given.  `claims`, `parse` and `resolve` take
      the release of plugins and resolver, whose text form is recorded in the store. */
  datatype World<!IR> = World(
    claims: (nat, Path) -> bool,
    hash: Bytes -> Hash,
    parse: (nat, Path, Bytes) -> IR,
    encode: IR -> seq<int>,
    decode: seq<int> -> Option<IR>,
    resolve: (nat, map<Path, IR>) -> Resolution,
    versionText: nat -> string,
    owner: Id -> Path,
    externals: iset<Id>)

  /** The resolver makes nothing of nothing, closes its result, gives each node the file its ID
      names, and makes those and only those nodes external whose IDs say so. */
  ghost predicate ResolverSound<IR(!new)>(w: World<IR>) {
    && (forall v :: w.resolve(v, map[]) == Resolution([], []))
    && (forall v, m :: ClosedResult(w.resolve(v, m)) && OwnedBy(w, m, w.resolve(v, m)))
    && (forall v, m :: SortsAll(w.externals, w.resolve(v, m).nodes))
  }

  /** Hashes do not collide, encodings are lossless, version texts differ, and the resolver is
      sound. */
  ghost predicate Sound<IR(!new)>(w: World<IR>) {
    && (forall a, b :: w.hash(a) == w.hash(b) ==> a == b)
    && (forall a :: w.hash(a) != "")
    && (forall ir :: w.decode(w.encode(ir)) == Some(ir))
    && (forall u, v :: w.versionText(u) == w.versionText(v) ==> u == v)
    && (forall v :: w.versionText(v) != "")
    && ResolverSound(w)
  }

  ghost predicate OwnedBy<IR>(w: World<IR>, m: map<Path, IR>, res: Resolution) {
    forall n :: n in res.nodes ==> n.filePath == w.owner(n.id) && (n.filePath in m || n.filePath == "")
  }

  /** The source files: what a plugin of release `v` claims. */
  function Claimed(claims: (nat, Path) -> bool, v: nat, disk: Disk): Disk {
    map p | p in disk && claims(v, p) :: disk[p]
  }

  function Contents(disk: Disk): map<Path, Bytes> {
    map p | p in disk :: disk[p].content
  }

  /** The parses a full index would hand to the resolver. */
  ghost function Parses<IR>(w: World<IR>, v: nat, known: map<Path, Bytes>): map<Path, IR> {
    map p | p in known :: w.parse(v, p, known[p])
  }

  /** The graph a full index would build. */
  ghost function Scratch<IR>(w: World<IR>, v: nat, known: map<Path, Bytes>): Resolution {
    w.resolve(v, Parses(w, v, known))
  }

  /** The node and edge tables are those of a full index. */
  ghost predicate HoldsGraph(nodes: NodeMap, edges: EdgeMap, res: Resolution) {
    nodes == LastWins(res.nodes) && edges == EdgesByKey(res.edges)
  }

  ghost predicate StatUnchanged(rec: FileRecord, f: DiskFile) {
    && rec.contentHash != ""
    && rec.size == |f.content|
    && rec.modTimeNs == f.mtimeNs
    && f.mtimeNs < rec.indexedAt * SECOND
  }

  /** A stat match never hides an edit, and no record lies in the future. */
  ghost predicate StatsTrusted<IR>(w: World<IR>, files: map<Path, FileRecord>, disk: Disk, nowNs: int) {
    && (forall p :: p in files && p in disk && StatUnchanged(files[p], disk[p]) ==>
          files[p].contentHash == w.hash(disk[p].content))
    && (forall p :: p in files ==> files[p].indexedAt * SECOND <= nowNs)
  }

  // ---------------------------------------------------------------------------------
  // What the store was made from

  /** The release on record, the release whose resolver made the graph, the contents that were
      indexed, and the release that parsed each of them. */
  datatype Ledger = Ledger(recorded: Option<nat>, resolver: nat, known: map<Path, Bytes>, parsedBy: map<Path, nat>)

  const NEW_STORE: Ledger := Ledger(None, 0, map[], map[])

  function Recorded<IR>(w: World<IR>, release: Option<nat>): string {
    if release.Some? then w.versionText(release.value) else ""
  }

  /** The file records and cached parses are those of the contents `known`, each parsed by
      its own release. */
  ghost predicate Caches<IR>(w: World<IR>, parsedBy: map<Path, nat>, known: map<Path, Bytes>,
                             files: map<Path, FileRecord>, irs: map<Path, FileIR>)
  {
    parsedBy.Keys == known.Keys && RecordsOf(w, known, files) && ParsesOf(w, parsedBy, known, irs)
  }

  ghost predicate RecordsOf<IR>(w: World<IR>, known: map<Path, Bytes>, files: map<Path, FileRecord>) {
    && files.Keys == known.Keys
    && (forall p :: p in files ==> files[p].path == p && files[p].contentHash == w.hash(known[p]))
  }

  ghost predicate ParsesOf<IR>(w: World<IR>, parsedBy: map<Path, nat>, known: map<Path, Bytes>, irs: map<Path, FileIR>)
    requires parsedBy.Keys == known.Keys
  {
    && irs.Keys == known.Keys
    && (forall p :: p in irs ==> irs[p] == FileIR(p, w.hash(known[p]), w.encode(w.parse(parsedBy[p], p, known[p]))))
  }

  ghost function ParsesBy<IR>(w: World<IR>, parsedBy: map<Path, nat>, known: map<Path, Bytes>): map<Path, IR> {
    map p | p in known && p in parsedBy :: w.parse(parsedBy[p], p, known[p])
  }

  /** The graph that comes of it. */
  ghost function Made<IR>(w: World<IR>, l: Ledger): Resolution {
    w.resolve(l.resolver, ParsesBy(w, l.parsedBy, l.known))
  }

  ghost predicate Fits<IR>(w: World<IR>, l: Ledger, nodes: NodeMap, edges: EdgeMap, files: map<Path, FileRecord>,
                           irs: map<Path, FileIR>, irVersion: string)
  {
    && Caches(w, l.parsedBy, l.known, files, irs)
    && HoldsGraph(nodes, edges, Made(w, l))
    && "" !in l.known
    && irVersion == Recorded(w, l.recorded)
  }

  /** Everything in the store is as the ledger says, and its text index is exact. */
  ghost predicate Mirrors<IR>(w: World<IR>, l: Ledger, s: Store)
    reads s`rows, s`edges, s`files, s`irs, s`irVersion, s`fts
  {
    s.Valid() && s.IndexOk(w.externals) && Fits(w, l, s.Nodes(), s.edges, s.files, s.irs, s.irVersion)
  }

  predicate Stale(l: Ledger, v: nat) {
    l.recorded != Some(v)
  }

  /** A run of release `v` has something to index again. */
  predicate Changes(l: Ledger, v: nat, contents: map<Path, Bytes>) {
    l.known != contents || (Stale(l, v) && contents != map[])
  }

  /** Which release parsed each file once it has: files that did not change keep their parse,
      unless all parses are out of date. */
  function ByAfter(l: Ledger, v: nat, contents: map<Path, Bytes>): map<Path, nat> {
    map p | p in contents ::
      if !Stale(l, v) && p in l.known && p in l.parsedBy && l.known[p] == contents[p] then l.parsedBy[p] else v
  }

  /** What one run makes of the store.  `stopped` says that the process ends between the
      commit and the note of the release. */
  function Ran(l: Ledger, v: nat, contents: map<Path, Bytes>, stopped: bool): Ledger {
    if Changes(l, v, contents) then
      Ledger(if stopped then l.recorded else Some(v), v, contents, ByAfter(l, v, contents))
    else l
  }

  // ---------------------------------------------------------------------------------
  // One run

  datatype FileData = FileData(rel: Path, hash: Hash, size: int, mtimeNs: int, restat: bool, dirty: bool)

  /** What the scan finds out about one file, reading it only if its stat is not trusted. */
  ghost function Examine<IR>(w: World<IR>, stored: map<Path, FileRecord>, p: Path, f: DiskFile): FileData {
    if p in stored && StatUnchanged(stored[p], f) then
      FileData(p, stored[p].contentHash, |f.content|, f.mtimeNs, false, false)
    else
      var h := w.hash(f.content);
      var dirty := p !in stored || stored[p].contentHash != h;
      FileData(p, h, |f.content|, f.mtimeNs, !dirty, dirty)
  }

  lemma ExamineFinds<IR(!new)>(w: World<IR>, stored: map<Path, FileRecord>, disk: Disk, p: Path, nowNs: int)
    requires StatsTrusted(w, stored, disk, nowNs) && p in disk
    ensures var fd := Examine(w, stored, p, disk[p]);
      && fd.rel == p && fd.hash == w.hash(disk[p].content)
      && (fd.dirty <==> p !in stored || stored[p].contentHash != w.hash(disk[p].content))
      && (p in stored && !fd.dirty && !fd.restat ==> StatUnchanged(stored[p], disk[p]))
  {
  }

  ghost predicate Scanned<IR>(w: World<IR>, stored: map<Path, FileRecord>, disk: Disk, files: seq<FileData>,
                              seen: set<Path>)
  {
    && seen <= disk.Keys
    && (forall fd :: fd in files ==> fd.rel in seen && fd == Examine(w, stored, fd.rel, disk[fd.rel]))
    && (forall p :: p in seen ==> Examine(w, stored, p, disk[p]) in files)
  }

  /** Four workers take paths off a channel: the files come in no particular order. */
  method Scan<IR>(w: World<IR>, stored: map<Path, FileRecord>, disk: Disk) returns (files: seq<FileData>,
                  seen: set<Path>)
    ensures seen == disk.Keys && Scanned(w, stored, disk, files, seen)
    ensures forall i, j :: 0 <= i < j < |files| ==> files[i].rel != files[j].rel
  {
    files, seen := [], {};
    var todo := disk.Keys;
    while todo != {}
      invariant todo <= disk.Keys && seen == disk.Keys - todo
      invariant Scanned(w, stored, disk, files, seen)
      invariant forall i, j :: 0 <= i < j < |files| ==> files[i].rel != files[j].rel
      decreases todo
    {
      var p :| p in todo;
      assert forall fd :: fd in files ==> fd.rel in seen;
      todo := todo - {p};
      seen := seen + {p};
      var fd := Look(w, stored, p, disk[p]);
      files := files + [fd];
    }
  }

  /** One worker's look at one file. */
  method Look<IR>(w: World<IR>, stored: map<Path, FileRecord>, p: Path, f: DiskFile) returns (fd: FileData)
    ensures fd == Examine(w, stored, p, f)
  {
    fd := FileData(p, "", |f.content|, f.mtimeNs, false, false);
    if p in stored {
      var rec := stored[p];
      if rec.contentHash != "" && rec.size == fd.size && rec.modTimeNs == fd.mtimeNs
         && fd.mtimeNs < rec.indexedAt * 1_000_000_000 {
        return fd.(hash := rec.contentHash);
      }
      fd := fd.(dirty := rec.contentHash != w.hash(f.content));
    } else {
      fd := fd.(dirty := true);
    }
    fd := fd.(hash := w.hash(f.content), restat := !fd.dirty);
  }

  ghost function RecordOf(fd: FileData, indexedAt: int): FileRecord {
    FileRecord(fd.rel, fd.hash, indexedAt, fd.size, fd.mtimeNs)
  }

  /** The records a run writes: for files that are new, edited or merely touched. */
  ghost function NewRecords<IR>(w: World<IR>, stored: map<Path, FileRecord>, disk: Disk, indexedAt: int):
    map<Path, FileRecord>
  {
    map p | p in disk && (Examine(w, stored, p, disk[p]).dirty || Examine(w, stored, p, disk[p]).restat)
      :: RecordOf(Examine(w, stored, p, disk[p]), indexedAt)
  }

  ghost predicate Lists<V>(list: seq<V>, m: map<Path, V>, path: V -> Path) {
    && (forall x :: x in list ==> path(x) in m && m[path(x)] == x)
    && (forall p :: p in m ==> m[p] in list && path(m[p]) == p)
  }

  ghost predicate ListsRecords(list: seq<FileRecord>, m: map<Path, FileRecord>) {
    Lists(list, m, (f: FileRecord) => f.path)
  }

  ghost predicate ListsIRs(list: seq<FileIR>, m: map<Path, FileIR>) {
    Lists(list, m, (f: FileIR) => f.path)
  }

  lemma {:induction false} PutListedRecords(files: map<Path, FileRecord>, list: seq<FileRecord>)
    ensures forall p :: p in PutRecords(files, list) ==>
              (p in files && PutRecords(files, list)[p] == files[p] && forall f :: f in list ==> f.path != p)
              || (PutRecords(files, list)[p] in list && PutRecords(files, list)[p].path == p)
    ensures files.Keys <= PutRecords(files, list).Keys
    ensures forall f :: f in list ==> f.path in PutRecords(files, list)
  {
    if list != [] {
      PutListedRecords(files, list[..|list| - 1]);
      assert list == list[..|list| - 1] + [list[|list| - 1]];
    }
  }

  lemma PutRecordsMerges(files: map<Path, FileRecord>, list: seq<FileRecord>, m: map<Path, FileRecord>)
    requires ListsRecords(list, m)
    ensures PutRecords(files, list) == files + m
  {
    PutListedRecords(files, list);
    forall p | p in m ensures p in PutRecords(files, list) { assert m[p] in list; }
  }

  lemma {:induction false} PutListedIRs(irs: map<Path, FileIR>, list: seq<FileIR>)
    ensures forall p :: p in PutIRs(irs, list) ==>
              (p in irs && PutIRs(irs, list)[p] == irs[p] && forall f :: f in list ==> f.path != p)
              || (PutIRs(irs, list)[p] in list && PutIRs(irs, list)[p].path == p)
    ensures irs.Keys <= PutIRs(irs, list).Keys
    ensures forall f :: f in list ==> f.path in PutIRs(irs, list)
  {
    if list != [] {
      PutListedIRs(irs, list[..|list| - 1]);
      assert list == list[..|list| - 1] + [list[|list| - 1]];
    }
  }

  lemma PutIRsMerges(irs: map<Path, FileIR>, list: seq<FileIR>, m: map<Path, FileIR>)
    requires ListsIRs(list, m)
    ensures PutIRs(irs, list) == irs + m
  {
    PutListedIRs(irs, list);
    forall p | p in m ensures p in PutIRs(irs, list) { assert m[p] in list; }
  }

  /** The first `i` files have their records, and no record is there for anything else. */
  ghost predicate RecordedSoFar(want: map<Path, FileRecord>, files: seq<FileData>, i: nat, indexedAt: int,
                                list: seq<FileRecord>)
    requires i <= |files|
  {
    && (forall f :: f in list ==> f.path in want && want[f.path] == f)
    && (forall k :: 0 <= k < i && (files[k].dirty || files[k].restat) ==> RecordOf(files[k], indexedAt) in list)
  }

  lemma OneRecorded<IR>(w: World<IR>, stored: map<Path, FileRecord>, disk: Disk, files: seq<FileData>, i: nat,
                        indexedAt: int, list: seq<FileRecord>)
    requires Scanned(w, stored, disk, files, disk.Keys) && i < |files|
    requires RecordedSoFar(NewRecords(w, stored, disk, indexedAt), files, i, indexedAt, list)
    ensures var more := if files[i].dirty || files[i].restat then list + [RecordOf(files[i], indexedAt)] else list;
      RecordedSoFar(NewRecords(w, stored, disk, indexedAt), files, i + 1, indexedAt, more)
  {
    assert files[i] in files;
  }

  lemma AllRecorded<IR>(w: World<IR>, stored: map<Path, FileRecord>, disk: Disk, files: seq<FileData>,
                        indexedAt: int, list: seq<FileRecord>)
    requires Scanned(w, stored, disk, files, disk.Keys)
    requires RecordedSoFar(NewRecords(w, stored, disk, indexedAt), files, |files|, indexedAt, list)
    ensures ListsRecords(list, NewRecords(w, stored, disk, indexedAt))
  {
    var want := NewRecords(w, stored, disk, indexedAt);
    forall p | p in want ensures want[p] in list && want[p].path == p {
      assert Examine(w, stored, p, disk[p]) in files;
    }
  }

  method QueueRecords<IR>(w: World<IR>, stored: map<Path, FileRecord>, disk: Disk, files: seq<FileData>,
                          batch: Batch, indexedAt: int)
    requires Scanned(w, stored, disk, files, disk.Keys) && batch.recorded == []
    modifies batch`recorded
    ensures ListsRecords(batch.recorded, NewRecords(w, stored, disk, indexedAt))
  {
    for i := 0 to |files|
      invariant RecordedSoFar(NewRecords(w, stored, disk, indexedAt), files, i, indexedAt, batch.recorded)
    {
      OneRecorded(w, stored, disk, files, i, indexedAt, batch.recorded);
      if files[i].dirty || files[i].restat {
        batch.RecordFile(FileRecord(files[i].rel, files[i].hash, indexedAt, files[i].size, files[i].mtimeNs));
      }
    }
    AllRecorded(w, stored, disk, files, indexedAt, batch.recorded);
  }

  /** A cached parse is used when it was made from the same content. */
  ghost predicate Hit<IR>(w: World<IR>, cached: map<Path, FileIR>, fd: FileData) {
    fd.rel in cached && cached[fd.rel].contentHash == fd.hash && w.decode(cached[fd.rel].data).Some?
  }

  /** The parses a run caches: those it had to make. */
  ghost function NewIRs<IR>(w: World<IR>, v: nat, stored: map<Path, FileRecord>, disk: Disk,
                            cached: map<Path, FileIR>): map<Path, FileIR>
  {
    map p | p in disk && !Hit(w, cached, Examine(w, stored, p, disk[p]))
      :: FileIR(p, Examine(w, stored, p, disk[p]).hash, w.encode(w.parse(v, p, disk[p].content)))
  }

  /** Every cached parse that would be used is the one `parsedBy` says, and `parsedBy` says that
      the rest are parsed by release `v`. */
  ghost predicate CacheRight<IR>(w: World<IR>, v: nat, parsedBy: map<Path, nat>, stored: map<Path, FileRecord>,
                                 disk: Disk, cached: map<Path, FileIR>)
  {
    && parsedBy.Keys == disk.Keys
    && forall p :: p in disk ==>
      if Hit(w, cached, Examine(w, stored, p, disk[p]))
      then w.decode(cached[p].data) == Some(w.parse(parsedBy[p], p, disk[p].content))
      else parsedBy[p] == v
  }

  /** The files looked at so far have their parses. */
  ghost predicate ParsedSoFar<IR>(w: World<IR>, parsedBy: map<Path, nat>, disk: Disk, files: seq<FileData>,
                                  parsed: map<Path, IR>)
    requires parsedBy.Keys == disk.Keys
  {
    && (forall p :: p in parsed ==> p in disk && parsed[p] == w.parse(parsedBy[p], p, disk[p].content))
    && (forall fd :: fd in files ==> fd.rel in parsed)
  }

  /** ... and those that were made are queued. */
  ghost predicate QueuedSoFar(want: map<Path, FileIR>, files: seq<FileData>, irs: seq<FileIR>) {
    && (forall f :: f in irs ==> f.path in want && want[f.path] == f)
    && (forall fd :: fd in files && fd.rel in want ==> want[fd.rel] in irs)
  }

  lemma OneParsed<IR>(w: World<IR>, parsedBy: map<Path, nat>, disk: Disk, files: seq<FileData>, fd: FileData,
                      parsed: map<Path, IR>, ir: IR)
    requires parsedBy.Keys == disk.Keys && fd.rel in disk
    requires ir == w.parse(parsedBy[fd.rel], fd.rel, disk[fd.rel].content)
    requires ParsedSoFar(w, parsedBy, disk, files, parsed)
    ensures ParsedSoFar(w, parsedBy, disk, files + [fd], parsed[fd.rel := ir])
  {
  }

  lemma OneQueued(want: map<Path, FileIR>, files: seq<FileData>, fd: FileData, irs: seq<FileIR>, ir: FileIR)
    requires QueuedSoFar(want, files, irs) && ir.path == fd.rel && fd.rel in want && want[fd.rel] == ir
    ensures QueuedSoFar(want, files + [fd], irs + [ir])
  {
  }

  lemma AllParsed<IR>(w: World<IR>, parsedBy: map<Path, nat>, stored: map<Path, FileRecord>, disk: Disk,
                      files: seq<FileData>, parsed: map<Path, IR>)
    requires parsedBy.Keys == disk.Keys && Scanned(w, stored, disk, files, disk.Keys)
    requires ParsedSoFar(w, parsedBy, disk, files, parsed)
    ensures parsed == ParsesBy(w, parsedBy, Contents(disk))
  {
    forall p | p in disk ensures p in parsed {
      assert Examine(w, stored, p, disk[p]) in files;
    }
  }

  lemma AllQueued<IR>(w: World<IR>, v: nat, stored: map<Path, FileRecord>, disk: Disk, cached: map<Path, FileIR>,
                      files: seq<FileData>, irs: seq<FileIR>)
    requires Scanned(w, stored, disk, files, disk.Keys)
    requires QueuedSoFar(NewIRs(w, v, stored, disk, cached), files, irs)
    ensures ListsIRs(irs, NewIRs(w, v, stored, disk, cached))
  {
    var want := NewIRs(w, v, stored, disk, cached);
    forall p | p in want ensures want[p] in irs && want[p].path == p {
      assert Examine(w, stored, p, disk[p]) in files;
    }
  }

  /** Unchanged files reuse their cached parse; the rest are parsed. */
  method ParseAll<IR>(w: World<IR>, v: nat, ghost parsedBy: map<Path, nat>, stored: map<Path, FileRecord>, disk: Disk,
                      cached: map<Path, FileIR>, files: seq<FileData>, batch: Batch)
    returns (parsed: map<Path, IR>)
    requires Scanned(w, stored, disk, files, disk.Keys) && batch.irs == []
    requires CacheRight(w, v, parsedBy, stored, disk, cached)
    modifies batch`irs
    ensures parsed == ParsesBy(w, parsedBy, Contents(disk))
    ensures ListsIRs(batch.irs, NewIRs(w, v, stored, disk, cached))
  {
    parsed := map[];
    for i := 0 to |files|
      invariant ParsedSoFar(w, parsedBy, disk, files[..i], parsed)
      invariant QueuedSoFar(NewIRs(w, v, stored, disk, cached), files[..i], batch.irs)
    {
      var fd := files[i];
      assert files[..i + 1] == files[..i] + [fd];
      assert fd in files;
      if fd.rel in cached && cached[fd.rel].contentHash == fd.hash && w.decode(cached[fd.rel].data).Some? {
        var ir := w.decode(cached[fd.rel].data).value;
        OneParsed(w, parsedBy, disk, files[..i], fd, parsed, ir);
        parsed := parsed[fd.rel := ir];
      } else {
        var ir := w.parse(v, fd.rel, disk[fd.rel].content);
        OneParsed(w, parsedBy, disk, files[..i], fd, parsed, ir);
        OneQueued(NewIRs(w, v, stored, disk, cached), files[..i], fd, batch.irs, FileIR(fd.rel, fd.hash, w.encode(ir)));
        parsed := parsed[fd.rel := ir];
        batch.PutIR(FileIR(fd.rel, fd.hash, w.encode(ir)));
      }
    }
    assert files[..|files|] == files;
    AllParsed(w, parsedBy, stored, disk, files, parsed);
    AllQueued(w, v, stored, disk, cached, files, batch.irs);
  }

  /** The cached parses a run may use. */
  function Usable(l: Ledger, v: nat, irs: map<Path, FileIR>): map<Path, FileIR> {
    if Stale(l, v) then map[] else irs
  }

  /** What becomes of one file's record and cached parse. */
  lemma FileUpdated<IR(!new)>(w: World<IR>, l: Ledger, v: nat, files: map<Path, FileRecord>, irs: map<Path, FileIR>,
                              disk: Disk, nowNs: int, p: Path)
    requires Sound(w) && Caches(w, l.parsedBy, l.known, files, irs) && StatsTrusted(w, files, disk, nowNs) && p in disk
    ensures var cached, parsedBy := Usable(l, v, irs), ByAfter(l, v, Contents(disk));
      var fd, h := Examine(w, files, p, disk[p]), w.hash(disk[p].content);
      && fd.rel == p && fd.hash == h
      && (fd.dirty || fd.restat || (p in files && files[p].path == p && files[p].contentHash == h))
      && p in parsedBy
      && (Hit(w, cached, fd) ==>
            && p in irs && irs[p] == FileIR(p, h, w.encode(w.parse(parsedBy[p], p, disk[p].content)))
            && w.decode(cached[p].data) == Some(w.parse(parsedBy[p], p, disk[p].content)))
      && (!Hit(w, cached, fd) ==> parsedBy[p] == v)
  {
    ExamineFinds(w, files, disk, p, nowNs);
    if p in l.known && w.hash(l.known[p]) == w.hash(disk[p].content) {
      assert l.known[p] == disk[p].content;
    }
  }

  ghost function RecordsAfter<IR>(w: World<IR>, files: map<Path, FileRecord>, disk: Disk, indexedAt: int):
    map<Path, FileRecord>
  {
    (files - (files.Keys - disk.Keys)) + NewRecords(w, files, disk, indexedAt)
  }

  ghost function IRsAfter<IR>(w: World<IR>, v: nat, files: map<Path, FileRecord>, irs: map<Path, FileIR>, disk: Disk,
                              cached: map<Path, FileIR>): map<Path, FileIR>
  {
    (irs - (files.Keys - disk.Keys)) + NewIRs(w, v, files, disk, cached)
  }

  lemma CacheStaysRight<IR(!new)>(w: World<IR>, l: Ledger, v: nat, files: map<Path, FileRecord>,
                                  irs: map<Path, FileIR>, disk: Disk, nowNs: int)
    requires Sound(w) && Caches(w, l.parsedBy, l.known, files, irs) && StatsTrusted(w, files, disk, nowNs)
    ensures CacheRight(w, v, ByAfter(l, v, Contents(disk)), files, disk, Usable(l, v, irs))
  {
    var cached, parsedBy := Usable(l, v, irs), ByAfter(l, v, Contents(disk));
    forall p | p in disk
      ensures if Hit(w, cached, Examine(w, files, p, disk[p]))
              then w.decode(cached[p].data) == Some(w.parse(parsedBy[p], p, disk[p].content))
              else parsedBy[p] == v
    {
      FileUpdated(w, l, v, files, irs, disk, nowNs, p);
    }
  }

  lemma RecordUpdated<IR(!new)>(w: World<IR>, known: map<Path, Bytes>, files: map<Path, FileRecord>,
                                disk: Disk, nowNs: int, indexedAt: int, p: Path)
    requires RecordsOf(w, known, files) && StatsTrusted(w, files, disk, nowNs)
    ensures p in RecordsAfter(w, files, disk, indexedAt) <==> p in disk
    ensures p in disk ==> RecordsAfter(w, files, disk, indexedAt)[p].path == p
    ensures p in disk ==> RecordsAfter(w, files, disk, indexedAt)[p].contentHash == w.hash(disk[p].content)
  {
    if p in disk {
      ExamineFinds(w, files, disk, p, nowNs);
    }
  }

  lemma RecordsUpdated<IR(!new)>(w: World<IR>, known: map<Path, Bytes>, files: map<Path, FileRecord>,
                                 disk: Disk, nowNs: int, indexedAt: int)
    requires RecordsOf(w, known, files) && StatsTrusted(w, files, disk, nowNs)
    ensures RecordsOf(w, Contents(disk), RecordsAfter(w, files, disk, indexedAt))
  {
    var recs := RecordsAfter(w, files, disk, indexedAt);
    forall p
      ensures p in recs <==> p in disk
      ensures p in disk ==> recs[p].path == p && recs[p].contentHash == w.hash(disk[p].content)
    {
      RecordUpdated(w, known, files, disk, nowNs, indexedAt, p);
    }
  }

  lemma ParsesUpdated<IR(!new)>(w: World<IR>, l: Ledger, v: nat, files: map<Path, FileRecord>,
                                irs: map<Path, FileIR>, disk: Disk, nowNs: int)
    requires Sound(w) && Caches(w, l.parsedBy, l.known, files, irs) && StatsTrusted(w, files, disk, nowNs)
    ensures ParsesOf(w, ByAfter(l, v, Contents(disk)), Contents(disk),
                     IRsAfter(w, v, files, irs, disk, Usable(l, v, irs)))
  {
    var parses, parsedBy := IRsAfter(w, v, files, irs, disk, Usable(l, v, irs)), ByAfter(l, v, Contents(disk));
    forall p
      ensures p in parses <==> p in disk
      ensures p in disk ==>
                parses[p] == FileIR(p, w.hash(disk[p].content), w.encode(w.parse(parsedBy[p], p, disk[p].content)))
    {
      if p in disk {
        FileUpdated(w, l, v, files, irs, disk, nowNs, p);
      }
    }
  }

  /** The recorded contents and parses, once the batch is written. */
  lemma CachesUpdated<IR(!new)>(w: World<IR>, l: Ledger, v: nat, files: map<Path, FileRecord>,
                                irs: map<Path, FileIR>, disk: Disk, nowNs: int, indexedAt: int)
    requires Sound(w) && Caches(w, l.parsedBy, l.known, files, irs) && StatsTrusted(w, files, disk, nowNs)
    ensures var parsedBy := ByAfter(l, v, Contents(disk));
      && CacheRight(w, v, parsedBy, files, disk, Usable(l, v, irs))
      && Caches(w, parsedBy, Contents(disk), RecordsAfter(w, files, disk, indexedAt),
                IRsAfter(w, v, files, irs, disk, Usable(l, v, irs)))
  {
    CacheStaysRight(w, l, v, files, irs, disk, nowNs);
    RecordsUpdated(w, l.known, files, disk, nowNs, indexedAt);
    ParsesUpdated(w, l, v, files, irs, disk, nowNs);
  }

  /** New records are trusted for the files they were made from. */
  lemma StatsStayTrusted<IR(!new)>(w: World<IR>, files: map<Path, FileRecord>, disk: Disk, nowNs: int, indexedAt: int)
    requires StatsTrusted(w, files, disk, nowNs) && indexedAt * SECOND <= nowNs
    ensures StatsTrusted(w, RecordsAfter(w, files, disk, indexedAt), disk, nowNs)
  {
    forall p | p in disk ensures Examine(w, files, p, disk[p]).hash == w.hash(disk[p].content) {
      ExamineFinds(w, files, disk, p, nowNs);
    }
  }

  /** A run that finds no new, edited or missing file has nothing to re-index. */
  lemma NothingChanged<IR(!new)>(w: World<IR>, l: Ledger, files: map<Path, FileRecord>, irs: map<Path, FileIR>,
                                 disk: Disk, nowNs: int)
    requires Sound(w) && Caches(w, l.parsedBy, l.known, files, irs) && StatsTrusted(w, files, disk, nowNs)
    ensures l.known == Contents(disk) <==>
              && (forall p :: p in files ==> p in disk)
              && (forall p :: p in disk ==> !Examine(w, files, p, disk[p]).dirty)
  {
    forall p | p in disk
      ensures !Examine(w, files, p, disk[p]).dirty <==> p in l.known && l.known[p] == disk[p].content
    {
      ExamineFinds(w, files, disk, p, nowNs);
    }
    if l.known == Contents(disk) {
      assert forall p :: p in disk ==> p in Contents(disk);
    }
  }

  method SomeDirty(files: seq<FileData>) returns (some: bool)
    ensures some <==> exists fd :: fd in files && fd.dirty
  {
    for i := 0 to |files|
      invariant forall fd :: fd in files[..i] ==> !fd.dirty
    {
      assert files[..i + 1] == files[..i] + [files[i]];
      if files[i].dirty {
        return true;
      }
    }
    assert files[..|files|] == files;
    some := false;
  }

  method MissingFiles(stored: map<Path, FileRecord>, seen: set<Path>) returns (deleted: seq<Path>)
    ensures PathsIn(deleted) == stored.Keys - seen
  {
    deleted := [];
    var todo := stored.Keys;
    while todo != {}
      invariant todo <= stored.Keys && PathsIn(deleted) == stored.Keys - todo - seen
      decreases todo
    {
      var p :| p in todo;
      todo := todo - {p};
      if p !in seen {
        assert PathsIn(deleted + [p]) == PathsIn(deleted) + {p};
        deleted := deleted + [p];
      }
    }
  }

  method QueueRemovals(batch: Batch, deleted: seq<Path>)
    modifies batch`removed
    ensures batch.removed == old(batch.removed) + deleted
  {
    for i := 0 to |deleted|
      invariant batch.removed == old(batch.removed) + deleted[..i]
    {
      batch.RemoveFile(deleted[i]);
    }
    assert deleted[..|deleted|] == deleted;
  }

  lemma NoneMissing(stored: map<Path, FileRecord>, disk: Disk, deleted: seq<Path>)
    requires PathsIn(deleted) == stored.Keys - disk.Keys
    ensures |deleted| == 0 <==> forall p :: p in stored ==> p in disk
  {
    if |deleted| > 0 {
      assert deleted[0] in PathsIn(deleted);
    } else {
      forall p | p in stored ensures p in disk {
        assert p !in PathsIn(deleted);
      }
    }
  }

  lemma DirtyListed<IR>(w: World<IR>, stored: map<Path, FileRecord>, disk: Disk, files: seq<FileData>)
    requires Scanned(w, stored, disk, files, disk.Keys)
    ensures (exists fd :: fd in files && fd.dirty) <==> exists p :: p in disk && Examine(w, stored, p, disk[p]).dirty
    ensures |files| > 0 <==> disk != map[]
  {
    if |files| > 0 {
      assert files[0] in files && files[0].rel in disk;
    }
    if p :| p in disk && Examine(w, stored, p, disk[p]).dirty {
      assert Examine(w, stored, p, disk[p]) in files;
    }
    if p :| p in disk {
      assert Examine(w, stored, p, disk[p]) in files;
    }
  }

  /** What the scan tells: whether the stored contents are those on disk. */
  lemma ScanDecides<IR(!new)>(w: World<IR>, l: Ledger, stored: map<Path, FileRecord>, irs: map<Path, FileIR>,
                              disk: Disk, nowNs: int, files: seq<FileData>, deleted: seq<Path>)
    requires Sound(w) && Caches(w, l.parsedBy, l.known, stored, irs) && StatsTrusted(w, stored, disk, nowNs)
    requires Scanned(w, stored, disk, files, disk.Keys) && PathsIn(deleted) == stored.Keys - disk.Keys
    ensures l.known != Contents(disk) <==> ((exists fd :: fd in files && fd.dirty) || |deleted| > 0)
    ensures |files| > 0 <==> disk != map[]
  {
    NothingChanged(w, l, stored, irs, disk, nowNs);
    NoneMissing(stored, disk, deleted);
    DirtyListed(w, stored, disk, files);
  }

  /** Committing nothing but file records. */
  lemma RecordsOnly(nodes: NodeMap, edges: EdgeMap, files: map<Path, FileRecord>, irs: map<Path, FileIR>, b: Content)
    requires Consistent(nodes, edges) && b == EMPTY_CONTENT.(recorded := b.recorded)
    ensures Acceptable(nodes, b) && CommittedNodes(nodes, b) == nodes && CommittedEdges(nodes, edges, b) == edges
    ensures CommittedFiles(files, b) == PutRecords(files, b.recorded) && CommittedIRs(irs, b) == irs
  {
    assert Dropped(nodes, b) == {} && KeysIn(b.deletedEdges) == {};
    assert LastWins(b.nodes) == map[] && EdgesByKey(b.edges) == map[];
    NothingTaken(files, irs, b);
  }

  lemma NothingTaken(files: map<Path, FileRecord>, irs: map<Path, FileIR>, b: Content)
    requires b.removed == [] && b.touched == [] && b.irs == []
    ensures CommittedFiles(files, b) == PutRecords(files, b.recorded) && CommittedIRs(irs, b) == irs
  {
    assert PathsIn(b.removed) == {} && files - {} == files && irs - {} == irs;
  }

  /** Nothing to re-index: only fresh stats are remembered. */
  method RememberStats(s: Store, batch: Batch, ghost recs: map<Path, FileRecord>, ghost externals: iset<Id>)
    requires s.Valid() && s.IndexOk(externals) && batch.Content() == EMPTY_CONTENT.(recorded := batch.recorded)
    requires ListsRecords(batch.recorded, recs)
    modifies s`rows, s`fts, s`edges, s`files, s`irs
    ensures s.Valid() && s.Nodes() == old(s.Nodes()) && s.edges == old(s.edges) && s.irs == old(s.irs)
    ensures s.files == old(s.files) + recs && s.IndexOk(externals)
  {
    RecordsOnly(s.Nodes(), s.edges, s.files, s.irs, batch.Content());
    PutRecordsMerges(s.files, batch.recorded, recs);
    if |batch.recorded| > 0 {
      FixedByIdLeavesNothing(s.Nodes(), batch.Content(), externals);
      IndexedNearly(s.rows, s.fts, s.tokens);
      var ok := s.Commit(batch);
      assert ok;
    }
  }

  /** A kept node cannot belong to a file that is gone. */
  lemma OwnersSurvive<IR(!new)>(w: World<IR>, release0: nat, m0: map<Path, IR>, release: nat, m: map<Path, IR>,
                                nodes: NodeMap, edges: EdgeMap, removed: set<Path>)
    requires Sound(w) && HoldsGraph(nodes, edges, w.resolve(release0, m0)) && "" !in m0
    requires removed == m0.Keys - m.Keys
    ensures ClosedResult(w.resolve(release, m)) && SortsAll(w.externals, w.resolve(release, m).nodes)
    ensures var res := w.resolve(release, m);
      NothingKeptIsPurged(nodes, edges, LastWins(res.nodes), EdgesByKey(res.edges), removed)
  {
    var res := w.resolve(release, m);
    assert OwnedBy(w, m, res) && ClosedResult(res);
    assert OwnedBy(w, m0, w.resolve(release0, m0));
    LastWinsKeys(w.resolve(release0, m0).nodes);
    LastWinsKeys(res.nodes);
    OwnersFixedById(nodes, edges, res, removed, w.owner);
  }

  lemma CommitsFiles(files: map<Path, FileRecord>, irs: map<Path, FileIR>, b: Content,
                     recs: map<Path, FileRecord>, parses: map<Path, FileIR>)
    requires b.touched == [] && ListsRecords(b.recorded, recs) && ListsIRs(b.irs, parses)
    ensures CommittedFiles(files, b) == (files - PathsIn(b.removed)) + recs
    ensures CommittedIRs(irs, b) == (irs - PathsIn(b.removed)) + parses
  {
    assert PutRecords(files - PathsIn(b.removed), b.touched) == files - PathsIn(b.removed);
    PutRecordsMerges(files - PathsIn(b.removed), b.recorded, recs);
    PutIRsMerges(irs - PathsIn(b.removed), b.irs, parses);
  }

  method QueueDelta(s: Store, batch: Batch, res: Resolution, deleted: seq<Path>)
    requires s.Valid()
    requires batch.Content() == EMPTY_CONTENT.(recorded := batch.recorded, irs := batch.irs)
    modifies batch
    ensures HoldsDelta(s.Nodes(), s.edges, batch.Content(), res)
    ensures batch.removed == deleted && batch.recorded == old(batch.recorded) && batch.irs == old(batch.irs)
  {
    QueueRemovals(batch, deleted);
    QueueGraphDiff(s, batch, res);
  }

  lemma QueuedSorted(nodes: NodeMap, edges: EdgeMap, b: Content, res: Resolution, externals: iset<Id>)
    requires HoldsDelta(nodes, edges, b, res) && SortsAll(externals, res.nodes)
    ensures SortsAll(externals, b.nodes)
  {
    LastWinsKeys(res.nodes);
  }

  /** Rewrites the graph by its delta. */
  method Reindex(s: Store, batch: Batch, res: Resolution, deleted: seq<Path>, ghost externals: iset<Id>,
                 ghost recs: map<Path, FileRecord>, ghost parses: map<Path, FileIR>)
    requires s.Valid() && s.IndexOk(externals) && ClosedResult(res) && SortsAll(externals, res.nodes)
    requires batch.Content() == EMPTY_CONTENT.(recorded := batch.recorded, irs := batch.irs)
    requires ListsRecords(batch.recorded, recs) && ListsIRs(batch.irs, parses)
    requires NothingKeptIsPurged(s.Nodes(), s.edges, LastWins(res.nodes), EdgesByKey(res.edges), PathsIn(deleted))
    modifies s`rows, s`fts, s`edges, s`files, s`irs, batch
    ensures s.Valid() && s.IndexOk(externals) && HoldsGraph(s.Nodes(), s.edges, res)
    ensures s.files == (old(s.files) - PathsIn(deleted)) + recs
    ensures s.irs == (old(s.irs) - PathsIn(deleted)) + parses
  {
    QueueDelta(s, batch, res, deleted);
    QueuedSorted(s.Nodes(), s.edges, batch.Content(), res, externals);
    DeltaRefinesRewrite(s.Nodes(), s.edges, batch.Content(), res);
    CommitsFiles(s.files, s.irs, batch.Content(), recs, parses);
    FixedByIdLeavesNothing(s.Nodes(), batch.Content(), externals);
    IndexedNearly(s.rows, s.fts, s.tokens);
    var ok := s.Commit(batch);
    assert ok;
  }

  lemma SameKeysKept<IR>(w: World<IR>, files: map<Path, FileRecord>, disk: Disk, indexedAt: int)
    requires files.Keys == disk.Keys
    ensures RecordsAfter(w, files, disk, indexedAt) == files + NewRecords(w, files, disk, indexedAt)
  {
    assert files - {} == files;
  }

  /** With nothing to re-index, remembering fresh stats leaves the caches in step. */
  lemma StatsRefreshed<IR(!new)>(w: World<IR>, l: Ledger, files: map<Path, FileRecord>, disk: Disk,
                                 nowNs: int, indexedAt: int)
    requires RecordsOf(w, l.known, files) && StatsTrusted(w, files, disk, nowNs)
    requires l.known == Contents(disk) && indexedAt * SECOND <= nowNs
    ensures RecordsOf(w, l.known, files + NewRecords(w, files, disk, indexedAt))
    ensures StatsTrusted(w, files + NewRecords(w, files, disk, indexedAt), disk, nowNs)
  {
    SameKeysKept(w, files, disk, indexedAt);
    RecordsUpdated(w, l.known, files, disk, nowNs, indexedAt);
    StatsStayTrusted(w, files, disk, nowNs, indexedAt);
  }

  /** A run that re-indexes nothing: only file records are written. */
  method KeepIndex<IR(!new)>(w: World<IR>, disk: Disk, s: Store, batch: Batch, ghost nowNs: int,
                             ghost indexedAt: int, ghost l: Ledger)
    requires Mirrors(w, l, s) && StatsTrusted(w, s.files, disk, nowNs)
    requires l.known == Contents(disk) && indexedAt * SECOND <= nowNs
    requires batch.Content() == EMPTY_CONTENT.(recorded := batch.recorded)
    requires ListsRecords(batch.recorded, NewRecords(w, s.files, disk, indexedAt))
    modifies s`rows, s`fts, s`edges, s`files, s`irs
    ensures Mirrors(w, l, s) && StatsTrusted(w, s.files, disk, nowNs)
    ensures s.Nodes() == old(s.Nodes()) && s.edges == old(s.edges)
  {
    StatsRefreshed(w, l, s.files, disk, nowNs, indexedAt);
    RememberStats(s, batch, NewRecords(w, s.files, disk, indexedAt), w.externals);
  }

  /** The graph a run that re-indexes makes. */
  ghost function NewGraph<IR>(w: World<IR>, l: Ledger, v: nat, disk: Disk): Resolution {
    w.resolve(v, ParsesBy(w, ByAfter(l, v, Contents(disk)), Contents(disk)))
  }

  lemma ParsesKeys<IR>(w: World<IR>, parsedBy: map<Path, nat>, known: map<Path, Bytes>)
    requires parsedBy.Keys == known.Keys
    ensures ParsesBy(w, parsedBy, known).Keys == known.Keys
  {
  }

  /** What holds before the delta is queued. */
  lemma RebuildReady<IR(!new)>(w: World<IR>, l: Ledger, v: nat, disk: Disk, nodes: NodeMap, edges: EdgeMap,
                               files: map<Path, FileRecord>, irs: map<Path, FileIR>, irVersion: string, nowNs: int)
    requires Sound(w) && Fits(w, l, nodes, edges, files, irs, irVersion) && StatsTrusted(w, files, disk, nowNs)
    ensures CacheRight(w, v, ByAfter(l, v, Contents(disk)), files, disk, Usable(l, v, irs))
    ensures var res := NewGraph(w, l, v, disk);
      && ClosedResult(res) && SortsAll(w.externals, res.nodes)
      && NothingKeptIsPurged(nodes, edges, LastWins(res.nodes), EdgesByKey(res.edges), files.Keys - disk.Keys)
  {
    CacheStaysRight(w, l, v, files, irs, disk, nowNs);
    ParsesKeys(w, l.parsedBy, l.known);
    ParsesKeys(w, ByAfter(l, v, Contents(disk)), Contents(disk));
    OwnersSurvive(w, l.resolver, ParsesBy(w, l.parsedBy, l.known), v,
                  ParsesBy(w, ByAfter(l, v, Contents(disk)), Contents(disk)), nodes, edges, files.Keys - disk.Keys);
  }

  /** ... and after it is committed. */
  lemma RebuiltFits<IR(!new)>(w: World<IR>, l: Ledger, v: nat, disk: Disk, stopped: bool, nodes0: NodeMap,
                              edges0: EdgeMap, files: map<Path, FileRecord>, irs: map<Path, FileIR>, irVersion: string,
                              nowNs: int, indexedAt: int, nodes: NodeMap, edges: EdgeMap, irVersion': string)
    requires Sound(w) && Fits(w, l, nodes0, edges0, files, irs, irVersion) && StatsTrusted(w, files, disk, nowNs)
    requires Changes(l, v, Contents(disk)) && HoldsGraph(nodes, edges, NewGraph(w, l, v, disk))
    requires "" !in disk && indexedAt * SECOND <= nowNs
    requires irVersion' == if Stale(l, v) && !stopped then w.versionText(v) else irVersion
    ensures Fits(w, Ran(l, v, Contents(disk), stopped), nodes, edges, RecordsAfter(w, files, disk, indexedAt),
                 IRsAfter(w, v, files, irs, disk, Usable(l, v, irs)), irVersion')
    ensures StatsTrusted(w, RecordsAfter(w, files, disk, indexedAt), disk, nowNs)
  {
    CachesUpdated(w, l, v, files, irs, disk, nowNs, indexedAt);
    StatsStayTrusted(w, files, disk, nowNs, indexedAt);
  }

  /** The parses, cached or made, and the graph the resolver makes of them. */
  method ParseAndResolve<IR>(w: World<IR>, version: nat, staleIR: bool, disk: Disk, s: Store, batch: Batch,
                             files: seq<FileData>, ghost l: Ledger)
    returns (res: Resolution)
    requires staleIR == Stale(l, version) && batch.irs == []
    requires Scanned(w, s.files, disk, files, disk.Keys)
    requires CacheRight(w, version, ByAfter(l, version, Contents(disk)), s.files, disk, Usable(l, version, s.irs))
    modifies batch`irs
    ensures res == NewGraph(w, l, version, disk)
    ensures ListsIRs(batch.irs, NewIRs(w, version, s.files, disk, Usable(l, version, s.irs)))
  {
    var cached := if staleIR then map[] else s.irs;
    var parsed := ParseAll(w, version, ByAfter(l, version, Contents(disk)), s.files, disk, cached, files, batch);
    res := w.resolve(version, parsed);
  }

  /** Parses what is not cached, resolves and writes the delta. */
  method Rewrite<IR(!new)>(w: World<IR>, disk: Disk, s: Store, batch: Batch, version: nat, staleIR: bool,
                           files: seq<FileData>, deleted: seq<Path>, ghost indexedAt: int, ghost l: Ledger)
    requires s.Valid() && s.IndexOk(w.externals) && staleIR == Stale(l, version)
    requires CacheRight(w, version, ByAfter(l, version, Contents(disk)), s.files, disk, Usable(l, version, s.irs))
    requires var res := NewGraph(w, l, version, disk);
      && ClosedResult(res) && SortsAll(w.externals, res.nodes)
      && NothingKeptIsPurged(s.Nodes(), s.edges, LastWins(res.nodes), EdgesByKey(res.edges), s.files.Keys - disk.Keys)
    requires Scanned(w, s.files, disk, files, disk.Keys) && PathsIn(deleted) == s.files.Keys - disk.Keys
    requires batch.Content() == EMPTY_CONTENT.(recorded := batch.recorded)
    requires ListsRecords(batch.recorded, NewRecords(w, s.files, disk, indexedAt))
    modifies s`rows, s`fts, s`edges, s`files, s`irs, batch
    ensures s.Valid() && s.IndexOk(w.externals) && HoldsGraph(s.Nodes(), s.edges, NewGraph(w, l, version, disk))
    ensures s.files == RecordsAfter(w, old(s.files), disk, indexedAt)
    ensures s.irs == IRsAfter(w, version, old(s.files), old(s.irs), disk, Usable(l, version, old(s.irs)))
  {
    var res := ParseAndResolve(w, version, staleIR, disk, s, batch, files, l);
    Reindex(s, batch, res, deleted, w.externals, NewRecords(w, s.files, disk, indexedAt),
            NewIRs(w, version, s.files, disk, Usable(l, version, s.irs)));
  }

  /** ... and notes the release, unless the run is stopped before that. */
  method RewriteAndNote<IR(!new)>(w: World<IR>, disk: Disk, s: Store, batch: Batch, version: nat, staleIR: bool,
                                  stopped: bool, files: seq<FileData>, deleted: seq<Path>, ghost indexedAt: int,
                                  ghost l: Ledger)
    requires s.Valid() && s.IndexOk(w.externals) && staleIR == Stale(l, version)
    requires CacheRight(w, version, ByAfter(l, version, Contents(disk)), s.files, disk, Usable(l, version, s.irs))
    requires var res := NewGraph(w, l, version, disk);
      && ClosedResult(res) && SortsAll(w.externals, res.nodes)
      && NothingKeptIsPurged(s.Nodes(), s.edges, LastWins(res.nodes), EdgesByKey(res.edges), s.files.Keys - disk.Keys)
    requires Scanned(w, s.files, disk, files, disk.Keys) && PathsIn(deleted) == s.files.Keys - disk.Keys
    requires batch.Content() == EMPTY_CONTENT.(recorded := batch.recorded)
    requires ListsRecords(batch.recorded, NewRecords(w, s.files, disk, indexedAt))
    modifies s`rows, s`fts, s`edges, s`files, s`irs, s`irVersion, batch
    ensures s.Valid() && s.IndexOk(w.externals) && HoldsGraph(s.Nodes(), s.edges, NewGraph(w, l, version, disk))
    ensures s.files == RecordsAfter(w, old(s.files), disk, indexedAt)
    ensures s.irs == IRsAfter(w, version, old(s.files), old(s.irs), disk, Usable(l, version, old(s.irs)))
    ensures s.irVersion == if staleIR && !stopped then w.versionText(version) else old(s.irVersion)
  {
    Rewrite(w, disk, s, batch, version, staleIR, files, deleted, indexedAt, l);
    if staleIR && !stopped {
      s.irVersion := w.versionText(version);
    }
  }

  /** A run that re-indexes, and then notes the release unless it is stopped before that. */
  method Rebuild<IR(!new)>(w: World<IR>, disk: Disk, s: Store, batch: Batch, version: nat, staleIR: bool,
                           stopped: bool, files: seq<FileData>, deleted: seq<Path>, ghost nowNs: int,
                           ghost indexedAt: int, ghost l: Ledger)
    requires Sound(w) && Mirrors(w, l, s) && StatsTrusted(w, s.files, disk, nowNs)
    requires staleIR == Stale(l, version) && Changes(l, version, Contents(disk))
    requires indexedAt * SECOND <= nowNs && "" !in disk
    requires Scanned(w, s.files, disk, files, disk.Keys) && PathsIn(deleted) == s.files.Keys - disk.Keys
    requires batch.Content() == EMPTY_CONTENT.(recorded := batch.recorded)
    requires ListsRecords(batch.recorded, NewRecords(w, s.files, disk, indexedAt))
    modifies s`rows, s`fts, s`edges, s`files, s`irs, s`irVersion, batch
    ensures Mirrors(w, Ran(l, version, Contents(disk), stopped), s)
    ensures StatsTrusted(w, s.files, disk, nowNs)
  {
    RebuildReady(w, l, version, disk, s.Nodes(), s.edges, s.files, s.irs, s.irVersion, nowNs);
    RewriteAndNote(w, disk, s, batch, version, staleIR, stopped, files, deleted, indexedAt, l);
    RebuiltFits(w, l, version, disk, stopped, old(s.Nodes()), old(s.edges), old(s.files), old(s.irs), old(s.irVersion),
                nowNs, indexedAt, s.Nodes(), s.edges, s.irVersion);
  }

  /** The first half of a run: look at every file and queue the new records. */
  method Inspect<IR(!new)>(w: World<IR>, disk: Disk, s: Store, staleIR: bool, nowNs: int, ghost l: Ledger)
    returns (files: seq<FileData>, deleted: seq<Path>, batch: Batch, ghost indexedAt: int, changed: bool)
    requires Sound(w) && Caches(w, l.parsedBy, l.known, s.files, s.irs) && StatsTrusted(w, s.files, disk, nowNs)
    ensures fresh(batch) && batch.Content() == EMPTY_CONTENT.(recorded := batch.recorded)
    ensures indexedAt * SECOND <= nowNs
    ensures ListsRecords(batch.recorded, NewRecords(w, s.files, disk, indexedAt))
    ensures Scanned(w, s.files, disk, files, disk.Keys) && PathsIn(deleted) == s.files.Keys - disk.Keys
    ensures changed <==> l.known != Contents(disk) || (staleIR && disk != map[])
  {
    var seen;
    files, seen := Scan(w, s.files, disk);
    var someDirty := SomeDirty(files);
    deleted := MissingFiles(s.files, seen);
    changed := (staleIR && |files| > 0) || someDirty || |deleted| > 0;
    batch := new Batch();
    var now := UnixSeconds(nowNs);
    indexedAt := now;
    QueueRecords(w, s.files, disk, files, batch, now);
    ScanDecides(w, l, s.files, s.irs, disk, nowNs, files, deleted);
  }

  /** The recorded text tells whether the release on record is the one that runs. */
  lemma StaleTells<IR(!new)>(w: World<IR>, l: Ledger, v: nat)
    requires Sound(w)
    ensures Recorded(w, l.recorded) != w.versionText(v) <==> Stale(l, v)
  {
  }

  lemma NoFiles(disk: Disk)
    ensures disk == map[] <==> Contents(disk) == map[]
  {
    assert disk.Keys == Contents(disk).Keys;
  }

  /** One run of the indexer over its source files, whatever release built what is in the
      store. */
  method IndexFiles<IR(!new)>(w: World<IR>, disk: Disk, s: Store, version: nat, nowNs: int, stopped: bool,
                              ghost l: Ledger)
    returns (changed: bool)
    requires Sound(w) && "" !in disk
    requires Mirrors(w, l, s) && StatsTrusted(w, s.files, disk, nowNs)
    modifies s`rows, s`fts, s`edges, s`files, s`irs, s`irVersion
    ensures Mirrors(w, Ran(l, version, Contents(disk), stopped), s)
    ensures StatsTrusted(w, s.files, disk, nowNs)
    ensures changed <==> Changes(l, version, Contents(disk))
    ensures !changed ==> s.Nodes() == old(s.Nodes()) && s.edges == old(s.edges)
  {
    var staleIR := s.irVersion != w.versionText(version);
    StaleTells(w, l, version);
    NoFiles(disk);
    var files, deleted, batch;
    ghost var indexedAt;
    files, deleted, batch, indexedAt, changed := Inspect(w, disk, s, staleIR, nowNs, l);
    if !changed {
      KeepIndex(w, disk, s, batch, nowNs, indexedAt, l);
    } else {
      Rebuild(w, disk, s, batch, version, staleIR, stopped, files, deleted, nowNs, indexedAt, l);
    }
  }

  /** Trust in the stats of the files on record is all there is to ask. */
  lemma OthersNotRecorded<IR>(w: World<IR>, files: map<Path, FileRecord>, mine: Disk, disk: Disk, nowNs: int)
    requires StatsTrusted(w, files, mine, nowNs) && files.Keys <= mine.Keys
    requires forall p :: p in mine ==> p in disk && disk[p] == mine[p]
    ensures StatsTrusted(w, files, disk, nowNs)
  {
  }

  /** One run of the indexer against the disk as it is at `nowNs`.  The crawler hands over the
      files that a plugin of the running release claims. */
  method EnsureFresh<IR(!new)>(w: World<IR>, disk: Disk, s: Store, version: nat, nowNs: int, stopped: bool,
                               ghost l: Ledger)
    returns (changed: bool)
    requires Sound(w) && "" !in disk
    requires Mirrors(w, l, s) && StatsTrusted(w, s.files, disk, nowNs)
    modifies s`rows, s`fts, s`edges, s`files, s`irs, s`irVersion
    ensures Mirrors(w, Ran(l, version, Contents(Claimed(w.claims, version, disk)), stopped), s)
    ensures StatsTrusted(w, s.files, disk, nowNs)
    ensures changed <==> Changes(l, version, Contents(Claimed(w.claims, version, disk)))
    ensures !changed ==> s.Nodes() == old(s.Nodes()) && s.edges == old(s.edges)
  {
    var mine := Crawl(w.claims, version, disk);
    changed := IndexFiles(w, mine, s, version, nowNs, stopped, l);
    assert s.files.Keys == Contents(mine).Keys;
    OthersNotRecorded(w, s.files, mine, disk, nowNs);
  }

  method Crawl(claims: (nat, Path) -> bool, v: nat, disk: Disk) returns (mine: Disk)
    ensures mine == Claimed(claims, v, disk)
  {
    mine := map[];
    var todo := disk.Keys;
    while todo != {}
      invariant todo <= disk.Keys
      invariant forall p :: p in mine <==> p in disk && p !in todo && claims(v, p)
      invariant forall p :: p in mine ==> mine[p] == disk[p]
      decreases todo
    {
      var p :| p in todo;
      todo := todo - {p};
      if claims(v, p) {
        mine := mine[p := disk[p]];
      }
    }
  }

  method UnixSeconds(nowNs: int) returns (seconds: int)
    ensures seconds * SECOND <= nowNs < (seconds + 1) * SECOND
  {
    seconds := nowNs / SECOND;
  }
}
