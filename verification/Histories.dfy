/** Whole histories of edits and indexing runs, by releases in any order, finished or not. */
module Histories {
  import opened CodeGraph
  import opened Text
  import opened GraphStore
  import opened GraphDiff
  import opened Freshness

  /** What can happen: a file is written or removed, or the indexer runs. */
  datatype Step =
    | Write(path: Path, content: Bytes, mtimeNs: int, atNs: int)
    | Remove(path: Path, atNs: int)
    | Index(version: nat, atNs: int, stopped: bool)

  function Applied(disk: Disk, step: Step): Disk {
    match step
    case Write(p, c, m, _) => disk[p := DiskFile(c, m)]
    case Remove(p, _) => disk - {p}
    case Index(_, _, _) => disk
  }

  function DiskAfter(steps: seq<Step>): Disk {
    if steps == [] then map[] else Applied(DiskAfter(steps[..|steps| - 1]), steps[|steps| - 1])
  }

  function TimeOf(steps: seq<Step>): int {
    if steps == [] then 0 else steps[|steps| - 1].atNs
  }

  /** A write stamps its file no earlier than the second it happens in. */
  ghost predicate StampedInTime(step: Step)
    requires step.Write?
  {
    step.path != "" && exists second: int :: second * SECOND <= step.mtimeNs && step.atNs < (second + 1) * SECOND
  }

  /** Time does not run backwards, and writes are stamped. */
  ghost predicate Possible(steps: seq<Step>) {
    steps == [] ||
    var init, last := steps[..|steps| - 1], steps[|steps| - 1];
    Possible(init) && TimeOf(init) <= last.atNs && (last.Write? ==> StampedInTime(last))
  }

  /** Which paths are source files, by release. */
  type Claims = (nat, Path) -> bool

  /** The source files' contents as release `v` sees them. */
  function Sources(claims: Claims, v: nat, disk: Disk): map<Path, Bytes> {
    Contents(Claimed(claims, v, disk))
  }

  /** What a history leaves in the store. */
  function LedgerOf(claims: Claims, steps: seq<Step>): Ledger {
    if steps == [] then NEW_STORE
    else
      var init, last := steps[..|steps| - 1], steps[|steps| - 1];
      if last.Index? then
        Ran(LedgerOf(claims, init), last.version, Sources(claims, last.version, DiskAfter(init)), last.stopped)
      else LedgerOf(claims, init)
  }

  lemma WriteKeepsTrust<IR(!new)>(w: World<IR>, files: map<Path, FileRecord>, disk: Disk, nowNs: int, step: Step)
    requires StatsTrusted(w, files, disk, nowNs) && nowNs <= step.atNs
    requires step.Write? && StampedInTime(step)
    ensures StatsTrusted(w, files, Applied(disk, step), step.atNs)
  {
    var second: int :| second * SECOND <= step.mtimeNs && step.atNs < (second + 1) * SECOND;
    if step.path in files {
      assert files[step.path].indexedAt < second + 1;
    }
  }

  lemma RemoveKeepsTrust<IR(!new)>(w: World<IR>, files: map<Path, FileRecord>, disk: Disk, nowNs: int, p: Path,
                                   atNs: int)
    requires StatsTrusted(w, files, disk, nowNs) && nowNs <= atNs
    ensures StatsTrusted(w, files, disk - {p}, atNs)
  {
  }

  lemma {:induction false} NoEmptyPath(steps: seq<Step>)
    requires Possible(steps)
    ensures "" !in DiskAfter(steps)
  {
    if steps != [] {
      NoEmptyPath(steps[..|steps| - 1]);
    }
  }

  // ---------------------------------------------------------------------------------
  // When the store holds what a full index would make

  /** Everything in the store that counts was made by release `v`. */
  predicate Uniform(l: Ledger, v: nat) {
    l.known == map[] || (l.resolver == v && forall p :: p in l.parsedBy ==> l.parsedBy[p] == v)
  }

  /** The run takes the store for its own release's although another made part of it, and
      something of that part is still good for the files on disk. */
  predicate Misled(l: Ledger, v: nat, contents: map<Path, Bytes>) {
    && !Stale(l, v)
    && if l.known == contents then !Uniform(l, v)
       else exists p :: p in contents && p in l.known && l.known[p] == contents[p]
                        && p in l.parsedBy && l.parsedBy[p] != v
  }

  lemma RanUniformExactly(l: Ledger, v: nat, contents: map<Path, Bytes>, stopped: bool)
    requires l.parsedBy.Keys == l.known.Keys
    ensures Uniform(Ran(l, v, contents, stopped), v) <==> !Misled(l, v, contents)
  {
    var after := Ran(l, v, contents, stopped);
    if Changes(l, v, contents) && !Stale(l, v) {
      if p :| p in contents && p in l.known && l.known[p] == contents[p] && l.parsedBy[p] != v {
        assert after.parsedBy[p] != v;
      }
      if Misled(l, v, contents) {
        assert contents != map[];
      }
    }
  }

  lemma UniformIsScratch<IR(!new)>(w: World<IR>, l: Ledger, v: nat)
    requires Sound(w) && l.parsedBy.Keys == l.known.Keys && Uniform(l, v)
    ensures Made(w, l) == Scratch(w, v, l.known)
  {
    if l.known == map[] {
      assert ParsesBy(w, l.parsedBy, l.known) == map[] && Parses(w, v, l.known) == map[];
    } else {
      assert ParsesBy(w, l.parsedBy, l.known) == Parses(w, v, l.known);
    }
  }

  lemma {:induction false} LedgerKeys(claims: Claims, steps: seq<Step>)
    ensures LedgerOf(claims, steps).parsedBy.Keys == LedgerOf(claims, steps).known.Keys
  {
    if steps != [] {
      LedgerKeys(claims, steps[..|steps| - 1]);
    }
  }

  /** After a run, the contents on record are those on disk. */
  lemma RunKnowsDisk(claims: Claims, steps: seq<Step>)
    requires EndsInRun(steps)
    ensures LedgerOf(claims, steps).known == RunSaw(claims, steps)
  {
  }

  predicate EndsInRun(steps: seq<Step>) {
    steps != [] && steps[|steps| - 1].Index?
  }

  /** The release of the last run. */
  function RunBy(steps: seq<Step>): nat
    requires EndsInRun(steps)
  {
    steps[|steps| - 1].version
  }

  /** The source files' contents that it found. */
  function RunSaw(claims: Claims, steps: seq<Step>): map<Path, Bytes>
    requires EndsInRun(steps)
  {
    Sources(claims, RunBy(steps), DiskAfter(steps))
  }

  /** The last run was misled by what was in the store before it. */
  predicate EndsMisled(claims: Claims, steps: seq<Step>)
    requires EndsInRun(steps)
  {
    Misled(LedgerOf(claims, steps[..|steps| - 1]), RunBy(steps), RunSaw(claims, steps))
  }

  lemma UnmisledIsScratch<IR(!new)>(w: World<IR>, steps: seq<Step>)
    requires Sound(w) && EndsInRun(steps) && !EndsMisled(w.claims, steps)
    ensures Made(w, LedgerOf(w.claims, steps)) == Scratch(w, RunBy(steps), RunSaw(w.claims, steps))
  {
    var init, last := steps[..|steps| - 1], steps[|steps| - 1];
    LedgerKeys(w.claims, init);
    LedgerKeys(w.claims, steps);
    RanUniformExactly(LedgerOf(w.claims, init), last.version, RunSaw(w.claims, steps), last.stopped);
    RunKnowsDisk(w.claims, steps);
    UniformIsScratch(w, LedgerOf(w.claims, steps), last.version);
  }

  lemma EditKeepsTrust<IR(!new)>(w: World<IR>, files: map<Path, FileRecord>, disk: Disk, nowNs: int, step: Step)
    requires StatsTrusted(w, files, disk, nowNs) && nowNs <= step.atNs
    requires step.Write? ==> StampedInTime(step)
    ensures StatsTrusted(w, files, Applied(disk, step), step.atNs)
  {
    match step
    case Write(p, c, m, at) => WriteKeepsTrust(w, files, disk, nowNs, step);
    case Remove(p, at) => RemoveKeepsTrust(w, files, disk, nowNs, p, at);
    case Index(_, _, _) =>
  }

  /** One step of a history. */
  method Take<IR(!new)>(w: World<IR>, disk0: Disk, s: Store, step: Step, ghost before: int, ghost l: Ledger)
    returns (disk: Disk)
    requires Sound(w) && "" !in disk0 && before <= step.atNs
    requires step.Write? ==> StampedInTime(step)
    requires Mirrors(w, l, s) && StatsTrusted(w, s.files, disk0, before)
    modifies s`rows, s`fts, s`edges, s`files, s`irs, s`irVersion
    ensures disk == Applied(disk0, step) && StatsTrusted(w, s.files, disk, step.atNs)
    ensures Mirrors(w, if step.Index? then Ran(l, step.version, Sources(w.claims, step.version, disk0), step.stopped)
                       else l, s)
  {
    disk := Applied(disk0, step);
    EditKeepsTrust(w, s.files, disk0, before, step);
    if step.Index? {
      var changed := EnsureFresh(w, disk, s, step.version, step.atNs, step.stopped, l);
    }
  }

  /** Over every history of edits and runs, by releases in any order and interrupted or not,
      the store holds what the ledger of the history says; and after a run that was not misled
      that is the graph a from-scratch index of the disk would build, with its text index. */
  method RunHistory<IR(!new)>(w: World<IR>, s: Store, steps: seq<Step>) returns (disk: Disk)
    requires Sound(w) && Possible(steps)
    requires s.Valid() && s.IndexOk(w.externals) && s.irVersion == ""
    requires s.Nodes() == map[] && s.edges == map[] && s.files == map[] && s.irs == map[]
    modifies s`rows, s`fts, s`edges, s`files, s`irs, s`irVersion
    ensures disk == DiskAfter(steps)
    ensures Mirrors(w, LedgerOf(w.claims, steps), s) && StatsTrusted(w, s.files, disk, TimeOf(steps))
    ensures EndsInRun(steps) && !EndsMisled(w.claims, steps) ==>
              HoldsGraph(s.Nodes(), s.edges, Scratch(w, RunBy(steps), RunSaw(w.claims, steps)))
  {
    if steps == [] {
      disk := map[];
      NewStoreMirrors(w, s);
    } else {
      var init, last := steps[..|steps| - 1], steps[|steps| - 1];
      disk := RunHistory(w, s, init);
      NoEmptyPath(init);
      disk := Take(w, disk, s, last, TimeOf(init), LedgerOf(w.claims, init));
      if EndsInRun(steps) && !EndsMisled(w.claims, steps) {
        UnmisledIsScratch(w, steps);
      }
    }
  }

  lemma NewStoreMirrors<IR(!new)>(w: World<IR>, s: Store)
    requires Sound(w) && s.Valid() && s.IndexOk(w.externals) && s.irVersion == ""
    requires s.Nodes() == map[] && s.edges == map[] && s.files == map[] && s.irs == map[]
    ensures Mirrors(w, NEW_STORE, s)
  {
    assert ParsesBy(w, map[], map[]) == map[];
  }

  // ---------------------------------------------------------------------------------
  // Histories without a misled run

  /** The latest release that has run. */
  function ReleaseOf(steps: seq<Step>): nat {
    if steps == [] then 0
    else if EndsInRun(steps) then RunBy(steps)
    else ReleaseOf(steps[..|steps| - 1])
  }

  /** Releases are never rolled back. */
  predicate Ascending(steps: seq<Step>) {
    steps == [] ||
    var init := steps[..|steps| - 1];
    Ascending(init) && (EndsInRun(steps) ==> ReleaseOf(init) <= RunBy(steps))
  }

  /** Every part of the store was made by a release between the recorded one and `top`. */
  predicate Between(l: Ledger, top: nat) {
    var low := if l.recorded.Some? then l.recorded.value else 0;
    && low <= top
    && (l.known != map[] ==> low <= l.resolver <= top)
    && (forall p :: p in l.parsedBy ==> low <= l.parsedBy[p] <= top)
  }

  lemma {:induction false} AscendingBetween(claims: Claims, steps: seq<Step>)
    requires Ascending(steps)
    ensures Between(LedgerOf(claims, steps), ReleaseOf(steps))
  {
    if steps != [] {
      AscendingBetween(claims, steps[..|steps| - 1]);
    }
  }

  /** Interrupted or not, a history in which releases are never rolled back misleads no run. */
  lemma AscendingNeverMisled(claims: Claims, steps: seq<Step>)
    requires Ascending(steps) && EndsInRun(steps)
    ensures !EndsMisled(claims, steps)
  {
    AscendingBetween(claims, steps[..|steps| - 1]);
    LedgerKeys(claims, steps[..|steps| - 1]);
  }

  predicate Completed(steps: seq<Step>) {
    forall i :: 0 <= i < |steps| && steps[i].Index? ==> !steps[i].stopped
  }

  lemma {:induction false} CompletedUniform(claims: Claims, steps: seq<Step>)
    requires Completed(steps)
    ensures var l := LedgerOf(claims, steps);
      if l.recorded.Some? then Uniform(l, l.recorded.value) else l.known == map[]
  {
    if steps != [] {
      var init := steps[..|steps| - 1];
      assert steps[|steps| - 1].Index? ==> !steps[|steps| - 1].stopped;
      CompletedUniform(claims, init);
      LedgerKeys(claims, init);
    }
  }

  /** Rolled back or not, a history in which every earlier run was completed misleads none. */
  lemma CompletedNeverMisled(claims: Claims, steps: seq<Step>)
    requires EndsInRun(steps) && Completed(steps[..|steps| - 1])
    ensures !EndsMisled(claims, steps)
  {
    CompletedUniform(claims, steps[..|steps| - 1]);
    LedgerKeys(claims, steps[..|steps| - 1]);
  }

  // ---------------------------------------------------------------------------------
  // A world in which every misled run shows

  datatype Parsed = Parsed(release: nat, content: Bytes)

  function HashText(content: Bytes): Hash {
    if content == [] then "." else DecimalInt(content[0]) + [','] + HashText(content[1..])
  }

  lemma {:induction false} HashTextInjective(a: Bytes, b: Bytes)
    requires HashText(a) == HashText(b)
    ensures a == b
  {
    if a != [] && b != [] {
      HashCut(a);
      HashCut(b);
      DecimalIntInjective(a[0], b[0]);
      HashTextInjective(a[1..], b[1..]);
      assert a == [a[0]] + a[1..] && b == [b[0]] + b[1..];
    } else if a != [] {
      HashHead(a);
    } else if b != [] {
      HashHead(b);
    }
  }

  lemma HashHead(a: Bytes)
    requires a != []
    ensures HashText(a) != "." && HashText(a)[0] != '.'
  {
    SignShows(a[0]);
    assert HashText(a)[0] == DecimalInt(a[0])[0];
    assert DecimalInt(a[0])[0] in DecimalInt(a[0]);
  }

  lemma HashCut(a: Bytes)
    requires a != []
    ensures Cut(HashText(a), ',') == Some((DecimalInt(a[0]), HashText(a[1..])))
  {
    SignShows(a[0]);
    CutAt(DecimalInt(a[0]), ',', HashText(a[1..]));
  }

  function Unpack(data: seq<int>): Option<Parsed> {
    if data == [] || data[0] < 0 then None else Some(Parsed(data[0], data[1..]))
  }

  /** One node that names the release of the resolver, if it made all the parses as well. */
  function Told(v: nat, parsed: map<Path, Parsed>): Resolution {
    if parsed == map[] then Resolution([], []) else Resolution([Teller(Tells(v, parsed))], [])
  }

  function Tells(v: nat, parsed: map<Path, Parsed>): Id {
    if forall p :: p in parsed ==> parsed[p].release == v then Decimal(v) else "mixed"
  }

  function Teller(id: Id): Node {
    Node(id, KindExternal, "", "", "", 0, 0, 0, 0, "", "", "", false, false, EntryNone, VisExported)
  }

  /** All IDs are external. */
  ghost const ALL_IDS: iset<Id> := iset id: Id | true

  ghost function Telling(claims: Claims): World<Parsed> {
    World(
      claims, HashText, (v, p, content) => Parsed(v, content), (ir: Parsed) => [ir.release] + ir.content, Unpack, Told,
      Decimal, id => "", ALL_IDS)
  }

  lemma TellingCodes(claims: Claims)
    ensures forall a, b :: Telling(claims).hash(a) == Telling(claims).hash(b) ==> a == b
    ensures forall ir :: Telling(claims).decode(Telling(claims).encode(ir)) == Some(ir)
    ensures forall u, v :: Telling(claims).versionText(u) == Telling(claims).versionText(v) ==> u == v
  {
    forall a, b | Telling(claims).hash(a) == Telling(claims).hash(b) ensures a == b {
      HashTextInjective(a, b);
    }
    forall ir ensures Telling(claims).decode(Telling(claims).encode(ir)) == Some(ir) {
      assert ([ir.release] + ir.content)[1..] == ir.content;
    }
    forall u: nat, v: nat | Telling(claims).versionText(u) == Telling(claims).versionText(v) ensures u == v {
      DecimalReads(u);
      DecimalReads(v);
    }
  }

  lemma TellingResolves(claims: Claims)
    ensures forall v :: Telling(claims).resolve(v, map[]) == Resolution([], [])
    ensures forall v, m :: ClosedResult(Telling(claims).resolve(v, m))
                           && OwnedBy(Telling(claims), m, Telling(claims).resolve(v, m))
    ensures forall v, m :: SortsAll(Telling(claims).externals, Telling(claims).resolve(v, m).nodes)
  {
  }

  lemma TellingTexts(claims: Claims)
    ensures forall a :: Telling(claims).hash(a) != ""
    ensures forall v :: Telling(claims).versionText(v) != ""
  {
    forall a: Bytes ensures Telling(claims).hash(a) != "" {
      if a != [] {
        HashHead(a);
      }
    }
  }

  lemma TellingSound(claims: Claims)
    ensures Sound(Telling(claims))
  {
    TellingTexts(claims);
    TellingResolves(claims);
    TellingCodes(claims);
  }

  /** The same tables. */
  ghost predicate SameTables(a: Resolution, b: Resolution) {
    LastWins(a.nodes) == LastWins(b.nodes) && EdgesByKey(a.edges) == EdgesByKey(b.edges)
  }

  lemma OneTold(v: nat, parsed: map<Path, Parsed>)
    requires parsed != map[]
    ensures LastWins(Told(v, parsed).nodes) == map[Tells(v, parsed) := Teller(Tells(v, parsed))]
  {
    var id := Tells(v, parsed);
    assert [Teller(id)][..0] == [];
  }

  /** Parses that are not all of release `v`, or another resolver, tell another story than
      release `v` alone. */
  lemma TellsApart(u: nat, mixed: map<Path, Parsed>, v: nat, pure: map<Path, Parsed>)
    requires mixed != map[] && forall p :: p in pure ==> pure[p].release == v
    requires u != v || exists p :: p in mixed && mixed[p].release != v
    ensures Tells(u, mixed) != Tells(v, pure)
  {
    DecimalReads(u);
    DecimalReads(v);
    assert "mixed"[0] == 'm' && Decimal(v)[0] in Decimal(v);
  }

  lemma MixedTells(claims: Claims, l: Ledger, v: nat)
    requires l.parsedBy.Keys == l.known.Keys && !Uniform(l, v)
    ensures !SameTables(Made(Telling(claims), l), Scratch(Telling(claims), v, l.known))
  {
    var some :| some in l.known;
    var made, wanted := ParsesBy(Telling(claims), l.parsedBy, l.known), Parses(Telling(claims), v, l.known);
    assert some in made && some in wanted;
    if l.resolver == v {
      var p :| p in l.parsedBy && l.parsedBy[p] != v;
      assert p in made && made[p].release != v;
    }
    TellsApart(l.resolver, made, v, wanted);
    OneTold(l.resolver, made);
    OneTold(v, wanted);
    assert Tells(v, wanted) in LastWins(Told(v, wanted).nodes);
  }

  /** After a run the store holds the graph of a from-scratch index, whatever the parsers and
      the resolver are, if and only if the run was not misled. */
  lemma RightExactly(claims: Claims, steps: seq<Step>)
    requires EndsInRun(steps)
    ensures !EndsMisled(claims, steps) <==>
              forall w: World<Parsed> :: Sound(w) && w.claims == claims ==>
                SameTables(Made(w, LedgerOf(claims, steps)), Scratch(w, RunBy(steps), RunSaw(claims, steps)))
  {
    var init, last := steps[..|steps| - 1], steps[|steps| - 1];
    if EndsMisled(claims, steps) {
      LedgerKeys(claims, init);
      LedgerKeys(claims, steps);
      RanUniformExactly(LedgerOf(claims, init), last.version, RunSaw(claims, steps), last.stopped);
      RunKnowsDisk(claims, steps);
      TellingSound(claims);
      MixedTells(claims, LedgerOf(claims, steps), last.version);
    } else {
      forall w: World<Parsed> | Sound(w) && w.claims == claims
        ensures SameTables(Made(w, LedgerOf(claims, steps)), Scratch(w, RunBy(steps), RunSaw(claims, steps)))
      {
        UnmisledIsScratch(w, steps);
      }
    }
  }

  lemma OneMore(claims: Claims, init: seq<Step>, step: Step)
    ensures DiskAfter(init + [step]) == Applied(DiskAfter(init), step) && TimeOf(init + [step]) == step.atNs
    ensures LedgerOf(claims, init + [step])
         == if step.Index? then
              Ran(LedgerOf(claims, init), step.version, Sources(claims, step.version, DiskAfter(init)), step.stopped)
            else LedgerOf(claims, init)
    ensures Possible(init + [step]) <==>
              Possible(init) && TimeOf(init) <= step.atNs && (step.Write? ==> StampedInTime(step))
  {
    assert (init + [step])[..|init|] == init;
  }

  const FIRST: Step := Write("a", [], 0, 0)
  const ONE_FILE: map<Path, Bytes> := map["a" := []]

  lemma FirstPossible(claims: Claims)
    ensures Possible([FIRST]) && TimeOf([FIRST]) == 0 && LedgerOf(claims, [FIRST]) == NEW_STORE
    ensures forall v :: claims(v, "a") ==> Sources(claims, v, DiskAfter([FIRST])) == ONE_FILE
  {
    OneMore(claims, [], FIRST);
    assert 0 * SECOND <= FIRST.mtimeNs && FIRST.atNs < (0 + 1) * SECOND;
    assert [] + [FIRST] == [FIRST];
  }

  /** One file, an old release that indexes it, and a newer one that is interrupted. */
  lemma Interrupted(claims: Claims) returns (steps: seq<Step>)
    requires claims(0, "a") && claims(1, "a")
    ensures steps == [FIRST, Index(0, SECOND, false), Index(1, SECOND, true)]
    ensures Possible(steps) && TimeOf(steps) == SECOND && DiskAfter(steps) == DiskAfter([FIRST])
    ensures LedgerOf(claims, steps) == Ledger(Some(0), 1, ONE_FILE, map["a" := 1])
  {
    FirstPossible(claims);
    var two := [FIRST] + [Index(0, SECOND, false)];
    OneMore(claims, [FIRST], Index(0, SECOND, false));
    assert ByAfter(NEW_STORE, 0, ONE_FILE) == map["a" := 0];
    OneMore(claims, two, Index(1, SECOND, true));
    assert ByAfter(LedgerOf(claims, two), 1, ONE_FILE) == map["a" := 1];
    steps := two + [Index(1, SECOND, true)];
  }

  /** The condition is needed: run again, the old release takes the newer graph for its own. */
  lemma RollbackMisleads(claims: Claims) returns (steps: seq<Step>)
    requires claims(0, "a") && claims(1, "a")
    ensures steps == [FIRST, Index(0, SECOND, false), Index(1, SECOND, true), Index(0, SECOND, false)]
    ensures Possible(steps) && EndsInRun(steps) && EndsMisled(claims, steps) && Sound(Telling(claims))
    ensures !SameTables(Made(Telling(claims), LedgerOf(claims, steps)),
                        Scratch(Telling(claims), 0, RunSaw(claims, steps)))
  {
    var init := Interrupted(claims);
    steps := init + [Index(0, SECOND, false)];
    OneMore(claims, init, Index(0, SECOND, false));
    FirstPossible(claims);
    assert steps[..|steps| - 1] == init;
    assert !Uniform(LedgerOf(claims, init), 0) by { assert "a" in ONE_FILE; }
    MixedTells(claims, LedgerOf(claims, steps), 0);
    TellingSound(claims);
  }
}
