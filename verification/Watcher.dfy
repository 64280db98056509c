/** Counting and sorting out file-system events. */
module Watcher {
  import opened CodeGraph
  import opened Text
  import opened Debouncer

  datatype FsEvent = FsEvent(name: string, create: bool, write: bool, remove: bool, rename: bool, chmod: bool)

  /** What the file system and the path functions say about an event's path: the path relative
      to the repository if there is one, its last element, and what is there now. */
  datatype Look = Look(relative: Option<string>, base: string, exists': bool, isDir: bool)

  datatype Filter = Filter(ignoresDir: string -> bool, accepts: string -> bool)

  /** Some stretch of the path between two slashes or its ends is the name of an ignored
      directory. */
  ghost predicate Ignored(f: Filter, relPath: string) {
    exists i: nat, j: nat :: IsPiece(relPath, '/', i, j) && f.ignoresDir(relPath[i..j])
  }

  lemma IgnoredPieces(f: Filter, relPath: string)
    ensures Ignored(f, relPath) <==> exists seg :: seg in Split(relPath, '/') && f.ignoresDir(seg)
  {
    if i: nat, j: nat :| IsPiece(relPath, '/', i, j) && f.ignoresDir(relPath[i..j]) {
      PieceIn(relPath, '/', i, j);
    }
    if seg :| seg in Split(relPath, '/') && f.ignoresDir(seg) {
      var i, j := PieceAt(relPath, '/', seg);
    }
  }

  /** Every named event outside ignored directories counts, whatever it is about. */
  ghost predicate Counts(f: Filter, e: FsEvent, look: Look) {
    e.name != "" && !(look.relative.Some? && Ignored(f, look.relative.value))
  }

  function DetermineOp(e: FsEvent, exists': bool): Option<Op> {
    if e.remove then Some(OpDelete)
    else if e.rename then Some(if exists' then OpModify else OpDelete)
    else if e.create then Some(OpCreate)
    else if e.write || e.chmod then Some(OpModify)
    else None
  }

  /** The change an event is recorded as, if it is about a source file. */
  ghost function ChangeOf(f: Filter, e: FsEvent, look: Look): Option<FileChange> {
    if e.name == "" || look.isDir || look.relative.None? then None
    else
      var rel := look.relative.value;
      if HasPrefix(rel, "..") || rel == "." || Ignored(f, rel) || !f.accepts(e.name) then None
      else
        match DetermineOp(e, look.exists')
        case None => None
        case Some(op) => Some(FileChange(e.name, rel, op))
  }

  /** Which events are recorded, and as what, flag by flag. */
  lemma ChangeMeans(f: Filter, e: FsEvent, look: Look)
    ensures ChangeOf(f, e, look).Some? <==>
              && e.name != "" && !look.isDir && look.relative.Some?
              && var rel := look.relative.value;
              && rel != "." && !(exists t :: rel == ".." + t) && !Ignored(f, rel) && f.accepts(e.name)
              && (e.create || e.write || e.remove || e.rename || e.chmod)
    ensures ChangeOf(f, e, look).Some? ==>
              var c := ChangeOf(f, e, look).value;
              && c.path == e.name && Some(c.relPath) == look.relative
              && (c.op.OpDelete? <==> e.remove || (e.rename && !look.exists'))
              && (c.op.OpCreate? <==> e.create && !e.remove && !e.rename)
  {
    if look.relative.Some? {
      PrefixMeans(look.relative.value, "..");
    }
  }

  /** Nothing reaches a batch without having moved the sequence. */
  lemma RecordedIsCounted(f: Filter, e: FsEvent, look: Look)
    requires ChangeOf(f, e, look).Some?
    ensures Counts(f, e, look)
  {
  }

  class Watcher {
    var seq': nat
    var degraded: bool
    const filter: Filter
    const debouncer: Debouncer

    constructor (filter: Filter)
      ensures fresh(debouncer) && debouncer.Valid() && seq' == 0 && !degraded && this.filter == filter
    {
      this.filter, seq', degraded := filter, 0, false;
      debouncer := new Debouncer();
    }

    /** `missed` says that a new directory could not be watched. */
    method ProcessEvent(e: FsEvent, look: Look, missed: bool)
      requires debouncer.Valid()
      modifies this, debouncer
      ensures debouncer.Valid() && debouncer.stopped == old(debouncer.stopped)
      ensures seq' == old(seq') + (if Counts(filter, e, look) then 1 else 0)
      ensures degraded <==> old(degraded)
                            || (missed && e.name != "" && look.isDir && e.create && !filter.ignoresDir(look.base))
      ensures ChangeOf(filter, e, look).Some? && !debouncer.stopped ==>
                debouncer.since == old(debouncer.since) + [ChangeOf(filter, e, look).value]
      ensures ChangeOf(filter, e, look).None? || debouncer.stopped ==>
                debouncer.since == old(debouncer.since) && debouncer.pending == old(debouncer.pending)
    {
      if e.name == "" {
        return;
      }
      var ignored := false;
      if look.relative.Some? {
        ignored := InIgnoredDir(look.relative.value);
      }
      if !ignored {
        seq' := seq' + 1;
      }
      if look.isDir {
        if e.create && !filter.ignoresDir(look.base) && missed {
          degraded := true;
        }
        return;
      }
      if look.relative.None? || HasPrefix(look.relative.value, "..") || look.relative.value == "." || ignored
         || !filter.accepts(e.name)
      {
        return;
      }
      RecordChange(e.name, look.relative.value, DetermineOp(e, look.exists'));
    }

    method RecordChange(absPath: string, relPath: string, op: Option<Op>)
      requires debouncer.Valid()
      modifies debouncer
      ensures debouncer.Valid() && debouncer.stopped == old(debouncer.stopped)
      ensures op.Some? && !debouncer.stopped ==>
                debouncer.since == old(debouncer.since) + [FileChange(absPath, relPath, op.value)]
      ensures op.None? || debouncer.stopped ==>
                debouncer.since == old(debouncer.since) && debouncer.pending == old(debouncer.pending)
    {
      if op.Some? {
        debouncer.Record(FileChange(absPath, relPath, op.value));
      }
    }

    method InIgnoredDir(relPath: string) returns (ignored: bool)
      ensures ignored <==> Ignored(filter, relPath)
    {
      IgnoredPieces(filter, relPath);
      var segs := Split(relPath, '/');
      for i := 0 to |segs|
        invariant forall k :: 0 <= k < i ==> !filter.ignoresDir(segs[k])
      {
        if filter.ignoresDir(segs[i]) {
          return true;
        }
      }
      ignored := false;
    }
  }
}
