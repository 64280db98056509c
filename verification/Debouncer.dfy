/** Coalescing file events into batches. */
module Debouncer {
  import opened Orders
  import opened CodeGraph

  datatype Op = OpCreate | OpModify | OpDelete

  datatype FileChange = FileChange(path: string, relPath: string, op: Op)

  /** What one pending operation and the next event make together; none if they cancel. */
  function Coalesce(existing: Option<Op>, incoming: Op): Option<Op> {
    match existing
    case None => Some(incoming)
    case Some(OpCreate) => if incoming.OpDelete? then None else Some(OpCreate)
    case Some(OpModify) => if incoming.OpDelete? then Some(OpDelete) else Some(OpModify)
    case Some(OpDelete) => if incoming.OpCreate? then Some(OpModify) else Some(OpDelete)
  }

  // ---------------------------------------------------------------------------------
  // Histories of one file

  /** Whether the file exists after one operation, if that operation was possible. */
  function Effect(exists': bool, op: Op): Option<bool> {
    match op
    case OpCreate => if exists' then None else Some(true)
    case OpModify => if exists' then Some(true) else None
    case OpDelete => if exists' then Some(false) else None
  }

  /** Whether the file exists after a history, if the history is well-formed. */
  function Run(exists': bool, ops: seq<Op>): Option<bool> {
    if ops == [] then Some(exists')
    else
      match Run(exists', ops[..|ops| - 1])
      case None => None
      case Some(e) => Effect(e, ops[|ops| - 1])
  }

  lemma RunSnoc(exists': bool, ops: seq<Op>, op: Op)
    ensures Run(exists', ops + [op])
         == if Run(exists', ops).None? then None else Effect(Run(exists', ops).value, op)
  {
    assert (ops + [op])[..|ops|] == ops;
  }

  /** The one operation that takes a file from how it was to how it is. */
  function NetOp(was: bool, now: bool, touched: bool): Option<Op> {
    if !was && now then Some(OpCreate)
    else if was && !now then Some(OpDelete)
    else if was && now && touched then Some(OpModify)
    else None
  }

  /** Coalescing keeps the pending operation equal to the net effect since the last cut. */
  lemma CoalesceIsNet(was: bool, now: bool, touched: bool, op: Op)
    requires Effect(now, op).Some? && (!touched ==> was == now)
    ensures Coalesce(NetOp(was, now, touched), op) == NetOp(was, Effect(now, op).value, true)
  {
  }

  /** An event that cannot follow the pending operation leaves it as it is. */
  lemma ImpossibleKept(was: bool, pending: Op, op: Op)
    requires Effect(was, pending).Some? && Effect(Effect(was, pending).value, op).None?
    ensures Coalesce(Some(pending), op) == Some(pending)
  {
  }

  function OpsOf(list: seq<FileChange>, p: string): seq<Op> {
    if list == [] then []
    else
      var last := list[|list| - 1];
      if last.relPath == p then OpsOf(list[..|list| - 1], p) + [last.op] else OpsOf(list[..|list| - 1], p)
  }

  lemma OpsOfSnoc(list: seq<FileChange>, c: FileChange, p: string)
    ensures c.relPath == p ==> OpsOf(list + [c], p) == OpsOf(list, p) + [c.op]
    ensures c.relPath != p ==> OpsOf(list + [c], p) == OpsOf(list, p)
  {
    assert (list + [c])[..|list|] == list;
  }

  /** The operations sent for a file, batch after batch. */
  function Sent(batches: seq<seq<FileChange>>, p: string): seq<Op> {
    if batches == [] then [] else Sent(batches[..|batches| - 1], p) + OpsOf(batches[|batches| - 1], p)
  }

  function PendingOp(pending: map<string, FileChange>, p: string): Option<Op> {
    if p in pending then Some(pending[p].op) else None
  }

  function Ops(op: Option<Op>): seq<Op> {
    if op.Some? then [op.value] else []
  }

  // ---------------------------------------------------------------------------------
  // What the debouncer keeps

  /** For a file that was there or not at the start, as `start` says: the operations sent take
      it to how it was at the last cut, and the pending one from there to how it is now. */
  ghost predicate Tracks(before: seq<FileChange>, since: seq<FileChange>, batches: seq<seq<FileChange>>,
                         pending: map<string, FileChange>, p: string, start: bool)
  {
    var was := Run(start, OpsOf(before, p));
    var now := Run(start, OpsOf(before, p) + OpsOf(since, p));
    now.Some? ==>
      && was.Some? && Run(start, Sent(batches, p)) == was
      && PendingOp(pending, p) == NetOp(was.value, now.value, OpsOf(since, p) != [])
  }

  ghost predicate AllTracked(before: seq<FileChange>, since: seq<FileChange>, batches: seq<seq<FileChange>>,
                             pending: map<string, FileChange>)
  {
    forall p, start :: Tracks(before, since, batches, pending, p, start)
  }

  lemma RecordTracks(before: seq<FileChange>, since: seq<FileChange>, batches: seq<seq<FileChange>>,
                     pending: map<string, FileChange>, c: FileChange, pending': map<string, FileChange>,
                     p: string, start: bool)
    requires Tracks(before, since, batches, pending, p, start)
    requires p == c.relPath ==> PendingOp(pending', p) == Coalesce(PendingOp(pending, p), c.op)
    requires p != c.relPath ==> PendingOp(pending', p) == PendingOp(pending, p)
    ensures Tracks(before, since + [c], batches, pending', p, start)
  {
    OpsOfSnoc(since, c, p);
    if p == c.relPath {
      var ops := OpsOf(before, p) + OpsOf(since, p);
      assert OpsOf(before, p) + (OpsOf(since, p) + [c.op]) == ops + [c.op];
      RunSnoc(start, ops, c.op);
      if Run(start, ops + [c.op]).Some? {
        if OpsOf(since, p) == [] {
          assert ops == OpsOf(before, p);
        }
        CoalesceIsNet(Run(start, OpsOf(before, p)).value, Run(start, ops).value, OpsOf(since, p) != [], c.op);
      }
    }
  }

  lemma FlushTracks(before: seq<FileChange>, since: seq<FileChange>, batches: seq<seq<FileChange>>,
                    pending: map<string, FileChange>, batch: seq<FileChange>, p: string, start: bool)
    requires Tracks(before, since, batches, pending, p, start)
    requires OpsOf(batch, p) == Ops(PendingOp(pending, p))
    ensures Tracks(before + since, [], batches + [batch], map[], p, start)
  {
    OpsOfConcat(before, since, p);
    assert (batches + [batch])[..|batches|] == batches;
    assert OpsOf(before + since, p) + [] == OpsOf(before + since, p);
    var sent := Sent(batches, p);
    if PendingOp(pending, p).Some? {
      RunSnoc(start, sent, PendingOp(pending, p).value);
    } else {
      assert sent + [] == sent;
    }
  }

  lemma {:induction false} OpsOfConcat(a: seq<FileChange>, b: seq<FileChange>, p: string)
    ensures OpsOf(a + b, p) == OpsOf(a, p) + OpsOf(b, p)
  {
    if b == [] {
      assert a + b == a;
    } else {
      OpsOfConcat(a, b[..|b| - 1], p);
      assert (a + b)[..|a + b| - 1] == a + b[..|b| - 1];
    }
  }

  /** What has been sent, followed by what is pending, is a well-formed history of each file
      that ends where the raw events end. */
  lemma SentThenPending(before: seq<FileChange>, since: seq<FileChange>, batches: seq<seq<FileChange>>,
                        pending: map<string, FileChange>, p: string, start: bool)
    requires AllTracked(before, since, batches, pending)
    requires Run(start, OpsOf(before + since, p)).Some?
    ensures Run(start, Sent(batches, p) + Ops(PendingOp(pending, p))) == Run(start, OpsOf(before + since, p))
  {
    assert Tracks(before, since, batches, pending, p, start);
    OpsOfConcat(before, since, p);
    var sent := Sent(batches, p);
    if PendingOp(pending, p).Some? {
      RunSnoc(start, sent, PendingOp(pending, p).value);
    } else {
      assert sent + [] == sent;
    }
  }

  // ---------------------------------------------------------------------------------
  // Batches

  predicate PathLess(a: FileChange, b: FileChange) {
    StrLess(a.relPath, b.relPath)
  }

  /** A batch holds exactly the pending changes, by path, one for each. */
  ghost predicate IsBatch(pending: map<string, FileChange>, batch: seq<FileChange>) {
    && StrictlySorted(batch, PathLess)
    && forall c :: c in batch <==> c.relPath in pending && pending[c.relPath] == c
  }

  /** Within a batch, paths stand in order. */
  lemma BatchOrdered(pending: map<string, FileChange>, batch: seq<FileChange>, i: nat, j: nat)
    requires IsBatch(pending, batch) && i < j < |batch|
    ensures ComesBefore(batch[i].relPath, batch[j].relPath)
  {
    assert PathLess(batch[i], batch[j]);
    StrLessExactly(batch[i].relPath, batch[j].relPath);
  }

  lemma BatchPathsDiffer(batch: seq<FileChange>, i: nat, j: nat)
    requires StrictlySorted(batch, PathLess) && i < j < |batch|
    ensures batch[i].relPath != batch[j].relPath
  {
    StrLessTotal();
    assert PathLess(batch[i], batch[j]);
  }

  /** A sorted batch holds no more than one change of each file. */
  lemma {:induction false} BatchOps(batch: seq<FileChange>, p: string)
    requires StrictlySorted(batch, PathLess)
    ensures forall c :: c in batch && c.relPath == p ==> OpsOf(batch, p) == [c.op]
    ensures (forall c :: c in batch ==> c.relPath != p) ==> OpsOf(batch, p) == []
  {
    if batch != [] {
      var init, last := batch[..|batch| - 1], batch[|batch| - 1];
      assert batch == init + [last];
      BatchOps(init, p);
      forall c | c in init ensures c.relPath != last.relPath {
        var i :| 0 <= i < |init| && init[i] == c;
        BatchPathsDiffer(batch, i, |batch| - 1);
      }
    }
  }

  lemma BatchIsPending(pending: map<string, FileChange>, batch: seq<FileChange>, p: string)
    requires IsBatch(pending, batch) && forall q :: q in pending ==> pending[q].relPath == q
    ensures OpsOf(batch, p) == Ops(PendingOp(pending, p))
  {
    BatchOps(batch, p);
    if p in pending {
      assert pending[p] in batch;
    }
  }

  class Debouncer {
    var pending: map<string, FileChange>
    var armed: bool
    var stopped: bool
    ghost var before: seq<FileChange>
    ghost var since: seq<FileChange>
    ghost var batches: seq<seq<FileChange>>

    /** `before` and `since` are the events recorded up to and after the last cut, `batches`
        the batches cut.  A timer runs exactly while something is pending. */
    ghost predicate Valid()
      reads this
    {
      && (forall p :: p in pending ==> pending[p].relPath == p)
      && AllTracked(before, since, batches, pending)
      && (armed <==> pending != map[] && !stopped)
    }

    constructor ()
      ensures Valid() && before == since == [] && batches == [] && pending == map[] && !stopped
    {
      pending, armed, stopped := map[], false, false;
      before, since, batches := [], [], [];
    }

    /** Takes one event in, unless stopped. */
    method Record(change: FileChange)
      requires Valid()
      modifies this
      ensures Valid() && stopped == old(stopped) && before == old(before) && batches == old(batches)
      ensures old(stopped) ==> pending == old(pending) && since == old(since)
      ensures !old(stopped) ==> since == old(since) + [change]
      ensures !old(stopped) ==>
                var merged := Coalesce(PendingOp(old(pending), change.relPath), change.op);
                pending == if merged.Some? then old(pending)[change.relPath := change.(op := merged.value)]
                           else old(pending) - {change.relPath}
    {
      if stopped {
        return;
      }
      ghost var was := pending;
      var merged := Coalesce(PendingOp(pending, change.relPath), change.op);
      if merged.None? {
        pending := pending - {change.relPath};
      } else {
        pending := pending[change.relPath := change.(op := merged.value)];
      }
      forall p, start ensures Tracks(before, since + [change], batches, pending, p, start) {
        RecordTracks(before, since, batches, was, change, pending, p, start);
      }
      since := since + [change];
      armed := pending != map[];
    }

    /** Cuts a batch; whoever called then sends it. */
    method Flush() returns (batch: Option<seq<FileChange>>)
      requires Valid()
      modifies this
      ensures Valid() && stopped == old(stopped)
      ensures old(stopped) || old(pending) == map[] ==>
                && batch == None && pending == old(pending) && batches == old(batches)
                && before == old(before) && since == old(since)
      ensures !old(stopped) && old(pending) != map[] ==>
                batch.Some? && IsBatch(old(pending), batch.value) && batches == old(batches) + [batch.value]
      ensures !old(stopped) && old(pending) != map[] ==>
                pending == map[] && before == old(before) + old(since) && since == []
    {
      if stopped || pending == map[] {
        return None;
      }
      var changes := CutBatch(pending);
      forall p, start ensures Tracks(before + since, [], batches + [changes], map[], p, start) {
        BatchIsPending(pending, changes, p);
        FlushTracks(before, since, batches, pending, changes, p, start);
      }
      pending, armed := map[], false;
      before, since, batches := before + since, [], batches + [changes];
      batch := Some(changes);
    }

    method Stop()
      requires Valid()
      modifies this`stopped, this`armed
      ensures Valid() && stopped
    {
      stopped, armed := true, false;
    }

    /** Over every interleaving of records and flushes, for a file with a well-formed history
        of events: what was sent, and then what is pending, is such a history too, and leaves
        the file as the events leave it. */
    lemma NothingLost(p: string, start: bool)
      requires Valid() && Run(start, OpsOf(before + since, p)).Some?
      ensures Run(start, Sent(batches, p) + Ops(PendingOp(pending, p))) == Run(start, OpsOf(before + since, p))
    {
      SentThenPending(before, since, batches, pending, p, start);
    }
  }

  method CutBatch(pending: map<string, FileChange>) returns (batch: seq<FileChange>)
    requires forall p :: p in pending ==> pending[p].relPath == p
    ensures IsBatch(pending, batch)
  {
    var changes: seq<FileChange> := [];
    var todo := pending.Keys;
    while todo != {}
      invariant todo <= pending.Keys && Distinct(changes)
      invariant forall c :: c in changes <==> c.relPath in pending && c.relPath !in todo && pending[c.relPath] == c
      decreases todo
    {
      var p :| p in todo;
      todo := todo - {p};
      changes := changes + [pending[p]];
    }
    StrLessTotal();
    batch := SortSlice(changes, PathLess);
    PermutationElems(changes, batch);
    PermutationDistinct(changes, batch);
    forall i, j | 0 <= i < j < |batch| ensures PathLess(batch[i], batch[j]) {
      assert batch[i] in batch && batch[j] in batch && batch[i] != batch[j];
    }
  }
}
