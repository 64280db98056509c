/** The daemon's freshness protocol as steps: writes and their events, syncs under one lock,
    and readers that look at several variables one after another. */
module SyncProtocol {
  import opened CodeGraph

  /** A call of `FreshGraph`, with how many events had been counted and which version was on
      disk when it was made; or a sync nobody waits for. */
  datatype Caller = Background | Request(events: nat, version: nat)

  datatype Phase<C> =
    | CheckWatching(who: Caller)
    | CheckSynced(who: Caller)
    | CheckHealthy(who: Caller)
    | CheckSeq(who: Caller)
    | SawSeq(who: Caller, seen: nat)
    | Waiting(who: Caller)
    | Locked(who: Caller)
    | HasSeq(who: Caller, at: nat)
    | Indexed(who: Caller, at: nat, snap: nat, load: bool)
    | Loaded(who: Caller, at: nat, snap: nat, fetched: Option<C>)
    | Returning(who: Caller, didSync: bool)
    | Answered(who: Caller, didSync: bool, graph: C)
    | Ended

  type Tid = nat

  /** `disk[v]` is what is on disk after `v` writes.  `log[i]` is the write the `i`th counted
      event tells of, 0 if none, so the watcher's sequence is the length of `log`.  `shown` is
      the version the published graph is meant to show; it is kept for the proof only. */
  datatype State<C> = State(
    disk: seq<C>, log: seq<nat>, degraded: bool,
    watching: bool, synced: bool, syncedSeq: nat, graph: Option<C>, shown: nat,
    stored: Option<C>, lock: Option<Tid>, threads: map<Tid, Phase<C>>)

  datatype Step<C> =
    | Write(content: C)
    | Deliver(write: nat)
    | Degrade
    | Watch(on: bool)
    | Ask(tid: Tid)
    | Trigger(tid: Tid)
    | Check(tid: Tid)
    | Lock(tid: Tid)
    | ReadSeq(tid: Tid)
    | Index(tid: Tid, upgraded: bool)
    | IndexFails(tid: Tid)
    | Load(tid: Tid)
    | LoadFails(tid: Tid)
    | Publish(tid: Tid)
    | Return(tid: Tid)

  function Now<C>(st: State<C>): nat
    requires st.disk != []
  {
    |st.disk| - 1
  }

  predicate IsCheck<C>(p: Phase<C>) {
    p.CheckWatching? || p.CheckSynced? || p.CheckHealthy? || p.CheckSeq? || p.SawSeq?
  }

  /** The phases of a thread that holds the sync lock. */
  predicate Holds<C>(p: Phase<C>) {
    p.Locked? || p.HasSeq? || p.Indexed? || p.Loaded?
  }

  predicate Can<C>(st: State<C>, step: Step<C>) {
    match step
    case Write(_) => true
    case Deliver(w) => w < |st.disk|
    case Degrade => true
    case Watch(_) => true
    case Ask(t) => t !in st.threads
    case Trigger(t) => t !in st.threads
    case Check(t) => t in st.threads && IsCheck(st.threads[t])
    case Lock(t) => t in st.threads && st.threads[t].Waiting? && st.lock.None?
    case ReadSeq(t) => t in st.threads && st.threads[t].Locked?
    case Index(t, _) => t in st.threads && st.threads[t].HasSeq? && st.disk != []
    case IndexFails(t) => t in st.threads && st.threads[t].HasSeq?
    case Load(t) => t in st.threads && st.threads[t].Indexed? && (st.threads[t].load ==> st.stored.Some?)
    case LoadFails(t) => t in st.threads && st.threads[t].Indexed? && st.threads[t].load
    case Publish(t) => t in st.threads && st.threads[t].Loaded?
    case Return(t) => t in st.threads && st.threads[t].Returning? && st.graph.Some?
  }

  function Moved<C>(st: State<C>, t: Tid, p: Phase<C>): State<C> {
    st.(threads := st.threads[t := p])
  }

  /** One look at the variables `upToDate` reads, in the order it reads them. */
  function Checked<C>(st: State<C>, p: Phase<C>): Phase<C>
    requires IsCheck(p)
  {
    match p
    case CheckWatching(who) => if st.watching then CheckSynced(who) else Waiting(who)
    case CheckSynced(who) => if st.synced then CheckHealthy(who) else Waiting(who)
    case CheckHealthy(who) => if !st.degraded then CheckSeq(who) else Waiting(who)
    case CheckSeq(who) => SawSeq(who, |st.log|)
    case SawSeq(who, n) => if n == st.syncedSeq then Returning(who, false) else Waiting(who)
  }

  /** Where a thread goes when its sync is over. */
  function After<C>(who: Caller): Phase<C> {
    if who.Background? then Ended else Returning(who, true)
  }

  function Do<C(==)>(st: State<C>, step: Step<C>): State<C>
    requires Can(st, step)
  {
    match step
    case Write(c) => st.(disk := st.disk + [c])
    case Deliver(w) => st.(log := st.log + [w])
    case Degrade => st.(degraded := true)
    case Watch(on) => st.(watching := on)
    case Ask(t) => Moved(st, t, CheckWatching(Request(|st.log|, if st.disk == [] then 0 else Now(st))))
    case Trigger(t) => Moved(st, t, Waiting(Background))
    case Check(t) => Moved(st, t, Checked(st, st.threads[t]))
    case Lock(t) => Moved(st, t, Locked(st.threads[t].who)).(lock := Some(t))
    case ReadSeq(t) => Moved(st, t, HasSeq(st.threads[t].who, |st.log|))
    case Index(t, upgraded) =>
      var p := st.threads[t];
      var content := st.disk[Now(st)];
      var changed := st.stored != Some(content) || upgraded;
      Moved(st, t, Indexed(p.who, p.at, Now(st), st.graph.None? || changed)).(stored := Some(content))
    case IndexFails(t) => Moved(st, t, Ended).(lock := None)
    case Load(t) =>
      var p := st.threads[t];
      Moved(st, t, Loaded(p.who, p.at, p.snap, if p.load then st.stored else None))
    case LoadFails(t) => Moved(st, t, Ended).(lock := None)
    case Publish(t) =>
      var p := st.threads[t];
      Moved(st, t, After(p.who)).(graph := if p.fetched.Some? then p.fetched else st.graph, shown := p.snap,
                                 syncedSeq := p.at, synced := true, lock := None)
    case Return(t) =>
      var p := st.threads[t];
      Moved(st, t, Answered(p.who, p.didSync, st.graph.value))
  }

  /** A daemon that has just been started, on a store that holds anything or nothing. */
  predicate Initial<C>(st: State<C>) {
    && |st.disk| == 1 && st.log == [] && !st.synced && st.syncedSeq == 0
    && st.graph == None && st.shown == 0 && st.lock == None && st.threads == map[]
  }

  // ---------------------------------------------------------------------------------
  // What every step keeps

  /** The first `n` events tell only of writes up to version `v`. */
  ghost predicate Covers(log: seq<nat>, n: nat, v: nat) {
    n <= |log| && forall i :: 0 <= i < n ==> log[i] <= v
  }

  /** A request remembers a time in the past: its events tell of writes it could see. */
  ghost predicate Past<C>(st: State<C>, who: Caller) {
    who.Request? ==> who.version < |st.disk| && Covers(st.log, who.events, who.version)
  }

  /** What a thread knows in each phase, whether or not loads have failed. */
  ghost predicate Knows<C>(st: State<C>, p: Phase<C>) {
    p.Ended? ||
    (Past(st, p.who) &&
     match p
     case CheckWatching(who) => who.Request?
     case CheckSynced(who) => who.Request?
     case CheckHealthy(who) => who.Request? && st.synced
     case CheckSeq(who) => who.Request? && st.synced
     case SawSeq(who, n) => who.Request? && st.synced && who.events <= n <= |st.log|
     case Waiting(_) => true
     case Locked(_) => true
     case HasSeq(_, s) => st.syncedSeq <= s <= |st.log|
     case Indexed(who, s, snap, load) =>
       && st.syncedSeq <= s && snap < |st.disk| && Covers(st.log, s, snap) && st.shown <= snap
       && (who.Request? ==> who.version <= snap)
       && st.stored == Some(st.disk[snap]) && (load || st.graph.Some?)
     case Loaded(who, s, snap, fetched) =>
       && st.syncedSeq <= s && snap < |st.disk| && Covers(st.log, s, snap) && st.shown <= snap
       && (who.Request? ==> who.version <= snap)
       && st.stored == Some(st.disk[snap]) && (fetched == st.stored || (fetched == None && st.graph.Some?))
     case Returning(who, didSync) =>
       who.Request? && st.synced && Covers(st.log, who.events, st.shown) && (didSync ==> who.version <= st.shown)
     case Answered(who, _, _) => who.Request?)
  }

  ghost predicate Inv<C>(st: State<C>) {
    && st.disk != [] && st.shown < |st.disk|
    && (forall i :: 0 <= i < |st.log| ==> st.log[i] < |st.disk|)
    && Covers(st.log, st.syncedSeq, st.shown)
    && (st.synced ==> st.graph.Some?)
    && (forall t :: t in st.threads ==> Knows(st, st.threads[t]))
    && (forall t :: t in st.threads && Holds(st.threads[t]) ==> st.lock == Some(t))
    && (st.lock.Some? ==> st.lock.value in st.threads && Holds(st.threads[st.lock.value]))
  }

  /** Nothing a thread knows is undone by more writes or more events. */
  lemma GrowthKeeps<C>(st: State<C>, st': State<C>, p: Phase<C>)
    requires Knows(st, p) && st.disk <= st'.disk && st.log <= st'.log
    requires st'.graph == st.graph && st'.stored == st.stored && st'.shown == st.shown
    requires st'.syncedSeq == st.syncedSeq && st'.synced == st.synced
    ensures Knows(st', p)
  {
  }

  /** Nor by a publication, unless the thread holds the lock. */
  lemma PublicationKeeps<C>(st: State<C>, st': State<C>, p: Phase<C>)
    requires Knows(st, p) && !Holds(p) && st'.disk == st.disk && st'.log == st.log
    requires st.shown <= st'.shown && st'.graph.Some? && st'.synced
    ensures Knows(st', p)
  {
  }

  lemma WriteKeeps<C>(st: State<C>, step: Step<C>)
    requires Inv(st) && Can(st, step) && (step.Write? || step.Deliver? || step.Degrade? || step.Watch?)
    ensures Inv(Do(st, step))
  {
    var st' := Do(st, step);
    forall t | t in st'.threads ensures Knows(st', st'.threads[t]) {
      GrowthKeeps(st, st', st.threads[t]);
    }
  }

  /** Moving one thread, with nothing else changed but the lock and what is stored. */
  lemma MoveKeeps<C>(st: State<C>, st': State<C>, t: Tid, p: Phase<C>)
    requires Inv(st) && st' == st.(threads := st.threads[t := p], lock := st'.lock, stored := st'.stored)
    requires Knows(st', p) && ((t in st.threads && Holds(st.threads[t])) || st'.stored == st.stored)
    requires if Holds(p) then st'.lock == Some(t) && (st.lock == None || st.lock == Some(t))
             else st'.lock == (if st.lock == Some(t) then None else st.lock)
    ensures Inv(st')
  {
    forall x | x in st'.threads ensures Knows(st', st'.threads[x]) {
      if x != t {
        assert !Holds(st.threads[x]) || st.lock == Some(x);
      }
    }
  }

  lemma CheckKnows<C>(st: State<C>, p: Phase<C>)
    requires Inv(st) && Knows(st, p) && IsCheck(p)
    ensures Knows(st, Checked(st, p)) && !Holds(Checked(st, p))
  {
  }

  lemma PublishKeeps<C>(st: State<C>, t: Tid)
    requires Inv(st) && Can(st, Publish(t))
    ensures Inv(Do(st, Publish(t)))
  {
    var st' := Do(st, Publish(t));
    var p := st.threads[t];
    assert Knows(st, p);
    forall x | x in st'.threads ensures Knows(st', st'.threads[x]) {
      if x != t {
        PublicationKeeps(st, st', st.threads[x]);
      }
    }
  }

  lemma ReaderKeeps<C>(st: State<C>, step: Step<C>)
    requires Inv(st) && Can(st, step) && (step.Ask? || step.Trigger? || step.Check? || step.Return?)
    ensures Inv(Do(st, step))
  {
    var st' := Do(st, step);
    if step.Check? {
      assert Knows(st, st.threads[step.tid]);
      CheckKnows(st, st.threads[step.tid]);
    } else if step.Return? {
      assert Knows(st, st.threads[step.tid]);
    }
    MoveKeeps(st, st', step.tid, st'.threads[step.tid]);
  }

  lemma SyncKeeps<C>(st: State<C>, step: Step<C>)
    requires Inv(st) && Can(st, step)
    requires step.Lock? || step.ReadSeq? || step.Index? || step.IndexFails? || step.Load? || step.LoadFails?
    ensures Inv(Do(st, step))
  {
    var st' := Do(st, step);
    assert Knows(st, st.threads[step.tid]);
    MoveKeeps(st, st', step.tid, st'.threads[step.tid]);
  }

  /** Every step keeps what the threads know: only past events are ever taken for seen, and
      `syncedSeq` stays within the sequence, also when loads fail. */
  lemma StepKeepsInv<C>(st: State<C>, step: Step<C>)
    requires Inv(st) && Can(st, step)
    ensures Inv(Do(st, step))
  {
    if step.Write? || step.Deliver? || step.Degrade? || step.Watch? {
      WriteKeeps(st, step);
    } else if step.Ask? || step.Trigger? || step.Check? || step.Return? {
      ReaderKeeps(st, step);
    } else if step.Publish? {
      PublishKeeps(st, step.tid);
    } else {
      SyncKeeps(st, step);
    }
  }

  /** The sequence synced at and the version shown never go backwards. */
  lemma StepNeverRewinds<C>(st: State<C>, step: Step<C>)
    requires Inv(st) && Can(st, step)
    ensures st.syncedSeq <= Do(st, step).syncedSeq <= |Do(st, step).log|
    ensures st.shown <= Do(st, step).shown
    ensures st.disk <= Do(st, step).disk && st.log <= Do(st, step).log
  {
    if step.Publish? {
      assert Knows(st, st.threads[step.tid]);
    }
  }

  // ---------------------------------------------------------------------------------
  // Fresh answers

  /** The answer shows some version of the disk that includes every write whose event had
      been counted when the call was made, and if the call synced, every write made by then. */
  ghost predicate Fresh<C>(st: State<C>, p: Phase<C>)
    requires p.Answered? && p.who.Request?
  {
    exists v :: IsFresh(st, p, v)
  }

  ghost predicate IsFresh<C>(st: State<C>, p: Phase<C>, v: nat)
    requires p.Answered? && p.who.Request?
  {
    v < |st.disk| && st.disk[v] == p.graph && Covers(st.log, p.who.events, v) && (p.didSync ==> p.who.version <= v)
  }

  /** The published graph is what it is meant to be, and what is stored, unless a sync is
      half-way between writing the store and publishing. */
  ghost predicate Honest<C>(st: State<C>)
    requires Inv(st)
  {
    && (st.graph.Some? ==> st.graph.value == st.disk[st.shown])
    && (st.graph.Some? && (st.lock.None? || st.threads[st.lock.value].Locked? || st.threads[st.lock.value].HasSeq?) ==>
          st.stored == st.graph)
    && (forall t :: t in st.threads ==> Keeps(st, st.threads[t]))
  }

  ghost predicate Keeps<C>(st: State<C>, p: Phase<C>)
    requires Inv(st) && Knows(st, p)
  {
    && (p.Indexed? && !p.load ==> st.graph == Some(st.disk[p.snap]))
    && (p.Loaded? && p.fetched.None? ==> st.graph == Some(st.disk[p.snap]))
  }

  /** Every answer is fresh, but for those given to `spared` threads. */
  ghost predicate AnswersFresh<C>(st: State<C>, spared: set<Tid>)
    requires Inv(st)
  {
    forall t :: t in st.threads && t !in spared && st.threads[t].Answered? ==>
      Knows(st, st.threads[t]) && Fresh(st, st.threads[t])
  }

  /** A load that fails after a commit that changed the graph: the published graph is left
      behind, and nothing later will notice. */
  predicate Tears<C(==)>(st: State<C>, step: Step<C>)
    requires Can(st, step)
  {
    step.LoadFails? && st.graph.Some? && st.graph != st.stored
  }

  lemma FreshStays<C>(st: State<C>, st': State<C>, p: Phase<C>)
    requires p.Answered? && p.who.Request? && Fresh(st, p) && st.disk <= st'.disk && st.log <= st'.log
    ensures Fresh(st', p)
  {
    var v :| IsFresh(st, p, v);
    assert IsFresh(st', p, v);
  }

  /** The version an answer shows, at the moment it is given. */
  lemma ReturnIsFresh<C>(st: State<C>, t: Tid)
    requires Inv(st) && Honest(st) && Can(st, Return(t))
    ensures var p := Do(st, Return(t)).threads[t]; p.who.Request? && Fresh(Do(st, Return(t)), p)
  {
    var st' := Do(st, Return(t));
    assert Knows(st, st.threads[t]);
    assert IsFresh(st', st'.threads[t], st.shown);
  }

  /** Only a return gives an answer. */
  lemma NewAnswer<C>(st: State<C>, step: Step<C>, t: Tid)
    requires Inv(st) && Can(st, step) && t in Do(st, step).threads && Do(st, step).threads[t].Answered?
    requires t in st.threads ==> !st.threads[t].Answered?
    ensures step == Return(t)
  {
  }

  /** An answer, once given, stays as it is, and a new one is fresh. */
  lemma AnswersStay<C>(st: State<C>, step: Step<C>, spared: set<Tid>)
    requires Inv(st) && Honest(st) && Can(st, step) && AnswersFresh(st, spared) && Inv(Do(st, step))
    ensures AnswersFresh(Do(st, step), spared)
  {
    var st' := Do(st, step);
    StepNeverRewinds(st, step);
    forall t | t in st'.threads && t !in spared && st'.threads[t].Answered?
      ensures Knows(st', st'.threads[t]) && Fresh(st', st'.threads[t])
    {
      if t in st.threads && st.threads[t].Answered? {
        FreshStays(st, st', st.threads[t]);
      } else {
        NewAnswer(st, step, t);
        ReturnIsFresh(st, t);
      }
    }
  }

  lemma OthersKeep<C>(st: State<C>, step: Step<C>, t: Tid)
    requires Inv(st) && Can(st, step) && Inv(Do(st, step)) && Honest(st)
    requires t in st.threads && Do(st, step).threads[t] == st.threads[t]
    requires Do(st, step).graph == st.graph || !Holds(st.threads[t])
    ensures Keeps(Do(st, step), st.threads[t])
  {
    assert Knows(st, st.threads[t]) && Keeps(st, st.threads[t]);
    StepNeverRewinds(st, step);
  }

  lemma MoverKeeps<C>(st: State<C>, step: Step<C>, t: Tid)
    requires Inv(st) && Honest(st) && Can(st, step) && Inv(Do(st, step))
    requires t in Do(st, step).threads && (t in st.threads ==> Do(st, step).threads[t] != st.threads[t])
    ensures Keeps(Do(st, step), Do(st, step).threads[t])
  {
    if t in st.threads {
      assert Knows(st, st.threads[t]) && Keeps(st, st.threads[t]);
    }
  }

  lemma ThreadsKeep<C>(st: State<C>, step: Step<C>)
    requires Inv(st) && Honest(st) && Can(st, step) && Inv(Do(st, step))
    ensures forall t :: t in Do(st, step).threads ==> Keeps(Do(st, step), Do(st, step).threads[t])
  {
    var st' := Do(st, step);
    forall t | t in st'.threads ensures Keeps(st', st'.threads[t]) {
      if t in st.threads && st'.threads[t] == st.threads[t] {
        if step.Publish? && t != step.tid {
          assert Holds(st.threads[t]) ==> st.lock == Some(t);
          assert Holds(st.threads[step.tid]);
        }
        OthersKeep(st, step, t);
      } else {
        MoverKeeps(st, step, t);
      }
    }
  }

  /** Torn loads are exactly the steps that leave the published graph behind. */
  lemma HonestExactly<C>(st: State<C>, step: Step<C>)
    requires Inv(st) && Honest(st) && Can(st, step) && Inv(Do(st, step))
    ensures Honest(Do(st, step)) <==> !Tears(st, step)
  {
    var st' := Do(st, step);
    ThreadsKeep(st, step);
    if step.Publish? || step.Index? || step.IndexFails? || step.LoadFails? || step.ReadSeq? || step.Load? {
      assert Knows(st, st.threads[step.tid]) && Keeps(st, st.threads[step.tid]);
    }
  }

  /** A publication shows the version it indexed exactly if it loaded the graph or the
      graph already was that version's. */
  lemma PublicationExact<C>(st: State<C>, t: Tid)
    requires Inv(st) && Can(st, Publish(t))
    ensures var p := st.threads[t];
      Do(st, Publish(t)).graph == Some(st.disk[p.snap]) <==> p.fetched.Some? || st.graph == Some(st.disk[p.snap])
  {
    assert Knows(st, st.threads[t]);
  }

  // ---------------------------------------------------------------------------------
  // Whole runs

  /** The steps are possible one after another and lead from `st` to `end`. */
  ghost predicate Leads<C>(st: State<C>, steps: seq<Step<C>>, end: State<C>)
    decreases |steps|
  {
    if steps == [] then end == st else Can(st, steps[0]) && Leads(Do(st, steps[0]), steps[1..], end)
  }

  /** Some load on the way fails after a commit that changed the graph. */
  ghost predicate Torn<C>(st: State<C>, steps: seq<Step<C>>)
    decreases |steps|
  {
    steps != [] && Can(st, steps[0]) && (Tears(st, steps[0]) || Torn(Do(st, steps[0]), steps[1..]))
  }

  lemma {:induction false} RunKeeps<C>(st: State<C>, steps: seq<Step<C>>, end: State<C>, spared: set<Tid>)
    requires Inv(st) && Honest(st) && AnswersFresh(st, spared) && Leads(st, steps, end) && !Torn(st, steps)
    ensures Inv(end) && Honest(end) && AnswersFresh(end, spared)
    ensures st.syncedSeq <= end.syncedSeq <= |end.log| && st.shown <= end.shown
    decreases |steps|
  {
    if steps != [] {
      StepKeepsInv(st, steps[0]);
      HonestExactly(st, steps[0]);
      AnswersStay(st, steps[0], spared);
      StepNeverRewinds(st, steps[0]);
      RunKeeps(Do(st, steps[0]), steps[1..], end, spared);
    }
  }

  /** In every run in which no load fails after a commit that changed the graph, every answer
      is fresh, and the synced sequence never passes the watcher's. */
  lemma EveryAnswerIsFresh<C>(st: State<C>, steps: seq<Step<C>>, end: State<C>, t: Tid)
    requires Initial(st) && Leads(st, steps, end) && !Torn(st, steps)
    ensures end.syncedSeq <= |end.log|
    ensures t in end.threads && end.threads[t].Answered? ==> end.threads[t].who.Request? && Fresh(end, end.threads[t])
  {
    RunKeeps(st, steps, end, {});
  }

  /** The threads that have their answer. */
  function AnsweredIn<C>(st: State<C>): set<Tid> {
    set t | t in st.threads && st.threads[t].Answered?
  }

  /** A publication makes the published graph true again exactly if it loaded the graph or the
      graph already was the one indexed, whatever loads have failed before. */
  lemma HealsExactly<C>(st: State<C>, t: Tid)
    requires Inv(st) && Can(st, Publish(t)) && Inv(Do(st, Publish(t)))
    ensures Honest(Do(st, Publish(t))) <==>
              st.threads[t].fetched.Some? || st.graph == Some(st.disk[st.threads[t].snap])
  {
    var st' := Do(st, Publish(t));
    assert Knows(st, st.threads[t]);
    forall x | x in st'.threads ensures Keeps(st', st'.threads[x]) {
      if x != t {
        assert !Holds(st.threads[x]) || st.lock == Some(x);
        assert Holds(st.threads[t]);
      }
    }
  }

  /** After a sync that loaded the graph every later answer is fresh, also to calls that were
      under way, until a load is torn again; answers given before stay as they are. */
  lemma LoadedSyncHeals<C>(st: State<C>, t: Tid, steps: seq<Step<C>>, end: State<C>, x: Tid)
    requires Inv(st) && Can(st, Publish(t)) && st.threads[t].fetched.Some?
    requires Leads(Do(st, Publish(t)), steps, end) && !Torn(Do(st, Publish(t)), steps)
    ensures Inv(end) && Honest(end)
    ensures x in end.threads && end.threads[x].Answered? && x !in AnsweredIn(st) ==>
              end.threads[x].who.Request? && Fresh(end, end.threads[x])
  {
    StepKeepsInv(st, Publish(t));
    HealsExactly(st, t);
    RunKeeps(Do(st, Publish(t)), steps, end, AnsweredIn(st));
  }

  // ---------------------------------------------------------------------------------
  // When an answer is the disk as it is

  /** What `upToDate` finds if nothing changes while it looks. */
  predicate UpToDate<C>(st: State<C>) {
    st.watching && st.synced && !st.degraded && |st.log| == st.syncedSeq
  }

  /** The thread a step belongs to, if it belongs to one. */
  function MoverOf<C>(step: Step<C>): Option<Tid> {
    match step
    case Write(_) => None
    case Deliver(_) => None
    case Degrade => None
    case Watch(_) => None
    case Ask(t) => Some(t)
    case Trigger(t) => Some(t)
    case Check(t) => Some(t)
    case Lock(t) => Some(t)
    case ReadSeq(t) => Some(t)
    case Index(t, _) => Some(t)
    case IndexFails(t) => Some(t)
    case Load(t) => Some(t)
    case LoadFails(t) => Some(t)
    case Publish(t) => Some(t)
    case Return(t) => Some(t)
  }

  /** Nothing happens but what thread `t` does. */
  predicate Alone<C>(steps: seq<Step<C>>, t: Tid) {
    forall i :: 0 <= i < |steps| ==> MoverOf(steps[i]) == Some(t)
  }

  /** How far the one thread that moves has come, and what it has found, since `st0`. */
  ghost predicate Calling<C>(st0: State<C>, st: State<C>, t: Tid)
    requires st0.disk != []
  {
    && st.disk == st0.disk && st.log == st0.log && st.watching == st0.watching && st.degraded == st0.degraded
    && (t in st.threads ==>
          var p, current := st.threads[t], Some(st0.disk[Now(st0)]);
          match p
          case CheckWatching(_) => Untouched(st0, st)
          case CheckSynced(_) => Untouched(st0, st) && st0.watching
          case CheckHealthy(_) => Untouched(st0, st) && st0.watching && st0.synced
          case CheckSeq(_) => Untouched(st0, st) && st0.watching && st0.synced && !st0.degraded
          case SawSeq(_, n) =>
            Untouched(st0, st) && st0.watching && st0.synced && !st0.degraded && n == |st0.log|
          case Waiting(who) => Untouched(st0, st) && (who.Request? ==> !UpToDate(st0))
          case Locked(who) => Untouched(st0, st) && (who.Request? ==> !UpToDate(st0))
          case HasSeq(who, _) => Untouched(st0, st) && (who.Request? ==> !UpToDate(st0))
          case Indexed(who, _, snap, load) =>
            && (who.Request? ==> !UpToDate(st0)) && snap == Now(st0)
            && st.stored == current && (!load ==> st.graph == current)
          case Loaded(who, _, snap, fetched) =>
            && (who.Request? ==> !UpToDate(st0)) && snap == Now(st0)
            && (if fetched.Some? then fetched == current else st.graph == current)
          case Returning(_, didSync) =>
            if didSync then !UpToDate(st0) && st.graph == current else UpToDate(st0) && st.graph == st0.graph
          case Answered(_, _, g) => Some(g) == if UpToDate(st0) then st0.graph else current
          case Ended => true)
    && (t !in st.threads ==> Untouched(st0, st))
  }

  /** Nothing readers or syncs look at has changed. */
  ghost predicate Untouched<C>(st0: State<C>, st: State<C>) {
    && st.graph == st0.graph && st.stored == st0.stored && st.synced == st0.synced && st.syncedSeq == st0.syncedSeq
  }

  lemma CallStep<C>(st0: State<C>, st: State<C>, step: Step<C>, t: Tid)
    requires st0.disk != [] && Calling(st0, st, t) && Can(st, step) && MoverOf(step) == Some(t)
    requires st0.graph.Some? ==> st0.stored == st0.graph
    ensures Calling(st0, Do(st, step), t)
  {
  }

  lemma {:induction false} CallRun<C>(st0: State<C>, st: State<C>, steps: seq<Step<C>>, end: State<C>, t: Tid)
    requires st0.disk != [] && Calling(st0, st, t) && Leads(st, steps, end) && Alone(steps, t)
    requires st0.graph.Some? ==> st0.stored == st0.graph
    ensures Calling(st0, end, t)
    decreases |steps|
  {
    if steps != [] {
      assert MoverOf(steps[0]) == Some(t);
      CallStep(st0, st, steps[0], t);
      forall i | 0 <= i < |steps[1..]| ensures MoverOf(steps[1..][i]) == Some(t) {
        assert steps[1..][i] == steps[i + 1];
      }
      CallRun(st0, Do(st, steps[0]), steps[1..], end, t);
    }
  }

  /** A call that nothing interrupts is given the graph of what is on disk, if and only if the
      daemon finds something out of date or what it has published is just that. */
  lemma CurrentExactly<C>(st: State<C>, steps: seq<Step<C>>, end: State<C>, t: Tid)
    requires Inv(st) && Honest(st) && st.lock.None? && t !in st.threads
    requires Leads(st, steps, end) && Alone(steps, t) && t in end.threads && end.threads[t].Answered?
    ensures end.disk == st.disk
    ensures end.threads[t].graph == st.disk[Now(st)] <==> !UpToDate(st) || st.graph == Some(st.disk[Now(st)])
  {
    CallRun(st, st, steps, end, t);
  }

  /** Some run of thread `t` alone ends with its answer. */
  ghost predicate GetsAnswer<C(!new)>(st: State<C>, t: Tid) {
    exists steps, end :: AnswerRun(st, t, steps, end)
  }

  ghost predicate AnswerRun<C>(st: State<C>, t: Tid, steps: seq<Step<C>>, end: State<C>) {
    && Leads(st, steps, end) && Alone(steps, t) && !Torn(st, steps)
    && t in end.threads && end.threads[t].Answered? && end.threads[t].who.Request?
  }

  lemma StepToAnswer<C(!new)>(st: State<C>, step: Step<C>, t: Tid)
    requires Can(st, step) && MoverOf(step) == Some(t) && !Tears(st, step) && GetsAnswer(Do(st, step), t)
    ensures GetsAnswer(st, t)
  {
    var steps, end :| AnswerRun(Do(st, step), t, steps, end);
    var all := [step] + steps;
    assert all[1..] == steps;
    assert AnswerRun(st, t, all, end);
  }

  /** The next step of a call in which nothing fails. */
  function NextStep<C>(p: Phase<C>, t: Tid): Step<C>
    requires !p.Answered? && !p.Ended?
  {
    match p
    case Waiting(_) => Lock(t)
    case Locked(_) => ReadSeq(t)
    case HasSeq(_, _) => Index(t, false)
    case Indexed(_, _, _, _) => Load(t)
    case Loaded(_, _, _, _) => Publish(t)
    case Returning(_, _) => Return(t)
    case _ => Check(t)
  }

  function StepsLeft<C>(p: Phase<C>): nat {
    match p
    case CheckWatching(_) => 11
    case CheckSynced(_) => 10
    case CheckHealthy(_) => 9
    case CheckSeq(_) => 8
    case SawSeq(_, _) => 7
    case Waiting(_) => 6
    case Locked(_) => 5
    case HasSeq(_, _) => 4
    case Indexed(_, _, _, _) => 3
    case Loaded(_, _, _, _) => 2
    case Returning(_, _) => 1
    case _ => 0
  }

  ghost predicate UnderWay<C>(st: State<C>, t: Tid) {
    && t in st.threads && !st.threads[t].Ended? && st.threads[t].who.Request?
    && (st.lock.None? || st.lock == Some(t))
  }

  /** The next step is possible and brings the call on. */
  ghost predicate Advances<C>(st: State<C>, t: Tid)
    requires UnderWay(st, t) && !st.threads[t].Answered?
  {
    var step := NextStep(st.threads[t], t);
    && Can(st, step) && MoverOf(step) == Some(t) && !Tears(st, step)
    && UnderWay(Do(st, step), t) && StepsLeft(Do(st, step).threads[t]) < StepsLeft(st.threads[t])
  }

  lemma LookAdvances<C>(st: State<C>, t: Tid)
    requires UnderWay(st, t) && IsCheck(st.threads[t])
    ensures Advances(st, t)
  {
    var p := st.threads[t];
    assert NextStep(p, t) == Check(t);
    assert Do(st, Check(t)).threads[t] == Checked(st, p);
  }

  lemma IndexAdvances<C>(st: State<C>, t: Tid)
    requires Inv(st) && UnderWay(st, t)
    requires st.threads[t].Waiting? || st.threads[t].Locked? || st.threads[t].HasSeq?
    ensures Advances(st, t)
  {
    assert Holds(st.threads[t]) ==> st.lock == Some(t);
  }

  lemma PublishAdvances<C>(st: State<C>, t: Tid)
    requires Inv(st) && UnderWay(st, t) && (st.threads[t].Indexed? || st.threads[t].Loaded?)
    ensures Advances(st, t)
  {
    assert Knows(st, st.threads[t]);
    assert st.lock == Some(t);
  }

  lemma NextPossible<C>(st: State<C>, t: Tid)
    requires Inv(st) && UnderWay(st, t) && !st.threads[t].Answered?
    ensures Advances(st, t)
  {
    if IsCheck(st.threads[t]) {
      LookAdvances(st, t);
    } else if st.threads[t].Returning? {
      assert Knows(st, st.threads[t]);
    } else if st.threads[t].Indexed? || st.threads[t].Loaded? {
      PublishAdvances(st, t);
    } else {
      IndexAdvances(st, t);
    }
  }

  /** A call under way comes to its answer if nothing fails and no other sync is in its way. */
  lemma {:induction false} CallEnds<C(!new)>(st: State<C>, t: Tid)
    requires Inv(st) && UnderWay(st, t)
    ensures GetsAnswer(st, t)
    decreases StepsLeft(st.threads[t])
  {
    if st.threads[t].Answered? {
      assert AnswerRun(st, t, [], st);
    } else {
      var step := NextStep(st.threads[t], t);
      NextPossible(st, t);
      StepKeepsInv(st, step);
      CallEnds(Do(st, step), t);
      StepToAnswer(st, step, t);
    }
  }

  lemma CallIsAnswered<C(!new)>(st: State<C>, t: Tid)
    requires Inv(st) && st.lock.None? && t !in st.threads
    ensures GetsAnswer(st, t)
  {
    StepKeepsInv(st, Ask(t));
    CallEnds(Do(st, Ask(t)), t);
    StepToAnswer(st, Ask(t), t);
  }

  // ---------------------------------------------------------------------------------
  // What a torn load leads to

  /** Some run without a torn load leads from `st` to `end`. */
  ghost predicate Gets<C(!new)>(st: State<C>, end: State<C>) {
    exists steps :: Leads(st, steps, end) && !Torn(st, steps)
  }

  lemma {:induction false} LeadsOn<C>(st: State<C>, steps: seq<Step<C>>, mid: State<C>, more: seq<Step<C>>,
                                      end: State<C>)
    requires Leads(st, steps, mid) && Leads(mid, more, end) && !Torn(st, steps) && !Torn(mid, more)
    ensures Leads(st, steps + more, end) && !Torn(st, steps + more)
    decreases |steps|
  {
    if steps == [] {
      assert steps + more == more;
    } else {
      LeadsOn(Do(st, steps[0]), steps[1..], mid, more, end);
      assert (steps + more)[1..] == steps[1..] + more;
    }
  }

  lemma GetsOn<C(!new)>(st: State<C>, mid: State<C>, end: State<C>)
    requires Gets(st, mid) && Gets(mid, end)
    ensures Gets(st, end)
  {
    var steps :| Leads(st, steps, mid) && !Torn(st, steps);
    var more :| Leads(mid, more, end) && !Torn(mid, more);
    LeadsOn(st, steps, mid, more, end);
  }

  lemma GetsOne<C(!new)>(st: State<C>, step: Step<C>) returns (end: State<C>)
    requires Can(st, step) && !Tears(st, step)
    ensures end == Do(st, step) && Gets(st, end)
  {
    end := Do(st, step);
    assert Leads(end, [], end) && !Torn(end, []);
    assert [step][1..] == [];
    assert Leads(st, [step], end) && !Torn(st, [step]);
  }

  /** One more step of a run. */
  lemma GetsNext<C(!new)>(st: State<C>, mid: State<C>, step: Step<C>) returns (end: State<C>)
    requires Gets(st, mid) && Can(mid, step) && !Tears(mid, step)
    ensures end == Do(mid, step) && Gets(st, end)
  {
    end := GetsOne(mid, step);
    GetsOn(st, mid, end);
  }

  /** A sync of a thread that waits for one, up to where it knows whether to load. */
  lemma SyncStarts<C(!new)>(st: State<C>, t: Tid) returns (end: State<C>)
    requires st.disk != [] && t in st.threads && st.threads[t].Waiting? && st.lock.None?
    ensures Gets(st, end)
    ensures var content := st.disk[Now(st)];
      var load := st.graph.None? || st.stored != Some(content);
      end == st.(stored := Some(content), lock := Some(t),
                 threads := st.threads[t := Indexed(st.threads[t].who, |st.log|, Now(st), load)])
  {
    var mid := GetsOne(st, Lock(t));
    mid := GetsNext(st, mid, ReadSeq(t));
    end := GetsNext(st, mid, Index(t, false));
    assert end.threads == st.threads[t := end.threads[t]];
  }

  /** ... and on to its publication. */
  lemma SyncEnds<C(!new)>(st: State<C>, t: Tid) returns (end: State<C>)
    requires t in st.threads && st.threads[t].Indexed? && st.stored.Some?
    ensures Gets(st, end)
    ensures var p := st.threads[t];
      end == st.(graph := if p.load then st.stored else st.graph, shown := p.snap, syncedSeq := p.at, synced := true,
                 lock := None, threads := st.threads[t := After(p.who)])
  {
    var mid := GetsOne(st, Load(t));
    end := GetsNext(st, mid, Publish(t));
    assert end.threads == st.threads[t := After(st.threads[t].who)];
  }

  lemma Looks<C(!new)>(st: State<C>, t: Tid, p: Phase<C>)
    requires IsCheck(p)
    ensures Gets(Moved(st, t, p), Moved(st, t, Checked(st, p)))
  {
    var end := GetsOne(Moved(st, t, p), Check(t));
    assert end.threads == st.threads[t := Checked(st, p)];
  }

  /** A reader that finds an event not yet synced waits for a sync, whichever of its looks
      tells it to. */
  lemma {:induction false} ReaderWaits<C(!new)>(st: State<C>, t: Tid, p: Phase<C>)
    requires st.syncedSeq != |st.log| && IsCheck(p) && (p.SawSeq? ==> p.seen == |st.log|)
    ensures Gets(Moved(st, t, p), Moved(st, t, Waiting(p.who)))
    decreases if p.CheckWatching? then 4 else if p.CheckSynced? then 3 else if p.CheckHealthy? then 2
              else if p.CheckSeq? then 1 else 0
  {
    Looks(st, t, p);
    var next := Checked(st, p);
    if IsCheck(next) {
      ReaderWaits(st, t, next);
      GetsOn(Moved(st, t, p), Moved(st, t, next), Moved(st, t, Waiting(p.who)));
    }
  }

  /** A reader that finds an event not yet synced when what is on disk is what is stored: it
      syncs, nothing is loaded, and it is given the graph that was published before. */
  lemma ReadsUnchanged<C(!new)>(st: State<C>, t: Tid) returns (end: State<C>)
    requires st.disk != [] && t !in st.threads && st.lock.None? && st.graph.Some?
    requires st.syncedSeq != |st.log| && st.stored == Some(st.disk[Now(st)])
    ensures Gets(st, end) && end.disk == st.disk && end.log == st.log && t in end.threads
    ensures end.threads[t] == Answered(Request(|st.log|, Now(st)), true, st.graph.value)
  {
    var who := Request(|st.log|, Now(st));
    var waiting := Moved(st, t, Waiting(who));
    var asked := GetsOne(st, Ask(t));
    ReaderWaits(st, t, CheckWatching(who));
    GetsOn(st, asked, waiting);
    var indexed := SyncStarts(waiting, t);
    GetsOn(st, waiting, indexed);
    var published := SyncEnds(indexed, t);
    GetsOn(st, indexed, published);
    end := GetsNext(st, published, Return(t));
  }

  lemma {:induction false} FreeTid(used: set<Tid>) returns (t: Tid)
    ensures forall x :: x in used ==> x < t
  {
    if used == {} {
      t := 0;
    } else {
      var x :| x in used;
      var u := FreeTid(used - {x});
      t := if u > x then u else x + 1;
      assert forall y :: y in used ==> y == x || y in used - {x};
    }
  }

  /** An answer that some thread has been given and that is not fresh. */
  ghost predicate Stale<C>(st: State<C>) {
    exists t :: t in st.threads && st.threads[t].Answered? && st.threads[t].who.Request? && !Fresh(st, st.threads[t])
  }

  /** Every torn load can do harm: once the content it failed to load is written again, and the
      event counted, the next reader syncs, finds nothing changed in the store, and is given
      the graph of the old content. */
  lemma TornLoadAnswersStale<C(!new)>(st: State<C>, step: Step<C>) returns (end: State<C>)
    requires Inv(st) && Can(st, step) && Tears(st, step)
    ensures Gets(Do(st, step), end) && Stale(end)
  {
    var torn := Do(st, step);
    assert Knows(st, st.threads[step.tid]);
    var content := st.stored.value;
    var written := GetsOne(torn, Write(content));
    var told := GetsNext(torn, written, Deliver(Now(written)));
    var t := FreeTid(told.threads.Keys);
    end := ReadsUnchanged(told, t);
    GetsOn(torn, told, end);
    forall v: nat ensures !IsFresh(end, end.threads[t], v) {
      assert end.log[|end.log| - 1] == Now(end);
      assert Covers(end.log, |end.log|, v) ==> end.log[|end.log| - 1] <= v;
    }
  }

  /** In a daemon whose answers have been fresh, a step lets a later answer be stale, with no
      torn load after it, if and only if it is a torn load itself. */
  lemma StaleExactly<C(!new)>(st: State<C>, step: Step<C>)
    requires Inv(st) && Honest(st) && AnswersFresh(st, {}) && Can(st, step)
    ensures Tears(st, step) <==> exists end :: Gets(Do(st, step), end) && Stale(end)
  {
    StepKeepsInv(st, step);
    HonestExactly(st, step);
    if Tears(st, step) {
      var end := TornLoadAnswersStale(st, step);
    } else {
      forall end | Gets(Do(st, step), end) ensures !Stale(end) {
        var steps :| Leads(Do(st, step), steps, end) && !Torn(Do(st, step), steps);
        AnswersStay(st, step, {});
        RunKeeps(Do(st, step), steps, end, {});
      }
    }
  }

  /** A first sync, and a second after a write, up to its load. */
  lemma SyncsTwice<C(!new)>(st: State<C>, new': C) returns (end: State<C>)
    requires Initial(st) && st.disk[0] != new'
    ensures Gets(st, end)
    ensures end.graph == Some(st.disk[0]) && end.stored == Some(new')
    ensures 1 in end.threads && end.threads[1].Indexed? && end.threads[1].load
  {
    var mid := GetsOne(st, Trigger(0));
    end := SyncStarts(mid, 0);
    GetsOn(st, mid, end);
    mid := SyncEnds(end, 0);
    GetsOn(st, end, mid);
    mid := GetsNext(st, mid, Write(new'));
    mid := GetsNext(st, mid, Trigger(1));
    end := SyncStarts(mid, 1);
    GetsOn(st, mid, end);
  }

  /** A torn load can happen in any daemon, and so can a stale answer. */
  lemma TornLoadHappens<C(!new)>(st: State<C>, new': C) returns (mid: State<C>, end: State<C>)
    requires Initial(st) && st.disk[0] != new'
    ensures Gets(st, mid) && Can(mid, LoadFails(1)) && Tears(mid, LoadFails(1))
    ensures Gets(Do(mid, LoadFails(1)), end) && Stale(end)
  {
    mid := SyncsTwice(st, new');
    var steps :| Leads(st, steps, mid) && !Torn(st, steps);
    RunKeeps(st, steps, mid, {});
    end := TornLoadAnswersStale(mid, LoadFails(1));
  }

  // ---------------------------------------------------------------------------------
  // A write whose event has not been counted

  /** A daemon that has synced and watches, and a write it has not heard of. */
  lemma SyncsThenWrites<C(!new)>(st: State<C>, new': C) returns (end: State<C>)
    requires Initial(st) && !st.degraded
    ensures Gets(st, end) && UpToDate(end) && end.lock.None? && 1 !in end.threads
    ensures end.disk == st.disk + [new'] && end.graph == Some(st.disk[0])
  {
    var mid := GetsOne(st, Trigger(0));
    end := SyncStarts(mid, 0);
    GetsOn(st, mid, end);
    mid := SyncEnds(end, 0);
    GetsOn(st, end, mid);
    mid := GetsNext(st, mid, Watch(true));
    end := GetsNext(st, mid, Write(new'));
  }

  /** Every healthy new daemon can be led to where a call that nothing interrupts is given a
      graph that is not that of the disk: it watches, it has synced, and the event of a write
      has not been counted yet. */
  lemma UncountedWriteMissed<C(!new)>(st: State<C>, new': C) returns (mid: State<C>, steps: seq<Step<C>>, end: State<C>)
    requires Initial(st) && !st.degraded && st.disk[0] != new'
    ensures Gets(st, mid) && AnswerRun(mid, 1, steps, end)
    ensures end.disk == st.disk + [new'] && end.threads[1].graph == st.disk[0] != end.disk[Now(end)]
  {
    mid := SyncsThenWrites(st, new');
    var run :| Leads(st, run, mid) && !Torn(st, run);
    RunKeeps(st, run, mid, {});
    CallIsAnswered(mid, 1);
    steps, end :| AnswerRun(mid, 1, steps, end);
    CallRun(mid, mid, steps, end, 1);
  }
}
