/** The table of open projects: one session per path, counted while calls run against it. */
module Sessions {
  import opened CodeGraph

  /** An open project.  `open` says that its store has not been closed. */
  class Session {
    const path: string
    var inUse: int
    var lastUsed: int
    var open: bool

    constructor (path: string)
      ensures this.path == path && inUse == 0 && lastUsed == 0 && open
    {
      this.path, inUse, lastUsed, open := path, 0, 0, true;
    }

    /** Records a use, and a call that holds the session if asked to. */
    method Touch(hold: bool, now: int)
      modifies this`inUse, this`lastUsed
      ensures lastUsed == now && inUse == old(inUse) + (if hold then 1 else 0)
    {
      lastUsed := now;
      if hold {
        inUse := inUse + 1;
      }
    }

    method Close()
      modifies this`open
      ensures !open
    {
      open := false;
    }
  }

  /** What the world answers when a project is opened: whether its path, its store and its
      fresh graph can be had. */
  datatype Outcome = Outcome(absPath: Option<string>, storeOpens: bool, refreshes: bool)

  lemma NoneDone<V>(all: map<string, V>, idle: set<string>, todo: set<string>)
    requires idle <= todo && todo == all.Keys
    ensures idle - todo == {} && all - (idle - todo) == all
  {
  }

  lemma StillThere<V>(all: map<string, V>, idle: set<string>, todo: set<string>, p: string)
    requires p in todo && todo <= all.Keys
    ensures p in all - (idle - todo) && (all - (idle - todo))[p] == all[p]
  {
  }

  lemma OneKept(idle: set<string>, todo: set<string>, p: string)
    requires p in todo && p !in idle
    ensures idle - (todo - {p}) == idle - todo
  {
  }

  lemma OneGone<V>(all: map<string, V>, idle: set<string>, todo: set<string>, p: string)
    requires p in todo && p in idle
    ensures |idle - (todo - {p})| == |idle - todo| + 1
    ensures all - (idle - todo) - {p} == all - (idle - (todo - {p}))
  {
    assert idle - (todo - {p}) == (idle - todo) + {p};
  }

  /** One step of a server: a call begins, a call that holds nothing, a call ends (by its
      place among those running), idle sessions are closed. */
  datatype Step =
    | Acquire(outcome: Outcome, now: int)
    | Get(outcome: Outcome, now: int)
    | End(call: nat, now: int)
    | Evict(now: int, ttl: int)

  class SessionTable {
    var sessions: map<string, Session>
    ghost var known: set<Session>
    ghost var calls: multiset<Session>
    ghost var shutDown: bool

    /** The session is open exactly while it is in the table, `inUse` is the number of calls
        that hold it, and until shutdown a held session is open. */
    ghost predicate Sound(s: Session)
      reads this, s
    {
      && (s.open <==> s.path in sessions && sessions[s.path] == s)
      && s.inUse == calls[s]
      && (s.inUse > 0 ==> shutDown || s.open)
    }

    /** What holds between any two steps. */
    ghost predicate Valid()
      reads this, known
    {
      && (forall p :: p in sessions ==> sessions[p] in known && sessions[p].path == p)
      && (forall s :: s in known ==> Sound(s))
      && (forall s :: s in calls ==> s in known)
    }

    constructor ()
      ensures Valid() && sessions == map[] && known == {} && calls == multiset{} && !shutDown
    {
      sessions, known, calls, shutDown := map[], {}, multiset{}, false;
    }

    /** Opens a project that is not in the table. */
    method Add(path: string) returns (s: Session)
      requires Valid() && path !in sessions
      modifies this`sessions, this`known
      ensures Valid() && fresh(s) && known == old(known) + {s}
      ensures s.path == path && sessions == old(sessions)[path := s]
    {
      s := new Session(path);
      sessions := sessions[path := s];
      known := known + {s};
      assert s !in calls;
    }

    /** Counts a use of a session in the table. */
    method Use(s: Session, hold: bool, now: int)
      requires Valid() && s in known && s.open
      modifies this`calls, s`inUse, s`lastUsed
      ensures Valid() && s.lastUsed == now
      ensures calls == if hold then old(calls)[s := old(calls)[s] + 1] else old(calls)
    {
      assert Sound(s);
      s.Touch(hold, now);
      if hold {
        calls := calls[s := calls[s] + 1];
      }
    }

    /** The session of a project, made on first use.  `hold` is for a call that runs on it. */
    method Open(outcome: Outcome, hold: bool, now: int) returns (sess: Option<Session>)
      requires Valid()
      modifies this`sessions, this`known, this`calls, known
      ensures Valid() && old(known) <= known && fresh(known - old(known))
      ensures sess.Some? <==> outcome.absPath.Some? && outcome.refreshes
                              && (outcome.absPath.value in old(sessions) || outcome.storeOpens)
      ensures sess.Some? ==> sess.value.path == outcome.absPath.value && sess.value in known && sess.value.open
      ensures sess.Some? ==> sess.value.lastUsed == now && sess.value.path in sessions
      ensures calls == if sess.Some? && hold then old(calls)[sess.value := old(calls)[sess.value] + 1] else old(calls)
      ensures forall p :: p in old(sessions) ==> p in sessions && sessions[p] == old(sessions)[p]
      ensures forall p :: p in sessions && p !in old(sessions) ==> outcome.absPath == Some(p) && outcome.storeOpens
      ensures forall s: Session :: s in old(known) && sess != Some(s) ==> s.lastUsed == old(s.lastUsed)
    {
      if outcome.absPath.None? {
        return None;
      }
      var path := outcome.absPath.value;
      if path !in sessions {
        if !outcome.storeOpens {
          return None;
        }
        var made := Add(path);
      }
      var s := sessions[path];
      assert Sound(s);
      if !outcome.refreshes {
        return None;
      }
      Use(s, hold, now);
      sess := Some(s);
    }

    /** The end of a call. */
    method Release(s: Session, now: int)
      requires Valid() && s in calls
      modifies this`calls, s`inUse, s`lastUsed
      ensures Valid() && calls == old(calls)[s := old(calls)[s] - 1]
      ensures s.inUse == old(s.inUse) - 1 && s.lastUsed == now
    {
      assert Sound(s);
      s.inUse := s.inUse - 1;
      s.lastUsed := now;
      calls := calls[s := calls[s] - 1];
    }

    /** One tool call: it holds its session while it runs, and leaves none held behind, nor
        when the session cannot be had. */
    method WithSession(outcome: Outcome, now: int, later: int) returns (ran: bool)
      requires Valid()
      modifies this`sessions, this`known, this`calls, known
      ensures Valid() && calls == old(calls)
      ensures ran ==> outcome.absPath.Some? && outcome.absPath.value in sessions
    {
      var sess := Open(outcome, true, now);
      if sess.None? {
        return false;
      }
      assert Sound(sess.value);
      Release(sess.value, later);
      ran := true;
    }

    /** Any number of calls at once: opened, ended and interrupted by evictions in any order.
        `held` lists the sessions of the calls still running. */
    method Serve(steps: seq<Step>) returns (held: seq<Session>)
      requires Valid() && calls == multiset{} && !shutDown
      modifies this`sessions, this`known, this`calls, known
      ensures Valid() && multiset(held) == calls
      ensures forall s :: s in held ==> s.open && s.path in sessions && sessions[s.path] == s
      ensures forall s :: s in known ==> s.inUse == multiset(held)[s]
    {
      held := [];
      for i := 0 to |steps|
        invariant Valid() && multiset(held) == calls && !shutDown
        invariant old(known) <= known && fresh(known - old(known))
      {
        held := Take(steps[i], held);
      }
      forall s | s in known ensures s.inUse == multiset(held)[s] {
        assert Sound(s);
      }
      forall s | s in held ensures s.open && s.path in sessions && sessions[s.path] == s {
        assert s in calls;
        assert Sound(s);
      }
    }

    method EndCall(held0: seq<Session>, call: nat, now: int) returns (held: seq<Session>)
      requires Valid() && multiset(held0) == calls && call < |held0|
      modifies this`calls, known
      ensures Valid() && multiset(held) == calls
    {
      assert held0 == held0[..call] + [held0[call]] + held0[call + 1..];
      assert held0[call] in calls;
      Release(held0[call], now);
      held := held0[..call] + held0[call + 1..];
    }

    method Take(step: Step, held0: seq<Session>) returns (held: seq<Session>)
      requires Valid() && multiset(held0) == calls && !shutDown
      modifies this`sessions, this`known, this`calls, known
      ensures Valid() && multiset(held) == calls && !shutDown
      ensures old(known) <= known && fresh(known - old(known))
    {
      held := held0;
      match step
      case Acquire(outcome, now) =>
        var sess := Open(outcome, true, now);
        if sess.Some? {
          held := held + [sess.value];
        }
      case Get(outcome, now) =>
        var sess := Open(outcome, false, now);
      case End(call, now) =>
        if call < |held| {
          held := EndCall(held, call, now);
        }
      case Evict(now, ttl) =>
        var evicted := Evict(now, ttl);
    }

    /** Closes one session and forgets it. */
    method Drop(p: string, s: Session)
      requires Valid() && p in sessions && sessions[p] == s && (shutDown || s.inUse <= 0)
      modifies this`sessions, s`open
      ensures Valid() && sessions == old(sessions) - {p} && !s.open
    {
      assert Sound(s);
      s.Close();
      sessions := sessions - {p};
    }

    /** The paths of the sessions that no call has in flight and that were last used longer
        than `ttl` ago. */
    ghost function IdlePaths(now: int, ttl: int): set<string>
      requires Valid()
      reads this, known
    {
      set p | p in sessions && sessions[p].inUse <= 0 && now - sessions[p].lastUsed > ttl
    }

    /** Closes exactly the idle sessions: no running call loses its store. */
    method Evict(now: int, ttl: int) returns (evicted: nat)
      requires Valid()
      modifies this`sessions, known`open
      ensures Valid() && sessions == old(sessions) - old(IdlePaths(now, ttl))
      ensures evicted == |old(IdlePaths(now, ttl))|
      ensures forall s: Session :: s in calls && !shutDown ==> s.open
    {
      evicted := 0;
      ghost var all, idle := sessions, IdlePaths(now, ttl);
      var todo := sessions.Keys;
      NoneDone(all, idle, todo);
      while todo != {}
        invariant Valid() && todo <= all.Keys
        invariant sessions == all - (idle - todo) && evicted == |idle - todo|
        decreases todo
      {
        var p :| p in todo;
        StillThere(all, idle, todo, p);
        var s := sessions[p];
        assert s == all[p];
        if s.inUse > 0 || now - s.lastUsed <= ttl {
          OneKept(idle, todo, p);
        } else {
          OneGone(all, idle, todo, p);
          Drop(p, s);
          evicted := evicted + 1;
        }
        todo := todo - {p};
      }
      assert idle - {} == idle;
      HeldAreOpen();
    }

    lemma HeldAreOpen()
      requires Valid()
      ensures forall s: Session :: s in calls && !shutDown ==> s.open
    {
      forall s: Session | s in calls && !shutDown ensures s.open {
        assert Sound(s);
      }
    }

    /** Shutdown: closes every session, held or not. */
    method CloseAll()
      requires Valid()
      modifies this`sessions, this`shutDown, known`open
      ensures Valid() && sessions == map[] && shutDown
      ensures forall s :: s in known ==> !s.open
    {
      shutDown := true;
      var todo := sessions.Keys;
      while todo != {}
        invariant Valid() && shutDown && todo == sessions.Keys
        decreases todo
      {
        var p :| p in todo;
        todo := todo - {p};
        Drop(p, sessions[p]);
      }
      forall s | s in known ensures !s.open {
        assert Sound(s);
      }
    }

    /** Each path has at most one open session. */
    lemma OneOpenPerPath(s: Session, t: Session)
      requires Valid() && s in known && t in known && s.open && t.open && s.path == t.path
      ensures s == t
    {
      assert Sound(s) && Sound(t);
    }

    /** The count of a session is the number of calls that hold it, and a store that a call
        holds is open until shutdown. */
    lemma HeldIsOpen(s: Session)
      requires Valid() && s in calls
      ensures s.inUse == calls[s] && (s.open || shutDown)
      ensures s.inUse > 0
    {
      assert Sound(s);
    }
  }
}
