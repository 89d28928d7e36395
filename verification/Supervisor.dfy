/** The Windows service controller's table of session agents: one child process per active
    session. What the operating system answers (sessions, spawned processes, liveness) comes in
    as parameters; a process is identified by its handle. */
module Supervisor {
  import opened Bytes

  datatype Reason =
    | ConsoleConnect | ConsoleDisconnect | RemoteConnect | RemoteDisconnect | SessionLogon | SessionLogoff
    | SessionLock | SessionUnlock | SessionRemoteControl | SessionCreate | SessionTerminate

  predicate StartsSession(r: Reason) {
    r.ConsoleConnect? || r.RemoteConnect? || r.SessionLogon? || r.SessionUnlock? || r.SessionCreate?
  }

  predicate EndsSession(r: Reason) {
    r.ConsoleDisconnect? || r.RemoteDisconnect? || r.SessionLogoff? || r.SessionTerminate?
  }

  /** The table, and the fate of every process spawned so far. */
  datatype Table = Table(agents: map<nat, nat>, spawned: set<nat>, reaped: set<nat>, terminated: set<nat>)

  const START: Table := Table(map[], {}, {}, {})

  /** Processes no longer in the table, given as the sessions that left it. */
  function Removed(agents: map<nat, nat>, sessions: set<nat>): set<nat> {
    set s | s in agents && s in sessions :: agents[s]
  }

  function Ensure(t: Table, session: nat, spawn: Option<nat>): Table {
    if session == 0 || session in t.agents || spawn.None? then t
    else t.(agents := t.agents[session := spawn.value], spawned := t.spawned + {spawn.value})
  }

  function Stop(t: Table, sessions: set<nat>): Table {
    t.(agents := t.agents - sessions, terminated := t.terminated + Removed(t.agents, sessions))
  }

  function Reap(t: Table, running: set<nat>): Table {
    var exited := set s | s in t.agents && t.agents[s] !in running;
    t.(agents := t.agents - exited, reaped := t.reaped + Removed(t.agents, exited))
  }

  /** The agents spawned for active sessions that have none. */
  function Started(t: Table, active: set<nat>, spawn: map<nat, nat>): map<nat, nat> {
    map s | s in active && s in spawn && s != 0 && s !in t.agents :: spawn[s]
  }

  function EnsureAll(t: Table, active: set<nat>, spawn: map<nat, nat>): Table {
    var started := Started(t, active, spawn);
    t.(agents := t.agents + started, spawned := t.spawned + started.Values)
  }

  function Reconcile(t: Table, active: set<nat>, spawn: map<nat, nat>): Table {
    var started := EnsureAll(t, active, spawn);
    Stop(started, started.agents.Keys - active)
  }

  class SessionAgents {
    var agents: map<nat, nat>
    ghost var spawned: set<nat>
    ghost var reaped: set<nat>
    ghost var terminated: set<nat>

    constructor ()
      ensures State() == START
    {
      agents, spawned, reaped, terminated := map[], {}, {}, {};
    }

    ghost function State(): Table
      reads this
    {
      Table(agents, spawned, reaped, terminated)
    }

    method EnsureAgent(sessionId: nat, spawn: Option<nat>)
      modifies this
      ensures State() == Ensure(old(State()), sessionId, spawn)
    {
      if sessionId == 0 || sessionId in agents {
        return;
      }
      match spawn
      case Some(process) =>
        agents := agents[sessionId := process];
        spawned := spawned + {process};
      case None =>
    }

    method StopSession(sessionId: nat)
      modifies this
      ensures State() == Stop(old(State()), {sessionId})
    {
      ghost var before := agents;
      if sessionId in agents {
        terminated := terminated + {agents[sessionId]};
        agents := agents - {sessionId};
        assert Removed(before, {sessionId}) == {before[sessionId]};
      } else {
        assert Removed(before, {sessionId}) == {};
        assert before - {sessionId} == before;
      }
    }

    method ReapExited(running: set<nat>)
      modifies this
      ensures State() == Reap(old(State()), running)
    {
      var exited := set s | s in agents && agents[s] !in running;
      reaped := reaped + Removed(agents, exited);
      agents := agents - exited;
    }

    /** Sessions are visited in any order. */
    method StopSessions(sessions: set<nat>)
      modifies this
      ensures State() == Stop(old(State()), sessions)
    {
      var todo := sessions;
      StopNothing(State());
      while todo != {}
        invariant todo <= sessions
        invariant State() == Stop(old(State()), sessions - todo)
        decreases todo
      {
        var s :| s in todo;
        StopOneMore(old(State()), sessions - todo, s);
        StopSession(s);
        assert sessions - (todo - {s}) == (sessions - todo) + {s};
        todo := todo - {s};
      }
      assert sessions - todo == sessions;
    }

    method ReconcileActiveSessions(active: Option<set<nat>>, spawn: map<nat, nat>) returns (ok: bool)
      modifies this
      ensures ok == active.Some?
      ensures State() == if ok then Reconcile(old(State()), active.value, spawn) else old(State())
    {
      match active
      case None => return false;
      case Some(sessions) =>
        var todo := sessions;
        EnsureNothing(State(), spawn);
        while todo != {}
          invariant todo <= sessions
          invariant State() == EnsureAll(old(State()), sessions - todo, spawn)
          decreases todo
        {
          var s :| s in todo;
          EnsureOneMore(old(State()), sessions - todo, spawn, s);
          EnsureAgent(s, if s in spawn then Some(spawn[s]) else None);
          assert sessions - (todo - {s}) == (sessions - todo) + {s};
          todo := todo - {s};
        }
        assert sessions - todo == sessions;
        StopSessions(agents.Keys - sessions);
        return true;
    }

    method HandleSessionChange(sessionId: nat, reason: Reason, active: Option<set<nat>>, spawn: map<nat, nat>)
      returns (ok: bool)
      modifies this
      ensures (State(), ok) == SessionChange(old(State()), sessionId, reason, active, spawn)
    {
      if StartsSession(reason) {
        match active
        case None => return false;
        case Some(sessions) =>
          if sessionId in sessions {
            EnsureAgent(sessionId, if sessionId in spawn then Some(spawn[sessionId]) else None);
          }
      } else if EndsSession(reason) {
        StopSession(sessionId);
      }
      return true;
    }

    method StopAll()
      modifies this
      ensures State() == Stop(old(State()), old(agents).Keys)
    {
      StopSessions(agents.Keys);
    }
  }

  function SessionChange(t: Table, session: nat, reason: Reason, active: Option<set<nat>>, spawn: map<nat, nat>)
    : (Table, bool)
  {
    if StartsSession(reason) then
      if active.None? then (t, false)
      else if session in active.value then
        (Ensure(t, session, if session in spawn then Some(spawn[session]) else None), true)
      else (t, true)
    else if EndsSession(reason) then (Stop(t, {session}), true)
    else (t, true)
  }

  // ---------- Set-at-a-time and one-at-a-time agree ----------

  lemma {:induction false} StopNothing(t: Table)
    ensures Stop(t, {}) == t
  {
    assert Removed(t.agents, {}) == {};
    assert t.agents - {} == t.agents;
  }

  lemma {:induction false} StopOneMore(t: Table, sessions: set<nat>, s: nat)
    ensures Stop(Stop(t, sessions), {s}) == Stop(t, sessions + {s})
  {
    var mid := t.agents - sessions;
    assert mid - {s} == t.agents - (sessions + {s});
    assert Removed(t.agents, sessions + {s}) == Removed(t.agents, sessions) + Removed(mid, {s});
  }

  lemma {:induction false} EnsureNothing(t: Table, spawn: map<nat, nat>)
    ensures EnsureAll(t, {}, spawn) == t
  {
    assert Started(t, {}, spawn) == map[];
  }

  lemma {:induction false} EnsureOneMore(t: Table, active: set<nat>, spawn: map<nat, nat>, s: nat)
    requires s !in active
    ensures Ensure(EnsureAll(t, active, spawn), s, if s in spawn then Some(spawn[s]) else None) ==
            EnsureAll(t, active + {s}, spawn)
  {
    var before, after := Started(t, active, spawn), Started(t, active + {s}, spawn);
    if s in spawn && s != 0 && s !in t.agents {
      assert after == before[s := spawn[s]];
      assert after.Values == before.Values + {spawn[s]} by {
        assert forall p | p in before.Values :: exists k :: k in before && before[k] == p && after[k] == p;
        assert after[s] == spawn[s];
      }
      assert t.agents + after == (t.agents + before)[s := spawn[s]];
    } else {
      assert after == before;
    }
  }

  // ---------- No process is lost ----------

  ghost predicate Injective(m: map<nat, nat>) {
    forall a, b | a in m && b in m && m[a] == m[b] :: a == b
  }

  /** Every spawned process is exactly one of tracked, reaped as not running, or passed to terminate;
      session 0 has none, and no process serves two sessions. */
  ghost predicate Conserved(t: Table) {
    && 0 !in t.agents && Injective(t.agents)
    && t.spawned == t.agents.Values + t.reaped + t.terminated
    && t.agents.Values !! t.reaped !! t.terminated
  }

  /** The operating system gives each new process a handle of its own. */
  ghost predicate FreshSpawns(t: Table, spawn: map<nat, nat>) {
    Injective(spawn) && spawn.Values !! t.spawned
  }

  lemma {:induction false} SplitValues(m: map<nat, nat>, gone: set<nat>)
    requires Injective(m)
    ensures m.Values == (m - gone).Values + Removed(m, gone)
    ensures (m - gone).Values !! Removed(m, gone)
    ensures Injective(m - gone)
  {
    forall p | p in m.Values
      ensures p in (m - gone).Values + Removed(m, gone)
    {
      var s :| s in m && m[s] == p;
      if s !in gone {
        assert (m - gone)[s] == p;
      }
    }
  }

  lemma {:induction false} StopConserves(t: Table, sessions: set<nat>)
    requires Conserved(t)
    ensures Conserved(Stop(t, sessions))
  {
    SplitValues(t.agents, sessions);
  }

  lemma {:induction false} ReapConserves(t: Table, running: set<nat>)
    requires Conserved(t)
    ensures Conserved(Reap(t, running))
  {
    SplitValues(t.agents, set s | s in t.agents && t.agents[s] !in running);
  }

  lemma {:induction false} EnsureAllConserves(t: Table, active: set<nat>, spawn: map<nat, nat>)
    requires Conserved(t) && FreshSpawns(t, spawn)
    ensures Conserved(EnsureAll(t, active, spawn))
  {
    var started := Started(t, active, spawn);
    assert forall s | s in started :: started[s] == spawn[s];
    assert started.Values <= spawn.Values;
    assert started.Keys !! t.agents.Keys && 0 !in started;
    assert Injective(started);
    hide Started, Injective;
    DisjointUnion(t.agents, started);
  }

  lemma {:induction false} DisjointUnion(m: map<nat, nat>, n: map<nat, nat>)
    requires m.Keys !! n.Keys
    ensures (m + n).Values == m.Values + n.Values
    ensures Injective(m) && Injective(n) && m.Values !! n.Values ==> Injective(m + n)
  {
    var all := m + n;
    forall p | p in m.Values + n.Values
      ensures p in all.Values
    {
      if p in m.Values {
        var s :| s in m && m[s] == p;
        assert all[s] == p;
      } else {
        var s :| s in n && n[s] == p;
        assert all[s] == p;
      }
    }
    assert forall s | s in m :: m[s] in m.Values && all[s] == m[s];
    assert forall s | s in n :: n[s] in n.Values && all[s] == n[s];
  }

  lemma {:induction false} EnsureConserves(t: Table, session: nat, spawn: map<nat, nat>)
    requires Conserved(t) && FreshSpawns(t, spawn)
    ensures Conserved(Ensure(t, session, if session in spawn then Some(spawn[session]) else None))
  {
    EnsureNothing(t, spawn);
    EnsureOneMore(t, {}, spawn, session);
    EnsureAllConserves(t, {} + {session}, spawn);
  }

  /** After a reconcile exactly the active sessions that had an agent or got one are tracked. */
  lemma {:induction false} ReconcileTracksActive(t: Table, active: set<nat>, spawn: map<nat, nat>)
    requires Conserved(t) && FreshSpawns(t, spawn)
    ensures var t' := Reconcile(t, active, spawn);
      && Conserved(t')
      && (forall s :: s in t'.agents <==> s in active && s != 0 && (s in t.agents || s in spawn))
      && (forall s | s in t'.agents :: t'.agents[s] == if s in t.agents then t.agents[s] else spawn[s])
      && t'.spawned == t.spawned + (set s | s in active && s != 0 && s in spawn && s !in t.agents :: spawn[s])
      && t'.reaped == t.reaped
      && t'.terminated == t.terminated + (set s | s in t.agents && s !in active :: t.agents[s])
  {
    EnsureAllConserves(t, active, spawn);
    var started := EnsureAll(t, active, spawn);
    StopConserves(started, started.agents.Keys - active);
    hide Conserved, FreshSpawns;
    StartedValues(t, active, spawn);
    assert Removed(started.agents, started.agents.Keys - active)
        == set s | s in t.agents && s !in active :: t.agents[s] by {
      assert forall s | s in started.agents && s !in active :: s in t.agents && started.agents[s] == t.agents[s];
      assert forall s | s in t.agents && s !in active :: s in started.agents && started.agents[s] == t.agents[s];
    }
  }

  lemma {:induction false} StartedValues(t: Table, active: set<nat>, spawn: map<nat, nat>)
    ensures Started(t, active, spawn).Values ==
            set s | s in active && s != 0 && s in spawn && s !in t.agents :: spawn[s]
  {
    var started := Started(t, active, spawn);
    assert forall s | s in active && s != 0 && s in spawn && s !in t.agents :: s in started && started[s] == spawn[s];
  }

  // ---------- Whole runs of the controller ----------

  datatype Event =
    | Change(session: nat, reason: Reason, active: Option<set<nat>>, spawn: map<nat, nat>)
    | Scan(running: set<nat>, active: Option<set<nat>>, spawn: map<nat, nat>)
    | StopService

  datatype Outcome = Running | Stopped | Failed

  /** One turn of the loop; a failed enumeration leaves it without stopping the agents. */
  function Turn(t: Table, e: Event): (Table, Outcome) {
    match e
    case StopService => (Stop(t, t.agents.Keys), Stopped)
    case Change(session, reason, active, spawn) =>
      var (t', ok) := SessionChange(t, session, reason, active, spawn);
      (t', if ok then Running else Failed)
    case Scan(running, active, spawn) =>
      var reaped := Reap(t, running);
      if active.None? then (reaped, Failed) else (Reconcile(reaped, active.value, spawn), Running)
  }

  function RunController(t: Table, events: seq<Event>): (Table, Outcome)
    decreases events
  {
    if events == [] then (t, Running)
    else
      var (t', outcome) := Turn(t, events[0]);
      if outcome.Running? then RunController(t', events[1..]) else (t', outcome)
  }

  ghost predicate FreshEvents(t: Table, events: seq<Event>)
    decreases events
  {
    events == [] ||
    ((events[0].StopService? || FreshSpawns(t, events[0].spawn)) && FreshEvents(Turn(t, events[0]).0, events[1..]))
  }

  lemma {:induction false} TurnConserves(t: Table, e: Event)
    requires Conserved(t) && (e.StopService? || FreshSpawns(t, e.spawn))
    ensures Conserved(Turn(t, e).0)
    ensures Turn(t, e).1.Stopped? ==> Turn(t, e).0.agents == map[]
  {
    match e
    case StopService =>
      StopConserves(t, t.agents.Keys);
      assert t.agents - t.agents.Keys == map[];
    case Change(session, reason, active, spawn) =>
      EnsureConserves(t, session, spawn);
      StopConserves(t, {session});
    case Scan(running, active, spawn) =>
      ReapConserves(t, running);
      if active.Some? {
        ReconcileTracksActive(Reap(t, running), active.value, spawn);
      }
  }

  /** After a reap exactly the agents reported running are tracked, as before, and the others are
      reaped. */
  lemma {:induction false} ReapKeepsRunning(t: Table, running: set<nat>)
    ensures var t' := Reap(t, running);
      && (forall s :: s in t'.agents <==> s in t.agents && t.agents[s] in running)
      && (forall s | s in t'.agents :: t'.agents[s] == t.agents[s])
      && t'.reaped == t.reaped + (set s | s in t.agents && t.agents[s] !in running :: t.agents[s])
      && t'.spawned == t.spawned && t'.terminated == t.terminated
  {
    assert Removed(t.agents, set s | s in t.agents && t.agents[s] !in running)
        == set s | s in t.agents && t.agents[s] !in running :: t.agents[s];
  }

  /** The four reasons that end a session: its agent is terminated, and nothing else changes. */
  lemma {:induction false} EndOfSession(t: Table, session: nat, reason: Reason, active: Option<set<nat>>,
                                        spawn: map<nat, nat>)
    requires reason in [ConsoleDisconnect, RemoteDisconnect, SessionLogoff, SessionTerminate]
    ensures Turn(t, Change(session, reason, active, spawn)) ==
            (Table(t.agents - {session}, t.spawned, t.reaped,
                   if session in t.agents then t.terminated + {t.agents[session]} else t.terminated),
             Running)
  {
    assert Removed(t.agents, {session}) == if session in t.agents then {t.agents[session]} else {};
    assert t.terminated + {} == t.terminated;
    assert EndsSession(reason) && !StartsSession(reason);
  }

  /** The five reasons that start one: a failed enumeration ends the controller; otherwise an active
      session other than 0 without an agent gets the process spawned for it, if any, and nothing
      else changes. */
  lemma {:induction false} StartOfSession(t: Table, session: nat, reason: Reason, active: Option<set<nat>>,
                                          spawn: map<nat, nat>)
    requires reason in [ConsoleConnect, RemoteConnect, SessionLogon, SessionUnlock, SessionCreate]
    ensures var (t', outcome) := Turn(t, Change(session, reason, active, spawn));
      && outcome == (if active == None then Failed else Running)
      && t'.reaped == t.reaped && t'.terminated == t.terminated
      && var spawns := active.Some? && session in active.value && session != 0
                       && session !in t.agents && session in spawn;
      && (session in t'.agents <==> session in t.agents || spawns)
      && t'.agents == (if spawns then t.agents[session := spawn[session]] else t.agents)
      && t'.spawned == (if spawns then t.spawned + {spawn[session]} else t.spawned)
  {
  }

  lemma {:induction false} OtherReasonsChangeNothing(t: Table, session: nat, reason: Reason,
                                                     active: Option<set<nat>>, spawn: map<nat, nat>)
    requires reason in [SessionLock, SessionRemoteControl]
    ensures Turn(t, Change(session, reason, active, spawn)) == (t, Running)
  {
  }

  /** The eleven reasons are those three kinds, so a session change fails exactly when the sessions
      cannot be enumerated on one of the five that start a session. */
  lemma {:induction false} ChangeFailsExactlyWhen(t: Table, session: nat, reason: Reason,
                                                  active: Option<set<nat>>, spawn: map<nat, nat>)
    ensures Turn(t, Change(session, reason, active, spawn)).1 == Failed
            <==> active == None
                 && reason in [ConsoleConnect, RemoteConnect, SessionLogon, SessionUnlock, SessionCreate]
  {
  }

  /** A stop request terminates every tracked agent, and a scan reaps and then reconciles: its agents
      are the running ones of active sessions and the ones spawned for the rest. */
  lemma {:induction false} StopAndScan(t: Table, running: set<nat>, active: set<nat>, spawn: map<nat, nat>)
    requires Conserved(t) && FreshSpawns(t, spawn)
    ensures Turn(t, StopService) ==
            (Table(map[], t.spawned, t.reaped, t.terminated + t.agents.Values), Stopped)
    ensures var (t', outcome) := Turn(t, Scan(running, Some(active), spawn));
      && outcome == Running
      && (forall s :: s in t'.agents <==>
            s in active && s != 0 && ((s in t.agents && t.agents[s] in running) || s in spawn))
      && (forall s | s in t'.agents ::
            t'.agents[s] == if s in t.agents && t.agents[s] in running then t.agents[s] else spawn[s])
      && t'.reaped == t.reaped + (set s | s in t.agents && t.agents[s] !in running :: t.agents[s])
      && t'.terminated == t.terminated
                          + (set s | s in t.agents && t.agents[s] in running && s !in active :: t.agents[s])
  {
    assert t.agents - t.agents.Keys == map[];
    assert Removed(t.agents, t.agents.Keys) == t.agents.Values;
    ReapKeepsRunning(t, running);
    ReapConserves(t, running);
    var mid := Reap(t, running);
    ReconcileTracksActive(mid, active, spawn);
    hide Reap, Reconcile, Conserved;
    assert (set s | s in mid.agents && s !in active :: mid.agents[s])
        == set s | s in t.agents && t.agents[s] in running && s !in active :: t.agents[s];
  }

  /** Over any run no process is lost track of; when the service is stopped, every process ever
      spawned was reported not running or passed to terminate. */
  lemma {:induction false} NoProcessIsLost(t: Table, events: seq<Event>)
    requires Conserved(t) && FreshEvents(t, events)
    ensures var (t', outcome) := RunController(t, events);
      && Conserved(t')
      && (t'.spawned == t'.reaped + t'.terminated <==> t'.agents == map[])
      && (outcome.Stopped? ==> t'.spawned == t'.reaped + t'.terminated)
    decreases events
  {
    if events != [] {
      TurnConserves(t, events[0]);
      if Turn(t, events[0]).1.Running? {
        NoProcessIsLost(Turn(t, events[0]).0, events[1..]);
      }
    }
    var t' := RunController(t, events).0;
    assert t'.agents.Values == {} <==> t'.agents == map[] by {
      if t'.agents != map[] {
        var s :| s in t'.agents;
        assert t'.agents[s] in t'.agents.Values;
      }
    }
  }

  lemma {:induction false} ReapNothing(t: Table, running: set<nat>)
    requires forall s | s in t.agents :: t.agents[s] in running
    ensures Reap(t, running) == t
  {
    StopNothing(t);
  }

  /** The turn is a stop request, or a scan that finds no tracked agent running. */
  predicate NothingLeft(t: Table, e: Event) {
    e.StopService? || forall s | s in t.agents :: e.Scan? && t.agents[s] !in e.running
  }

  lemma {:induction false} AccountedWhenEmpty(t: Table)
    requires Conserved(t)
    ensures t.spawned == t.reaped + t.terminated <==> t.agents == map[]
  {
    if t.agents != map[] {
      var s :| s in t.agents;
      assert t.agents[s] in t.agents.Values;
    }
  }

  lemma {:induction false} EndingTurn(t: Table, e: Event)
    requires Conserved(t) && (e.StopService? || FreshSpawns(t, e.spawn)) && !Turn(t, e).1.Running?
    ensures var t' := Turn(t, e).0;
      t'.spawned == t'.reaped + t'.terminated <==> NothingLeft(t, e)
  {
    hide Conserved, Removed;
    TurnConserves(t, e);
    AccountedWhenEmpty(Turn(t, e).0);
    match e
    case StopService =>
    case Change(_, _, _, _) => assert Turn(t, e).0 == t;
    case Scan(running, _, _) =>
      assert forall s :: s in Reap(t, running).agents <==> s in t.agents && t.agents[s] in running;
  }

  /** How many turns a run takes before the one that ends it. */
  function TurnsBeforeEnd(t: Table, events: seq<Event>): (n: nat)
    ensures n <= |events|
    decreases events
  {
    if events == [] || !Turn(t, events[0]).1.Running? then 0
    else 1 + TurnsBeforeEnd(Turn(t, events[0]).0, events[1..])
  }

  /** Every run that ends: the last turn starts from a table with every process accounted for, and
      leaves no agent behind exactly when it is a stop request or finds no tracked agent running. A
      failed enumeration after a session change leaves all of them, one in a scan the survivors. */
  lemma {:induction false} NoAgentLeftExactlyWhen(t: Table, events: seq<Event>)
    requires Conserved(t) && FreshEvents(t, events) && !RunController(t, events).1.Running?
    ensures var n, t' := TurnsBeforeEnd(t, events), RunController(t, events).0;
      n < |events| &&
      var (before, outcome) := RunController(t, events[..n]);
      && outcome.Running? && Conserved(before)
      && RunController(t, events) == Turn(before, events[n])
      && (t'.spawned == t'.reaped + t'.terminated <==> NothingLeft(before, events[n]))
    decreases events
  {
    hide Conserved, Turn, NothingLeft;
    var e, rest := events[0], events[1..];
    if Turn(t, e).1.Running? {
      TurnConserves(t, e);
      NoAgentLeftExactlyWhen(Turn(t, e).0, rest);
      var n := TurnsBeforeEnd(t, events);
      assert events[..n][0] == e && events[..n][1..] == rest[..n - 1];
    } else {
      EndingTurn(t, e);
    }
  }

  /** A scan whose session enumeration fails ends the controller with the surviving agents neither
      reaped nor terminated. */
  lemma {:induction false} FailedScanLeavesAgents()
    ensures var events := [Scan({}, Some({1}), map[1 := 7]), Scan({7}, None, map[])];
      && FreshEvents(START, events)
      && RunController(START, events) == (Table(map[1 := 7], {7}, {}, {}), Failed)
  {
    var e1, e2 := Scan({}, Some({1}), map[1 := 7]), Scan({7}, None, map[]);
    var events := [e1, e2];
    var one := Table(map[1 := 7], {7}, {}, {});
    ReapNothing(START, {});
    assert Started(START, {1}, map[1 := 7]) == map[1 := 7];
    assert map[1 := 7].Values == {7} by {
      assert map[1 := 7][1] == 7;
    }
    assert EnsureAll(START, {1}, map[1 := 7]) == one;
    assert one.agents.Keys - {1} == {};
    StopNothing(one);
    assert Turn(START, e1) == (one, Running);
    ReapNothing(one, {7});
    assert events[1..] == [e2] && [e2][1..] == [];
    assert RunController(one, [e2]) == (one, Failed);
    assert FreshEvents(one, [e2]);
  }
}
