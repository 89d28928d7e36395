/** Agent connections as a step system: sockets arriving at several server processes, registering,
    being superseded and cleaning up, with every lock section and every Redis command its own
    step, interleaved in any order. */
module AgentRelay {
  import opened Signaling

  datatype Phase =
    | Connected                   // has an id and a channel, not in the map yet
    | Writing                     // in the map, presence write to come
    | Running                     // in its message loop
    | Clearing(wasCurrent: bool)  // left the map, presence clear to come
    | Ending(wasCurrent: bool)    // session rows to come
    | Done(wasCurrent: bool)

  datatype AgentConn = AgentConn(machine: string, phase: Phase)

  datatype Key = Key(inst: nat, machine: string)

  datatype Relay = Relay(
    next: map<nat, nat>,
    conns: map<Conn, AgentConn>,
    agents: map<Key, Conn>,
    senders: set<Conn>,       // connections whose forward channel still has its sender
    log: seq<(Conn, Key)>,    // registrations so far
    redis: map<string, Presence>,
    now: nat)

  const START: Relay := Relay(map[], map[], map[], {}, [], map[], 0)

  datatype Event =
    | Connect(inst: nat, machine: string)
    | Insert(conn: Conn)
    | WritePresence(conn: Conn, ok: bool)
    | Refresh(conn: Conn, ok: bool)
    | Cleanup(conn: Conn)
    | ClearPresence(conn: Conn, ok: bool)
    | EndSessions(conn: Conn)
    | Tick
    | Expire(machine: string)

  /** The configured instance name of each process, and the presence lifetime. */
  datatype Config = Config(name: nat -> string, ttl: nat)

  function NextId(s: Relay, inst: nat): nat {
    if inst in s.next then s.next[inst] else 1
  }

  predicate At(s: Relay, c: Conn, phase: Phase) {
    c in s.conns && s.conns[c].phase == phase
  }

  function KeyOf(s: Relay, c: Conn): Key
    requires c in s.conns
  {
    Key(c.inst, s.conns[c].machine)
  }

  function Move(s: Relay, c: Conn, phase: Phase): Relay
    requires c in s.conns
  {
    s.(conns := s.conns[c := s.conns[c].(phase := phase)])
  }

  // ---------- Steps ----------

  function AfterConnect(s: Relay, inst: nat, machine: string): Relay {
    var c := Conn(inst, NextId(s, inst));
    s.(next := s.next[inst := c.id + 1], conns := s.conns[c := AgentConn(machine, Connected)],
       senders := s.senders + {c})
  }

  function AfterInsert(s: Relay, c: Conn): Relay {
    if !At(s, c, Connected) then s
    else
      var k := KeyOf(s, c);
      var (agents, dropped) := InsertEntry(s.agents, k, c);
      Move(s, c, Writing).(agents := agents, log := s.log + [(c, k)],
                           senders := s.senders - if dropped.Some? then {dropped.value} else {})
  }

  function AfterWrite(cfg: Config, s: Relay, c: Conn, ok: bool): Relay {
    if !At(s, c, Writing) then s
    else
      var entry := Presence(cfg.name(c.inst), c.id, s.now + cfg.ttl, c);
      Move(s, c, Running).(redis := if ok then s.redis[s.conns[c].machine := entry] else s.redis)
  }

  function AfterRefresh(cfg: Config, s: Relay, c: Conn, ok: bool): Relay {
    if !At(s, c, Running) || !ok then s
    else s.(redis := RefreshScript(s.redis, s.conns[c].machine, cfg.name(c.inst), c.id, s.now + cfg.ttl))
  }

  function AfterCleanup(s: Relay, c: Conn): Relay {
    if !At(s, c, Running) then s
    else
      var (agents, wasCurrent) := RemoveIfCurrent(s.agents, KeyOf(s, c), c);
      Move(s, c, Clearing(wasCurrent)).(agents := agents, senders := s.senders - {c})
  }

  function AfterClear(cfg: Config, s: Relay, c: Conn, ok: bool): Relay {
    if !(c in s.conns && s.conns[c].phase.Clearing?) then s
    else
      var wasCurrent := s.conns[c].phase.wasCurrent;
      Move(s, c, Ending(wasCurrent)).(redis :=
        if wasCurrent && ok then ClearScript(s.redis, s.conns[c].machine, cfg.name(c.inst), c.id) else s.redis)
  }

  function AfterEnd(s: Relay, c: Conn): Relay {
    if !(c in s.conns && s.conns[c].phase.Ending?) then s
    else Move(s, c, Done(s.conns[c].phase.wasCurrent))
  }

  function AfterExpiry(s: Relay, machine: string): Relay {
    if machine in s.redis && s.redis[machine].expiresAt <= s.now then s.(redis := s.redis - {machine}) else s
  }

  /** A step that is not enabled changes nothing. A Redis command may fail. */
  function Step(cfg: Config, s: Relay, e: Event): Relay {
    match e
    case Connect(inst, machine) => AfterConnect(s, inst, machine)
    case Insert(c) => AfterInsert(s, c)
    case WritePresence(c, ok) => AfterWrite(cfg, s, c, ok)
    case Refresh(c, ok) => AfterRefresh(cfg, s, c, ok)
    case Cleanup(c) => AfterCleanup(s, c)
    case ClearPresence(c, ok) => AfterClear(cfg, s, c, ok)
    case EndSessions(c) => AfterEnd(s, c)
    case Tick => s.(now := s.now + 1)
    case Expire(machine) => AfterExpiry(s, machine)
  }

  function Run(cfg: Config, s: Relay, events: seq<Event>): Relay
    decreases events
  {
    if events == [] then s else Run(cfg, Step(cfg, s, events[0]), events[1..])
  }

  // ---------- Reconnect safety ----------

  predicate Registered(p: Phase) {
    p.Writing? || p.Running?
  }

  predicate Current(s: Relay, c: Conn) {
    c in s.conns && KeyOf(s, c) in s.agents && s.agents[KeyOf(s, c)] == c
  }

  /** Ids are handed out below the counter, so the next one is new. */
  ghost predicate IdsUsed(s: Relay) {
    && (forall inst | inst in s.next :: s.next[inst] >= 1)
    && (forall c | c in s.conns :: 1 <= c.id < NextId(s, c.inst))
  }

  /** A map entry belongs to a registered connection of that process and machine that has not
      cleaned up. */
  ghost predicate EntriesLive(s: Relay) {
    forall k | k in s.agents ::
      s.agents[k] in s.conns && KeyOf(s, s.agents[k]) == k && Registered(s.conns[s.agents[k]].phase)
  }

  /** A channel keeps its sender exactly until its connection is superseded or cleans up. */
  ghost predicate SendersExact(s: Relay) {
    forall c :: c in s.senders <==> c in s.conns && (s.conns[c].phase.Connected? || Current(s, c))
  }

  /** Every connection past its registration is logged once, under its own key. */
  ghost predicate Logged(s: Relay) {
    && (forall i | 0 <= i < |s.log| ::
          s.log[i].0 in s.conns && !s.conns[s.log[i].0].phase.Connected? && s.log[i].1 == KeyOf(s, s.log[i].0))
    && (forall i, j | 0 <= i < j < |s.log| :: s.log[i].0 != s.log[j].0)
    && (forall c | c in s.conns && !s.conns[c].phase.Connected? :: exists i :: 0 <= i < |s.log| && s.log[i].0 == c)
  }

  /** No registration under the same key after the one at i. */
  ghost predicate NoLater(log: seq<(Conn, Key)>, i: nat)
    requires i < |log|
  {
    forall j | i < j < |log| :: log[j].1 != log[i].1
  }

  /** Among registered connections the current one of a key is the last to have registered. */
  ghost predicate CurrentIsLast(s: Relay)
    requires Logged(s)
  {
    forall i | 0 <= i < |s.log| && Registered(s.conns[s.log[i].0].phase) ::
      Current(s, s.log[i].0) <==> NoLater(s.log, i)
  }

  ghost predicate Safe(s: Relay) {
    IdsUsed(s) && EntriesLive(s) && SendersExact(s) && Logged(s) && CurrentIsLast(s)
  }

  lemma {:induction false} StartIsSafe()
    ensures Safe(START)
  {
  }

  /** States that differ only in presence, clock, and phases that agree on being connected and on
      being registered. */
  ghost predicate SameRouting(s: Relay, s': Relay) {
    && s'.next == s.next && s'.agents == s.agents && s'.senders == s.senders && s'.log == s.log
    && s'.conns.Keys == s.conns.Keys
    && forall c | c in s.conns ::
         && s'.conns[c].machine == s.conns[c].machine
         && s'.conns[c].phase.Connected? == s.conns[c].phase.Connected?
         && Registered(s'.conns[c].phase) == Registered(s.conns[c].phase)
  }

  lemma {:induction false} SameRoutingKeepsSafe(s: Relay, s': Relay)
    requires Safe(s) && SameRouting(s, s')
    ensures Safe(s')
  {
    SameRoutingKeepsLog(s, s');
    assert forall c | c in s.conns :: KeyOf(s', c) == KeyOf(s, c);
    assert forall c :: Current(s', c) == Current(s, c);
  }

  lemma {:induction false} SameRoutingKeepsLog(s: Relay, s': Relay)
    requires Logged(s) && CurrentIsLast(s) && SameRouting(s, s')
    ensures Logged(s') && CurrentIsLast(s')
  {
    assert forall c | c in s.conns :: KeyOf(s', c) == KeyOf(s, c);
    forall i | 0 <= i < |s'.log| && Registered(s'.conns[s'.log[i].0].phase)
      ensures Current(s', s'.log[i].0) <==> NoLater(s'.log, i)
    {
      assert Current(s', s.log[i].0) == Current(s, s.log[i].0);
    }
  }

  lemma {:induction false} ConnectKeepsSafe(cfg: Config, s: Relay, inst: nat, machine: string)
    requires Safe(s)
    ensures Conn(inst, NextId(s, inst)) !in s.conns
    ensures Safe(Step(cfg, s, Connect(inst, machine)))
  {
    hide EntriesLive, SendersExact, Logged, CurrentIsLast, Current;
    var s' := Step(cfg, s, Connect(inst, machine));
    var c := Conn(inst, NextId(s, inst));
    ConnectKeepsSenders(s, s', c, machine);
    ConnectKeepsLog(s, s', c, machine);
  }

  lemma {:induction false} ConnectCurrents(s: Relay, s': Relay, c: Conn, machine: string)
    requires EntriesLive(s) && c !in s.conns
    requires s'.conns == s.conns[c := AgentConn(machine, Connected)] && s'.agents == s.agents
    ensures forall d | d in s.conns :: s'.conns[d] == s.conns[d] && KeyOf(s', d) == KeyOf(s, d)
    ensures !Current(s', c) && forall d | d != c :: Current(s', d) == Current(s, d)
  {
  }

  lemma {:induction false} ConnectKeepsSenders(s: Relay, s': Relay, c: Conn, machine: string)
    requires EntriesLive(s) && SendersExact(s) && c !in s.conns
    requires s'.conns == s.conns[c := AgentConn(machine, Connected)] && s'.agents == s.agents
    requires s'.senders == s.senders + {c}
    ensures EntriesLive(s') && SendersExact(s')
  {
    ConnectCurrents(s, s', c, machine);
    hide Current;
  }

  lemma {:induction false} ConnectKeepsLog(s: Relay, s': Relay, c: Conn, machine: string)
    requires EntriesLive(s) && Logged(s) && CurrentIsLast(s) && c !in s.conns
    requires s'.conns == s.conns[c := AgentConn(machine, Connected)] && s'.agents == s.agents && s'.log == s.log
    ensures Logged(s') && CurrentIsLast(s')
  {
    ConnectCurrents(s, s', c, machine);
    hide Current, KeyOf, NoLater;
    assert forall i | 0 <= i < |s.log| :: s.log[i].0 in s.conns && s.log[i].0 != c;
  }

  lemma {:induction false} InsertKeepsSafe(cfg: Config, s: Relay, c: Conn)
    requires Safe(s) && At(s, c, Connected)
    ensures Safe(Step(cfg, s, Insert(c)))
  {
    InsertCurrents(cfg, s, c);
    InsertKeepsSenders(cfg, s, c);
    InsertKeepsLog(cfg, s, c);
  }

  /** What an insert does to every connection, to the map, the senders and the log. */
  lemma {:induction false} InsertFrame(cfg: Config, s: Relay, c: Conn)
    requires At(s, c, Connected)
    ensures var s' := Step(cfg, s, Insert(c));
      && s'.log == s.log + [(c, KeyOf(s, c))]
      && s'.conns == s.conns[c := s.conns[c].(phase := Writing)]
      && s'.next == s.next && s'.agents == s.agents[KeyOf(s, c) := c]
      && s'.senders == s.senders - if KeyOf(s, c) in s.agents then {s.agents[KeyOf(s, c)]} else {}
  {
  }

  /** After an insert, c is the current connection of its key and nothing else changes. */
  lemma {:induction false} InsertCurrents(cfg: Config, s: Relay, c: Conn)
    requires At(s, c, Connected)
    ensures var s' := Step(cfg, s, Insert(c));
      && (forall d :: d in s'.conns <==> d in s.conns)
      && (forall d | d in s.conns :: KeyOf(s', d) == KeyOf(s, d))
      && Current(s', c)
      && (forall d | d != c && d in s.conns ::
            Current(s', d) <==> Current(s, d) && KeyOf(s, d) != KeyOf(s, c))
  {
  }

  lemma {:induction false} InsertKeepsSenders(cfg: Config, s: Relay, c: Conn)
    requires EntriesLive(s) && SendersExact(s) && At(s, c, Connected)
    ensures SendersExact(Step(cfg, s, Insert(c))) && EntriesLive(Step(cfg, s, Insert(c)))
  {
    InsertKeepsEntries(cfg, s, c);
    InsertCurrents(cfg, s, c);
    InsertFrame(cfg, s, c);
    assert !Current(s, c);
    var s' := Step(cfg, s, Insert(c));
    forall d
      ensures d in s'.senders <==> d in s'.conns && (s'.conns[d].phase.Connected? || Current(s', d))
    {
      InsertKeepsSender(s, s', c, d);
    }
  }

  lemma {:induction false} InsertKeepsEntries(cfg: Config, s: Relay, c: Conn)
    requires EntriesLive(s) && At(s, c, Connected)
    ensures EntriesLive(Step(cfg, s, Insert(c)))
  {
    InsertFrame(cfg, s, c);
    hide Step;
    var s' := Step(cfg, s, Insert(c));
    assert forall d | d != c && d in s.conns :: s'.conns[d] == s.conns[d];
  }

  lemma {:induction false} InsertKeepsSender(s: Relay, s': Relay, c: Conn, d: Conn)
    requires EntriesLive(s) && At(s, c, Connected)
    requires d in s.senders <==> d in s.conns && (s.conns[d].phase.Connected? || Current(s, d))
    requires s'.conns == s.conns[c := s.conns[c].(phase := Writing)]
    requires s'.agents == s.agents[KeyOf(s, c) := c]
    requires s'.senders == s.senders - if KeyOf(s, c) in s.agents then {s.agents[KeyOf(s, c)]} else {}
    ensures d in s'.senders <==> d in s'.conns && (s'.conns[d].phase.Connected? || Current(s', d))
  {
  }

  lemma {:induction false} InsertKeepsLog(cfg: Config, s: Relay, c: Conn)
    requires Logged(s) && CurrentIsLast(s) && At(s, c, Connected)
    ensures Logged(Step(cfg, s, Insert(c))) && CurrentIsLast(Step(cfg, s, Insert(c)))
  {
    hide Step, Current;
    InsertIsLogged(cfg, s, c);
    InsertCurrents(cfg, s, c);
    InsertFrame(cfg, s, c);
    var s' := Step(cfg, s, Insert(c));
    var n := |s.log|;
    forall i | 0 <= i < |s'.log| && Registered(s'.conns[s'.log[i].0].phase)
      ensures Current(s', s'.log[i].0) <==> NoLater(s'.log, i)
    {
      if i < n {
        NoLaterSnoc(s.log, (c, KeyOf(s, c)), i);
        assert s'.log[i] == s.log[i] && s.log[i].0 != c;
        assert s'.conns[s.log[i].0] == s.conns[s.log[i].0];
      }
    }
  }

  lemma {:induction false} InsertIsLogged(cfg: Config, s: Relay, c: Conn)
    requires Logged(s) && At(s, c, Connected)
    ensures Logged(Step(cfg, s, Insert(c)))
  {
    hide Step;
    InsertFrame(cfg, s, c);
    var s' := Step(cfg, s, Insert(c));
    var n := |s.log|;
    assert s'.log[n] == (c, KeyOf(s, c));
    assert forall i | 0 <= i < n :: s'.log[i] == s.log[i] && s.log[i].0 != c;
    assert forall d | d in s.conns :: KeyOf(s', d) == KeyOf(s, d);
    forall d | d in s'.conns && !s'.conns[d].phase.Connected?
      ensures exists i :: 0 <= i < |s'.log| && s'.log[i].0 == d
    {
      LogHas(s.log, (c, KeyOf(s, c)), d);
    }
  }

  lemma {:induction false} LogHas(log: seq<(Conn, Key)>, e: (Conn, Key), d: Conn)
    requires d == e.0 || exists i :: 0 <= i < |log| && log[i].0 == d
    ensures exists i :: 0 <= i < |log + [e]| && (log + [e])[i].0 == d
  {
    if d == e.0 {
      assert (log + [e])[|log|].0 == d;
    } else {
      var i :| 0 <= i < |log| && log[i].0 == d;
      assert (log + [e])[i].0 == d;
    }
  }

  lemma {:induction false} NoLaterSnoc(log: seq<(Conn, Key)>, e: (Conn, Key), i: nat)
    requires i < |log|
    ensures NoLater(log + [e], i) <==> NoLater(log, i) && e.1 != log[i].1
  {
    assert (log + [e])[|log|] == e;
    assert forall j | i < j < |log| :: (log + [e])[j] == log[j];
  }

  lemma {:induction false} CleanupKeepsSafe(cfg: Config, s: Relay, c: Conn)
    requires Safe(s) && At(s, c, Running)
    ensures Safe(Step(cfg, s, Cleanup(c)))
  {
    CleanupKeepsSenders(cfg, s, c);
    CleanupKeepsLog(cfg, s, c);
  }

  /** What a cleanup does to every connection and to the log. */
  lemma {:induction false} CleanupFrame(cfg: Config, s: Relay, c: Conn)
    requires At(s, c, Running)
    ensures var s' := Step(cfg, s, Cleanup(c));
      && s'.log == s.log && s'.next == s.next && s'.conns.Keys == s.conns.Keys
      && s'.conns[c].phase.Clearing? && s'.conns[c].machine == s.conns[c].machine
      && (forall d | d in s.conns && d != c :: s'.conns[d] == s.conns[d])
  {
    hide RemoveIfCurrent;
  }

  lemma {:induction false} CleanupKeepsLog(cfg: Config, s: Relay, c: Conn)
    requires Logged(s) && CurrentIsLast(s) && At(s, c, Running)
    ensures Logged(Step(cfg, s, Cleanup(c))) && CurrentIsLast(Step(cfg, s, Cleanup(c)))
  {
    CleanupIsLogged(cfg, s, c);
    CleanupCurrents(cfg, s, c);
    CleanupFrame(cfg, s, c);
    hide Step, Current, NoLater;
    var s' := Step(cfg, s, Cleanup(c));
    forall i | 0 <= i < |s'.log| && Registered(s'.conns[s'.log[i].0].phase)
      ensures Current(s', s'.log[i].0) <==> NoLater(s'.log, i)
    {
      assert s.log[i].0 != c;
      assert s'.conns[s.log[i].0] == s.conns[s.log[i].0];
    }
  }

  lemma {:induction false} CleanupIsLogged(cfg: Config, s: Relay, c: Conn)
    requires Logged(s) && At(s, c, Running)
    ensures Logged(Step(cfg, s, Cleanup(c)))
  {
    hide Step;
    CleanupFrame(cfg, s, c);
    var s' := Step(cfg, s, Cleanup(c));
    assert forall d | d in s.conns :: KeyOf(s', d) == KeyOf(s, d);
  }

  lemma {:induction false} CleanupCurrents(cfg: Config, s: Relay, c: Conn)
    requires At(s, c, Running)
    ensures var s' := Step(cfg, s, Cleanup(c));
      && (forall d :: d in s'.conns <==> d in s.conns)
      && (forall d | d in s.conns :: KeyOf(s', d) == KeyOf(s, d))
      && !Current(s', c)
      && (forall d | d != c && d in s.conns :: Current(s', d) <==> Current(s, d))
  {
  }

  lemma {:induction false} CleanupKeepsSenders(cfg: Config, s: Relay, c: Conn)
    requires EntriesLive(s) && SendersExact(s) && At(s, c, Running)
    ensures SendersExact(Step(cfg, s, Cleanup(c))) && EntriesLive(Step(cfg, s, Cleanup(c)))
  {
    CleanupCurrents(cfg, s, c);
    var s' := Step(cfg, s, Cleanup(c));
    assert forall d | d != c && d in s.conns :: s'.conns[d] == s.conns[d];
  }

  lemma {:induction false} StepKeepsSafe(cfg: Config, s: Relay, e: Event)
    requires Safe(s)
    ensures Safe(Step(cfg, s, e))
  {
    hide Safe, SameRouting, Step;
    match e
    case Connect(inst, machine) => ConnectKeepsSafe(cfg, s, inst, machine);
    case Insert(c) =>
      if At(s, c, Connected) { InsertKeepsSafe(cfg, s, c); } else { NotEnabled(cfg, s, e); }
    case Cleanup(c) =>
      if At(s, c, Running) { CleanupKeepsSafe(cfg, s, c); } else { NotEnabled(cfg, s, e); }
    case _ =>
      OtherStepsKeepRouting(cfg, s, e);
      SameRoutingKeepsSafe(s, Step(cfg, s, e));
  }

  lemma {:induction false} NotEnabled(cfg: Config, s: Relay, e: Event)
    requires (e.Insert? && !At(s, e.conn, Connected)) || (e.Cleanup? && !At(s, e.conn, Running))
    ensures Step(cfg, s, e) == s
  {
  }

  lemma {:induction false} OtherStepsKeepRouting(cfg: Config, s: Relay, e: Event)
    requires !e.Connect? && !e.Insert? && !e.Cleanup?
    ensures SameRouting(s, Step(cfg, s, e))
  {
    hide AfterWrite, AfterRefresh, AfterClear, AfterEnd, AfterExpiry;
    match e
    case WritePresence(c, ok) => WriteKeepsRouting(cfg, s, c, ok);
    case ClearPresence(c, ok) => ClearKeepsRouting(cfg, s, c, ok);
    case EndSessions(c) => EndKeepsRouting(s, c);
    case Refresh(_, _) => PresenceStepsKeepRouting(cfg, s, e);
    case Expire(_) => PresenceStepsKeepRouting(cfg, s, e);
    case Tick =>
  }

  lemma {:induction false} WriteKeepsRouting(cfg: Config, s: Relay, c: Conn, ok: bool)
    ensures SameRouting(s, AfterWrite(cfg, s, c, ok))
  {
  }

  lemma {:induction false} ClearKeepsRouting(cfg: Config, s: Relay, c: Conn, ok: bool)
    ensures SameRouting(s, AfterClear(cfg, s, c, ok))
  {
    hide ClearScript;
  }

  lemma {:induction false} EndKeepsRouting(s: Relay, c: Conn)
    ensures SameRouting(s, AfterEnd(s, c))
  {
  }

  lemma {:induction false} PresenceStepsKeepRouting(cfg: Config, s: Relay, e: Event)
    requires e.Refresh? || e.Expire?
    ensures SameRouting(s, Step(cfg, s, e))
  {
    hide RefreshScript;
  }

  lemma {:induction false} RunKeepsSafe(cfg: Config, s: Relay, events: seq<Event>)
    requires Safe(s)
    ensures Safe(Run(cfg, s, events))
    decreases events
  {
    if events != [] {
      StepKeepsSafe(cfg, s, events[0]);
      RunKeepsSafe(cfg, Step(cfg, s, events[0]), events[1..]);
    }
  }

  /** In every reachable state of every interleaving: the next connection id is unused, map entries
      belong to live registered connections, and every other registered connection has had its
      sender dropped, so its loop is about to end. */
  lemma {:induction false} ReconnectSafety(cfg: Config, events: seq<Event>)
    ensures var s := Run(cfg, START, events);
      && (forall inst :: Conn(inst, NextId(s, inst)) !in s.conns)
      && (forall k | k in s.agents :: s.agents[k] in s.conns && Registered(s.conns[s.agents[k]].phase)
                                       && KeyOf(s, s.agents[k]) == k)
      && (forall c | c in s.conns && Registered(s.conns[c].phase) && !Current(s, c) :: c !in s.senders)
  {
    StartIsSafe();
    RunKeepsSafe(cfg, START, events);
  }

  /** Cleanup reports `was_current` exactly when nobody registered for the machine at this process
      after the connection did. */
  lemma {:induction false} CleanupReport(cfg: Config, events: seq<Event>, i: nat)
    requires var s := Run(cfg, START, events);
      i < |s.log| && At(s, s.log[i].0, Running)
    ensures var s := Run(cfg, START, events);
      At(Step(cfg, s, Cleanup(s.log[i].0)), s.log[i].0, Clearing(NoLater(s.log, i)))
  {
    StartIsSafe();
    RunKeepsSafe(cfg, START, events);
  }

  // ---------- Presence ownership ----------

  ghost predicate DistinctNames(cfg: Config) {
    forall i, j :: cfg.name(i) == cfg.name(j) ==> i == j
  }

  /** What a presence entry says about its writer. */
  ghost predicate Truthful(cfg: Config, s: Relay) {
    forall m | m in s.redis ::
      var p := s.redis[m];
      p.writer in s.conns && s.conns[p.writer].machine == m
      && p.instance == cfg.name(p.writer.inst) && p.connId == p.writer.id
  }

  /** Past its presence write. */
  predicate PastWriting(p: Phase) {
    !p.Connected? && !p.Writing?
  }

  lemma {:induction false} StepKeepsConn(cfg: Config, s: Relay, e: Event, c: Conn)
    requires IdsUsed(s) && c in s.conns
    ensures var s' := Step(cfg, s, e);
      && c in s'.conns && s'.conns[c].machine == s.conns[c].machine
      && (PastWriting(s.conns[c].phase) ==> PastWriting(s'.conns[c].phase))
  {
    hide AfterConnect, AfterInsert, AfterWrite, AfterRefresh, AfterCleanup, AfterClear, AfterEnd, AfterExpiry;
    match e
    case Connect(inst, machine) => ConnectKeepsConn(s, inst, machine, c);
    case Insert(_) => PhaseSteps(cfg, s, e);
    case WritePresence(_, _) => PhaseSteps(cfg, s, e);
    case Cleanup(_) => PhaseSteps(cfg, s, e);
    case ClearPresence(_, _) => PhaseSteps(cfg, s, e);
    case EndSessions(_) => PhaseSteps(cfg, s, e);
    case Refresh(_, _) => PresenceStepsKeepConns(cfg, s, e);
    case Expire(_) => PresenceStepsKeepConns(cfg, s, e);
    case Tick =>
  }

  lemma {:induction false} ConnectKeepsConn(s: Relay, inst: nat, machine: string, c: Conn)
    requires IdsUsed(s) && c in s.conns
    ensures c in AfterConnect(s, inst, machine).conns && AfterConnect(s, inst, machine).conns[c] == s.conns[c]
  {
  }

  /** These steps change one connection's phase, and never back across its presence write. */
  lemma {:induction false} PhaseSteps(cfg: Config, s: Relay, e: Event)
    requires e.Insert? || e.WritePresence? || e.Cleanup? || e.ClearPresence? || e.EndSessions?
    ensures var s' := Step(cfg, s, e);
      || s'.conns == s.conns
      || (e.conn in s.conns && s'.conns == s.conns[e.conn := s'.conns[e.conn]]
          && s'.conns[e.conn].machine == s.conns[e.conn].machine
          && (PastWriting(s.conns[e.conn].phase) ==> PastWriting(s'.conns[e.conn].phase)))
  {
    hide RemoveIfCurrent, InsertEntry, ClearScript;
  }

  lemma {:induction false} PresenceStepsKeepConns(cfg: Config, s: Relay, e: Event)
    requires e.Refresh? || e.Expire?
    ensures Step(cfg, s, e).conns == s.conns
  {
  }

  /** An entry after a step is the one before, perhaps extended, or has just been written. */
  lemma {:induction false} StepEntry(cfg: Config, s: Relay, e: Event, m: string)
    requires m in Step(cfg, s, e).redis
    ensures var s' := Step(cfg, s, e);
      || (m in s.redis && s'.redis[m] == s.redis[m].(expiresAt := s'.redis[m].expiresAt)
          && (e.WritePresence? ==> s'.redis == s.redis || s.conns[e.conn].machine != m))
      || (e.WritePresence? && e.ok && At(s, e.conn, Writing) && s.conns[e.conn].machine == m
          && s'.redis[m] == Presence(cfg.name(e.conn.inst), e.conn.id, s.now + cfg.ttl, e.conn)
          && At(s', e.conn, Running))
  {
    hide RemoveIfCurrent, InsertEntry;
  }

  lemma {:induction false} StepKeepsTruthful(cfg: Config, s: Relay, e: Event)
    requires Truthful(cfg, s) && IdsUsed(s)
    ensures Truthful(cfg, Step(cfg, s, e))
  {
    hide Step, IdsUsed;
    var s' := Step(cfg, s, e);
    forall m | m in s'.redis
      ensures var p := s'.redis[m];
        p.writer in s'.conns && s'.conns[p.writer].machine == m
        && p.instance == cfg.name(p.writer.inst) && p.connId == p.writer.id
    {
      StepEntry(cfg, s, e, m);
      StepKeepsConn(cfg, s, e, s'.redis[m].writer);
    }
  }

  lemma {:induction false} RunKeepsTruthful(cfg: Config, s: Relay, events: seq<Event>)
    requires Safe(s) && Truthful(cfg, s)
    ensures Truthful(cfg, Run(cfg, s, events)) && Safe(Run(cfg, s, events))
    decreases events
  {
    if events != [] {
      StepKeepsSafe(cfg, s, events[0]);
      StepKeepsTruthful(cfg, s, events[0]);
      RunKeepsTruthful(cfg, Step(cfg, s, events[0]), events[1..]);
    }
  }

  /** A step leaves a presence entry alone, except: the presence write of a registration overwrites
      it, even one that comes after its connection was superseded; its own writer extends or clears
      it; or it has expired. */
  ghost predicate RespectsWriter(cfg: Config, s: Relay, e: Event, m: string)
    requires m in s.redis
  {
    var p, s' := s.redis[m], Step(cfg, s, e);
    || (m in s'.redis && s'.redis[m] == p)
    || (e.WritePresence? && m in s'.redis && s'.redis[m].writer == e.conn)
    || (e.Refresh? && e.conn == p.writer && m in s'.redis && s'.redis[m] == p.(expiresAt := s.now + cfg.ttl))
    || (e.ClearPresence? && e.conn == p.writer)
    || (e == Expire(m) && p.expiresAt <= s.now)
  }

  ghost predicate OwnershipHolds(cfg: Config) {
    forall events, e, m ::
      m in Run(cfg, START, events).redis ==> RespectsWriter(cfg, Run(cfg, START, events), e, m)
  }

  lemma {:induction false} StepRespectsWriter(cfg: Config, s: Relay, e: Event, m: string)
    requires DistinctNames(cfg) && Truthful(cfg, s) && m in s.redis
    ensures RespectsWriter(cfg, s, e, m)
  {
    if (e.Refresh? || e.ClearPresence?) && e.conn in s.conns {
      var c, w := e.conn, s.redis[m].writer;
      if s.conns[c].machine == m && Guard(s.redis[m], cfg.name(c.inst), c.id) {
        assert cfg.name(c.inst) == cfg.name(w.inst);
        assert c == w;
      }
    }
  }

  // ---------- When presence is the current connection's ----------

  /** When the process that wrote the machine's entry has a current connection in its message loop,
      that connection is the writer. */
  predicate WriterCurrent(s: Relay, m: string) {
    m in s.redis ==>
      var k := Key(s.redis[m].writer.inst, m);
      k in s.agents && At(s, s.agents[k], Running) ==> s.redis[m].writer == s.agents[k]
  }

  ghost predicate WritersCurrent(s: Relay) {
    forall m | m in s.redis :: WriterCurrent(s, m)
  }

  /** Entries were written by connections past their presence write. */
  ghost predicate WritersWrote(s: Relay) {
    forall m | m in s.redis ::
      var w := s.redis[m].writer;
      w in s.conns && s.conns[w].machine == m && PastWriting(s.conns[w].phase)
  }

  /** A presence write that lands after its connection was superseded by one already in its loop, or
      that fails while the current connection's process has an earlier entry. */
  predicate LosesPresence(s: Relay, e: Event) {
    e.WritePresence? && At(s, e.conn, Writing) &&
    var k := KeyOf(s, e.conn);
    if e.ok then k in s.agents && s.agents[k] != e.conn && At(s, s.agents[k], Running)
    else Current(s, e.conn) && k.machine in s.redis && s.redis[k.machine].writer.inst == k.inst
  }

  lemma {:induction false} StepKeepsWriters(cfg: Config, s: Relay, e: Event)
    requires WritersWrote(s) && IdsUsed(s)
    ensures WritersWrote(Step(cfg, s, e))
  {
    hide Step, IdsUsed;
    var s' := Step(cfg, s, e);
    forall m | m in s'.redis
      ensures var w := s'.redis[m].writer;
        w in s'.conns && s'.conns[w].machine == m && PastWriting(s'.conns[w].phase)
    {
      StepEntry(cfg, s, e, m);
      StepKeepsConn(cfg, s, e, s'.redis[m].writer);
    }
  }

  /** Only a presence write brings a connection into its loop. */
  lemma {:induction false} StepKeepsRunning(cfg: Config, s: Relay, e: Event, k: Key)
    requires EntriesLive(s) && IdsUsed(s) && !e.WritePresence?
    requires k in Step(cfg, s, e).agents && At(Step(cfg, s, e), Step(cfg, s, e).agents[k], Running)
    ensures k in s.agents && s.agents[k] == Step(cfg, s, e).agents[k] && At(s, s.agents[k], Running)
  {
    RunningBefore(cfg, s, e, Step(cfg, s, e).agents[k]);
    EntryBefore(cfg, s, e, k);
  }

  lemma {:induction false} RunningBefore(cfg: Config, s: Relay, e: Event, c: Conn)
    requires !e.WritePresence? && At(Step(cfg, s, e), c, Running)
    ensures At(s, c, Running)
  {
    hide RefreshScript, ClearScript, InsertEntry, RemoveIfCurrent;
  }

  lemma {:induction false} EntryBefore(cfg: Config, s: Relay, e: Event, k: Key)
    requires k in Step(cfg, s, e).agents
    ensures (k in s.agents && s.agents[k] == Step(cfg, s, e).agents[k])
            || (e == Insert(Step(cfg, s, e).agents[k]) && At(s, e.conn, Connected))
  {
    hide RefreshScript, ClearScript;
  }

  lemma {:induction false} WriteKeepsWriterCurrent(cfg: Config, s: Relay, e: Event, m: string)
    requires EntriesLive(s) && WritersWrote(s) && WriterCurrent(s, m) && !LosesPresence(s, e) && e.WritePresence?
    ensures WriterCurrent(Step(cfg, s, e), m)
  {
  }

  /** Every step but a losing write keeps the entry with the current connection. */
  lemma {:induction false} StepKeepsWriterCurrent(cfg: Config, s: Relay, e: Event, m: string)
    requires EntriesLive(s) && IdsUsed(s) && WritersWrote(s) && WriterCurrent(s, m) && !LosesPresence(s, e)
    ensures WriterCurrent(Step(cfg, s, e), m)
  {
    if e.WritePresence? {
      WriteKeepsWriterCurrent(cfg, s, e, m);
    } else {
      hide Step, EntriesLive, IdsUsed, WritersWrote, LosesPresence;
      var s' := Step(cfg, s, e);
      if m in s'.redis {
        StepEntry(cfg, s, e, m);
        var k := Key(s'.redis[m].writer.inst, m);
        if k in s'.agents && At(s', s'.agents[k], Running) {
          StepKeepsRunning(cfg, s, e, k);
        }
      }
    }
  }

  lemma {:induction false} LosingWriteLoses(cfg: Config, s: Relay, e: Event)
    requires EntriesLive(s) && WritersWrote(s) && LosesPresence(s, e)
    ensures s.conns[e.conn].machine in Step(cfg, s, e).redis
    ensures !WriterCurrent(Step(cfg, s, e), s.conns[e.conn].machine)
  {
  }

  lemma {:induction false} StepFollows(cfg: Config, s: Relay, e: Event)
    requires Safe(s) && WritersWrote(s) && WritersCurrent(s)
    ensures WritersCurrent(Step(cfg, s, e)) <==> !LosesPresence(s, e)
  {
    if LosesPresence(s, e) {
      LosingWriteLoses(cfg, s, e);
    } else {
      hide Step, WriterCurrent, LosesPresence;
      forall m | m in Step(cfg, s, e).redis
        ensures WriterCurrent(Step(cfg, s, e), m)
      {
        NoEntryIsCurrent(s, m);
        StepKeepsWriterCurrent(cfg, s, e, m);
      }
    }
  }

  lemma {:induction false} NoEntryIsCurrent(s: Relay, m: string)
    ensures m !in s.redis ==> WriterCurrent(s, m)
  {
  }

  lemma {:induction false} RunKeepsWriters(cfg: Config, s: Relay, events: seq<Event>)
    requires Safe(s) && WritersWrote(s)
    ensures Safe(Run(cfg, s, events)) && WritersWrote(Run(cfg, s, events))
    decreases events
  {
    hide Step, IdsUsed, EntriesLive, SendersExact, Logged, CurrentIsLast, WritersWrote;
    if events != [] {
      StepKeepsSafe(cfg, s, events[0]);
      StepKeepsWriters(cfg, s, events[0]);
      RunKeepsWriters(cfg, Step(cfg, s, events[0]), events[1..]);
    }
  }

  lemma {:induction false} RunPrefix(cfg: Config, events: seq<Event>, n: nat)
    requires n < |events|
    ensures Run(cfg, START, events[..n + 1]) == Step(cfg, Run(cfg, START, events[..n]), events[n])
  {
    hide Step;
    assert events[..n + 1] == events[..n] + [events[n]];
    RunAppend(cfg, START, events[..n], [events[n]]);
    UnfoldRun(cfg, Run(cfg, START, events[..n]), events[n], []);
    assert [events[n]] + [] == [events[n]];
  }

  /** Up to any point of any run, with any names: presence entries stay with the current connections
      throughout exactly when no presence write came too late or was lost over an earlier entry. */
  lemma {:induction false} PresenceFollowsExactlyWhen(cfg: Config, events: seq<Event>, n: nat)
    requires n <= |events|
    ensures (forall i | 0 <= i <= n :: WritersCurrent(Run(cfg, START, events[..i])))
            <==> (forall i | 0 <= i < n :: !LosesPresence(Run(cfg, START, events[..i]), events[i]))
    decreases n
  {
    hide Step, Safe, WritersWrote, LosesPresence;
    if n == 0 {
      assert events[..0] == [];
    } else {
      PresenceFollowsExactlyWhen(cfg, events, n - 1);
      RunPrefix(cfg, events, n - 1);
      StartIsSafe();
      NothingWritten();
      RunKeepsWriters(cfg, START, events[..n - 1]);
      if forall i | 0 <= i <= n - 1 :: WritersCurrent(Run(cfg, START, events[..i])) {
        StepFollows(cfg, Run(cfg, START, events[..n - 1]), events[n - 1]);
      }
    }
  }

  lemma {:induction false} NothingWritten()
    ensures WritersWrote(START) && WritersCurrent(START)
  {
  }

  /** Why it matters: a running connection's refresh extends an entry of its process if it wrote it,
      and changes nothing otherwise, so that the entry expires. */
  lemma {:induction false} OnlyWriterRefreshes(cfg: Config, s: Relay, c: Conn)
    requires Truthful(cfg, s) && At(s, c, Running)
    requires s.conns[c].machine in s.redis && s.redis[s.conns[c].machine].writer.inst == c.inst
    ensures var m, s' := s.conns[c].machine, Step(cfg, s, Refresh(c, true));
      && (s.redis[m].writer == c ==>
            s' == s.(redis := s.redis[m := s.redis[m].(expiresAt := s.now + cfg.ttl)]))
      && (s.redis[m].writer != c ==> s' == s)
  {
  }

  /** The late write happens: two connections of one machine, the second one writing first. It is the
      current connection, yet the entry is the first one's. */
  lemma {:induction false} LateWrite(cfg: Config, inst: nat, m: string)
    ensures var a, b := Conn(inst, 1), Conn(inst, 2);
      var s := Run(cfg, START, [Connect(inst, m), Connect(inst, m), Insert(a)] + [Insert(b), WritePresence(b, true)]);
      && Current(s, b) && At(s, b, Running) && LosesPresence(s, WritePresence(a, true))
      && var s' := Step(cfg, s, WritePresence(a, true));
      m in s'.redis && s'.redis[m].writer == a && Current(s', b)
  {
    var a, b := Conn(inst, 1), Conn(inst, 2);
    var s3 := TwoConnections(cfg, inst, m);
    var s4 := Step(cfg, s3, Insert(b));
    var s5 := Step(cfg, s4, WritePresence(b, true));
    RunAppend(cfg, START, [Connect(inst, m), Connect(inst, m), Insert(a)], [Insert(b), WritePresence(b, true)]);
    UnfoldRun(cfg, s3, Insert(b), [WritePresence(b, true)]);
    UnfoldRun(cfg, s4, WritePresence(b, true), []);
    assert [Insert(b)] + [WritePresence(b, true)] == [Insert(b), WritePresence(b, true)];
    assert [WritePresence(b, true)] + [] == [WritePresence(b, true)];
    SecondWrites(cfg, s3, a, b, m);
  }

  lemma {:induction false} TwoConnections(cfg: Config, inst: nat, m: string) returns (s: Relay)
    ensures var a, b := Conn(inst, 1), Conn(inst, 2);
      && s == Run(cfg, START, [Connect(inst, m), Connect(inst, m), Insert(a)])
      && s.conns == map[a := AgentConn(m, Writing), b := AgentConn(m, Connected)]
  {
    var a, b := Conn(inst, 1), Conn(inst, 2);
    var s1 := Step(cfg, START, Connect(inst, m));
    var s2 := Step(cfg, s1, Connect(inst, m));
    s := Step(cfg, s2, Insert(a));
    RunThree(cfg, START, Connect(inst, m), Connect(inst, m), Insert(a));
    assert s2.conns == map[a := AgentConn(m, Connected), b := AgentConn(m, Connected)];
  }

  lemma {:induction false} SecondWrites(cfg: Config, s: Relay, a: Conn, b: Conn, m: string)
    requires a != b && a.inst == b.inst
    requires s.conns == map[a := AgentConn(m, Writing), b := AgentConn(m, Connected)]
    ensures var t := Step(cfg, Step(cfg, s, Insert(b)), WritePresence(b, true));
      && Current(t, b) && At(t, b, Running) && LosesPresence(t, WritePresence(a, true))
      && var t' := Step(cfg, t, WritePresence(a, true));
      m in t'.redis && t'.redis[m].writer == a && Current(t', b)
  {
    var s1 := Step(cfg, s, Insert(b));
    InsertFrame(cfg, s, b);
    assert s1.conns == map[a := AgentConn(m, Writing), b := AgentConn(m, Writing)];
    var t := Step(cfg, s1, WritePresence(b, true));
    WriteFrame(cfg, s1, b);
    hide Step;
    assert t.conns == map[a := AgentConn(m, Writing), b := AgentConn(m, Running)];
    FirstWritesLate(cfg, t, a, b, m);
  }

  lemma {:induction false} FirstWritesLate(cfg: Config, t: Relay, a: Conn, b: Conn, m: string)
    requires a != b && a.inst == b.inst && Key(b.inst, m) in t.agents && t.agents[Key(b.inst, m)] == b
    requires t.conns == map[a := AgentConn(m, Writing), b := AgentConn(m, Running)]
    ensures Current(t, b) && At(t, b, Running) && LosesPresence(t, WritePresence(a, true))
    ensures var t' := Step(cfg, t, WritePresence(a, true));
      m in t'.redis && t'.redis[m].writer == a && Current(t', b)
  {
    WriteFrame(cfg, t, a);
    hide Step;
  }

  lemma {:induction false} WriteFrame(cfg: Config, s: Relay, c: Conn)
    requires At(s, c, Writing)
    ensures var s' := Step(cfg, s, WritePresence(c, true));
      && s'.conns == s.conns[c := s.conns[c].(phase := Running)]
      && s'.agents == s.agents && s'.next == s.next
      && s'.redis == s.redis[s.conns[c].machine := Presence(cfg.name(c.inst), c.id, s.now + cfg.ttl, c)]
  {
  }

  /** What every step does to the presence entries, told by who wrote them: the scripts, which only
      see names and ids, refresh and clear exactly the caller's own entry when the names are distinct.
      Only the current connection clears, and a command that fails changes nothing. */
  function PresenceAfter(cfg: Config, s: Relay, e: Event): map<string, Presence> {
    match e
    case WritePresence(c, ok) =>
      if At(s, c, Writing) && ok
      then s.redis[s.conns[c].machine := Presence(cfg.name(c.inst), c.id, s.now + cfg.ttl, c)]
      else s.redis
    case Refresh(c, ok) =>
      if At(s, c, Running) && ok && Wrote(s, c)
      then s.redis[s.conns[c].machine := Presence(cfg.name(c.inst), c.id, s.now + cfg.ttl, c)]
      else s.redis
    case ClearPresence(c, ok) =>
      if At(s, c, Clearing(true)) && ok && Wrote(s, c) then s.redis - {s.conns[c].machine} else s.redis
    case Expire(m) =>
      if m in s.redis && s.redis[m].expiresAt <= s.now then s.redis - {m} else s.redis
    case _ => s.redis
  }

  predicate Wrote(s: Relay, c: Conn) {
    c in s.conns && s.conns[c].machine in s.redis && s.redis[s.conns[c].machine].writer == c
  }

  lemma {:induction false} GuardSeesWriter(cfg: Config, s: Relay, c: Conn)
    requires Truthful(cfg, s) && DistinctNames(cfg) && c in s.conns && s.conns[c].machine in s.redis
    ensures Guard(s.redis[s.conns[c].machine], cfg.name(c.inst), c.id) <==> Wrote(s, c)
  {
    var w := s.redis[s.conns[c].machine].writer;
    assert cfg.name(c.inst) == cfg.name(w.inst) ==> c.inst == w.inst;
  }

  /** In every reachable state, with distinct names. */
  lemma {:induction false} ScriptsSeeWriters(cfg: Config, events: seq<Event>, e: Event)
    requires DistinctNames(cfg)
    ensures var s := Run(cfg, START, events);
      Step(cfg, s, e).redis == PresenceAfter(cfg, s, e)
  {
    var s := Run(cfg, START, events);
    StartIsSafe();
    RunKeepsTruthful(cfg, START, events);
    hide Run, Safe, IdsUsed;
    StepSeesWriter(cfg, s, e);
  }

  lemma {:induction false} StepSeesWriter(cfg: Config, s: Relay, e: Event)
    requires Truthful(cfg, s) && DistinctNames(cfg)
    ensures Step(cfg, s, e).redis == PresenceAfter(cfg, s, e)
  {
    hide DistinctNames, InsertEntry, RemoveIfCurrent;
    match e
    case Refresh(c, ok) =>
      if c in s.conns && s.conns[c].machine in s.redis { GuardSeesWriter(cfg, s, c); }
    case ClearPresence(c, ok) =>
      if c in s.conns && s.conns[c].machine in s.redis { GuardSeesWriter(cfg, s, c); }
    case _ =>
  }

  /** The events of a process's first connection registering. */
  function FirstRegistration(inst: nat, machine: string): seq<Event> {
    [Connect(inst, machine), Insert(Conn(inst, 1)), WritePresence(Conn(inst, 1), true)]
  }

  /** Two processes configured with one name: each one's first connection has id 1, and the
      cleanup of one clears the entry the other has just written. */
  lemma {:induction false} SharedNameClearsOther(cfg: Config, i: nat, j: nat)
    requires i != j && cfg.name(i) == cfg.name(j)
    ensures var a, b := Conn(i, 1), Conn(j, 1);
      var s := Run(cfg, START, FirstRegistration(i, "m") + (FirstRegistration(j, "m") + [Cleanup(a)]));
      && "m" in s.redis && s.redis["m"].writer == b
      && "m" !in Step(cfg, s, ClearPresence(a, true)).redis
      && !RespectsWriter(cfg, s, ClearPresence(a, true), "m")
  {
    var a, b := Conn(i, 1), Conn(j, 1);
    var s3 := RegisterFirst(cfg, START, i, "m");
    var s6 := RegisterFirst(cfg, s3, j, "m");
    RunAppend(cfg, START, FirstRegistration(i, "m"), FirstRegistration(j, "m") + [Cleanup(a)]);
    RunAppend(cfg, s3, FirstRegistration(j, "m"), [Cleanup(a)]);
    UnfoldRun(cfg, s6, Cleanup(a), []);
    assert [Cleanup(a)] + [] == [Cleanup(a)];
    CleanedByTwin(cfg, s6, a, b, "m");
  }

  lemma {:induction false} CleanedByTwin(cfg: Config, s: Relay, a: Conn, b: Conn, m: string)
    requires a != b && a.id == b.id && cfg.name(a.inst) == cfg.name(b.inst)
    requires a in s.conns && s.conns[a] == AgentConn(m, Running) && Current(s, a)
    requires m in s.redis && s.redis[m].writer == b && Guard(s.redis[m], cfg.name(b.inst), b.id)
    ensures var s' := Step(cfg, s, Cleanup(a));
      && m in s'.redis && s'.redis[m].writer == b
      && m !in Step(cfg, s', ClearPresence(a, true)).redis
      && !RespectsWriter(cfg, s', ClearPresence(a, true), m)
  {
    var s' := Step(cfg, s, Cleanup(a));
    assert At(s', a, Clearing(true)) && s'.redis == s.redis;
  }

  /** The first connection of a process registers and writes its presence; nothing of the others
      changes but the machine's entry. */
  lemma {:induction false} RegisterFirst(cfg: Config, s: Relay, inst: nat, machine: string) returns (s': Relay)
    requires inst !in s.next && forall c | c in s.conns :: c.inst != inst
    ensures var c := Conn(inst, 1);
      && s' == Run(cfg, s, FirstRegistration(inst, machine))
      && s'.next.Keys == s.next.Keys + {inst}
      && s'.conns == s.conns[c := AgentConn(machine, Running)]
      && s'.agents == s.agents[Key(inst, machine) := c]
      && s'.redis == s.redis[machine := Presence(cfg.name(inst), 1, s.now + cfg.ttl, c)]
  {
    var c := Conn(inst, 1);
    var s1 := Step(cfg, s, Connect(inst, machine));
    var s2 := Step(cfg, s1, Insert(c));
    s' := Step(cfg, s2, WritePresence(c, true));
    RunThree(cfg, s, Connect(inst, machine), Insert(c), WritePresence(c, true));
    assert At(s1, c, Connected);
    InsertFrame(cfg, s1, c);
    WriteFrame(cfg, s2, c);
    assert s2.redis == s.redis && s2.now == s.now;
    hide Step;
    assert s'.conns == s.conns[c := AgentConn(machine, Running)];
  }

  lemma {:induction false} RunThree(cfg: Config, s: Relay, e1: Event, e2: Event, e3: Event)
    ensures Run(cfg, s, [e1, e2, e3]) == Step(cfg, Step(cfg, Step(cfg, s, e1), e2), e3)
  {
    hide Step;
    UnfoldRun(cfg, s, e1, [e2, e3]);
    UnfoldRun(cfg, Step(cfg, s, e1), e2, [e3]);
    UnfoldRun(cfg, Step(cfg, Step(cfg, s, e1), e2), e3, []);
    assert [e1] + [e2, e3] == [e1, e2, e3] && [e2] + [e3] == [e2, e3] && [e3] + [] == [e3];
  }

  lemma {:induction false} RunAppend(cfg: Config, s: Relay, xs: seq<Event>, ys: seq<Event>)
    ensures Run(cfg, s, xs + ys) == Run(cfg, Run(cfg, s, xs), ys)
    decreases xs
  {
    if xs == [] {
      assert xs + ys == ys;
    } else {
      assert (xs + ys)[1..] == xs[1..] + ys;
      RunAppend(cfg, Step(cfg, s, xs[0]), xs[1..], ys);
    }
  }

  lemma {:induction false} UnfoldRun(cfg: Config, s: Relay, e: Event, events: seq<Event>)
    ensures Run(cfg, s, [e] + events) == Run(cfg, Step(cfg, s, e), events)
    ensures events == [] ==> Run(cfg, s, [e] + events) == Step(cfg, s, e)
  {
    assert ([e] + events)[1..] == events;
  }

  /** Over every interleaving and every number of processes, no connection's refresh or clear ever
      touches an entry another one wrote, exactly when the processes have distinct names. */
  lemma {:induction false} OwnershipExactlyWhen(cfg: Config)
    ensures OwnershipHolds(cfg) <==> DistinctNames(cfg)
  {
    if DistinctNames(cfg) {
      forall events, e, m | m in Run(cfg, START, events).redis
        ensures RespectsWriter(cfg, Run(cfg, START, events), e, m)
      {
        StartIsSafe();
        RunKeepsTruthful(cfg, START, events);
        StepRespectsWriter(cfg, Run(cfg, START, events), e, m);
      }
    } else {
      var i, j :| cfg.name(i) == cfg.name(j) && i != j;
      SharedNameClearsOther(cfg, i, j);
    }
  }
}
