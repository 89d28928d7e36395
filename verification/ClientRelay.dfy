/** Client connections, the sessions they own and the session rows, as a step system over several
    server processes. Every lock section and every row update is its own step; a client's own
    handler runs its steps in order. */
module ClientRelay {
  import opened Bytes
  import opened Signaling

  datatype Status = Pending | Active | Ended

  datatype Row = Row(user: string, machine: string, status: Status, endedAt: Option<nat>, sent: nat, received: nat)

  /** Where a client's handler is. */
  datatype Phase =
    | Idle
    | Verified(session: string)   // row read, owner matched
    | Inserted(session: string)   // in the map, not yet listed as owned
    | Recording(session: string)  // listed, usage update to come
    | Leaving(todo: seq<string>)  // left the map, rows still to end
    | Gone

  datatype Client = Client(inst: nat, user: string, owned: seq<string>, phase: Phase)

  datatype Slot = Slot(inst: nat, session: string)

  datatype Relay = Relay(rows: map<string, Row>, routes: map<Slot, nat>, clients: map<nat, Client>, now: nat)

  const START: Relay := Relay(map[], map[], map[], 0)

  datatype Event =
    | CreateSession(session: string, user: string, machine: string)
    | ClientConnect(client: nat, inst: nat, user: string)
    | ReadRow(client: nat, session: string)
    | InsertRoute(client: nat)
    | ListOwned(client: nat)
    | RecordReceived(client: nat, bytes: nat)
    | RemoveRoutes(client: nat)
    | EndNext(client: nat)
    | AgentAnswer(session: string)
    | AgentUsage(session: string, bytes: nat)
    | EndMachine(machine: string)
    | Tick

  predicate At(s: Relay, c: nat, phase: Phase) {
    c in s.clients && s.clients[c].phase == phase
  }

  function Move(s: Relay, c: nat, phase: Phase): Relay
    requires c in s.clients
  {
    s.(clients := s.clients[c := s.clients[c].(phase := phase)])
  }

  // ---------- Row updates ----------

  function Activate(r: Row): Row {
    if r.status.Pending? then r.(status := Active) else r
  }

  function End(r: Row, now: nat): Row {
    if r.status.Ended? then r
    else r.(status := Ended, endedAt := if r.endedAt.Some? then r.endedAt else Some(now))
  }

  function Use(r: Row, sent: nat, received: nat): Row {
    r.(sent := r.sent + sent, received := r.received + received)
  }

  // ---------- Steps ----------

  /** The slots of a process that a list of sessions names. */
  function Slots(inst: nat, sessions: seq<string>): seq<Slot> {
    seq(|sessions|, i requires 0 <= i < |sessions| => Slot(inst, sessions[i]))
  }

  /** A step that is not enabled changes nothing. */
  function Step(s: Relay, e: Event): Relay {
    match e
    case CreateSession(id, user, machine) =>
      if id in s.rows then s else s.(rows := s.rows[id := Row(user, machine, Pending, None, 0, 0)])
    case ClientConnect(c, inst, user) =>
      if c in s.clients then s else s.(clients := s.clients[c := Client(inst, user, [], Idle)])
    case ReadRow(c, id) =>
      if At(s, c, Idle) && id in s.rows && s.rows[id].user == s.clients[c].user then Move(s, c, Verified(id)) else s
    case InsertRoute(c) =>
      if !(c in s.clients && s.clients[c].phase.Verified?) then s
      else
        var id := s.clients[c].phase.session;
        Move(s, c, Inserted(id)).(routes := InsertEntry(s.routes, Slot(s.clients[c].inst, id), c).0)
    case ListOwned(c) =>
      if !(c in s.clients && s.clients[c].phase.Inserted?) then s
      else
        var id := s.clients[c].phase.session;
        s.(clients := s.clients[c := s.clients[c].(owned := s.clients[c].owned + [id], phase := Recording(id))])
    case RecordReceived(c, bytes) =>
      if !(c in s.clients && s.clients[c].phase.Recording?) then s
      else
        var id := s.clients[c].phase.session;
        Move(s, c, Idle).(rows := if id in s.rows then s.rows[id := Use(s.rows[id], 0, bytes)] else s.rows)
    case RemoveRoutes(c) =>
      if !At(s, c, Idle) then s
      else
        var mine := Slots(s.clients[c].inst, s.clients[c].owned);
        Move(s, c, Leaving(s.clients[c].owned)).(routes := RemoveListed(s.routes, mine))
    case EndNext(c) =>
      if !(c in s.clients && s.clients[c].phase.Leaving?) then s
      else
        var todo := s.clients[c].phase.todo;
        if todo == [] then Move(s, c, Gone)
        else
          Move(s, c, Leaving(todo[1..])).(rows :=
            if todo[0] in s.rows then s.rows[todo[0] := End(s.rows[todo[0]], s.now)] else s.rows)
    case AgentAnswer(id) =>
      if id in s.rows then s.(rows := s.rows[id := Activate(s.rows[id])]) else s
    case AgentUsage(id, bytes) =>
      if id in s.rows then s.(rows := s.rows[id := Use(s.rows[id], bytes, 0)]) else s
    case EndMachine(machine) =>
      s.(rows := map id | id in s.rows :: if s.rows[id].machine == machine then End(s.rows[id], s.now) else s.rows[id])
    case Tick => s.(now := s.now + 1)
  }

  function Run(s: Relay, events: seq<Event>): Relay
    decreases events
  {
    if events == [] then s else Run(Step(s, events[0]), events[1..])
  }

  // ---------- Session rows ----------

  function Rank(status: Status): nat {
    match status
    case Pending => 0
    case Active => 1
    case Ended => 2
  }

  ghost predicate RowsEndOnce(s: Relay) {
    forall id | id in s.rows :: EndOnce(s.rows[id])
  }

  /** A row only moves forward: owner and machine fixed, status never back, the end time set once
      and kept, counters never down. */
  ghost predicate Forward(r: Row, r': Row) {
    && r'.user == r.user && r'.machine == r.machine
    && Rank(r.status) <= Rank(r'.status)
    && (r.endedAt.Some? ==> r'.endedAt == r.endedAt)
    && r.sent <= r'.sent && r.received <= r'.received
  }

  ghost predicate RowsForward(s: Relay, s': Relay) {
    forall id | id in s.rows :: id in s'.rows && Forward(s.rows[id], s'.rows[id])
  }

  /** The end time is set exactly when the row has ended. */
  predicate EndOnce(r: Row) {
    r.status.Ended? <==> r.endedAt.Some?
  }

  lemma {:induction false} UpdatesGoForward(r: Row, now: nat, sent: nat, received: nat)
    requires EndOnce(r)
    ensures Forward(r, r) && Forward(r, Activate(r)) && Forward(r, End(r, now)) && Forward(r, Use(r, sent, received))
    ensures EndOnce(Activate(r)) && EndOnce(End(r, now)) && EndOnce(Use(r, sent, received))
  {
  }

  /** The update a step makes to an existing row. */
  lemma {:induction false} StepUpdates(s: Relay, e: Event, id: string)
    requires id in s.rows
    ensures id in Step(s, e).rows
    ensures var r, r' := s.rows[id], Step(s, e).rows[id];
      || r' == r || r' == Activate(r) || r' == End(r, s.now)
      || (e.AgentUsage? && r' == Use(r, e.bytes, 0)) || (e.RecordReceived? && r' == Use(r, 0, e.bytes))
  {
    hide Activate, End, Use, InsertEntry, RemoveListed;
  }

  lemma {:induction false} StepRow(s: Relay, e: Event, id: string)
    requires id in s.rows && EndOnce(s.rows[id])
    ensures id in Step(s, e).rows && Forward(s.rows[id], Step(s, e).rows[id]) && EndOnce(Step(s, e).rows[id])
  {
    StepUpdates(s, e, id);
    UpdatesGoForward(s.rows[id], s.now, if e.AgentUsage? then e.bytes else 0, if e.RecordReceived? then e.bytes else 0);
    hide Step, Activate, End, Use, Forward, EndOnce;
  }

  lemma {:induction false} StepRows(s: Relay, e: Event)
    requires RowsEndOnce(s)
    ensures RowsForward(s, Step(s, e)) && RowsEndOnce(Step(s, e))
  {
    forall id | id in s.rows
      ensures id in Step(s, e).rows && Forward(s.rows[id], Step(s, e).rows[id]) && EndOnce(Step(s, e).rows[id])
    {
      StepRow(s, e, id);
    }
    assert forall id | id in Step(s, e).rows && id !in s.rows :: e.CreateSession? && e.session == id;
  }

  /** Between any two points of any run every session row has only moved forward. */
  lemma {:induction false} RowsNeverGoBack(s: Relay, events: seq<Event>)
    requires RowsEndOnce(s)
    ensures RowsForward(s, Run(s, events)) && RowsEndOnce(Run(s, events))
    decreases events
  {
    if events != [] {
      var s' := Step(s, events[0]);
      StepRows(s, events[0]);
      RowsNeverGoBack(s', events[1..]);
      assert forall id | id in s.rows :: Forward(s.rows[id], s'.rows[id]);
    }
  }

  // ---------- What the updates write ----------

  lemma {:induction false} SessionsAndClientsBegin(s: Relay, id: string, user: string, machine: string,
                                                   c: nat, inst: nat)
    ensures Step(s, CreateSession(id, user, machine)) ==
            if id in s.rows then s
            else Relay(s.rows[id := Row(user, machine, Pending, None, 0, 0)], s.routes, s.clients, s.now)
    ensures Step(s, ClientConnect(c, inst, user)) ==
            if c in s.clients then s
            else Relay(s.rows, s.routes, s.clients[c := Client(inst, user, [], Idle)], s.now)
  {
  }

  lemma {:induction false} AnswerActivates(s: Relay, id: string)
    requires id in s.rows
    ensures var r := s.rows[id];
      Step(s, AgentAnswer(id)) ==
      Relay(s.rows[id := Row(r.user, r.machine, if r.status == Pending then Active else r.status, r.endedAt,
                             r.sent, r.received)],
            s.routes, s.clients, s.now)
  {
  }

  /** The agent's bytes are those sent, a client's connect request those received. */
  lemma {:induction false} UsageCounts(s: Relay, id: string, c: nat, bytes: nat)
    requires id in s.rows
    ensures var r := s.rows[id];
      Step(s, AgentUsage(id, bytes)) ==
      Relay(s.rows[id := Row(r.user, r.machine, r.status, r.endedAt, r.sent + bytes, r.received)],
            s.routes, s.clients, s.now)
    ensures At(s, c, Recording(id)) ==>
              var r, o := s.rows[id], s.clients[c];
              Step(s, RecordReceived(c, bytes)) ==
              Relay(s.rows[id := Row(r.user, r.machine, r.status, r.endedAt, r.sent, r.received + bytes)],
                    s.routes, s.clients[c := Client(o.inst, o.user, o.owned, Idle)], s.now)
  {
  }

  /** Ending, by a client's cleanup or for a machine, sets the status and a missing end time of rows
      that have not ended, and leaves every other row. */
  lemma {:induction false} EndingEnds(s: Relay, c: nat, machine: string, id: string, rest: seq<string>)
    requires id in s.rows
    ensures var r := s.rows[id];
      var ended := if r.status == Ended then r
                   else Row(r.user, r.machine, Ended, if r.endedAt == None then Some(s.now) else r.endedAt,
                            r.sent, r.received);
      && (At(s, c, Leaving([id] + rest)) ==>
            var s' := Step(s, EndNext(c));
            s'.rows == s.rows[id := ended] && At(s', c, Leaving(rest)))
      && id in Step(s, EndMachine(machine)).rows
      && Step(s, EndMachine(machine)).rows[id] == if r.machine == machine then ended else r
  {
    assert ([id] + rest)[1..] == rest;
  }

  // ---------- A client's sessions end with it ----------

  predicate HasEnded(s: Relay, id: string) {
    id in s.rows && s.rows[id].status == Ended && s.rows[id].endedAt.Some?
  }

  /** A leaving client's sessions have ended or are still to be ended; a gone client's have ended. */
  predicate LeftBehind(s: Relay, c: nat, id: string)
    requires c in s.clients
  {
    match s.clients[c].phase
    case Leaving(todo) => id in todo || HasEnded(s, id)
    case Gone => HasEnded(s, id)
    case _ => true
  }

  ghost predicate CleansUp(s: Relay) {
    forall c, id | c in s.clients && id in s.clients[c].owned :: LeftBehind(s, c, id)
  }

  lemma {:induction false} EndedStaysEnded(s: Relay, e: Event, id: string)
    requires HasEnded(s, id)
    ensures HasEnded(Step(s, e), id)
  {
    StepUpdates(s, e, id);
    hide Step;
  }

  lemma {:induction false} TodoEnds(s: Relay, c: nat)
    requires c in s.clients && s.clients[c].phase.Leaving? && RowsEndOnce(s)
    requires forall id | id in s.clients[c].phase.todo :: id in s.rows
    ensures var todo, s' := s.clients[c].phase.todo, Step(s, EndNext(c));
      forall id | id in todo :: HasEnded(s', id) || (At(s', c, Leaving(todo[1..])) && id in todo[1..])
    ensures s.clients[c].phase.todo == [] ==> At(Step(s, EndNext(c)), c, Gone)
    ensures s.clients[c].phase.todo != [] ==> At(Step(s, EndNext(c)), c, Leaving(s.clients[c].phase.todo[1..]))
  {
  }

  /** Other steps leave a leaving or gone client as it is, and only a cleanup makes one leave. */
  lemma {:induction false} PhaseBefore(s: Relay, e: Event, c: nat)
    requires c in Step(s, e).clients && !Live(Step(s, e).clients[c])
    ensures c in s.clients && Step(s, e).clients[c].owned == s.clients[c].owned
    ensures e != EndNext(c) ==>
              Step(s, e).clients[c] == s.clients[c]
              || Step(s, e).clients[c].phase == Leaving(s.clients[c].owned)
  {
    hide End, Use, Activate, RemoveListed, InsertEntry;
  }

  /** What is left to end is owned, so its rows exist. */
  ghost predicate TodoOwned(s: Relay) {
    forall c, id | c in s.clients && s.clients[c].phase.Leaving? && id in s.clients[c].phase.todo ::
      id in s.clients[c].owned
  }

  lemma {:induction false} StepKeepsTodoOwned(s: Relay, e: Event)
    requires TodoOwned(s)
    ensures TodoOwned(Step(s, e))
  {
    var s' := Step(s, e);
    forall c, id | c in s'.clients && s'.clients[c].phase.Leaving? && id in s'.clients[c].phase.todo
      ensures id in s'.clients[c].owned
    {
      TodoBefore(s, e, c, id);
    }
  }

  lemma {:induction false} TodoBefore(s: Relay, e: Event, c: nat, id: string)
    requires var s' := Step(s, e);
      c in s'.clients && s'.clients[c].phase.Leaving? && id in s'.clients[c].phase.todo
    ensures c in s.clients && Step(s, e).clients[c].owned == s.clients[c].owned
    ensures id in s.clients[c].owned || (s.clients[c].phase.Leaving? && id in s.clients[c].phase.todo)
  {
    hide End, Use, Activate, RemoveListed, InsertEntry;
  }

  lemma {:induction false} StepCleansUp(s: Relay, e: Event, c: nat, id: string)
    requires CleansUp(s) && TodoOwned(s) && Authenticated(s) && RowsEndOnce(s)
    requires c in Step(s, e).clients && id in Step(s, e).clients[c].owned
    ensures LeftBehind(Step(s, e), c, id)
  {
    var s' := Step(s, e);
    if !Live(s'.clients[c]) {
      PhaseBefore(s, e, c);
      assert LeftBehind(s, c, id);
      if HasEnded(s, id) {
        EndedStaysEnded(s, e, id);
      }
      if e == EndNext(c) && s.clients[c].phase.Leaving? {
        TodoEnds(s, c);
      } else if e == EndNext(c) {
        assert s' == s;
      }
    }
  }

  lemma {:induction false} RunCleansUp(s: Relay, events: seq<Event>)
    requires CleansUp(s) && TodoOwned(s) && Authenticated(s) && RowsEndOnce(s)
    ensures CleansUp(Run(s, events)) && RowsEndOnce(Run(s, events))
    decreases events
  {
    if events != [] {
      var s' := Step(s, events[0]);
      StepKeepsTodoOwned(s, events[0]);
      StepKeepsAuthenticated(s, events[0]);
      StepRows(s, events[0]);
      forall c, id | c in s'.clients && id in s'.clients[c].owned
        ensures LeftBehind(s', c, id)
      {
        StepCleansUp(s, events[0], c, id);
      }
      hide Step, CleansUp, TodoOwned, Authenticated, RowsEndOnce;
      RunCleansUp(s', events[1..]);
    }
  }

  /** In every reachable state each session a gone client owned has an ended row with an end time,
      and each session of a leaving client has one or is still on its list. */
  lemma {:induction false} SessionsEndWithClient(events: seq<Event>, c: nat, id: string)
    requires c in Run(START, events).clients && id in Run(START, events).clients[c].owned
    ensures var s := Run(START, events);
      match s.clients[c].phase
      case Gone => id in s.rows && s.rows[id].status == Ended && s.rows[id].endedAt.Some?
      case Leaving(todo) => id in todo || (id in s.rows && s.rows[id].status == Ended && s.rows[id].endedAt.Some?)
      case _ => true
  {
    RunCleansUp(START, events);
    assert LeftBehind(Run(START, events), c, id);
  }

  // ---------- Routing ----------

  /** A client before its cleanup. */
  predicate Live(c: Client) {
    !c.phase.Leaving? && !c.phase.Gone?
  }

  /** The session a client's handler is at. */
  predicate Handling(c: Client, id: string) {
    match c.phase
    case Verified(session) => session == id
    case Inserted(session) => session == id
    case Recording(session) => session == id
    case _ => false
  }

  /** What a client handles or owns is a session of its user. */
  ghost predicate Authenticated(s: Relay) {
    forall c, id | c in s.clients && (id in s.clients[c].owned || Handling(s.clients[c], id)) ::
      id in s.rows && s.rows[id].user == s.clients[c].user
  }

  /** A route leads to a live client at that process which lists the session as owned, or is one
      handler step short of it. */
  ghost predicate RoutesLive(s: Relay) {
    forall k | k in s.routes :: RouteLive(s, k)
  }

  ghost predicate Routing(s: Relay) {
    Authenticated(s) && RoutesLive(s)
  }

  lemma {:induction false} StepKeepsOwners(s: Relay, e: Event)
    ensures forall id | id in s.rows :: id in Step(s, e).rows && Step(s, e).rows[id].user == s.rows[id].user
  {
  }

  /** A client comes to handle a session only by reading a row of its user, and to own one only
      by handling it. */
  lemma {:induction false} StepAddsOnlyRead(s: Relay, e: Event, c: nat, id: string)
    requires var s' := Step(s, e);
      c in s'.clients && (id in s'.clients[c].owned || Handling(s'.clients[c], id))
    ensures c in s.clients && Step(s, e).clients[c].user == s.clients[c].user
    ensures id in s.clients[c].owned || Handling(s.clients[c], id)
            || (id in s.rows && s.rows[id].user == s.clients[c].user)
  {
  }

  lemma {:induction false} StepKeepsAuthenticated(s: Relay, e: Event)
    requires Authenticated(s)
    ensures Authenticated(Step(s, e))
  {
    hide Step;
    StepKeepsOwners(s, e);
    var s' := Step(s, e);
    forall c, id | c in s'.clients && (id in s'.clients[c].owned || Handling(s'.clients[c], id))
      ensures id in s'.rows && s'.rows[id].user == s'.clients[c].user
    {
      StepAddsOnlyRead(s, e, c, id);
    }
  }

  /** A route at k is good: a live client of that process that owns or is about to own it. */
  ghost predicate RouteLive(s: Relay, k: Slot)
    requires k in s.routes
  {
    s.routes[k] in s.clients &&
    var c := s.clients[s.routes[k]];
    c.inst == k.inst && Live(c) && (k.session in c.owned || c.phase == Inserted(k.session))
  }

  lemma {:induction false} StepKeepsRoute(s: Relay, e: Event, k: Slot)
    requires k in s.routes ==> RouteLive(s, k)
    ensures k in Step(s, e).routes ==> RouteLive(Step(s, e), k)
  {
    hide End, Use, Activate;
    if e.RemoveRoutes? && At(s, e.client, Idle) {
      ListedSlots(s.clients[e.client].inst, s.clients[e.client].owned, k);
    }
  }

  lemma {:induction false} StepKeepsRoutes(s: Relay, e: Event)
    requires RoutesLive(s)
    ensures RoutesLive(Step(s, e))
  {
    hide Step;
    forall k | k in Step(s, e).routes
      ensures RouteLive(Step(s, e), k)
    {
      StepKeepsRoute(s, e, k);
    }
  }

  lemma {:induction false} RunKeepsRouting(s: Relay, events: seq<Event>)
    requires Routing(s)
    ensures Routing(Run(s, events))
    decreases events
  {
    if events != [] {
      StepKeepsAuthenticated(s, events[0]);
      StepKeepsRoutes(s, events[0]);
      RunKeepsRouting(Step(s, events[0]), events[1..]);
    }
  }

  /** In every reachable state a route for a session leads to a client that has not cleaned up and
      is authenticated as the row's user, and lists the session unless its handler is just
      between the two; no route leads to a client that is leaving or gone. */
  lemma {:induction false} RoutingInvariant(events: seq<Event>)
    ensures var s := Run(START, events);
      && (forall k | k in s.routes ::
            && s.routes[k] in s.clients && Live(s.clients[s.routes[k]])
            && k.session in s.rows && s.rows[k.session].user == s.clients[s.routes[k]].user
            && (k.session in s.clients[s.routes[k]].owned || s.clients[s.routes[k]].phase == Inserted(k.session)))
      && (forall c | c in s.clients && !Live(s.clients[c]) :: c !in s.routes.Values)
  {
    RunKeepsRouting(START, events);
  }

  lemma {:induction false} ListedSlots(inst: nat, sessions: seq<string>, k: Slot)
    ensures k in Listed(Slots(inst, sessions)) <==> k.inst == inst && k.session in sessions
  {
    var slots := Slots(inst, sessions);
    if k.inst == inst && k.session in sessions {
      var i :| 0 <= i < |sessions| && sessions[i] == k.session;
      assert slots[i] == k;
    }
  }

  // ---------- When every live owner has its route ----------

  /** A live client that owns the session, or has just inserted its route. */
  predicate Holds(s: Relay, c: nat, id: string) {
    c in s.clients && Live(s.clients[c]) && (id in s.clients[c].owned || s.clients[c].phase == Inserted(id))
  }

  predicate Routed(s: Relay, c: nat, id: string)
    requires c in s.clients
  {
    var k := Slot(s.clients[c].inst, id);
    k in s.routes && s.routes[k] == c
  }

  /** The converse of the routing invariant. */
  ghost predicate HoldersRouted(s: Relay) {
    forall c, id | Holds(s, c, id) :: Routed(s, c, id)
  }

  /** No two live clients of one process hold the same session. */
  ghost predicate Unshared(s: Relay) {
    forall c, d, id | Holds(s, c, id) && Holds(s, d, id) && s.clients[c].inst == s.clients[d].inst :: c == d
  }

  /** A client inserts its route to a session that another live client of the process holds. */
  ghost predicate TakesOver(s: Relay, e: Event) {
    && e.InsertRoute? && e.client in s.clients && s.clients[e.client].phase.Verified?
    && exists d :: d != e.client && Holds(s, d, s.clients[e.client].phase.session)
                   && s.clients[d].inst == s.clients[e.client].inst
  }

  lemma {:induction false} RoutedMeansUnshared(s: Relay)
    requires HoldersRouted(s)
    ensures Unshared(s)
  {
  }

  /** A client comes to hold a session only by inserting its route, and stays at its process. */
  lemma {:induction false} HoldsBefore(s: Relay, e: Event, c: nat, id: string)
    requires Holds(Step(s, e), c, id)
    ensures c in s.clients && Step(s, e).clients[c].inst == s.clients[c].inst
    ensures Holds(s, c, id) || (e == InsertRoute(c) && s.clients[c].phase == Verified(id))
  {
    hide End, Use, Activate, RemoveListed, InsertEntry;
  }

  lemma {:induction false} InsertKeepsHolders(s: Relay, c: nat, d: nat, id: string)
    requires c != d && Holds(s, d, id)
    ensures Holds(Step(s, InsertRoute(c)), d, id)
    ensures Step(s, InsertRoute(c)).clients[d] == s.clients[d]
  {
  }

  /** A route changes hands or goes only by an insert at its slot or a cleanup listing it. */
  lemma {:induction false} RouteKept(s: Relay, e: Event, k: Slot)
    requires k in s.routes
    requires e.InsertRoute? && e.client in s.clients && s.clients[e.client].phase.Verified? ==>
               k != Slot(s.clients[e.client].inst, s.clients[e.client].phase.session)
    requires e.RemoveRoutes? && At(s, e.client, Idle) ==>
               k.inst != s.clients[e.client].inst || k.session !in s.clients[e.client].owned
    ensures k in Step(s, e).routes && Step(s, e).routes[k] == s.routes[k]
  {
    hide End, Use, Activate;
    if e.RemoveRoutes? && At(s, e.client, Idle) {
      ListedSlots(s.clients[e.client].inst, s.clients[e.client].owned, k);
    }
  }

  lemma {:induction false} StepKeepsHolderRouted(s: Relay, e: Event, c: nat, id: string)
    requires HoldersRouted(s) && !TakesOver(s, e) && Holds(Step(s, e), c, id)
    ensures Routed(Step(s, e), c, id)
  {
    HoldsBefore(s, e, c, id);
    if !(e == InsertRoute(c) && s.clients[c].phase == Verified(id)) {
      hide Step;
      var k := Slot(s.clients[c].inst, id);
      assert Routed(s, c, id);
      CleanerIsNotLive(s, e, c, id);
      assert e.RemoveRoutes? && At(s, e.client, Idle) && id in s.clients[e.client].owned ==> Holds(s, e.client, id);
      RouteKept(s, e, k);
    }
  }

  lemma {:induction false} CleanerIsNotLive(s: Relay, e: Event, c: nat, id: string)
    requires Holds(Step(s, e), c, id)
    ensures e.RemoveRoutes? && At(s, e.client, Idle) ==> e.client != c
  {
  }

  lemma {:induction false} StepRoutesHolders(s: Relay, e: Event)
    requires HoldersRouted(s)
    ensures HoldersRouted(Step(s, e)) <==> !TakesOver(s, e)
    ensures Unshared(Step(s, e)) <==> !TakesOver(s, e)
  {
    hide Step;
    if TakesOver(s, e) {
      var c := e.client;
      var id := s.clients[c].phase.session;
      var d :| d != c && Holds(s, d, id) && s.clients[d].inst == s.clients[c].inst;
      InsertKeepsHolders(s, c, d, id);
      InsertedHolds(s, c, id);
      assert !Unshared(Step(s, e));
      if HoldersRouted(Step(s, e)) {
        RoutedMeansUnshared(Step(s, e));
      }
    } else {
      forall c, id | Holds(Step(s, e), c, id)
        ensures Routed(Step(s, e), c, id)
      {
        StepKeepsHolderRouted(s, e, c, id);
      }
      RoutedMeansUnshared(Step(s, e));
    }
  }

  lemma {:induction false} InsertedHolds(s: Relay, c: nat, id: string)
    requires At(s, c, Verified(id))
    ensures Holds(Step(s, InsertRoute(c)), c, id)
    ensures Step(s, InsertRoute(c)).clients[c].inst == s.clients[c].inst
  {
  }

  lemma {:induction false} RunPrefix(events: seq<Event>, n: nat)
    requires n < |events|
    ensures Run(START, events[..n + 1]) == Step(Run(START, events[..n]), events[n])
  {
    hide Step;
    assert events[..n + 1] == events[..n] + [events[n]];
    RunAppend(START, events[..n], [events[n]]);
    UnfoldRun(Run(START, events[..n]), events[n], []);
    assert [events[n]] + [] == [events[n]];
  }

  /** Up to any point of any run: every live client is routed at all sessions it holds, throughout,
      exactly when no two live clients of a process have ever held the same session, exactly when no
      client's insert ever took a session over from another. */
  lemma {:induction false} HoldersRoutedExactlyWhen(events: seq<Event>, n: nat)
    requires n <= |events|
    ensures (forall i | 0 <= i <= n :: HoldersRouted(Run(START, events[..i])))
            <==> (forall i | 0 <= i <= n :: Unshared(Run(START, events[..i])))
    ensures (forall i | 0 <= i <= n :: HoldersRouted(Run(START, events[..i])))
            <==> (forall i | 0 <= i < n :: !TakesOver(Run(START, events[..i]), events[i]))
    decreases n
  {
    hide Step, HoldersRouted, Unshared, TakesOver;
    if n == 0 {
      StartIsRouted();
      assert events[..0] == [];
    } else {
      HoldersRoutedExactlyWhen(events, n - 1);
      RunPrefix(events, n - 1);
      if forall i | 0 <= i <= n - 1 :: HoldersRouted(Run(START, events[..i])) {
        StepRoutesHolders(Run(START, events[..n - 1]), events[n - 1]);
      }
    }
  }

  lemma {:induction false} StartIsRouted()
    ensures HoldersRouted(START) && Unshared(START)
  {
  }

  /** A client's handler serving one connect request. */
  function Request(c: nat, id: string): seq<Event> {
    [ReadRow(c, id), InsertRoute(c), ListOwned(c), RecordReceived(c, 0)]
  }

  lemma {:induction false} RequestRoutes(s: Relay, c: nat, id: string) returns (s': Relay)
    requires At(s, c, Idle) && id in s.rows && s.rows[id].user == s.clients[c].user
    ensures s' == Run(s, Request(c, id))
    ensures At(s', c, Idle) && s'.clients[c].owned == s.clients[c].owned + [id]
    ensures s'.clients[c].user == s.clients[c].user && s'.clients[c].inst == s.clients[c].inst
    ensures s'.routes == s.routes[Slot(s.clients[c].inst, id) := c]
    ensures s'.clients.Keys == s.clients.Keys && forall d | d in s.clients && d != c :: s'.clients[d] == s.clients[d]
    ensures id in s'.rows && s'.rows[id].user == s.rows[id].user
  {
    var s1 := Step(s, ReadRow(c, id));
    var s2 := Step(s1, InsertRoute(c));
    var s3 := Step(s2, ListOwned(c));
    s' := Step(s3, RecordReceived(c, 0));
    RunFour(s, ReadRow(c, id), InsertRoute(c), ListOwned(c), RecordReceived(c, 0));
    assert At(s1, c, Verified(id)) && At(s2, c, Inserted(id)) && At(s3, c, Recording(id));
  }

  lemma {:induction false} RunFour(s: Relay, e1: Event, e2: Event, e3: Event, e4: Event)
    ensures Run(s, [e1, e2, e3, e4]) == Step(Step(Step(Step(s, e1), e2), e3), e4)
  {
    hide Step;
    UnfoldRun(s, e1, [e2, e3, e4]);
    UnfoldRun(Step(s, e1), e2, [e3, e4]);
    UnfoldRun(Step(Step(s, e1), e2), e3, [e4]);
    UnfoldRun(Step(Step(Step(s, e1), e2), e3), e4, []);
    assert [e1] + [e2, e3, e4] == [e1, e2, e3, e4] && [e2] + [e3, e4] == [e2, e3, e4];
    assert [e3] + [e4] == [e3, e4] && [e4] + [] == [e4];
  }

  lemma {:induction false} UnfoldRun(s: Relay, e: Event, events: seq<Event>)
    ensures Run(s, [e] + events) == Run(Step(s, e), events)
    ensures events == [] ==> Run(s, [e] + events) == Step(s, e)
  {
    assert ([e] + events)[1..] == events;
  }

  lemma {:induction false} RunAppend(s: Relay, xs: seq<Event>, ys: seq<Event>)
    ensures Run(s, xs + ys) == Run(Run(s, xs), ys)
    decreases xs
  {
    if xs == [] {
      assert xs + ys == ys;
    } else {
      assert (xs + ys)[1..] == xs[1..] + ys;
      RunAppend(Step(s, xs[0]), xs[1..], ys);
    }
  }

  /** A user's second connection takes over a session; when the first one closes, the second stays
      connected and owning but has no route: the converse of the routing invariant fails. */
  lemma {:induction false} TakenOverThenLost(s: Relay, id: string, a: nat, b: nat)
    requires a != b && At(s, a, Idle) && At(s, b, Idle) && s.clients[a].inst == s.clients[b].inst
    requires id in s.rows && s.clients[a].user == s.clients[b].user == s.rows[id].user
    ensures var s1 := Run(s, Request(a, id) + Request(b, id));
      var k := Slot(s.clients[b].inst, id);
      && k in s1.routes && s1.routes[k] == b
      && var s2 := Step(s1, RemoveRoutes(a));
      k !in s2.routes && At(s2, b, Idle) && id in s2.clients[b].owned
  {
    var sa := RequestRoutes(s, a, id);
    var sb := RequestRoutes(sa, b, id);
    RunAppend(s, Request(a, id), Request(b, id));
    ListedSlots(s.clients[b].inst, sb.clients[a].owned, Slot(s.clients[b].inst, id));
  }
}
