/** The relay's in-memory routing state on one server process, and the Redis scripts that guard
    the presence metadata several processes share. */
module Signaling {
  import opened Bytes

  // ---------- Lock sections ----------

  /** Insert an entry; the one it replaces is dropped, and with it that connection's sender. */
  function InsertEntry<K, V>(entries: map<K, V>, key: K, entry: V): (map<K, V>, Option<V>) {
    (entries[key := entry], if key in entries then Some(entries[key]) else None)
  }

  /** Remove the entry only if it is still this connection's. */
  function RemoveIfCurrent<K, V(==)>(agents: map<K, V>, key: K, conn: V): (map<K, V>, bool) {
    if key in agents && agents[key] == conn then (agents - {key}, true) else (agents, false)
  }

  function Listed<T>(items: seq<T>): set<T> {
    set x | x in items
  }

  /** Remove every listed key, whoever its entry belongs to now. */
  function RemoveListed<K, V>(entries: map<K, V>, keys: seq<K>): map<K, V> {
    entries - Listed(keys)
  }

  /** One server process: agents by machine and clients by session. An agent connection is known to
      the map by its id, a client's sender by a name of its own. */
  class SignalingState {
    var agents: map<string, nat>
    var clients: map<string, nat>

    constructor ()
      ensures agents == map[] && clients == map[]
    {
      agents, clients := map[], map[];
    }

    method RegisterAgent(machineId: string, connId: nat) returns (dropped: Option<nat>)
      modifies this`agents
      ensures (agents, dropped) == InsertEntry(old(agents), machineId, connId)
    {
      dropped := if machineId in agents then Some(agents[machineId]) else None;
      agents := agents[machineId := connId];
    }

    method UnregisterAgentIfCurrent(machineId: string, connId: nat) returns (wasCurrent: bool)
      modifies this`agents
      ensures (agents, wasCurrent) == RemoveIfCurrent(old(agents), machineId, connId)
    {
      if machineId in agents && agents[machineId] == connId {
        agents := agents - {machineId};
        return true;
      }
      return false;
    }

    method RegisterClientSession(sessionId: string, sender: nat) returns (dropped: Option<nat>)
      modifies this`clients
      ensures (clients, dropped) == InsertEntry(old(clients), sessionId, sender)
    {
      dropped := if sessionId in clients then Some(clients[sessionId]) else None;
      clients := clients[sessionId := sender];
    }

    method UnregisterClientSessions(sessionIds: seq<string>)
      modifies this`clients
      ensures clients == RemoveListed(old(clients), sessionIds)
    {
      for i := 0 to |sessionIds|
        invariant clients == old(clients) - Listed(sessionIds[..i])
      {
        assert Listed(sessionIds[..i + 1]) == Listed(sessionIds[..i]) + {sessionIds[i]};
        clients := clients - {sessionIds[i]};
      }
      assert sessionIds[..|sessionIds|] == sessionIds;
    }
  }

  // ---------- Redis presence ----------

  /** The presence hash of a machine. `writer` records which connection wrote it; the scripts only
      see the instance name and the connection id. */
  datatype Presence = Presence(instance: string, connId: nat, expiresAt: nat, writer: Conn)

  /** An agent connection: the server process it arrived at and its id there. */
  datatype Conn = Conn(inst: nat, id: nat)

  /** The guard both scripts start with. */
  predicate Guard(p: Presence, instance: string, connId: nat) {
    p.instance == instance && p.connId == connId
  }

  function RefreshScript(redis: map<string, Presence>, machine: string, instance: string, connId: nat, expiry: nat)
    : map<string, Presence>
  {
    if machine in redis && Guard(redis[machine], instance, connId)
    then redis[machine := redis[machine].(expiresAt := expiry)]
    else redis
  }

  function ClearScript(redis: map<string, Presence>, machine: string, instance: string, connId: nat)
    : map<string, Presence>
  {
    if machine in redis && Guard(redis[machine], instance, connId) then redis - {machine} else redis
  }
}
