/** The registry of SSE connections: a bounded channel per client, and the fan-out of an event to the channels of
    the clients that subscribed. */
module SseRegistry {
  import opened Basics

  const MAX_SSE_CONNECTIONS: nat := 100
  const SSE_CHANNEL_CAPACITY: nat := 100

  /** An update is named by its place among all updates handled. */
  datatype Event = JsonData(update: nat) | Heartbeat

  /** A bounded channel; `closed` once the receiving client is gone. */
  datatype Channel = Channel(queue: seq<Event>, closed: bool)

  datatype SendResult = Sent | Full | Closed

  datatype Connection = Connection(deviceId: string, signalGroups: seq<string>, channel: Channel)

  type Connections = map<nat, Connection>

  function TrySend(c: Channel): SendResult {
    if c.closed then Closed else if |c.queue| >= SSE_CHANNEL_CAPACITY then Full else Sent
  }

  function AfterSend(c: Channel, e: Event): Channel {
    if TrySend(c) == Sent then c.(queue := c.queue + [e]) else c
  }

  predicate Subscribed(c: Connection, deviceId: string, signalGroup: string) {
    c.deviceId == deviceId && signalGroup in c.signalGroups
  }

  /** The connections that an event goes to: those of a device and a group, or all. */
  datatype Audience = Everyone | Subscribers(deviceId: string, signalGroup: string)
  {
    predicate Includes(c: Connection) {
      Everyone? || Subscribed(c, deviceId, signalGroup)
    }
  }

  function WithEvent(c: Connection, e: Event): Connection { c.(channel := AfterSend(c.channel, e)) }

  /** After a fan-out: the audience has the event if there was room, its dead connections are gone, and every
      other connection is as before. */
  function Broadcast(cs: Connections, to: Audience, e: Event): Connections {
    map id | id in cs && !(to.Includes(cs[id]) && cs[id].channel.closed) ::
      if to.Includes(cs[id]) then WithEvent(cs[id], e) else cs[id]
  }

  /** The connections among `ids` to which the event gets through. */
  function Reached(cs: Connections, to: Audience, ids: set<nat>): set<nat> {
    set id | id in ids && id in cs && to.Includes(cs[id]) && TrySend(cs[id].channel) == Sent
  }

  // The first loop of a fan-out, after the connections in `seen`.

  ghost function Offered(cs: Connections, to: Audience, e: Event, seen: set<nat>): Connections {
    map id | id in cs :: if id in seen && to.Includes(cs[id]) then WithEvent(cs[id], e) else cs[id]
  }

  ghost predicate DeadAre(dead: seq<nat>, cs: Connections, to: Audience, seen: set<nat>) {
    forall id :: id in dead <==> id in seen && id in cs && to.Includes(cs[id]) && TrySend(cs[id].channel) == Closed
  }

  lemma NothingOffered(cs: Connections, to: Audience, e: Event)
    ensures Offered(cs, to, e, {}) == cs && Reached(cs, to, {}) == {} && DeadAre([], cs, to, {})
  {}

  lemma OfferedStep(cs: Connections, to: Audience, e: Event, seen: set<nat>, id: nat)
    requires id in cs && id !in seen
    ensures var before := Offered(cs, to, e, seen);
      && id in before && before[id] == cs[id]
      && Offered(cs, to, e, seen + {id}) == if to.Includes(cs[id]) then before[id := WithEvent(cs[id], e)] else before
  {
    hide Audience.Includes, WithEvent;
  }

  lemma ReachedStep(cs: Connections, to: Audience, seen: set<nat>, id: nat)
    requires id in cs && id !in seen
    ensures |Reached(cs, to, seen + {id})|
         == |Reached(cs, to, seen)| + if to.Includes(cs[id]) && TrySend(cs[id].channel) == Sent then 1 else 0
  {
    hide Audience.Includes, TrySend;
    assert Reached(cs, to, seen + {id}) == Reached(cs, to, seen)
           + if to.Includes(cs[id]) && TrySend(cs[id].channel) == Sent then {id} else {};
  }

  lemma DeadStep(dead: seq<nat>, cs: Connections, to: Audience, seen: set<nat>, id: nat)
    requires id in cs && id !in seen && DeadAre(dead, cs, to, seen)
    ensures DeadAre(if to.Includes(cs[id]) && TrySend(cs[id].channel) == Closed then dead + [id] else dead,
                    cs, to, seen + {id})
  {
    hide Audience.Includes, TrySend;
  }

  class SseConnectionRegistry {
    var connections: Connections
    var nextId: nat

    ghost predicate Valid()
      reads this
    {
      && (forall id <- connections :: id < nextId)
      && (forall id <- connections :: |connections[id].channel.queue| <= SSE_CHANNEL_CAPACITY)
    }

    constructor ()
      ensures Valid() && connections == map[] && nextId == 0
    {
      connections, nextId := map[], 0;
    }

    /** Refused at the limit; otherwise the connection gets a number that was never given out. */
    method Register(connection: Connection) returns (id: Option<nat>)
      requires Valid() && |connection.channel.queue| <= SSE_CHANNEL_CAPACITY
      modifies this
      ensures Valid()
      ensures id.Some? <==> |old(connections)| < 100
      ensures id.None? ==> connections == old(connections) && nextId == old(nextId)
      ensures id.Some? ==> id.value !in old(connections) && connections == old(connections)[id.value := connection]
                           && id.value == old(nextId) && nextId == old(nextId) + 1
    {
      if |connections| >= MAX_SSE_CONNECTIONS { return None; }
      id := Some(nextId);
      nextId := nextId + 1;
      connections := connections[id.value := connection];
    }

    method Unregister(id: nat) returns (removed: bool)
      requires Valid()
      modifies `connections
      ensures Valid() && connections == old(connections) - {id} && (removed <==> id in old(connections))
    {
      removed := id in connections;
      connections := connections - {id};
    }

    /** One entry of the iteration: tries to send and notes a dead connection. */
    method Offer(id: nat, e: Event, sentCount: nat, dead: seq<nat>) returns (count: nat, noted: seq<nat>)
      requires Valid() && id in connections
      modifies `connections
      ensures Valid() && connections == old(connections)[id := WithEvent(old(connections)[id], e)]
      ensures var r := TrySend(old(connections)[id].channel);
        && count == sentCount + (if r == Sent then 1 else 0)
        && noted == (if r == Closed then dead + [id] else dead)
    {
      count, noted := sentCount, dead;
      var conn := connections[id];
      match TrySend(conn.channel) {
        case Sent => count := count + 1;
        case Full =>
        case Closed => noted := noted + [id];
      }
      connections := connections[id := WithEvent(conn, e)];
    }

    /** Tries every connection of the audience, in any order, and then removes the dead ones. */
    method FanOut(to: Audience, e: Event) returns (sentCount: nat)
      requires Valid()
      modifies `connections
      ensures Valid() && connections == Broadcast(old(connections), to, e)
      ensures sentCount == |Reached(old(connections), to, old(connections).Keys)|
    {
      hide Audience.Includes, Broadcast, WithEvent, TrySend, Offered, Reached, DeadAre;
      ghost var cs := connections;
      sentCount := 0;
      var dead: seq<nat> := [];
      var rest := connections.Keys;
      ghost var seen: set<nat> := {};
      NothingOffered(cs, to, e);
      while rest != {}
        invariant Valid() && cs.Keys == seen + rest && seen !! rest
        invariant connections == Offered(cs, to, e, seen)
        invariant sentCount == |Reached(cs, to, seen)|
        invariant DeadAre(dead, cs, to, seen)
      {
        var id :| id in rest;
        OfferedStep(cs, to, e, seen, id);
        ReachedStep(cs, to, seen, id);
        DeadStep(dead, cs, to, seen, id);
        if to.Includes(connections[id]) {
          sentCount, dead := Offer(id, e, sentCount, dead);
        }
        seen, rest := seen + {id}, rest - {id};
      }
      RemoveDead(dead);
      BroadcastIs(cs, to, e, dead, connections);
    }

    method RemoveDead(dead: seq<nat>)
      requires Valid()
      modifies `connections
      ensures Valid() && forall id :: id in connections <==> id in old(connections) && id !in dead
      ensures forall id <- connections :: connections[id] == old(connections)[id]
    {
      var i := 0;
      while i < |dead|
        invariant 0 <= i <= |dead| && Valid()
        invariant forall id :: id in connections <==> id in old(connections) && id !in dead[..i]
        invariant forall id <- connections :: connections[id] == old(connections)[id]
      {
        var removed := Unregister(dead[i]);
        assert dead[..i + 1] == dead[..i] + [dead[i]];
        i := i + 1;
      }
      assert dead[..i] == dead;
    }

    method SendToSubscribers(deviceId: string, signalGroup: string, update: nat) returns (sentCount: nat)
      requires Valid()
      modifies `connections
      ensures Valid()
      ensures connections == Broadcast(old(connections), Subscribers(deviceId, signalGroup), JsonData(update))
      ensures sentCount
           == |Reached(old(connections), Subscribers(deviceId, signalGroup), old(connections).Keys)|
      ensures forall id <- connections :: id in old(connections)
      ensures forall id <- old(connections) ::
        var c := old(connections)[id];
        if c.deviceId == deviceId && signalGroup in c.signalGroups then WasSent(connections, id, c, JsonData(update))
        else id in connections && connections[id] == c
      ensures sentCount == |set id | id in old(connections) && old(connections)[id].deviceId == deviceId
                                     && signalGroup in old(connections)[id].signalGroups
                                     && HasRoom(old(connections)[id])|
    {
      SubscribersAre(connections, deviceId, signalGroup, JsonData(update));
      hide Broadcast, Reached, WasSent;
      sentCount := FanOut(Subscribers(deviceId, signalGroup), JsonData(update));
    }

    method SendHeartbeatToAll() returns (sentCount: nat)
      requires Valid()
      modifies `connections
      ensures Valid() && connections == Broadcast(old(connections), Everyone, Heartbeat)
      ensures sentCount == |Reached(old(connections), Everyone, old(connections).Keys)|
      ensures forall id <- connections :: id in old(connections)
      ensures forall id <- old(connections) :: WasSent(connections, id, old(connections)[id], Heartbeat)
      ensures sentCount == |set id | id in old(connections) && HasRoom(old(connections)[id])|
    {
      EveryoneIs(connections, Heartbeat);
      hide Broadcast, Reached, WasSent;
      sentCount := FanOut(Everyone, Heartbeat);
    }
  }

  /** Open, with fewer than 100 events waiting. */
  predicate HasRoom(c: Connection) { !c.channel.closed && |c.channel.queue| < 100 }

  /** What an event does to connection `id`, which was `c`: a dead one is removed, an open one with room has the event
      at the end of its queue, and a full one is as it was. */
  predicate WasSent(after: Connections, id: nat, c: Connection, e: Event) {
    if c.channel.closed then id !in after
    else
      && id in after
      && after[id] == if |c.channel.queue| < 100
                      then Connection(c.deviceId, c.signalGroups, Channel(c.channel.queue + [e], false)) else c
  }

  lemma EveryoneIs(cs: Connections, e: Event)
    ensures var after := Broadcast(cs, Everyone, e);
      (forall id <- after :: id in cs) && forall id <- cs :: WasSent(after, id, cs[id], e)
    ensures Reached(cs, Everyone, cs.Keys) == set id | id in cs && HasRoom(cs[id])
  {}

  lemma SubscribersAre(cs: Connections, deviceId: string, signalGroup: string, e: Event)
    ensures var after := Broadcast(cs, Subscribers(deviceId, signalGroup), e);
      && (forall id <- after :: id in cs)
      && forall id <- cs ::
           if cs[id].deviceId == deviceId && signalGroup in cs[id].signalGroups then WasSent(after, id, cs[id], e)
           else id in after && after[id] == cs[id]
    ensures Reached(cs, Subscribers(deviceId, signalGroup), cs.Keys)
         == set id | id in cs && cs[id].deviceId == deviceId && signalGroup in cs[id].signalGroups && HasRoom(cs[id])
  {}

  lemma BroadcastIs(cs: Connections, to: Audience, e: Event, dead: seq<nat>, after: Connections)
    requires DeadAre(dead, cs, to, cs.Keys)
    requires var offered := Offered(cs, to, e, cs.Keys);
      && (forall id :: id in after <==> id in offered && id !in dead)
      && (forall id <- after :: after[id] == offered[id])
    ensures after == Broadcast(cs, to, e)
  {
    hide Audience.Includes, WithEvent;
  }
}
