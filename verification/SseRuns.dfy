/** The registry over whole runs: threads that register clients, the worker that visits the connections one by one
    to fan an update or a heartbeat out, and clients that receive and leave, in any interleaving. */
module SseRuns {
  import opened Basics
  import opened SseRegistry

  datatype Update = Update(deviceId: string, signalGroup: string)

  /** What became of a client: it was offered the updates from number `from` up to number `upto`; its channel took
      those in `taken` and had no room for those in `skipped`; it has received those in `received`. `left` once the
      registry has found it gone. */
  datatype History = History(
    deviceId: string, signalGroups: seq<string>, from: nat, upto: nat,
    taken: seq<nat>, skipped: seq<nat>, received: seq<nat>, left: bool)

  /** A thread in `register`: it found room, then drew a number, then inserts. */
  datatype Registering = Idle | FoundRoom | Numbered(id: nat)

  /** A fan-out under way: the connections it is still to visit, those inserted meanwhile, which it may visit too,
      the dead ones that it will remove, the count that it will return, and whom the event has reached. */
  datatype FanOut = FanOut(
    to: Audience, event: Event, todo: set<nat>, late: set<nat>, dead: set<nat>, sent: nat, reached: set<nat>)

  datatype State = State(
    connections: Connections, nextId: nat, threads: seq<Registering>, fan: Option<FanOut>,
    log: seq<Update>, histories: map<nat, History>)

  datatype Action =
    | Check(t: nat)
    | Draw(t: nat)
    | Insert(t: nat, deviceId: string, signalGroups: seq<string>)
    | Handle(u: Update)
    | Beat
    | Visit(id: nat)
    | Sweep(id: nat)
    | EndFanOut
    | Receive(id: nat)
    | Leave(id: nat)

  function SetThread(s: State, t: nat, p: Registering): State
    requires t < |s.threads|
  {
    s.(threads := s.threads[t := p])
  }

  function HandleStep(s: State, u: Update): State {
    var to := Subscribers(u.deviceId, u.signalGroup);
    s.(fan := Some(FanOut(to, JsonData(|s.log|), s.connections.Keys, {}, {}, 0, {})),
       log := s.log + [u])
  }

  function BeatStep(s: State): State {
    s.(fan := Some(FanOut(Everyone, Heartbeat, s.connections.Keys, {}, {}, 0, {})))
  }

  /** A client that was inserted during the fan-out of the last update and is visited after all. */
  function Early(h: History, e: Event): History {
    if e.JsonData? then h.(from := e.update, upto := e.update) else h
  }

  /** The history of a client after a visit. */
  function Visited(c: Connection, h: History, to: Audience, e: Event): History {
    if to.Includes(c) && c.channel.closed then h.(left := true)
    else if e.Heartbeat? then h
    else
      var h' := h.(upto := e.update + 1);
      if !to.Includes(c) then h'
      else if TrySend(c.channel) == Sent then h'.(taken := h.taken + [e.update])
      else h'.(skipped := h.skipped + [e.update])
  }

  function VisitStep(s: State, f: FanOut, id: nat): State
    requires id in s.connections && id in s.histories
  {
    var c := s.connections[id];
    var h := if id in f.late then Early(s.histories[id], f.event) else s.histories[id];
    var gone := f.to.Includes(c) && c.channel.closed;
    var sent := f.to.Includes(c) && TrySend(c.channel) == Sent;
    s.(connections := if f.to.Includes(c) then s.connections[id := WithEvent(c, f.event)] else s.connections,
       histories := s.histories[id := Visited(c, h, f.to, f.event)],
       fan := Some(f.(
         todo := f.todo - {id}, late := f.late - {id}, dead := if gone then f.dead + {id} else f.dead,
         sent := if sent then f.sent + 1 else f.sent, reached := if sent then f.reached + {id} else f.reached)))
  }

  function SweepStep(s: State, f: FanOut, id: nat): State {
    s.(connections := s.connections - {id}, fan := Some(f.(dead := f.dead - {id})))
  }

  function InsertStep(s: State, t: nat, id: nat, deviceId: string, signalGroups: seq<string>): State
    requires t < |s.threads|
  {
    SetThread(s, t, Idle).(
      connections := s.connections[id := Connection(deviceId, signalGroups, Channel([], false))],
      histories := s.histories[id := History(deviceId, signalGroups, |s.log|, |s.log|, [], [], [], false)],
      fan := if s.fan.Some? then Some(s.fan.value.(late := s.fan.value.late + {id})) else None)
  }

  function ReceiveStep(s: State, id: nat): State
    requires id in s.connections && id in s.histories && s.connections[id].channel.queue != []
  {
    var c, h := s.connections[id], s.histories[id];
    var e := c.channel.queue[0];
    s.(connections := s.connections[id := c.(channel := c.channel.(queue := c.channel.queue[1..]))],
       histories := if e.JsonData? then s.histories[id := h.(received := h.received + [e.update])] else s.histories)
  }

  function LeaveStep(s: State, id: nat): State
    requires id in s.connections
  {
    var c := s.connections[id];
    s.(connections := s.connections[id := c.(channel := c.channel.(closed := true))])
  }

  /** One step; an action that is not due does nothing. */
  function Step(s: State, a: Action): State {
    match a
    case Check(t) =>
      if t < |s.threads| && s.threads[t].Idle? && |s.connections| < MAX_SSE_CONNECTIONS
      then SetThread(s, t, FoundRoom) else s
    case Draw(t) =>
      if t < |s.threads| && s.threads[t].FoundRoom?
      then SetThread(s, t, Numbered(s.nextId)).(nextId := s.nextId + 1) else s
    case Insert(t, deviceId, signalGroups) =>
      if t < |s.threads| && s.threads[t].Numbered?
      then InsertStep(s, t, s.threads[t].id, deviceId, signalGroups) else s
    case Handle(u) => if s.fan.None? then HandleStep(s, u) else s
    case Beat => if s.fan.None? then BeatStep(s) else s
    case Visit(id) =>
      if s.fan.Some? && (id in s.fan.value.todo || id in s.fan.value.late) && id in s.connections && id in s.histories
      then VisitStep(s, s.fan.value, id) else s
    case Sweep(id) =>
      if s.fan.Some? && s.fan.value.todo == {} && id in s.fan.value.dead then SweepStep(s, s.fan.value, id) else s
    case EndFanOut =>
      if s.fan.Some? && s.fan.value.todo == {} && s.fan.value.dead == {} then s.(fan := None) else s
    case Receive(id) =>
      if id in s.connections && id in s.histories && !s.connections[id].channel.closed
         && s.connections[id].channel.queue != []
      then ReceiveStep(s, id) else s
    case Leave(id) => if id in s.connections then LeaveStep(s, id) else s
  }

  predicate Init(s: State) {
    && s.connections == map[] && s.histories == map[] && s.log == [] && s.fan.None?
    && forall t :: 0 <= t < |s.threads| ==> s.threads[t].Idle?
  }

  function Run(s: State, actions: seq<Action>): State {
    if actions == [] then s else Step(Run(s, actions[..|actions| - 1]), actions[|actions| - 1])
  }

  // ---------------------------------------------------------------- what a client gets

  /** The updates among events. */
  function Updates(q: seq<Event>): seq<nat> {
    if q == [] then []
    else
      var e := q[|q| - 1];
      Updates(q[..|q| - 1]) + if e.JsonData? then [e.update] else []
  }

  lemma {:induction false} UpdatesFirst(q: seq<Event>)
    requires q != []
    ensures Updates(q) == (if q[0].JsonData? then [q[0].update] else []) + Updates(q[1..])
  {
    var n := |q| - 1;
    if n == 0 {
      assert q[1..] == [] && q[..0] == [];
    } else {
      UpdatesFirst(q[..n]);
      assert q[..n][1..] == q[1..][..n - 1];
    }
  }

  ghost predicate Increasing(s: seq<nat>) {
    forall i, j :: 0 <= i < j < |s| ==> s[i] < s[j]
  }

  predicate Concerns(h: History, u: Update) {
    h.deviceId == u.deviceId && u.signalGroup in h.signalGroups
  }

  /** The channel took or skipped exactly the updates that concern the client among those it was offered, each once
      and in order; and what was received is a prefix of what the channel took. */
  ghost predicate Served(h: History, log: seq<Update>) {
    && h.from <= h.upto <= |log|
    && Increasing(h.taken) && Increasing(h.skipped)
    && (forall i: nat :: i in h.taken || i in h.skipped <==> h.from <= i < h.upto && Concerns(h, log[i]))
    && (forall i: nat :: !(i in h.taken && i in h.skipped))
    && h.received <= h.taken
  }

  /** While it is registered, the rest is waiting in its channel. */
  ghost predicate Connected(c: Connection, h: History) {
    && c.deviceId == h.deviceId && c.signalGroups == h.signalGroups
    && h.received + Updates(c.channel.queue) == h.taken
    && |c.channel.queue| <= SSE_CHANNEL_CAPACITY
  }

  /** The fan-out of the last update has not come to the client yet. */
  predicate Pending(s: State, id: nat) {
    s.fan.Some? && s.fan.value.event.JsonData? && id in s.fan.value.todo
  }

  predicate Dying(s: State, id: nat) { s.fan.Some? && id in s.fan.value.dead }

  /** A client that the fan-out may still visit is there and has not been visited by it. */
  ghost predicate FanOk(s: State, id: nat) {
    s.fan.Some? ==>
      var f := s.fan.value;
      && (f.event.JsonData? ==> f.event.update + 1 == |s.log|)
      && (id in f.todo || id in f.late ==> id in s.histories && !s.histories[id].left)
      && (id in f.todo ==> id !in f.late)
      && (id in f.late && f.event.JsonData? && id in s.histories ==>
            var h := s.histories[id]; h.from == |s.log| && h.taken == h.skipped == [])
      && (id in f.dead ==> id in s.histories && s.histories[id].left)
      && (id in f.reached ==> id in s.histories && id !in f.todo && id !in f.late)
      && (f.event.JsonData? && id in s.histories ==> (id in f.reached <==> f.event.update in s.histories[id].taken))
      && (f.event.JsonData? ==>
            f.to == Subscribers(s.log[f.event.update].deviceId, s.log[f.event.update].signalGroup))
  }

  ghost predicate ClientOk(s: State, id: nat) {
    && (id in s.histories ==> Served(s.histories[id], s.log) && id < s.nextId)
    && (id in s.connections <==> id in s.histories && (!s.histories[id].left || Dying(s, id)))
    && (id in s.histories && !s.histories[id].left && id in s.connections ==>
          && Connected(s.connections[id], s.histories[id])
          && s.histories[id].upto == if Pending(s, id) then |s.log| - 1 else |s.log|)
    && (id in s.histories && s.histories[id].left && id in s.connections ==> s.connections[id].channel.closed)
  }

  ghost predicate ClientsOk(s: State) {
    forall id: nat :: Ok(s, id)
  }

  ghost predicate Ok(s: State, id: nat) { ClientOk(s, id) && FanOk(s, id) }

  // ---------------------------------------------------------------- every step serves every client

  lemma ConcernsSame(h: History, h': History, u: Update)
    requires h.deviceId == h'.deviceId && h.signalGroups == h'.signalGroups
    ensures Concerns(h, u) == Concerns(h', u)
  {}

  /** One more update is offered. */
  lemma ServedMore(h: History, log: seq<Update>, h': History)
    requires Served(h, log) && h.upto < |log|
    requires var n, more := h.upto, h.(upto := h.upto + 1);
      || (h' == more && !Concerns(h, log[n]))
      || (h' == more.(taken := h.taken + [n]) && Concerns(h, log[n]))
      || (h' == more.(skipped := h.skipped + [n]) && Concerns(h, log[n]))
    ensures Served(h', log)
  {
    hide Concerns;
    var n := h.upto;
    forall j | 0 <= j < |h.taken| ensures h.taken[j] < n { assert h.taken[j] in h.taken; }
    forall j | 0 <= j < |h.skipped| ensures h.skipped[j] < n { assert h.skipped[j] in h.skipped; }
    forall i: nat ensures i in h'.taken || i in h'.skipped <==> h'.from <= i < h'.upto && Concerns(h', log[i]) {
      assert (i in h.taken || i in h.skipped) <==> h.from <= i < n && Concerns(h, log[i]);
      if i < |log| { ConcernsSame(h, h', log[i]); }
    }
  }

  /** Nothing else about a history matters to that. */
  lemma ServedSame(h: History, log: seq<Update>, h': History)
    requires Served(h, log) && h' == h.(left := h'.left)
    ensures Served(h', log)
  {
    forall u ensures Concerns(h, u) == Concerns(h', u) { ConcernsSame(h, h', u); }
    hide Concerns;
  }

  /** Neither do later updates. */
  lemma ServedLater(h: History, log: seq<Update>, u: Update)
    requires Served(h, log)
    ensures Served(h, log + [u])
  {
    hide Concerns;
  }

  lemma ServedEarly(h: History, log: seq<Update>, n: nat)
    requires Served(h, log) && h.taken == h.skipped == [] && n < |log|
    ensures Served(h.(from := n, upto := n), log)
  {}

  lemma ConnectedMore(c: Connection, h: History, n: nat)
    requires Connected(c, h) && TrySend(c.channel) == Sent
    ensures Connected(WithEvent(c, JsonData(n)), h.(taken := h.taken + [n]))
    ensures Connected(WithEvent(c, Heartbeat), h)
  {
    var q := c.channel.queue;
    assert (q + [JsonData(n)])[..|q|] == q && (q + [Heartbeat])[..|q|] == q;
    assert h.received + (Updates(q) + [n]) == h.received + Updates(q) + [n];
  }

  lemma ConnectedSame(c: Connection, h: History, h': History)
    requires Connected(c, h) && h'.deviceId == h.deviceId && h'.signalGroups == h.signalGroups
    requires h'.received == h.received && h'.taken == h.taken
    ensures Connected(c, h')
  {}

  /** A visit offers the update, or finds the client gone. */
  lemma VisitServes(c: Connection, h: History, log: seq<Update>, to: Audience, e: Event)
    requires Served(h, log) && Connected(c, h) && !h.left
    requires e.JsonData? ==> h.upto == e.update == |log| - 1
    requires e.JsonData? ==> to == Subscribers(log[e.update].deviceId, log[e.update].signalGroup)
    ensures var h' := Visited(c, h, to, e);
      && Served(h', log) && (h'.left <==> to.Includes(c) && c.channel.closed)
      && h'.deviceId == h.deviceId && h'.signalGroups == h.signalGroups
      && (!h'.left ==> Connected(if to.Includes(c) then WithEvent(c, e) else c, h'))
      && (!h'.left ==> h'.upto == if e.JsonData? then |log| else h.upto)
  {
    var h' := Visited(c, h, to, e);
    if e.JsonData? { assert Concerns(h, log[e.update]) == to.Includes(c); }
    if TrySend(c.channel) == Sent {
      ConnectedMore(c, h, if e.JsonData? then e.update else 0);
    }
    hide Served, Connected, Concerns, Audience.Includes;
    if h'.left || e.Heartbeat? { ServedSame(h, log, h'); } else { ServedMore(h, log, h'); }
    VisitConnects(c, h, to, e);
  }

  lemma VisitConnects(c: Connection, h: History, to: Audience, e: Event)
    requires Connected(c, h) && !h.left
    ensures var h' := Visited(c, h, to, e);
      !h'.left ==> Connected(if to.Includes(c) then WithEvent(c, e) else c, h')
  {
    hide Audience.Includes;
    var h' := Visited(c, h, to, e);
    if TrySend(c.channel) == Sent {
      if e.JsonData? && to.Includes(c) {
        ConnectedMore(c, h, e.update);
        ConnectedSame(WithEvent(c, e), h.(taken := h.taken + [e.update]), h');
      } else {
        ConnectedMore(c, h, 0);
        hide Connected;
        if !to.Includes(c) { ConnectedSame(c, h, h'); }
      }
    } else if !h'.left {
      assert WithEvent(c, e) == c;
      ConnectedSame(c, h, h');
    }
  }

  lemma NotTakenYet(h: History, log: seq<Update>)
    requires Served(h, log)
    ensures |log| !in h.taken
  {}

  lemma HandleServes(s: State, u: Update, id: nat)
    requires Ok(s, id) && s.fan.None?
    ensures Ok(HandleStep(s, u), id)
  {
    hide Served, Connected;
    if id in s.histories {
      ServedLater(s.histories[id], s.log, u);
      NotTakenYet(s.histories[id], s.log);
    }
  }

  lemma BeatServes(s: State, id: nat)
    requires Ok(s, id) && s.fan.None?
    ensures Ok(BeatStep(s), id)
  {
    hide Served, Connected;
  }

  lemma OthersAreNotVisited(s: State, f: FanOut, at: nat, id: nat)
    requires Ok(s, id) && s.fan == Some(f) && at in s.connections && at in s.histories && at != id
    ensures Ok(VisitStep(s, f, at), id)
  {
    hide Served, Connected, Visited, Early, WithEvent, Audience.Includes;
  }

  lemma VisitedIsServed(s: State, f: FanOut, id: nat)
    requires Ok(s, id) && s.fan == Some(f) && (id in f.todo || id in f.late)
    requires id in s.connections && id in s.histories
    ensures Ok(VisitStep(s, f, id), id)
  {
    var c, h0 := s.connections[id], s.histories[id];
    var h := if id in f.late then Early(h0, f.event) else h0;
    if id in f.late && f.event.JsonData? {
      ServedEarly(h0, s.log, f.event.update);
      ConnectedSame(c, h0, h);
    }
    hide Served, Connected, Audience.Includes;
    VisitServes(c, h, s.log, f.to, f.event);
    GoneIsUnchanged(c, f.event);
    hide Visited, WithEvent, Early;
  }

  lemma GoneIsUnchanged(c: Connection, e: Event)
    ensures c.channel.closed ==> WithEvent(c, e) == c
  {}

  lemma SweepServes(s: State, f: FanOut, at: nat, id: nat)
    requires Ok(s, id) && s.fan == Some(f) && at in f.dead && Ok(s, at)
    ensures Ok(SweepStep(s, f, at), id)
  {
    hide Served, Connected;
  }

  lemma EndServes(s: State, id: nat)
    requires Ok(s, id) && s.fan.Some? && s.fan.value.todo == {} && s.fan.value.dead == {}
    ensures Ok(s.(fan := None), id)
  {
    hide Served, Connected;
  }

  lemma ReceivesNext(c: Connection, h: History, log: seq<Update>)
    requires Served(h, log) && Connected(c, h) && c.channel.queue != []
    ensures var e, rest := c.channel.queue[0], c.(channel := c.channel.(queue := c.channel.queue[1..]));
      var h' := if e.JsonData? then h.(received := h.received + [e.update]) else h;
      Served(h', log) && Connected(rest, h')
  {
    var q := c.channel.queue;
    UpdatesFirst(q);
    hide Updates, Concerns;
    if q[0].JsonData? {
      assert h.received + ([q[0].update] + Updates(q[1..])) == h.received + [q[0].update] + Updates(q[1..]);
      var h' := h.(received := h.received + [q[0].update]);
      forall u ensures Concerns(h, u) == Concerns(h', u) { ConcernsSame(h, h', u); }
    }
  }

  lemma ReceiveServes(s: State, at: nat, id: nat)
    requires Ok(s, id) && at in s.connections && at in s.histories
    requires !s.connections[at].channel.closed && s.connections[at].channel.queue != []
    ensures Ok(ReceiveStep(s, at), id)
  {
    hide Served, Connected;
    if id == at { ReceivesNext(s.connections[id], s.histories[id], s.log); }
  }

  lemma LeaveServes(s: State, at: nat, id: nat)
    requires Ok(s, id) && at in s.connections
    ensures Ok(LeaveStep(s, at), id)
  {
    hide Served, Updates;
  }

  lemma InsertServes(s: State, t: nat, at: nat, deviceId: string, signalGroups: seq<string>, id: nat)
    requires Ok(s, id) && t < |s.threads| && at < s.nextId && at !in s.histories
    ensures Ok(InsertStep(s, t, at, deviceId, signalGroups), id)
  {
    if id != at { hide Served, Connected; }
  }

  // ---------------------------------------------------------------- registering

  function Busy(ts: seq<Registering>): nat {
    if ts == [] then 0 else Busy(ts[..|ts| - 1]) + if ts[|ts| - 1].Idle? then 0 else 1
  }

  lemma {:induction false} BusyUpdate(ts: seq<Registering>, t: nat, p: Registering)
    requires t < |ts|
    ensures Busy(ts[t := p]) == Busy(ts) - (if ts[t].Idle? then 0 else 1) + (if p.Idle? then 0 else 1)
  {
    var n := |ts| - 1;
    if t == n {
      assert ts[t := p][..n] == ts[..n];
    } else {
      assert ts[t := p][..n] == ts[..n][t := p];
      BusyUpdate(ts[..n], t, p);
    }
  }

  lemma {:induction false} BusyAtMost(ts: seq<Registering>)
    ensures Busy(ts) <= |ts|
  {
    if ts == [] {
    } else {
      BusyAtMost(ts[..|ts| - 1]);
    }
  }

  /** Numbers drawn are distinct and were never given to a client. */
  ghost predicate NumbersFresh(s: State) {
    && (forall t :: 0 <= t < |s.threads| && s.threads[t].Numbered? ==>
          s.threads[t].id < s.nextId && s.threads[t].id !in s.histories)
    && (forall t, v :: 0 <= t < v < |s.threads| && s.threads[t].Numbered? && s.threads[v].Numbered? ==>
          s.threads[t].id != s.threads[v].id)
  }

  /** With the clients about to be inserted, one less than the limit and one more per thread. */
  ghost predicate Crowded(s: State) {
    |s.connections| + Busy(s.threads) <= MAX_SSE_CONNECTIONS - 1 + |s.threads|
  }

  /** The count of a fan-out is the number of the clients it has reached. */
  ghost predicate Counted(s: State) {
    s.fan.Some? ==> s.fan.value.sent == |s.fan.value.reached|
  }

  ghost predicate Inv(s: State) {
    ClientsOk(s) && NumbersFresh(s) && Crowded(s) && Counted(s)
  }

  lemma {:induction false} Fewer(a: set<nat>, b: set<nat>)
    requires a <= b
    ensures |a| <= |b|
  {
    if x :| x in a {
      Fewer(a - {x}, b - {x});
    }
  }

  lemma VisitKeepsKeys(s: State, f: FanOut, id: nat)
    requires id in s.connections && id in s.histories
    ensures var t := VisitStep(s, f, id);
      |t.connections| == |s.connections| && t.threads == s.threads
  {
    hide Visited, WithEvent, Audience.Includes, Early;
    assert VisitStep(s, f, id).connections.Keys == s.connections.Keys;
  }

  lemma ReplacedIsAsMany(cs: Connections, id: nat, c: Connection)
    requires id in cs
    ensures |cs[id := c]| == |cs|
  {
    assert cs[id := c].Keys == cs.Keys;
  }

  lemma CrowdedKept(s: State, a: Action)
    requires Crowded(s)
    ensures Crowded(Step(s, a)) && |Step(s, a).threads| == |s.threads|
  {
    hide Busy, VisitStep;
    match a
    case Check(t) =>
      if t < |s.threads| && s.threads[t].Idle? {
        BusyUpdate(s.threads, t, FoundRoom);
        BusyAtMost(s.threads[t := FoundRoom]);
      }
    case Draw(t) => if t < |s.threads| && s.threads[t].FoundRoom? { BusyUpdate(s.threads, t, Numbered(s.nextId)); }
    case Insert(t, _, _) => if t < |s.threads| && s.threads[t].Numbered? { BusyUpdate(s.threads, t, Idle); }
    case Visit(id) => if Step(s, a) != s { VisitKeepsKeys(s, s.fan.value, id); }
    case Sweep(id) => Fewer((s.connections - {id}).Keys, s.connections.Keys);
    case Receive(id) =>
      if id in s.connections { ReplacedIsAsMany(s.connections, id, Step(s, a).connections[id]); }
    case Leave(id) =>
      if id in s.connections { ReplacedIsAsMany(s.connections, id, Step(s, a).connections[id]); }
    case _ =>
  }

  lemma NumbersKept(s: State, a: Action)
    requires ClientsOk(s) && NumbersFresh(s)
    ensures NumbersFresh(Step(s, a))
  {
    hide Visited, WithEvent, Early;
    if a.Draw? {
      forall id | id in s.histories ensures id < s.nextId { assert Ok(s, id); }
    }
    hide ClientsOk;
  }

  lemma ClientKept(s: State, a: Action, id: nat)
    requires ClientsOk(s) && NumbersFresh(s)
    ensures Ok(Step(s, a), id)
  {
    assert Ok(s, id);
    hide Ok, VisitStep, SweepStep, InsertStep, ReceiveStep, LeaveStep, HandleStep, BeatStep;
    match a
    case Check(t) => ThreadsDoNotMatter(s, s.nextId, Step(s, a).threads, id);
    case Draw(t) => ThreadsDoNotMatter(s, Step(s, a).nextId, Step(s, a).threads, id);
    case Insert(v, deviceId, signalGroups) =>
      if v < |s.threads| && s.threads[v].Numbered? {
        InsertServes(s, v, s.threads[v].id, deviceId, signalGroups, id);
      }
    case Handle(u) => if s.fan.None? { HandleServes(s, u, id); }
    case Beat => if s.fan.None? { BeatServes(s, id); }
    case Visit(at) =>
      if Step(s, a) != s {
        if at == id { VisitedIsServed(s, s.fan.value, id); } else { OthersAreNotVisited(s, s.fan.value, at, id); }
      }
    case Sweep(at) =>
      assert Ok(s, at);
      if s.fan.Some? && s.fan.value.todo == {} && at in s.fan.value.dead { SweepServes(s, s.fan.value, at, id); }
    case EndFanOut => if Step(s, a) != s { EndServes(s, id); }
    case Receive(at) => if Step(s, a) != s { ReceiveServes(s, at, id); }
    case Leave(at) => if at in s.connections { LeaveServes(s, at, id); }
  }

  lemma ThreadsDoNotMatter(s: State, nextId: nat, threads: seq<Registering>, id: nat)
    requires Ok(s, id) && s.nextId <= nextId
    ensures Ok(s.(nextId := nextId, threads := threads), id)
  {
    hide Served, Connected;
  }

  lemma ClientsKept(s: State, a: Action)
    requires ClientsOk(s) && NumbersFresh(s)
    ensures ClientsOk(Step(s, a))
  {
    hide Step, Ok;
    forall id: nat ensures Ok(Step(s, a), id) { ClientKept(s, a, id); }
  }

  lemma CountedKept(s: State, a: Action)
    requires ClientsOk(s) && Counted(s)
    ensures Counted(Step(s, a))
  {
    hide Visited, Early, WithEvent, Audience.Includes, ClientOk;
    if a.Visit? { assert Ok(s, a.id); }
    hide ClientsOk;
  }

  lemma StepKeepsInv(s: State, a: Action)
    requires Inv(s)
    ensures Inv(Step(s, a)) && |Step(s, a).threads| == |s.threads|
  {
    hide Step, ClientsOk, NumbersFresh, Crowded, Counted;
    CountedKept(s, a);
    CrowdedKept(s, a);
    NumbersKept(s, a);
    ClientsKept(s, a);
  }

  lemma {:induction false} InvLasts(s: State, actions: seq<Action>)
    requires Inv(s)
    ensures Inv(Run(s, actions)) && |Run(s, actions).threads| == |s.threads|
  {
    if actions == [] {
    } else {
      hide Step, Inv;
      InvLasts(s, actions[..|actions| - 1]);
      StepKeepsInv(Run(s, actions[..|actions| - 1]), actions[|actions| - 1]);
    }
  }

  lemma RunKeepsInv(s: State, actions: seq<Action>)
    requires Init(s)
    ensures Inv(Run(s, actions)) && |Run(s, actions).threads| == |s.threads|
  {
    BusyAtMost(s.threads);
    InvLasts(s, actions);
  }

  // ---------------------------------------------------------------- what holds over every run

  /** Whatever the interleaving, every client ever registered was offered exactly the updates that concern it, in
      order and without a repetition, and has received a prefix of those that its channel took. No client in the
      registry is behind by more than the update whose fan-out is still to come to it. */
  lemma EveryClientIsServed(s: State, actions: seq<Action>, id: nat)
    requires Init(s)
    ensures var t := Run(s, actions);
      && (id in t.histories ==> Served(t.histories[id], t.log))
      && (id in t.connections ==> id in t.histories)
      && (id in t.connections && !t.histories[id].left ==>
            && Connected(t.connections[id], t.histories[id])
            && t.histories[id].upto == if Pending(t, id) then |t.log| - 1 else |t.log|)
      && (id in t.connections && t.histories[id].left ==> t.fan.Some? && id in t.fan.value.dead)
  {
    RunKeepsInv(s, actions);
    hide Run;
    assert Ok(Run(s, actions), id);
    hide Served, Connected;
  }

  /** When the fan-out comes to a subscriber the update passes it by only when 100 events wait in its channel, or
      when its client is gone; and then it is among those to be removed. */
  lemma GapsOnlyWhenFull(s: State, id: nat)
    requires Inv(s) && id in s.connections && id in s.histories && Pending(s, id)
    requires s.log != [] && Concerns(s.histories[id], s.log[|s.log| - 1])
    ensures var t, n, c := Step(s, Visit(id)), |s.log| - 1, s.connections[id].channel;
      && id in t.histories
      && (n in t.histories[id].taken <==> !c.closed && |c.queue| < 100)
      && (n in t.histories[id].skipped <==> !c.closed && |c.queue| == 100)
      && (t.fan.Some? && id in t.fan.value.dead <==> c.closed)
  {
    assert Ok(s, id);
    var h := s.histories[id];
    assert |s.log| - 1 !in h.taken && |s.log| - 1 !in h.skipped;
    assert Concerns(h, s.log[|s.log| - 1]) == s.fan.value.to.Includes(s.connections[id]);
    hide Concerns, Audience.Includes, Served;
  }

  /** In every run the count of an update's fan-out is, at every moment and so at its end, the number of clients whose
      channel has taken the update, whoever joins, leaves or receives meanwhile. */
  lemma SentIsCounted(s: State, actions: seq<Action>)
    requires Init(s)
    ensures var t := Run(s, actions);
      t.fan.Some? && t.fan.value.event.JsonData? ==>
        t.fan.value.sent == |set id | id in t.histories && t.fan.value.event.update in t.histories[id].taken|
  {
    RunKeepsInv(s, actions);
    var t := Run(s, actions);
    hide Run, ClientOk;
    if t.fan.Some? && t.fan.value.event.JsonData? {
      forall id: nat ensures id in t.fan.value.reached <==>
        id in t.histories && t.fan.value.event.update in t.histories[id].taken { assert Ok(t, id); }
      assert t.fan.value.reached
          == set id | id in t.histories && t.fan.value.event.update in t.histories[id].taken;
    }
  }

  /** The fan-out of `event` has not come to the client yet. */
  predicate Awaits(s: State, to: Audience, event: Event, id: nat) {
    s.fan.Some? && s.fan.value.to == to && s.fan.value.event == event && id in s.fan.value.todo
  }

  lemma OnlyVisitEndsWaiting(s: State, a: Action, to: Audience, event: Event, id: nat)
    requires Awaits(s, to, event, id)
    ensures Awaits(Step(s, a), to, event, id) || a == Visit(id)
  {
    hide Visited, Early, WithEvent, Audience.Includes;
  }

  /** No fan-out ends before it has come to everyone it began with. */
  lemma {:induction false} EveryoneIsVisited(s: State, more: seq<Action>, to: Audience, event: Event, id: nat)
    returns (k: nat)
    requires Awaits(s, to, event, id) && !Awaits(Run(s, more), to, event, id)
    ensures k < |more| && more[k] == Visit(id) && Awaits(Run(s, more[..k]), to, event, id)
  {
    hide Step, Awaits;
    var n := |more| - 1;
    var before := Run(s, more[..n]);
    if Awaits(before, to, event, id) {
      OnlyVisitEndsWaiting(before, more[n], to, event, id);
      k := n;
    } else {
      k := EveryoneIsVisited(s, more[..n], to, event, id);
      assert more[..n][..k] == more[..k];
    }
  }

  lemma HeartbeatVisit(s: State, id: nat)
    requires Inv(s) && Awaits(s, Everyone, Heartbeat, id)
    ensures var t := Step(s, Visit(id));
      && id in s.connections && id in t.connections && t.fan.Some?
      && var c := s.connections[id].channel;
         && t.connections[id].channel.queue
              == (if !c.closed && |c.queue| < 100 then c.queue + [Heartbeat] else c.queue)
         && (c.closed ==> id in t.fan.value.dead)
         && t.fan.value.sent == s.fan.value.sent + (if !c.closed && |c.queue| < 100 then 1 else 0)
  {
    assert Ok(s, id);
    hide Served, Connected;
  }

  /** By the time a heartbeat's fan-out is over it has come to every client that was connected when it began: one
      with room has the heartbeat at the end of its queue, and one that is gone was found dead, for removal. */
  lemma HeartbeatComesToEveryone(s: State, more: seq<Action>, id: nat) returns (k: nat)
    requires Inv(s) && s.fan.None? && id in s.connections && Run(Step(s, Beat), more).fan.None?
    ensures k < |more| && more[k] == Visit(id)
    ensures var before, after := Run(Step(s, Beat), more[..k]), Run(Step(s, Beat), more[..k + 1]);
      && id in before.connections && id in after.connections && after.fan.Some?
      && var c := before.connections[id].channel;
         && after.connections[id].channel.queue
              == (if !c.closed && |c.queue| < 100 then c.queue + [Heartbeat] else c.queue)
         && (c.closed ==> id in after.fan.value.dead)
  {
    var t := Step(s, Beat);
    StepKeepsInv(s, Beat);
    hide Inv;
    assert Awaits(t, Everyone, Heartbeat, id);
    k := EveryoneIsVisited(t, more, Everyone, Heartbeat, id);
    InvLasts(t, more[..k]);
    assert more[..k + 1][..k] == more[..k];
    hide Step, Awaits;
    HeartbeatVisit(Run(t, more[..k]), id);
  }

  /** A client keeps its number, and once it is gone the number is not connected again. */
  ghost predicate SameClient(id: nat, s: State, t: State)
    requires id in s.histories
  {
    && id in t.histories
    && t.histories[id].deviceId == s.histories[id].deviceId
    && t.histories[id].signalGroups == s.histories[id].signalGroups
    && t.histories[id].from <= s.histories[id].from
    && s.histories[id].taken <= t.histories[id].taken && s.histories[id].received <= t.histories[id].received
    && (id !in s.connections ==> id !in t.connections)
  }

  lemma VisitKeepsClient(s: State, f: FanOut, at: nat, id: nat)
    requires Ok(s, id) && s.fan == Some(f) && (at in f.todo || at in f.late)
    requires at in s.connections && at in s.histories && id in s.histories
    ensures SameClient(id, s, VisitStep(s, f, at))
  {
    hide Served, Connected, WithEvent, Audience.Includes;
  }

  lemma StepKeepsClient(s: State, a: Action, id: nat)
    requires Inv(s) && id in s.histories
    ensures SameClient(id, s, Step(s, a))
  {
    assert Ok(s, id);
    hide Served, Connected, ClientsOk, Crowded, VisitStep;
    if a.Visit? && Step(s, a) != s {
      VisitKeepsClient(s, s.fan.value, a.id, id);
      hide Ok;
    }
  }

  /** A number once given to a client names that client for good, whatever follows. */
  lemma {:induction false} IdsAreNeverReused(s: State, more: seq<Action>, id: nat)
    requires Inv(s) && id in s.histories
    ensures SameClient(id, s, Run(s, more))
  {
    if more == [] {
    } else {
      hide Inv, Step;
      var n := |more| - 1;
      InvLasts(s, more[..n]);
      IdsAreNeverReused(s, more[..n], id);
      StepKeepsClient(Run(s, more[..n]), more[n], id);
    }
  }

  /** With T threads registering at once the registry holds at most 99 + T clients. */
  lemma RegistryIsBounded(s: State, actions: seq<Action>)
    requires Init(s)
    ensures |Run(s, actions).connections| <= 99 + |s.threads|
  {
    RunKeepsInv(s, actions);
    hide Run, ClientsOk, NumbersFresh, Busy;
  }

  // ---------------------------------------------------------------- the limit can be overrun

  lemma RunOneMore(s: State, actions: seq<Action>, a: Action)
    ensures Run(s, actions + [a]) == Step(Run(s, actions), a)
  {
    assert (actions + [a])[..|actions|] == actions;
  }

  /** The first `k` threads have found room, the others are idle. */
  predicate Staged(s: State, k: nat) {
    k <= |s.threads| && forall t :: 0 <= t < |s.threads| ==> s.threads[t] == if t < k then FoundRoom else Idle
  }

  /** A thread that has found room inserts, whatever happened meanwhile. */
  lemma InsertsAnyway(s: State, actions: seq<Action>, k: nat) returns (more: seq<Action>)
    requires Init(s)
    requires var u := Run(s, actions); k > 0 && Staged(u, k)
    ensures var u, v := Run(s, actions), Run(s, more);
      Staged(v, k - 1) && |v.threads| == |u.threads| && |v.connections| == |u.connections| + 1
  {
    var u, t := Run(s, actions), k - 1;
    RunKeepsInv(s, actions);
    assert Ok(u, u.nextId);
    RunOneMore(s, actions, Draw(t));
    RunOneMore(s, actions + [Draw(t)], Insert(t, "", []));
    more := actions + [Draw(t)] + [Insert(t, "", [])];
    hide Run, Served, Connected, NumbersFresh, ClientsOk, Crowded;
  }

  /** As many clients as there is room for, one after the other. */
  lemma {:induction false} Fills(s: State, n: nat) returns (actions: seq<Action>)
    requires Init(s) && |s.threads| > 0 && n < MAX_SSE_CONNECTIONS
    ensures var u := Run(s, actions); Staged(u, 0) && |u.threads| == |s.threads| && |u.connections| == n
  {
    if n == 0 {
      actions := [];
    } else {
      var before := Fills(s, n - 1);
      hide Run;
      RunOneMore(s, before, Check(0));
      actions := InsertsAnyway(s, before + [Check(0)], 1);
    }
  }

  lemma {:induction false} AllCheck(s: State, before: seq<Action>, k: nat) returns (actions: seq<Action>)
    requires var u := Run(s, before); Staged(u, 0) && k <= |u.threads| && |u.connections| < MAX_SSE_CONNECTIONS
    ensures var u, v := Run(s, before), Run(s, actions);
      Staged(v, k) && |v.threads| == |u.threads| && |v.connections| == |u.connections|
  {
    hide Run;
    if k == 0 {
      actions := before;
    } else {
      var earlier := AllCheck(s, before, k - 1);
      RunOneMore(s, earlier, Check(k - 1));
      actions := earlier + [Check(k - 1)];
    }
  }

  lemma {:induction false} AllInsert(s: State, before: seq<Action>, k: nat) returns (actions: seq<Action>)
    requires Init(s) && Staged(Run(s, before), k)
    ensures |Run(s, actions).connections| == |Run(s, before).connections| + k
    decreases k
  {
    hide Run;
    if k == 0 {
      actions := before;
    } else {
      var more := InsertsAnyway(s, before, k);
      actions := AllInsert(s, more, k - 1);
    }
  }

  /** The bound is reached: as the check and the insertion are two steps, T threads that check together overrun
      the limit of 100 by T - 1. */
  lemma LimitIsOverrun(s: State) returns (actions: seq<Action>)
    requires Init(s) && |s.threads| > 0
    ensures |Run(s, actions).connections| == 99 + |s.threads|
  {
    hide Run, Init, Staged;
    var filled := Fills(s, MAX_SSE_CONNECTIONS - 1);
    var checked := AllCheck(s, filled, |s.threads|);
    actions := AllInsert(s, checked, |s.threads|);
  }
}
