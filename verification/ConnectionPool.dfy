/** The connection pool of a device: a queue of idle connections, oldest first, and a counter. */
module ConnectionPool {
  import opened Basics

  /** An idle connection; `lastUsed` is the time at which it was put back. */
  datatype Pooled = Pooled(client: nat, lastUsed: nat, isHealthy: bool)

  /** The age at a time; a clock that went back gives zero. */
  function Age(p: Pooled, now: nat): nat {
    if now >= p.lastUsed then now - p.lastUsed else 0
  }

  predicate Usable(p: Pooled, now: nat, interval: nat) {
    p.isHealthy && Age(p, now) < interval
  }

  /** The first usable connection at or behind `i`. */
  function FirstUsable(q: seq<Pooled>, i: nat, now: nat, interval: nat): (r: nat)
    requires i <= |q|
    ensures i <= r <= |q| && (r < |q| ==> Usable(q[r], now, interval))
    ensures forall k :: i <= k < r ==> !Usable(q[k], now, interval)
    decreases |q| - i
  {
    if i == |q| || Usable(q[i], now, interval) then i else FirstUsable(q, i + 1, now, interval)
  }

  lemma FirstUsableIs(q: seq<Pooled>, k: nat, now: nat, interval: nat)
    requires k <= |q| && (k < |q| ==> Usable(q[k], now, interval))
    requires forall j :: 0 <= j < k ==> !Usable(q[j], now, interval)
    ensures FirstUsable(q, 0, now, interval) == k
  {}

  /** The queue without the unusable connections at its front. */
  function DropStale(q: seq<Pooled>, now: nat, interval: nat): seq<Pooled> {
    q[FirstUsable(q, 0, now, interval)..]
  }

  lemma DropStaleStep(q: seq<Pooled>, now: nat, interval: nat)
    ensures DropStale(q, now, interval) ==
            if q == [] || Usable(q[0], now, interval) then q else DropStale(q[1..], now, interval)
  {
    hide Usable;
    if q == [] || Usable(q[0], now, interval) {
      FirstUsableIs(q, 0, now, interval);
    } else {
      var n := FirstUsable(q[1..], 0, now, interval);
      FirstUsableIs(q, n + 1, now, interval);
    }
  }

  /** The queue after a connection is released: a healthy one joins the end while there is room. */
  function PutBack(q: seq<Pooled>, client: nat, isHealthy: bool, poolSize: nat, now: nat): seq<Pooled> {
    if isHealthy && |q| < poolSize then q + [Pooled(client, now, true)] else q
  }

  /** What the queue of a pool keeps: oldest first, nothing from the future, nothing broken. */
  predicate Ordered(q: seq<Pooled>, now: nat) {
    && (forall i, j :: 0 <= i < j < |q| ==> q[i].lastUsed <= q[j].lastUsed)
    && (forall i :: 0 <= i < |q| ==> q[i].lastUsed <= now && q[i].isHealthy)
  }

  /** In an ordered queue the stale connections are all at the front: dropping there leaves only usable ones,
      and drops nothing else. */
  lemma DropStaleIsExact(q: seq<Pooled>, now: nat, interval: nat)
    requires Ordered(q, now)
    ensures Ordered(DropStale(q, now, interval), now)
    ensures var n := FirstUsable(q, 0, now, interval);
      forall i :: 0 <= i < |q| ==> (i >= n <==> Usable(q[i], now, interval))
  {
    var n := FirstUsable(q, 0, now, interval);
    forall i | n <= i < |q| ensures Usable(q[i], now, interval) {
      assert q[n].lastUsed <= q[i].lastUsed;
    }
  }

  /** What is left starts with the oldest usable connection. */
  lemma FrontIsOldestUsable(q: seq<Pooled>, now: nat, interval: nat)
    requires Ordered(q, now)
    ensures var left := DropStale(q, now, interval);
      && |left| <= |q|
      && (forall i :: 0 <= i < |left| ==> Usable(left[i], now, interval))
      && (left == [] <==> forall i :: 0 <= i < |q| ==> !Usable(q[i], now, interval))
      && (left != [] ==>
            var n := |q| - |left|;
            && left[0] == q[n] && left[1..] == q[n + 1..] && Usable(q[n], now, interval)
            && forall i :: 0 <= i < n ==> !Usable(q[i], now, interval))
  {
    DropStaleIsExact(q, now, interval);
    hide Ordered, Usable;
    var n := FirstUsable(q, 0, now, interval);
    if n < |q| { assert q[n..][1..] == q[n + 1..]; }
  }

  /** The connection that an acquisition obtains, where `connected` is what a new attempt would give. */
  function Obtained(q: seq<Pooled>, now: nat, interval: nat, connected: Option<nat>): Option<nat> {
    var usable := DropStale(q, now, interval);
    if usable == [] then connected else Some(usable[0].client)
  }

  /** The connections that it leaves idle. */
  function LeftIdle(q: seq<Pooled>, now: nat, interval: nat): seq<Pooled> {
    var usable := DropStale(q, now, interval);
    if usable == [] then [] else usable[1..]
  }

  /** In terms of times: a connection is too old once the interval has passed since it was put back, and the first one
      that is not is obtained; those behind it stay. */
  lemma ObtainedByAge(q: seq<Pooled>, n: nat, now: nat, interval: nat, connected: Option<nat>)
    requires Healthy(q) && n <= |q|
    requires forall i :: 0 <= i < n ==> q[i].lastUsed + interval <= now || interval == 0
    requires n < |q| ==> now < q[n].lastUsed + interval && interval > 0
    ensures DropStale(q, now, interval) == q[n..]
    ensures Obtained(q, now, interval, connected) == if n < |q| then Some(q[n].client) else connected
    ensures LeftIdle(q, now, interval) == if n < |q| then q[n + 1..] else []
  {
    FirstUsableIs(q, n, now, interval);
    hide Usable;
    if n < |q| { assert q[n..][1..] == q[n + 1..]; }
  }

  predicate Healthy(q: seq<Pooled>) {
    forall i :: 0 <= i < |q| ==> q[i].isHealthy
  }

  predicate OldestFirst(q: seq<Pooled>) {
    forall i, j :: 0 <= i < j < |q| ==> q[i].lastUsed <= q[j].lastUsed
  }

  predicate AllUsable(q: seq<Pooled>, now: nat, interval: nat) {
    forall i :: 0 <= i < |q| ==> Usable(q[i], now, interval)
  }

  lemma OldestFirstLeavesUsable(q: seq<Pooled>, now: nat, interval: nat)
    requires Healthy(q) && OldestFirst(q)
    ensures AllUsable(DropStale(q, now, interval), now, interval)
  {
    var n := FirstUsable(q, 0, now, interval);
    forall i | n <= i < |q| ensures Usable(q[i], now, interval) {
      assert q[n].lastUsed <= q[i].lastUsed;
    }
    hide Usable;
  }

  /** Two connections out of order: at the time of the younger, which is in front, the other is kept although its
      age is the whole interval. */
  lemma OutOfOrderKeepsStale(q: seq<Pooled>, i: nat, j: nat)
    requires Healthy(q) && i < j < |q| && q[i].lastUsed > q[j].lastUsed
    ensures var now, interval := q[i].lastUsed, q[i].lastUsed - q[j].lastUsed;
      !Usable(q[j], now, interval) && !AllUsable(DropStale(q, now, interval), now, interval)
  {
    var now, interval := q[i].lastUsed, q[i].lastUsed - q[j].lastUsed;
    var n := FirstUsable(q, 0, now, interval);
    assert Usable(q[i], now, interval) && n <= i;
    assert q[n..][j - n] == q[j];
  }

  /** Dropping from the front removes every connection that is too old, whatever the time and the interval, exactly
      when the queue is oldest first. */
  lemma EvictionIsCompleteExactly(q: seq<Pooled>)
    requires Healthy(q)
    ensures (forall now: nat, interval: nat :: AllUsable(DropStale(q, now, interval), now, interval))
            <==> OldestFirst(q)
  {
    hide AllUsable, DropStale, Usable;
    if OldestFirst(q) {
      forall now: nat, interval: nat ensures AllUsable(DropStale(q, now, interval), now, interval) {
        OldestFirstLeavesUsable(q, now, interval);
      }
    } else {
      var i, j :| 0 <= i < j < |q| && q[i].lastUsed > q[j].lastUsed;
      OutOfOrderKeepsStale(q, i, j);
    }
  }

  lemma OutOfOrderIsKept(q: seq<Pooled>, first: nat, second: nat, interval: nat)
    requires |q| == 2 && Healthy(q) && q[0].lastUsed == first && q[1].lastUsed == second
    requires 0 < interval <= first - second
    ensures !OldestFirst(q) && DropStale(q, first, interval) == q && !Usable(q[1], first, interval)
  {
    assert Usable(q[0], first, interval);
    FirstUsableIs(q, 0, first, interval);
    assert q[0].lastUsed > q[1].lastUsed;
  }

  /** The idle connections are distinct and not handed out. */
  predicate Separate(q: seq<Pooled>, held: set<nat>) {
    && (forall i, j :: 0 <= i < j < |q| ==> q[i].client != q[j].client)
    && (forall i :: 0 <= i < |q| ==> q[i].client !in held)
  }

  lemma NoneIsUsable(now: nat, interval: nat)
    ensures AllUsable([], now, interval)
  {}

  lemma AllUsableTail(q: seq<Pooled>, now: nat, interval: nat)
    requires q != []
    ensures AllUsable(q, now, interval) ==> AllUsable(q[1..], now, interval)
  {
    hide Usable;
  }

  lemma OrderedStaysUsable(q: seq<Pooled>, before: nat, now: nat, interval: nat)
    requires Ordered(q, before)
    ensures AllUsable(DropStale(q, now, interval), now, interval)
  {
    OldestFirstLeavesUsable(q, now, interval);
  }

  lemma TailKeeps(q: seq<Pooled>, held: set<nat>, now: nat)
    requires q != [] && Separate(q, held) && Healthy(q)
    ensures Separate(q[1..], held) && Separate(q[1..], held + {q[0].client}) && Healthy(q[1..])
    ensures Ordered(q, now) ==> Ordered(q[1..], now)
    ensures q[0].client !in held
  {}

  lemma FewerHeld(q: seq<Pooled>, held: set<nat>, client: nat)
    requires Separate(q, held)
    ensures Separate(q, held - {client})
  {}

  lemma LaterIsOrdered(q: seq<Pooled>, now: nat, later: nat)
    requires Ordered(q, now) && now <= later
    ensures Ordered(q, later)
  {}

  lemma HeldIsNotIdle(q: seq<Pooled>, held: set<nat>, client: nat)
    requires Separate(q, held) && client in held
    ensures forall i :: 0 <= i < |q| ==> q[i].client != client
  {}

  /** How an operation ends, and what is returned; after a panic nothing is. */
  datatype Ending = Succeeded | Failed | Panicked

  datatype Result = NotConnected | Ran(client: nat, ending: Ending)

  class ModbusConnectionPool {
    const poolSize: nat
    const healthCheckInterval: nat
    var available: seq<Pooled>
    var totalCreated: nat
    /** The connections handed out and not yet released, how many of the count were lost by panics, the last time
        read, and whether no reading was ever behind the one before it. */
    ghost var held: set<nat>
    ghost var leaked: nat
    ghost var clock: nat
    ghost var steady: bool

    ghost predicate Valid()
      reads this
    {
      && |available| <= poolSize
      && Healthy(available) && (steady ==> Ordered(available, clock))
      && Separate(available, held)
      && totalCreated == |available| + |held| + leaked
    }

    /** A connection that is neither idle nor handed out. */
    ghost predicate New(client: nat)
      reads this
    {
      client !in held && forall i :: 0 <= i < |available| ==> available[i].client != client
    }

    constructor (poolSize: nat, healthCheckInterval: nat)
      ensures Valid() && this.poolSize == poolSize && this.healthCheckInterval == healthCheckInterval
      ensures available == [] && held == {} && leaked == 0 && clock == 0 && steady
    {
      this.poolSize, this.healthCheckInterval := poolSize, healthCheckInterval;
      available, totalCreated, held, leaked, clock, steady := [], 0, {}, 0, 0, true;
    }

    /** Reads the clock, which may have gone back. */
    ghost method Read(now: nat)
      requires Valid()
      modifies `clock, `steady
      ensures Valid() && clock == now && steady == (old(steady) && old(clock) <= now)
    {
      if steady && clock <= now { LaterIsOrdered(available, clock, now); }
      hide Ordered, Separate, Healthy;
      steady := steady && clock <= now;
      clock := now;
    }

    /** The loop of `acquire_connection` that drops stale connections from the front. */
    method EvictStale(now: nat)
      requires Valid()
      modifies `available, `totalCreated, `clock, `steady
      ensures Valid() && clock == now && steady == (old(steady) && old(clock) <= now)
      ensures available == DropStale(old(available), now, healthCheckInterval)
    {
      hide Usable, DropStale, Ordered, Separate, Healthy;
      Read(now);
      while available != [] && !Usable(available[0], now, healthCheckInterval)
        invariant Valid() && clock == now && steady == (old(steady) && old(clock) <= now)
        invariant DropStale(available, now, healthCheckInterval) == DropStale(old(available), now, healthCheckInterval)
        decreases |available|
      {
        DropStaleStep(available, now, healthCheckInterval);
        TailKeeps(available, held, clock);
        available := available[1..];
        totalCreated := totalCreated - 1;
      }
      DropStaleStep(available, now, healthCheckInterval);
    }

    /** The part of `acquire_connection` under the lock: drop stale connections, take the oldest left. While the
        clock has never gone back, every connection that stays is usable. */
    method EvictAndTake(now: nat) returns (client: Option<nat>)
      requires Valid()
      modifies `available, `totalCreated, `clock, `steady, `held
      ensures Valid() && clock == now && steady == (old(steady) && old(clock) <= now)
      ensures var usable := DropStale(old(available), now, healthCheckInterval);
        if usable == [] then client.None? && available == [] && held == old(held)
        else client == Some(usable[0].client) && available == usable[1..] && held == old(held) + {client.value}
      ensures client.Some? ==> client.value !in old(held)
      ensures steady ==> AllUsable(available, now, healthCheckInterval)
    {
      hide Usable, DropStale, Ordered, Separate, Healthy, AllUsable;
      EvictStale(now);
      if steady { OrderedStaysUsable(old(available), old(clock), now, healthCheckInterval); }
      if available == [] {
        NoneIsUsable(now, healthCheckInterval);
        return None;
      }
      TailKeeps(available, held, clock);
      AllUsableTail(available, now, healthCheckInterval);
      client := Some(available[0].client);
      held := held + {available[0].client};
      available := available[1..];
    }

    /** `connected` is the client that `tcp::connect` gives, if it succeeds. */
    method CreateConnection(connected: Option<nat>) returns (client: Option<nat>)
      requires Valid()
      requires connected.Some? ==> New(connected.value)
      modifies this
      ensures Valid() && clock == old(clock) && steady == old(steady)
      ensures available == old(available) && leaked == old(leaked)
      ensures client == connected && held == old(held) + (if client.Some? then {client.value} else {})
    {
      if connected.None? { return None; }
      totalCreated := totalCreated + 1;
      held := held + {connected.value};
      client := connected;
    }

    /** The whole of `acquire_connection`: the oldest usable connection, or else a new one. */
    method AcquireConnection(now: nat, connected: Option<nat>) returns (client: Option<nat>)
      requires Valid()
      requires connected.Some? ==> New(connected.value)
      modifies this
      ensures Valid() && clock == now && steady == (old(steady) && old(clock) <= now) && leaked == old(leaked)
      ensures client == Obtained(old(available), now, healthCheckInterval, connected)
      ensures available == LeftIdle(old(available), now, healthCheckInterval)
      ensures client.Some? ==> client.value !in old(held) && held == old(held) + {client.value}
      ensures client.None? ==> held == old(held)
    {
      hide Separate, Usable, Healthy, Ordered, AllUsable, DropStale;
      client := EvictAndTake(now);
      if client.None? {
        client := CreateConnection(connected);
      }
    }

    /** Puts a healthy connection back while there is room; otherwise the connection is given up. A broken one never
        comes back. */
    method ReleaseConnection(client: nat, isHealthy: bool, now: nat)
      requires Valid() && client in held
      modifies this
      ensures Valid() && clock == now && steady == (old(steady) && old(clock) <= now)
      ensures held == old(held) - {client} && leaked == old(leaked)
      ensures available == PutBack(old(available), client, isHealthy, poolSize, now)
      ensures !isHealthy ==> available == old(available) && totalCreated == old(totalCreated) - 1
      ensures isHealthy && |old(available)| < poolSize ==>
        available == old(available) + [Pooled(client, now, true)] && totalCreated == old(totalCreated)
      ensures isHealthy && |old(available)| >= poolSize ==>
        available == old(available) && totalCreated == old(totalCreated) - 1
    {
      Read(now);
      held := held - {client};
      if !isHealthy {
        totalCreated := totalCreated - 1;
        return;
      }
      if |available| < poolSize {
        available := available + [Pooled(client, now, true)];
      } else {
        totalCreated := totalCreated - 1;
      }
    }

    /** One operation at time `start`, over at time `end`; `run` is how it ends on a connection. It uses the oldest
        usable connection, or a new one; nothing stays handed out, a success puts the connection it used at the end
        of the queue while there is room, and a panic loses it from the count. */
    method ExecuteOperation(start: nat, connected: Option<nat>, run: Ending, end: nat) returns (result: Result)
      requires Valid()
      requires connected.Some? ==> New(connected.value)
      modifies this
      ensures Valid() && clock == end && steady == (old(steady) && old(clock) <= start <= end) && held == old(held)
      ensures var client := Obtained(old(available), start, healthCheckInterval, connected);
        var rest := LeftIdle(old(available), start, healthCheckInterval);
        if client.None? then result == NotConnected && available == rest && leaked == old(leaked)
        else
          && result == Ran(client.value, run)
          && available == (if run.Panicked? then rest else PutBack(rest, client.value, run.Succeeded?, poolSize, end))
          && leaked == old(leaked) + if run.Panicked? then 1 else 0
      ensures result.Ran? && !run.Succeeded? ==>
        New(result.client) && available == LeftIdle(old(available), start, healthCheckInterval)
      ensures result.Ran? && run.Succeeded? ==> var rest := LeftIdle(old(available), start, healthCheckInterval);
        available == rest + if |rest| < poolSize then [Pooled(result.client, end, true)] else []
    {
      hide Separate, PutBack, Healthy, Ordered, Obtained, LeftIdle;
      var client := AcquireConnection(start, connected);
      if client.None? {
        Read(end);
        return NotConnected;
      }
      HeldIsNotIdle(available, held, client.value);
      if run.Panicked? {
        Read(end);
        FewerHeld(available, held, client.value);
        held, leaked := held - {client.value}, leaked + 1;
      } else {
        ReleaseConnection(client.value, run.Succeeded?, end);
      }
      result := Ran(client.value, run);
    }
  }
}
