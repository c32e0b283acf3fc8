/** The connection life cycle of a device: attempts to connect with a growing timeout, and the events they emit. */
module Lifecycle {
  import opened Basics

  const BASE_TIMEOUT_MS: nat := 1000
  const MAX_TIMEOUT_MS: nat := 30000

  datatype ConnectionState = Disconnected | Connecting | Connected

  datatype DeviceEvent = DeviceConnected | DeviceDisconnected | DeviceReconnecting

  /** The adaptive timeout of connection attempts. */
  class TimeoutHandler {
    var current: nat

    constructor ()
      ensures current == BASE_TIMEOUT_MS
    {
      current := BASE_TIMEOUT_MS;
    }

    method OnTimeout()
      modifies this
      ensures current == Doubled(old(current))
    {
      current := current * 2;
      if current > MAX_TIMEOUT_MS { current := MAX_TIMEOUT_MS; }
    }

    method OnSuccess()
      modifies this
      ensures current == BASE_TIMEOUT_MS
    {
      current := BASE_TIMEOUT_MS;
    }
  }

  function Doubled(timeout: nat): nat {
    if 2 * timeout <= MAX_TIMEOUT_MS then 2 * timeout else MAX_TIMEOUT_MS
  }

  /** What can be seen of a device between calls; `attempts` are the timeouts of all attempts made. */
  datatype Snapshot = Snapshot(state: ConnectionState, hasPool: bool, timeout: nat,
                               events: seq<DeviceEvent>, attempts: seq<nat>)

  const INITIAL := Snapshot(Disconnected, false, BASE_TIMEOUT_MS, [], [])

  function EventFor(s: ConnectionState): DeviceEvent {
    match s
    case Connected => DeviceConnected
    case Disconnected => DeviceDisconnected
    case Connecting => DeviceReconnecting
  }

  /** Only a change of state emits an event. */
  function Changed(s: Snapshot, state: ConnectionState): Snapshot {
    if s.state == state then s else s.(state := state, events := s.events + [EventFor(state)])
  }

  /** One `ensure_connected`, where `reachable` says whether an attempt to connect succeeds. */
  function Ensured(s: Snapshot, reachable: bool): Snapshot {
    if s.hasPool then Changed(s, Connected).(timeout := BASE_TIMEOUT_MS)
    else
      var tried := Changed(s, Connecting).(attempts := s.attempts + [s.timeout]);
      if reachable then Changed(tried, Connected).(hasPool := true, timeout := BASE_TIMEOUT_MS)
      else Changed(tried, Disconnected).(timeout := Doubled(s.timeout))
  }

  class ModbusWorkerState {
    var connectionState: ConnectionState
    var hasPool: bool
    const timeoutHandler: TimeoutHandler
    /** Every event emitted and the timeout of every attempt made. */
    ghost var events: seq<DeviceEvent>
    ghost var attempts: seq<nat>

    ghost function Seen(): Snapshot
      reads this, timeoutHandler
    {
      Snapshot(connectionState, hasPool, timeoutHandler.current, events, attempts)
    }

    constructor ()
      ensures Seen() == INITIAL && fresh(timeoutHandler)
    {
      timeoutHandler := new TimeoutHandler();
      connectionState, hasPool, events, attempts := Disconnected, false, [], [];
    }

    method UpdateConnectionState(state: ConnectionState)
      modifies `connectionState, `events
      ensures Seen() == Changed(old(Seen()), state)
    {
      if connectionState != state {
        events := events + [EventFor(state)];
        connectionState := state;
      }
    }

    /** Connects once with the current timeout. */
    method ConnectPool(timeout: nat, reachable: bool) returns (ok: bool)
      modifies `hasPool, `attempts
      ensures ok == reachable
      ensures Seen() == old(Seen()).(hasPool := ok || old(hasPool), attempts := old(attempts) + [timeout])
    {
      attempts := attempts + [timeout];
      if reachable { hasPool := true; }
      ok := reachable;
    }

    method EnsureConnected(reachable: bool) returns (ok: bool)
      modifies this, timeoutHandler
      ensures Seen() == Ensured(old(Seen()), reachable)
      ensures ok <==> Seen().hasPool
    {
      var timeout := timeoutHandler.current;
      if !hasPool {
        UpdateConnectionState(Connecting);
        var connected := ConnectPool(timeout, reachable);
        if !connected {
          timeoutHandler.OnTimeout();
          UpdateConnectionState(Disconnected);
          return false;
        }
      }
      UpdateConnectionState(Connected);
      timeoutHandler.OnSuccess();
      ok := true;
    }
  }

  // ---------------------------------------------------------------- any sequence of calls

  function Run(reachable: seq<bool>): Snapshot {
    if reachable == [] then INITIAL
    else Ensured(Run(reachable[..|reachable| - 1]), reachable[|reachable| - 1])
  }

  /** How often the device was not reachable before the first time it was. */
  function Failures(reachable: seq<bool>): nat
  {
    if reachable == [] || reachable[0] then 0 else 1 + Failures(reachable[1..])
  }

  /** The timeout after `k` failures. */
  function TimeoutAfter(k: nat): nat {
    if 1000 * Pow2(k) <= 30000 then 1000 * Pow2(k) else 30000
  }

  /** The events of `k` failed attempts. */
  function FailedAttempts(k: nat): seq<DeviceEvent> {
    if k == 0 then [] else FailedAttempts(k - 1) + [DeviceReconnecting, DeviceDisconnected]
  }

  lemma {:induction false} FailuresStep(reachable: seq<bool>, r: bool)
    ensures Failures(reachable + [r]) == Failures(reachable) + if !r && Failures(reachable) == |reachable| then 1 else 0
    ensures Failures(reachable) <= |reachable|
  {
    if reachable == [] {
    } else {
      FailuresStep(reachable[1..], r);
      assert (reachable + [r])[1..] == reachable[1..] + [r];
    }
  }

  lemma TimeoutDoubles(k: nat)
    ensures Doubled(TimeoutAfter(k)) == TimeoutAfter(k + 1)
  {}

  /** For every sequence of calls: the events are the failed attempts before the first success and then, if there
      was one, that success and nothing more; `Connecting` is never seen; the timeout of attempt k, counted from
      0, is 1000 * 2^k ms and at most 30 seconds, and a success restores one second. */
  lemma {:induction false} LifeCycle(reachable: seq<bool>)
    ensures var s, k := Run(reachable), Failures(reachable);
      var connected := k < |reachable|;
      && s.state == (if connected then Connected else Disconnected) && s.hasPool == connected
      && s.events == FailedAttempts(k) + (if connected then [DeviceReconnecting, DeviceConnected] else [])
      && s.timeout == (if connected then 1000 else TimeoutAfter(k))
      && |s.attempts| == k + (if connected then 1 else 0)
      && forall i :: 0 <= i < |s.attempts| ==> s.attempts[i] == TimeoutAfter(i)
  {
    if reachable == [] {
    } else {
      var n := |reachable| - 1;
      var before := reachable[..n];
      LifeCycle(before);
      FailuresStep(before, reachable[n]);
      assert before + [reachable[n]] == reachable;
      TimeoutDoubles(Failures(before));
      hide TimeoutAfter, Failures;
    }
  }
}
