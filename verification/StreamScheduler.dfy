/** The polling of streams: the enabled streams are grouped by interval, and a tick loop polls each group whose
    interval has passed. */
module StreamScheduler {
  import opened Basics

  datatype StreamConfig = StreamConfig(deviceId: string, signalGroup: string, pollIntervalMs: nat, enabled: bool)

  type Groups = map<nat, seq<StreamConfig>>

  // ---------------------------------------------------------------- grouping

  /** The enabled streams of an interval, in their order. */
  function Members(streams: seq<StreamConfig>, interval: nat): seq<StreamConfig> {
    if streams == [] then []
    else
      var last := streams[|streams| - 1];
      Members(streams[..|streams| - 1], interval)
        + if last.enabled && last.pollIntervalMs == interval then [last] else []
  }

  ghost predicate IsGrouping(groups: Groups, streams: seq<StreamConfig>) {
    && (forall k <- groups :: groups[k] == Members(streams, k) != [])
    && (forall k: nat :: k !in groups ==> Members(streams, k) == [])
  }

  lemma MembersStep(streams: seq<StreamConfig>, i: nat, k: nat)
    requires i < |streams|
    ensures Members(streams[..i + 1], k) == Members(streams[..i], k)
            + if streams[i].enabled && streams[i].pollIntervalMs == k then [streams[i]] else []
  {
    assert streams[..i + 1][..i] == streams[..i];
  }

  method GroupStreamsByInterval(streams: seq<StreamConfig>) returns (groups: Groups)
    ensures IsGrouping(groups, streams)
  {
    groups := map[];
    var i := 0;
    while i < |streams|
      invariant 0 <= i <= |streams|
      invariant IsGrouping(groups, streams[..i])
    {
      var stream := streams[i];
      var k := stream.pollIntervalMs;
      forall k: nat ensures Members(streams[..i + 1], k) == Members(streams[..i], k)
                            + if stream.enabled && stream.pollIntervalMs == k then [stream] else []
      { MembersStep(streams, i, k); }
      hide Members;
      if stream.enabled {
        var group := if k in groups then groups[k] else [];
        groups := groups[k := group + [stream]];
      }
      i := i + 1;
    }
    assert streams[..i] == streams;
  }

  function Count(s: seq<StreamConfig>, x: StreamConfig): nat {
    if s == [] then 0 else Count(s[..|s| - 1], x) + if s[|s| - 1] == x then 1 else 0
  }

  lemma CountConcat(s: seq<StreamConfig>, y: StreamConfig, x: StreamConfig)
    ensures Count(s + [y], x) == Count(s, x) + if y == x then 1 else 0
  {
    assert (s + [y])[..|s|] == s;
  }

  lemma {:induction false} MembersCount(streams: seq<StreamConfig>, k: nat, x: StreamConfig)
    ensures Count(Members(streams, k), x) == if x.enabled && x.pollIntervalMs == k then Count(streams, x) else 0
  {
    if streams == [] {
    } else {
      var n := |streams| - 1;
      MembersCount(streams[..n], k, x);
      CountConcat(Members(streams[..n], k), streams[n], x);
      assert Members(streams[..n], k) + [] == Members(streams[..n], k);
    }
  }

  /** The groups partition the enabled streams: an enabled stream is in the group of its interval as often as it
      was configured, and in no other; a disabled one is in none. */
  lemma GroupsPartition(groups: Groups, streams: seq<StreamConfig>, x: StreamConfig, k: nat)
    requires IsGrouping(groups, streams) && k in groups
    ensures Count(groups[k], x) == if x.enabled && x.pollIntervalMs == k then Count(streams, x) else 0
  {
    MembersCount(streams, k, x);
  }

  lemma {:induction false} EnabledIsInSomeGroup(groups: Groups, streams: seq<StreamConfig>, i: nat)
    requires IsGrouping(groups, streams) && i < |streams| && streams[i].enabled
    ensures streams[i].pollIntervalMs in groups && streams[i] in groups[streams[i].pollIntervalMs]
  {
    InMembers(streams, i);
  }

  lemma {:induction false} InMembers(streams: seq<StreamConfig>, i: nat)
    requires i < |streams| && streams[i].enabled
    ensures streams[i] in Members(streams, streams[i].pollIntervalMs)
  {
    if i < |streams| - 1 { InMembers(streams[..|streams| - 1], i); }
  }

  /** The places of the members of a group in the configuration: in its order, and all of them. */
  lemma {:induction false} MembersAreInOrder(streams: seq<StreamConfig>, k: nat) returns (at: seq<nat>)
    ensures |at| == |Members(streams, k)|
    ensures forall i, j :: 0 <= i < j < |at| ==> at[i] < at[j]
    ensures forall i :: 0 <= i < |at| ==> at[i] < |streams| && Members(streams, k)[i] == streams[at[i]]
    ensures forall p :: 0 <= p < |streams| ==>
      (p in at <==> streams[p].enabled && streams[p].pollIntervalMs == k)
  {
    if streams == [] {
      at := [];
    } else {
      var n := |streams| - 1;
      var before := streams[..n];
      at := MembersAreInOrder(before, k);
      MembersStep(streams, n, k);
      assert streams[..n + 1] == streams;
      if streams[n].enabled && streams[n].pollIntervalMs == k { at := at + [n]; }
      hide Members;
      assert forall p :: 0 <= p < n ==> before[p] == streams[p];
    }
  }

  // ---------------------------------------------------------------- the tick loop

  type Name = (string, string)

  function Names(streams: seq<StreamConfig>): seq<Name> {
    seq(|streams|, i requires 0 <= i < |streams| => (streams[i].deviceId, streams[i].signalGroup))
  }

  /** What happened: all timers were reset, or a group was polled. */
  datatype Entry = Reset(at: nat) | Round(interval: nat, members: seq<Name>, started: nat, finished: nat)

  function EndOf(e: Entry): nat { if e.Reset? then e.at else e.finished }

  /** An entry that the next round of an interval has to keep a distance from. */
  predicate Concerns(e: Entry, interval: nat) { e.Round? ==> e.interval == interval }

  /** A round starts no earlier than its interval after every earlier round of it and every earlier reset. */
  ghost predicate Spaced(log: seq<Entry>) {
    forall i, j :: 0 <= i < j < |log| && log[j].Round? && Concerns(log[i], log[j].interval) ==>
      log[j].started >= EndOf(log[i]) + log[j].interval
  }

  /** A timer is not behind the end of any entry that concerns it, and nothing is in the future. */
  ghost predicate TimersOk(timers: map<nat, nat>, log: seq<Entry>, clock: nat) {
    && (forall i :: 0 <= i < |log| ==> EndOf(log[i]) <= clock)
    && (forall k <- timers :: timers[k] <= clock)
    && (forall k <- timers, i | 0 <= i < |log| && Concerns(log[i], k) :: EndOf(log[i]) <= timers[k])
  }

  lemma RoundKeeps(timers: map<nat, nat>, log: seq<Entry>, r: Entry)
    requires r.Round? && Spaced(log) && TimersOk(timers, log, r.started) && r.started <= r.finished
    requires r.interval in timers && timers[r.interval] + r.interval <= r.started
    ensures Spaced(log + [r]) && TimersOk(timers[r.interval := r.finished], log + [r], r.finished)
  {}

  /** The group `interval` is due at `now`; a group without a timer gets one that starts now. */
  predicate Due(timers: map<nat, nat>, interval: nat, now: nat) {
    (if interval in timers then timers[interval] else now) + interval <= now
  }

  /** Each of `groups` among `ids` that is due, once, with the names of its members in their order. */
  ghost predicate DuePolls(polls: seq<(nat, seq<Name>)>, groups: Groups, timers: map<nat, nat>, ids: set<nat>,
                           now: nat)
  {
    && (forall i :: 0 <= i < |polls| ==>
          && polls[i].0 in ids && polls[i].0 in groups && polls[i].1 == Names(groups[polls[i].0])
          && Due(timers, polls[i].0, now))
    && (forall k <- ids :: Due(timers, k, now) ==> exists i :: 0 <= i < |polls| && polls[i].0 == k)
    && (forall i, j :: 0 <= i < j < |polls| ==> polls[i].0 != polls[j].0)
  }

  /** Some round is for the group `interval`. */
  ghost predicate HasPoll(polls: seq<(nat, seq<Name>)>, interval: nat) {
    exists i :: 0 <= i < |polls| && polls[i].0 == interval
  }

  /** In terms of times: a group is polled exactly when its interval has passed since its timer was started, and
      every member of it is asked for by device and signal group. */
  lemma DuePollsByTime(polls: seq<(nat, seq<Name>)>, groups: Groups, timers: map<nat, nat>, now: nat)
    requires DuePolls(polls, groups, timers, groups.Keys, now)
    ensures forall k <- groups ::
      HasPoll(polls, k) <==> if k in timers then timers[k] + k <= now else k == 0
    ensures forall i, j :: 0 <= i < j < |polls| ==> polls[i].0 != polls[j].0
    ensures forall i :: 0 <= i < |polls| ==> polls[i].0 in groups && |polls[i].1| == |groups[polls[i].0]|
    ensures forall i, j :: 0 <= i < |polls| && 0 <= j < |polls[i].1| ==>
      polls[i].1[j].0 == groups[polls[i].0][j].deviceId && polls[i].1[j].1 == groups[polls[i].0][j].signalGroup
  {}

  lemma NoPolls(groups: Groups, timers: map<nat, nat>, now: nat)
    ensures DuePolls([], groups, timers, {}, now)
  {}

  lemma DueStep(polls: seq<(nat, seq<Name>)>, groups: Groups, timers: map<nat, nat>, ids: set<nat>, k: nat, now: nat)
    requires DuePolls(polls, groups, timers, ids, now) && k in groups && k !in ids
    ensures DuePolls(if Due(timers, k, now) then polls + [(k, Names(groups[k]))] else polls, groups, timers,
                     ids + {k}, now)
  {
    hide Due, Names;
    if Due(timers, k, now) {
      var after := polls + [(k, Names(groups[k]))];
      forall h <- ids + {k} | Due(timers, h, now) ensures exists i :: 0 <= i < |after| && after[i].0 == h {
        if h == k {
          assert after[|polls|].0 == k;
        } else {
          var i :| 0 <= i < |polls| && polls[i].0 == h;
          assert after[i].0 == h;
        }
      }
    }
  }

  lemma NewTimerOk(timers: map<nat, nat>, log: seq<Entry>, clock: nat, k: nat)
    requires TimersOk(timers, log, clock)
    ensures TimersOk(timers[k := clock], log, clock)
  {}

  lemma LaterIsOk(timers: map<nat, nat>, log: seq<Entry>, clock: nat)
    requires TimersOk(timers, log, clock)
    ensures forall later: nat :: later >= clock ==> TimersOk(timers, log, later)
  {}

  lemma ResetKeeps(timers: map<nat, nat>, log: seq<Entry>, clock: nat)
    requires Spaced(log) && TimersOk(timers, log, clock)
    ensures Spaced(log + [Reset(clock)]) && TimersOk(map[], log + [Reset(clock)], clock)
  {}

  /** Everything asked for in the rounds, in order. */
  function AllNames(polls: seq<(nat, seq<Name>)>): seq<Name> {
    if polls == [] then [] else AllNames(polls[..|polls| - 1]) + polls[|polls| - 1].1
  }

  lemma AllNamesStep(polls: seq<(nat, seq<Name>)>, i: nat)
    requires i < |polls|
    ensures AllNames(polls[..i + 1]) == AllNames(polls[..i]) + polls[i].1
  {
    assert polls[..i + 1][..i] == polls[..i];
  }

  /** The log `after` is `before` and one round for each poll. */
  ghost predicate Rounds(before: seq<Entry>, polls: seq<(nat, seq<Name>)>, after: seq<Entry>) {
    && |after| == |before| + |polls| && after[..|before|] == before
    && forall i :: 0 <= i < |polls| ==>
         var e := after[|before| + i]; e.Round? && e.interval == polls[i].0 && e.members == polls[i].1
  }

  lemma RoundsStart(log: seq<Entry>)
    ensures Rounds(log, [], log) && AllNames([]) == []
  {}

  lemma RoundsStep(before: seq<Entry>, polls: seq<(nat, seq<Name>)>, i: nat, so: seq<Entry>, e: Entry)
    requires i < |polls| && Rounds(before, polls[..i], so)
    requires e.Round? && e.interval == polls[i].0 && e.members == polls[i].1
    ensures Rounds(before, polls[..i + 1], so + [e])
  {}

  const DEFAULT_POLL_TIMEOUT_MS: nat := 2000

  /** How a poll can end: the request was not sent, the answer came and the hub took the update or not, no answer
      came in time, or the answer's channel was dropped. */
  datatype PollOutcome = NotSent | Answered(success: bool, taken: bool) | TimedOut | Disconnected

  datatype Broadcast = Broadcast(name: Name, sequence: nat, taken: bool)

  class DataStreamWorker {
    var streamGroups: Groups
    var sequence: nat
    var lastPollTimes: map<nat, nat>
    /** The time of day, which every reading may find later than the one before. */
    var clock: nat
    ghost var streams: seq<StreamConfig>
    ghost var log: seq<Entry>
    /** The groups asked for, and the updates given to the hub. */
    ghost var polled: seq<Name>
    ghost var broadcast: seq<Broadcast>

    ghost predicate Valid()
      reads this
    {
      && IsGrouping(streamGroups, streams)
      && Spaced(log) && TimersOk(lastPollTimes, log, clock)
      && |broadcast| == sequence && forall i :: 0 <= i < sequence ==> broadcast[i].sequence == i + 1
    }

    /** Groups the streams and, as the loop is entered, starts the timer of every group. */
    constructor (streams: seq<StreamConfig>)
      ensures Valid() && this.streams == streams && log == [Reset(0)] && polled == [] && broadcast == []
      ensures lastPollTimes.Keys == streamGroups.Keys
    {
      var groups := GroupStreamsByInterval(streams);
      streamGroups, sequence, lastPollTimes, clock := groups, 0, map[], 0;
      this.streams, log, polled, broadcast := streams, [], [], [];
      new;
      ResetTimers();
    }

    method Now() returns (t: nat)
      modifies `clock
      ensures t == clock >= old(clock)
    {
      var passed: nat :| passed >= 0;
      clock := clock + passed;
      t := clock;
    }

    /** A reading starts the timer of every group; older timers are forgotten. */
    method ResetTimers()
      requires Valid()
      modifies `lastPollTimes, `clock, `log
      ensures Valid() && clock >= old(clock) && log == old(log) + [Reset(old(clock))]
      ensures lastPollTimes.Keys == streamGroups.Keys
      ensures forall k <- lastPollTimes :: old(clock) <= lastPollTimes[k] <= clock
    {
      hide IsGrouping, Spaced, TimersOk;
      ResetKeeps(lastPollTimes, log, clock);
      log := log + [Reset(clock)];
      ghost var resetLog := log;
      lastPollTimes := map[];
      var rest := streamGroups.Keys;
      while rest != {}
        invariant Valid() && clock >= old(clock) && log == resetLog
        invariant lastPollTimes.Keys == streamGroups.Keys - rest && rest <= streamGroups.Keys
        invariant forall k <- lastPollTimes :: old(clock) <= lastPollTimes[k] <= clock
      {
        var k :| k in rest;
        LaterIsOk(lastPollTimes, log, clock);
        var now := Now();
        NewTimerOk(lastPollTimes, log, clock, k);
        lastPollTimes := lastPollTimes[k := now];
        rest := rest - {k};
      }
    }

    /** Asks for one group. An answer, good or bad, is broadcast under the next sequence number, which is used up
        even if the hub does not take the update; nothing else is broadcast. */
    method PollSignalGroup(name: Name) returns (outcome: PollOutcome, success: bool, latencyUs: nat)
      requires Valid()
      modifies `sequence, `clock, `polled, `broadcast
      ensures Valid() && clock >= old(clock) && polled == old(polled) + [name]
      ensures match outcome
        case Answered(good, taken) =>
          success == good && broadcast == old(broadcast) + [Broadcast(name, old(sequence) + 1, taken)]
        case TimedOut => !success && latencyUs == 2_000_000 && broadcast == old(broadcast)
        case _ => !success && latencyUs == 0 && broadcast == old(broadcast)
    {
      outcome := *;
      polled := polled + [name];
      var start := clock;
      var now := Now();
      match outcome {
        case Answered(good, taken) =>
          sequence := sequence + 1;
          broadcast := broadcast + [Broadcast(name, sequence, taken)];
          success, latencyUs := good, 1000 * (now - start);
        case TimedOut => success, latencyUs := false, 1000 * DEFAULT_POLL_TIMEOUT_MS;
        case _ => success, latencyUs := false, 0;
      }
    }

    /** Polls the members of a group one after the other and restarts its timer. */
    method RunRound(interval: nat, members: seq<Name>)
      requires Valid() && interval in lastPollTimes && lastPollTimes[interval] + interval <= clock
      modifies `sequence, `clock, `polled, `broadcast, `lastPollTimes, `log
      ensures Valid() && clock >= old(clock) && polled == old(polled) + members
      ensures log == old(log) + [Round(interval, members, old(clock), clock)]
      ensures lastPollTimes == old(lastPollTimes)[interval := clock]
    {
      hide IsGrouping, Spaced, TimersOk;
      var started := clock;
      var i := 0;
      while i < |members|
        invariant 0 <= i <= |members| && Valid() && clock >= started && polled == old(polled) + members[..i]
        invariant log == old(log) && lastPollTimes == old(lastPollTimes)
      {
        var outcome, success, latencyUs := PollSignalGroup(members[i]);
        i := i + 1;
      }
      var finished := Now();
      ghost var r := Round(interval, members, started, finished);
      lastPollTimes := lastPollTimes[interval := finished];
      RoundKeeps(old(lastPollTimes), log, r);
      log := log + [r];
    }

    /** A configuration that could not be parsed changes nothing. */
    method UpdateConfig(parsed: Option<seq<StreamConfig>>)
      requires Valid()
      modifies `streamGroups, `streams
      ensures Valid() && streams == if parsed.Some? then parsed.value else old(streams)
    {
      if parsed.Some? {
        streamGroups := GroupStreamsByInterval(parsed.value);
        streams := parsed.value;
      }
    }

    /** The groups that are due, each once with the names of its members, in any order of the groups. */
    method CollectDue(now: nat) returns (polls: seq<(nat, seq<Name>)>)
      requires Valid() && now == clock
      modifies `lastPollTimes
      ensures Valid()
      ensures forall k <- old(lastPollTimes) :: k in lastPollTimes && lastPollTimes[k] == old(lastPollTimes)[k]
      ensures DuePolls(polls, streamGroups, old(lastPollTimes), streamGroups.Keys, now)
      ensures forall k <- streamGroups ::
        HasPoll(polls, k) <==> if k in old(lastPollTimes) then old(lastPollTimes)[k] + k <= now else k == 0
      ensures forall i :: 0 <= i < |polls| ==>
        polls[i].0 in lastPollTimes && lastPollTimes[polls[i].0] + polls[i].0 <= now
    {
      hide DuePolls, TimersOk, Spaced, Names, IsGrouping, HasPoll;
      polls := [];
      NoPolls(streamGroups, lastPollTimes, now);
      var rest := streamGroups.Keys;
      ghost var seen: set<nat> := {};
      while rest != {}
        invariant seen + rest == streamGroups.Keys && seen !! rest
        invariant Valid()
        invariant forall k <- old(lastPollTimes) :: k in lastPollTimes && lastPollTimes[k] == old(lastPollTimes)[k]
        invariant forall k <- lastPollTimes :: k in old(lastPollTimes) || (k in seen && lastPollTimes[k] == now)
        invariant DuePolls(polls, streamGroups, old(lastPollTimes), seen, now)
        invariant forall i :: 0 <= i < |polls| ==>
          polls[i].0 in lastPollTimes && lastPollTimes[polls[i].0] + polls[i].0 <= now
      {
        var k :| k in rest;
        NewTimerOk(lastPollTimes, log, clock, k);
        DueStep(polls, streamGroups, old(lastPollTimes), seen, k, now);
        if k !in lastPollTimes { lastPollTimes := lastPollTimes[k := now]; }
        if now - lastPollTimes[k] >= k { polls := polls + [(k, Names(streamGroups[k]))]; }
        seen, rest := seen + {k}, rest - {k};
      }
      assert seen == streamGroups.Keys;
      DuePollsByTime(polls, streamGroups, old(lastPollTimes), now);
    }

    /** Runs the rounds collected, in their order. */
    method RunPolls(polls: seq<(nat, seq<Name>)>)
      requires Valid()
      requires forall i :: 0 <= i < |polls| ==>
        polls[i].0 in lastPollTimes && lastPollTimes[polls[i].0] + polls[i].0 <= clock
      requires forall i, j :: 0 <= i < j < |polls| ==> polls[i].0 != polls[j].0
      modifies `sequence, `clock, `polled, `broadcast, `lastPollTimes, `log
      ensures Valid() && clock >= old(clock)
      ensures Rounds(old(log), polls, log) && polled == old(polled) + AllNames(polls)
    {
      var i := 0;
      hide Rounds, IsGrouping, Spaced, TimersOk, AllNames;
      assert polls[..0] == [];
      RoundsStart(log);
      while i < |polls|
        invariant 0 <= i <= |polls| && Valid() && clock >= old(clock)
        invariant forall j :: i <= j < |polls| ==>
          polls[j].0 in lastPollTimes && lastPollTimes[polls[j].0] + polls[j].0 <= clock
        invariant Rounds(old(log), polls[..i], log) && polled == old(polled) + AllNames(polls[..i])
      {
        ghost var so := log;
        RunRound(polls[i].0, polls[i].1);
        RoundsStep(old(log), polls, i, so, log[|so|]);
        AllNamesStep(polls, i);
        i := i + 1;
      }
      assert polls[..i] == polls;
    }

    /** One turn of the loop of `run`; `update` is a configuration that arrived, if it could be parsed. After an
        update the timers are those of the groups of the new configuration, started on the way; whatever the
        timers, exactly the groups that are due by them are polled, each once. */
    method Tick(update: Option<Option<seq<StreamConfig>>>)
      returns (now: nat, ghost timers: map<nat, nat>, ghost polls: seq<(nat, seq<Name>)>)
      requires Valid()
      modifies this
      ensures Valid() && now >= old(clock)
      ensures streams == if update.Some? && update.value.Some? then update.value.value else old(streams)
      ensures Rounds(old(log) + (if update.Some? then [Reset(old(clock))] else []), polls, log)
      ensures polled == old(polled) + AllNames(polls)
      ensures update.None? ==> timers == old(lastPollTimes)
      ensures update.Some? ==>
        timers.Keys == streamGroups.Keys && forall k <- timers :: old(clock) <= timers[k] <= now
      ensures DuePolls(polls, streamGroups, timers, streamGroups.Keys, now)
      ensures forall k <- streamGroups ::
        HasPoll(polls, k) <==> if k in timers then timers[k] + k <= now else k == 0
      ensures forall i, j :: 0 <= i < j < |polls| ==> polls[i].0 != polls[j].0
      ensures forall i :: 0 <= i < |polls| ==>
        polls[i].0 in streamGroups && |polls[i].1| == |streamGroups[polls[i].0]|
        && forall j :: 0 <= j < |polls[i].1| ==>
             && polls[i].1[j].0 == streamGroups[polls[i].0][j].deviceId
             && polls[i].1[j].1 == streamGroups[polls[i].0][j].signalGroup
    {
      hide DuePolls, Rounds, AllNames, HasPoll;
      if update.Some? {
        UpdateConfig(update.value);
        ResetTimers();
      }
      assert log == old(log) + (if update.Some? then [Reset(old(clock))] else []);
      timers := lastPollTimes;
      now := Now();
      var due := CollectDue(now);
      polls := due;
      DuePollsByTime(polls, streamGroups, timers, now);
      RunPolls(due);
    }
  }
}
