/** A device under load: requests, the capacity limiter and the connection pool as one machine. The worker of the
    device looks at one request at a time; the tasks it spawns interleave, one atomic access per step. */
module RequestSystem {
  import opened ConnectionPool

  /** Where a request is in `handle_device_control` and in the task it spawns. */
  datatype Phase =
    | Waiting                // not looked at yet
    | Answering              // an answer is decided, no slot is held
    | Preparing              // a slot is held, no task yet
    | Refusing               // a slot is held and is given back before the answer
    | Spawned                // the task runs; its guard gives the slot back
    | Creating               // found no idle connection, about to create one
    | Opened(client: nat)    // connected, not counted yet
    | Held(client: nat)      // the operation runs on the connection
    | Closing(client: nat)   // no longer counted, about to be dropped
    | Replying               // the task has its result
    | Replied                // and has sent it; the guard is still to run
    | Done
    | Lost                   // the worker panicked before the task was spawned
    | Abandoned              // the task was dropped before it started, as the runtime went down with the worker

  predicate HasSlot(p: Phase) { !p.Waiting? && !p.Answering? && !p.Done? }

  /** The worker is at this request. */
  predicate AtWorker(p: Phase) { p.Answering? || p.Preparing? || p.Refusing? }

  predicate HasClient(p: Phase) { p.Opened? || p.Held? || p.Closing? }

  function Slot(p: Phase): nat { if HasSlot(p) then 1 else 0 }

  /** Open connections, with those about to be created. */
  function Open(p: Phase): nat { if HasClient(p) || p.Creating? then 1 else 0 }

  function Counted(p: Phase): nat { if p.Held? then 1 else 0 }

  function Attended(p: Phase): nat { if AtWorker(p) then 1 else 0 }

  function Crashed(p: Phase): nat { if p.Lost? then 1 else 0 }

  function Dropped(p: Phase): nat { if p.Abandoned? then 1 else 0 }

  /** The thread of the worker; `Dead` once it has panicked. */
  datatype Worker = Idle | Busy | Dead

  /** `max` is the number of concurrent operations, `leaked` counts the panics that lost a counted connection,
      and `steady` says that the clock has never gone back. */
  datatype State = State(
    max: nat, poolSize: nat, interval: nat, worker: Worker,
    pool: seq<Pooled>, total: int, inFlight: nat,
    leaked: nat, now: nat, steady: bool, nextClient: nat,
    phases: seq<Phase>, replies: seq<nat>)

  datatype Action =
    | Arrive
    | AnswerAtOnce(r: nat)               // not connected, or a status request
    | TryAcquire(r: nat)
    | Refuse(r: nat)                     // no pool, or fields missing
    | GiveBack(r: nat)
    | Spawn(r: nat)
    | Crash(r: nat)                      // the encoder panics on the thread of the worker
    | Abandon(r: nat)                    // only once the worker is dead
    | BadGroup(r: nat)                   // or a panic before a connection is asked for
    | Take(r: nat)
    | Connect(r: nat, ok: bool)          // not ok: refused, or a panic
    | CountIn(r: nat)
    | Finish(r: nat, isHealthy: bool)
    | Close(r: nat)
    | Panic(r: nat)                      // while the connection is held
    | Reply(r: nat)
    | DropGuard(r: nat)
    | Tick(time: nat)                    // the clock reads another time, possibly an earlier one

  /** `complete()`, which does nothing at zero. */
  function Complete(inFlight: nat): nat { if inFlight > 0 then inFlight - 1 else 0 }

  function Move(s: State, r: nat, p: Phase): State
    requires r < |s.phases|
  {
    s.(phases := s.phases[r := p])
  }

  /** The worker turns to a request. */
  function Attend(s: State, r: nat, p: Phase): State
    requires r < |s.phases|
  {
    Move(s, r, p).(worker := Busy)
  }

  function Send(s: State, r: nat, p: Phase): State
    requires r < |s.phases| == |s.replies|
  {
    Move(s, r, p).(replies := s.replies[r := s.replies[r] + 1])
  }

  /** `acquire_connection` up to where it lets the lock go. */
  function TakeStep(s: State, r: nat): State
    requires r < |s.phases|
  {
    var usable := DropStale(s.pool, s.now, s.interval);
    var dropped := |s.pool| - |usable|;
    if usable == [] then Move(s, r, Creating).(pool := [], total := s.total - dropped)
    else Move(s, r, Held(usable[0].client)).(pool := usable[1..], total := s.total - dropped)
  }

  /** `release_connection`. */
  function FinishStep(s: State, r: nat, client: nat, isHealthy: bool): State
    requires r < |s.phases|
  {
    var q := PutBack(s.pool, client, isHealthy, s.poolSize, s.now);
    if |q| > |s.pool| then Move(s, r, Replying).(pool := q)
    else Move(s, r, Closing(client)).(total := s.total - 1)
  }

  /** One step; an action that is not due does nothing. */
  function Step(s: State, a: Action): (t: State)
    requires |s.phases| == |s.replies|
    ensures |t.phases| == |t.replies|
  {
    match a
    case Arrive => s.(phases := s.phases + [Waiting], replies := s.replies + [0])
    case Tick(time) => s.(now := time, steady := s.steady && s.now <= time)
    case _ => if a.r < |s.phases| then Act(s, a, a.r) else s
  }

  function Act(s: State, a: Action, r: nat): (t: State)
    requires r < |s.phases| == |s.replies|
    ensures |t.phases| == |t.replies|
  {
    match (s.phases[r], a)
    case (Waiting, AnswerAtOnce(_)) => if s.worker == Idle then Attend(s, r, Answering) else s
    case (Waiting, TryAcquire(_)) =>
      if s.worker != Idle then s
      else if s.inFlight < s.max then Attend(s, r, Preparing).(inFlight := s.inFlight + 1)
      else Attend(s, r, Answering)
    case (Preparing, Refuse(_)) => Move(s, r, Refusing)
    case (Refusing, GiveBack(_)) => Move(s, r, Answering).(inFlight := Complete(s.inFlight))
    case (Answering, Reply(_)) => Send(s, r, Done).(worker := Idle)
    case (Preparing, Spawn(_)) => Move(s, r, Spawned).(worker := Idle)
    case (Preparing, Crash(_)) => Move(s, r, Lost).(worker := Dead)
    case (Spawned, Abandon(_)) => if s.worker == Dead then Move(s, r, Abandoned) else s
    case (Spawned, BadGroup(_)) => Move(s, r, Replying)
    case (Spawned, Take(_)) => TakeStep(s, r)
    case (Creating, Connect(_, ok)) =>
      if ok then Move(s, r, Opened(s.nextClient)).(nextClient := s.nextClient + 1) else Move(s, r, Replying)
    case (Opened(c), CountIn(_)) => Move(s, r, Held(c)).(total := s.total + 1)
    case (Held(c), Finish(_, isHealthy)) => FinishStep(s, r, c, isHealthy)
    case (Held(c), Panic(_)) => Move(s, r, Replying).(leaked := s.leaked + 1)
    case (Closing(c), Close(_)) => Move(s, r, Replying)
    case (Replying, Reply(_)) => Send(s, r, Replied)
    case (Replied, DropGuard(_)) => Move(s, r, Done).(inFlight := Complete(s.inFlight))
    case _ => s
  }

  predicate Init(s: State) {
    && s.worker == Idle && s.steady && s.pool == [] && s.total == 0 && s.inFlight == 0 && s.leaked == 0
    && s.phases == [] && s.replies == []
  }

  function Run(s: State, actions: seq<Action>): (t: State)
    requires |s.phases| == |s.replies|
    ensures |t.phases| == |t.replies|
  {
    if actions == [] then s else Step(Run(s, actions[..|actions| - 1]), actions[|actions| - 1])
  }

  // ---------------------------------------------------------------- counting over the requests

  function Total(w: Phase -> nat, ps: seq<Phase>): nat {
    if ps == [] then 0 else Total(w, ps[..|ps| - 1]) + w(ps[|ps| - 1])
  }

  lemma {:induction false} TotalUpdate(w: Phase -> nat, ps: seq<Phase>, i: nat, p: Phase)
    requires i < |ps|
    ensures Total(w, ps[i := p]) == Total(w, ps) - w(ps[i]) + w(p)
  {
    var n := |ps| - 1;
    if i == n {
      assert ps[i := p][..n] == ps[..n];
    } else {
      assert ps[i := p][..n] == ps[..n][i := p];
      TotalUpdate(w, ps[..n], i, p);
    }
  }

  lemma TotalAppend(w: Phase -> nat, ps: seq<Phase>, p: Phase)
    ensures Total(w, ps + [p]) == Total(w, ps) + w(p)
  {
    assert (ps + [p])[..|ps|] == ps;
  }

  /** Whoever has or is about to have a connection holds a slot. */
  lemma {:induction false} OpenNeedsSlot(ps: seq<Phase>)
    ensures Total(Open, ps) <= Total(Slot, ps)
  {
    if ps == [] {
    } else {
      OpenNeedsSlot(ps[..|ps| - 1]);
    }
  }

  // ---------------------------------------------------------------- what every step keeps

  /** Slots in use are the unfinished accepted requests. */
  ghost predicate SlotsExact(s: State) {
    s.inFlight == Total(Slot, s.phases) <= s.max
  }

  /** `total_created` is the idle and the held connections, and what panics leaked. */
  ghost predicate CountExact(s: State) {
    s.total == |s.pool| + Total(Counted, s.phases) + s.leaked
  }

  /** Idle, open and about to be created: never more than the concurrent operations. */
  ghost predicate Bounded(s: State) {
    |s.pool| + Total(Open, s.phases) <= s.max && |s.pool| <= s.poolSize
  }

  /** The worker is at one request at most, has lost one exactly when it is dead, and drops no task before. */
  ghost predicate WorkerExact(s: State) {
    && Total(Attended, s.phases) == (if s.worker == Busy then 1 else 0)
    && Total(Crashed, s.phases) == (if s.worker == Dead then 1 else 0)
    && (s.worker != Dead ==> Total(Dropped, s.phases) == 0)
  }

  /** The idle connections are healthy and, unless the clock has gone back, oldest first. */
  ghost predicate QueueOk(s: State) {
    Healthy(s.pool) && (s.steady ==> Ordered(s.pool, s.now))
  }

  /** One answer per request, once its task is past it. */
  ghost predicate Answered(s: State) {
    && |s.phases| == |s.replies|
    && forall r :: 0 <= r < |s.phases| ==>
         s.replies[r] == if s.phases[r].Replied? || s.phases[r].Done? then 1 else 0
  }

  /** No connection is in two places, and the numbers from `next` on are unused. */
  ghost predicate Exclusive(pool: seq<Pooled>, phases: seq<Phase>, next: nat) {
    && (forall i :: 0 <= i < |pool| ==> pool[i].client < next)
    && (forall r :: 0 <= r < |phases| && HasClient(phases[r]) ==> phases[r].client < next)
    && (forall i, j :: 0 <= i < j < |pool| ==> pool[i].client != pool[j].client)
    && (forall r, q :: 0 <= r < q < |phases| && HasClient(phases[r]) && HasClient(phases[q]) ==>
          phases[r].client != phases[q].client)
    && (forall i, r :: 0 <= i < |pool| && 0 <= r < |phases| && HasClient(phases[r]) ==>
          pool[i].client != phases[r].client)
  }

  ghost predicate Inv(s: State) {
    Answered(s) && SlotsExact(s) && CountExact(s) && Bounded(s) && WorkerExact(s) && QueueOk(s)
    && Exclusive(s.pool, s.phases, s.nextClient)
  }

  /** What an action of request `r` leaves alone. */
  predicate MovesOnly(s: State, t: State, r: nat)
    requires r < |s.phases|
  {
    && |t.phases| == |s.phases| && t.phases == s.phases[r := t.phases[r]]
    && t.max == s.max && t.poolSize == s.poolSize && t.interval == s.interval && t.now == s.now && t.steady == s.steady
  }

  lemma TakeAndFinishMove(s: State, a: Action, r: nat)
    requires r < |s.phases|
    ensures MovesOnly(s, TakeStep(s, r), r)
    ensures s.phases[r].Held? && a.Finish? ==> MovesOnly(s, FinishStep(s, r, s.phases[r].client, a.isHealthy), r)
  {
    hide DropStale, PutBack;
  }

  lemma ActMoves(s: State, a: Action, r: nat)
    requires r < |s.phases| == |s.replies|
    ensures var t := Act(s, a, r);
      && |t.phases| == |s.phases| && t.phases == s.phases[r := t.phases[r]]
      && t.max == s.max && t.poolSize == s.poolSize && t.interval == s.interval && t.now == s.now
      && t.steady == s.steady
  {
    hide TakeStep, FinishStep;
    TakeAndFinishMove(s, a, r);
  }

  /** An action changes a sum over the requests by what it changes at its own. */
  lemma ActTotal(s: State, a: Action, r: nat, w: Phase -> nat)
    requires r < |s.phases| == |s.replies|
    ensures var t := Act(s, a, r);
      |t.phases| == |s.phases| && Total(w, t.phases) == Total(w, s.phases) - w(s.phases[r]) + w(t.phases[r])
  {
    ActMoves(s, a, r);
    hide Act, Total;
    TotalUpdate(w, s.phases, r, Act(s, a, r).phases[r]);
  }

  lemma SlotsKept(s: State, a: Action, r: nat)
    requires r < |s.phases| == |s.replies| && SlotsExact(s)
    ensures SlotsExact(Act(s, a, r))
  {
    hide Total, DropStale, PutBack;
    ActMoves(s, a, r);
    ActTotal(s, a, r, Slot);
    var t := Act(s, a, r);
    if HasSlot(s.phases[r]) && !HasSlot(t.phases[r]) { assert s.inFlight > 0; }
  }

  lemma CountKept(s: State, a: Action, r: nat)
    requires r < |s.phases| == |s.replies| && CountExact(s)
    ensures CountExact(Act(s, a, r))
  {
    hide Total, Usable, FirstUsable;
    ActTotal(s, a, r, Counted);
  }

  lemma BoundKept(s: State, a: Action, r: nat)
    requires r < |s.phases| == |s.replies| && Bounded(s) && SlotsExact(s)
    ensures Bounded(Act(s, a, r))
  {
    hide Total, Usable, FirstUsable;
    ActMoves(s, a, r);
    ActTotal(s, a, r, Open);
    SlotsKept(s, a, r);
    OpenNeedsSlot(Act(s, a, r).phases);
  }

  lemma {:induction false} TotalAtLeast(w: Phase -> nat, ps: seq<Phase>, i: nat)
    requires i < |ps|
    ensures Total(w, ps) >= w(ps[i])
  {
    if i < |ps| - 1 { TotalAtLeast(w, ps[..|ps| - 1], i); }
  }

  lemma WorkerKept(s: State, a: Action, r: nat)
    requires r < |s.phases| == |s.replies| && WorkerExact(s)
    ensures WorkerExact(Act(s, a, r))
  {
    hide Total, DropStale, PutBack, TakeStep, FinishStep;
    ActTotal(s, a, r, Attended);
    ActTotal(s, a, r, Crashed);
    ActTotal(s, a, r, Dropped);
    TotalAtLeast(Attended, s.phases, r);
    TotalAtLeast(Dropped, s.phases, r);
    TakeAndFinishKeepWorker(s, r, a);
  }

  lemma TakeAndFinishKeepWorker(s: State, r: nat, a: Action)
    requires r < |s.phases| == |s.replies|
    ensures TakeStep(s, r).worker == s.worker
    ensures |TakeStep(s, r).phases| == |s.phases| && Attended(TakeStep(s, r).phases[r]) == 0
    ensures Crashed(TakeStep(s, r).phases[r]) == 0 && Dropped(TakeStep(s, r).phases[r]) == 0
    ensures s.phases[r].Held? && a.Finish? ==>
      var t := FinishStep(s, r, s.phases[r].client, a.isHealthy);
      && t.worker == s.worker && |t.phases| == |s.phases|
      && Attended(t.phases[r]) == 0 && Crashed(t.phases[r]) == 0 && Dropped(t.phases[r]) == 0
  {
    hide DropStale, PutBack;
  }

  function Answers(p: Phase): nat { if p.Replied? || p.Done? then 1 else 0 }

  lemma TakeAndFinishAnswerNothing(s: State, a: Action, r: nat)
    requires r < |s.phases|
    ensures TakeStep(s, r).replies == s.replies && |TakeStep(s, r).phases| == |s.phases|
    ensures Answers(TakeStep(s, r).phases[r]) == 0
    ensures s.phases[r].Held? && a.Finish? ==>
      var t := FinishStep(s, r, s.phases[r].client, a.isHealthy);
      t.replies == s.replies && |t.phases| == |s.phases| && Answers(t.phases[r]) == 0
  {
    hide DropStale, PutBack;
  }

  lemma ActAnswers(s: State, a: Action, r: nat)
    requires r < |s.phases| == |s.replies|
    ensures var t := Act(s, a, r);
      && |t.phases| == |s.phases| && t.replies == s.replies[r := t.replies[r]]
      && t.replies[r] + Answers(s.phases[r]) == s.replies[r] + Answers(t.phases[r])
  {
    hide TakeStep, FinishStep;
    TakeAndFinishAnswerNothing(s, a, r);
  }

  lemma AnswersKept(s: State, a: Action, r: nat)
    requires r < |s.phases| && Answered(s)
    ensures Answered(Act(s, a, r))
  {
    ActAnswers(s, a, r);
    ActMoves(s, a, r);
    hide Act;
  }

  lemma TakeKeepsOrder(s: State, r: nat)
    requires r < |s.phases| && QueueOk(s)
    ensures QueueOk(TakeStep(s, r))
  {
    if s.steady { DropStaleIsExact(s.pool, s.now, s.interval); }
    hide Usable, FirstUsable;
  }

  lemma FinishKeepsOrder(s: State, r: nat, client: nat, isHealthy: bool)
    requires r < |s.phases| && QueueOk(s)
    ensures QueueOk(FinishStep(s, r, client, isHealthy))
  {}

  lemma OrderKept(s: State, a: Action, r: nat)
    requires r < |s.phases| == |s.replies| && QueueOk(s)
    ensures QueueOk(Act(s, a, r))
  {
    ActMoves(s, a, r);
    hide TakeStep, FinishStep;
    if s.phases[r].Spawned? && a.Take? {
      TakeKeepsOrder(s, r);
      hide QueueOk;
    } else if s.phases[r].Held? && a.Finish? {
      FinishKeepsOrder(s, r, s.phases[r].client, a.isHealthy);
      hide QueueOk;
    } else {
      OtherActsKeepPool(s, a, r);
      hide Act, Ordered, Healthy;
    }
  }

  lemma OtherActsKeepPool(s: State, a: Action, r: nat)
    requires r < |s.phases| == |s.replies|
    requires !(s.phases[r].Spawned? && a.Take?) && !(s.phases[r].Held? && a.Finish?)
    ensures Act(s, a, r).pool == s.pool
  {
    hide TakeStep, FinishStep;
  }

  lemma ExclusiveLess(pool: seq<Pooled>, k: nat, phases: seq<Phase>, r: nat, p: Phase, next: nat)
    requires Exclusive(pool, phases, next) && k <= |pool| && r < |phases|
    requires HasClient(p) ==> HasClient(phases[r]) && p.client == phases[r].client
    ensures Exclusive(pool[k..], phases[r := p], next)
  {}

  lemma ExclusiveTake(pool: seq<Pooled>, phases: seq<Phase>, r: nat, next: nat)
    requires Exclusive(pool, phases, next) && pool != [] && r < |phases| && !HasClient(phases[r])
    ensures Exclusive(pool[1..], phases[r := Held(pool[0].client)], next)
  {}

  lemma ExclusivePut(pool: seq<Pooled>, phases: seq<Phase>, r: nat, p: Phase, now: nat, next: nat)
    requires Exclusive(pool, phases, next) && r < |phases| && HasClient(phases[r]) && !HasClient(p)
    ensures Exclusive(pool + [Pooled(phases[r].client, now, true)], phases[r := p], next)
  {}

  lemma ExclusiveNew(pool: seq<Pooled>, phases: seq<Phase>, r: nat, next: nat)
    requires Exclusive(pool, phases, next) && r < |phases| && !HasClient(phases[r])
    ensures Exclusive(pool, phases[r := Opened(next)], next + 1)
  {}

  lemma ExclusiveTakeStep(s: State, r: nat)
    requires r < |s.phases| && s.phases[r].Spawned? && Exclusive(s.pool, s.phases, s.nextClient)
    ensures var t := TakeStep(s, r); t.nextClient == s.nextClient && Exclusive(t.pool, t.phases, s.nextClient)
  {
    var n := FirstUsable(s.pool, 0, s.now, s.interval);
    hide FirstUsable, Usable, Exclusive;
    if n < |s.pool| {
      ExclusiveLess(s.pool, n, s.phases, r, Spawned, s.nextClient);
      assert s.phases[r := Spawned] == s.phases;
      ExclusiveTake(s.pool[n..], s.phases, r, s.nextClient);
    } else {
      ExclusiveLess(s.pool, n, s.phases, r, Creating, s.nextClient);
    }
  }

  lemma ExclusiveFinishStep(s: State, r: nat, isHealthy: bool)
    requires r < |s.phases| && s.phases[r].Held? && Exclusive(s.pool, s.phases, s.nextClient)
    ensures var t := FinishStep(s, r, s.phases[r].client, isHealthy);
      t.nextClient == s.nextClient && Exclusive(t.pool, t.phases, s.nextClient)
  {
    hide Exclusive;
    if isHealthy && |s.pool| < s.poolSize {
      ExclusivePut(s.pool, s.phases, r, Replying, s.now, s.nextClient);
    } else {
      assert s.pool[0..] == s.pool;
      ExclusiveLess(s.pool, 0, s.phases, r, Closing(s.phases[r].client), s.nextClient);
    }
  }

  predicate MovesClients(p: Phase, a: Action) {
    (p.Spawned? && a.Take?) || (p.Held? && a.Finish?) || (p.Creating? && a.Connect? && a.ok)
  }

  lemma OtherActsMoveNoClient(s: State, a: Action, r: nat)
    requires r < |s.phases| == |s.replies| && !MovesClients(s.phases[r], a)
    ensures var t := Act(s, a, r);
      && t.pool == s.pool && t.nextClient == s.nextClient && |t.phases| == |s.phases|
      && (HasClient(t.phases[r]) ==> HasClient(s.phases[r]) && t.phases[r].client == s.phases[r].client)
  {
    hide TakeStep, FinishStep;
  }

  lemma ExclusiveKept(s: State, a: Action, r: nat)
    requires r < |s.phases| == |s.replies| && Exclusive(s.pool, s.phases, s.nextClient)
    ensures var t := Act(s, a, r); Exclusive(t.pool, t.phases, t.nextClient)
  {
    hide Exclusive, TakeStep, FinishStep;
    if s.phases[r].Spawned? && a.Take? {
      ExclusiveTakeStep(s, r);
    } else if s.phases[r].Held? && a.Finish? {
      ExclusiveFinishStep(s, r, a.isHealthy);
    } else if s.phases[r].Creating? && a.Connect? && a.ok {
      ExclusiveNew(s.pool, s.phases, r, s.nextClient);
    } else {
      OtherActsMoveNoClient(s, a, r);
      ActMoves(s, a, r);
      hide Act;
      assert s.pool[0..] == s.pool;
      ExclusiveLess(s.pool, 0, s.phases, r, Act(s, a, r).phases[r], s.nextClient);
    }
  }

  lemma ArriveKeepsInv(s: State)
    requires Inv(s)
    ensures Inv(Step(s, Arrive))
  {
    TotalAppend(Slot, s.phases, Waiting);
    TotalAppend(Open, s.phases, Waiting);
    TotalAppend(Counted, s.phases, Waiting);
    TotalAppend(Attended, s.phases, Waiting);
    TotalAppend(Crashed, s.phases, Waiting);
    TotalAppend(Dropped, s.phases, Waiting);
    hide Total;
  }

  lemma InvIs(s: State)
    ensures Inv(s) <==> Answered(s) && SlotsExact(s) && CountExact(s) && Bounded(s) && WorkerExact(s)
                        && QueueOk(s) && Exclusive(s.pool, s.phases, s.nextClient)
    ensures Answered(s) ==> |s.phases| == |s.replies|
  {
    hide SlotsExact, CountExact, Bounded, WorkerExact, QueueOk, Exclusive;
  }

  lemma ActKeepsInv(s: State, a: Action, r: nat)
    requires Inv(s) && r < |s.phases| == |s.replies|
    ensures Inv(Act(s, a, r)) && Act(s, a, r).max == s.max
  {
    hide *;
    var t := Act(s, a, r);
    InvIs(s);
    ActMoves(s, a, r);
    SlotsKept(s, a, r);
    CountKept(s, a, r);
    BoundKept(s, a, r);
    WorkerKept(s, a, r);
    AnswersKept(s, a, r);
    OrderKept(s, a, r);
    ExclusiveKept(s, a, r);
    InvIs(t);
  }

  lemma StepKeepsInv(s: State, a: Action)
    requires Inv(s)
    ensures Inv(Step(s, a)) && Step(s, a).max == s.max
  {
    hide Act, Exclusive, Total, DropStale, PutBack;
    match a
    case Arrive => ArriveKeepsInv(s);
    case Tick(_) =>
    case _ => if a.r < |s.phases| { ActKeepsInv(s, a, a.r); }
  }

  lemma {:induction false} InvLasts(s: State, actions: seq<Action>)
    requires Inv(s)
    ensures Inv(Run(s, actions)) && Run(s, actions).max == s.max
  {
    if actions == [] {
    } else {
      hide Inv, Step;
      InvLasts(s, actions[..|actions| - 1]);
      StepKeepsInv(Run(s, actions[..|actions| - 1]), actions[|actions| - 1]);
    }
  }

  lemma RunKeepsInv(s: State, actions: seq<Action>)
    requires Init(s)
    ensures Inv(Run(s, actions)) && Run(s, actions).max == s.max
  {
    InvLasts(s, actions);
  }

  // ---------------------------------------------------------------- what holds over every run

  /** In every run idle, open and about-to-be-created connections together never exceed the concurrent
      operations, although the pool itself never refuses to create one; and `total_created` is exact, so that
      it never goes below zero. */
  lemma OpenConnectionsAreBounded(s: State, actions: seq<Action>)
    requires Init(s)
    ensures var t := Run(s, actions);
      && |t.pool| + Total(Open, t.phases) <= s.max
      && t.total == |t.pool| + Total(Counted, t.phases) + t.leaked >= 0
      && t.inFlight == Total(Slot, t.phases) <= s.max
  {
    hide Run;
    RunKeepsInv(s, actions);
  }

  /** A panic while a connection is held. */
  predicate LosesConnection(s: State, a: Action) {
    a.Panic? && a.r < |s.phases| && s.phases[a.r].Held?
  }

  lemma OnlyPanicLeaks(s: State, a: Action)
    requires |s.phases| == |s.replies|
    ensures Step(s, a).leaked == s.leaked + if LosesConnection(s, a) then 1 else 0
  {
    StepIs(s, a);
    hide Act;
    if !a.Arrive? && !a.Tick? && a.r < |s.phases| { ActLeaks(s, a, a.r); }
  }

  lemma ActLeaks(s: State, a: Action, r: nat)
    requires r < |s.phases| == |s.replies|
    ensures Act(s, a, r).leaked == s.leaked + if a.Panic? && s.phases[r].Held? then 1 else 0
  {
    hide TakeStep, FinishStep;
    TakeAndFinishLeakNothing(s, a, r);
  }

  lemma TakeAndFinishLeakNothing(s: State, a: Action, r: nat)
    requires r < |s.phases|
    ensures TakeStep(s, r).leaked == s.leaked
    ensures s.phases[r].Held? && a.Finish? ==>
      FinishStep(s, r, s.phases[r].client, a.isHealthy).leaked == s.leaked
  {
    hide DropStale, PutBack;
  }

  /** How many panics on a held connection there are in a run. */
  function Losses(s: State, actions: seq<Action>): nat
    requires |s.phases| == |s.replies|
  {
    if actions == [] then 0
    else
      var n := |actions| - 1;
      Losses(s, actions[..n]) + if LosesConnection(Run(s, actions[..n]), actions[n]) then 1 else 0
  }

  /** Every panic on a held connection leaks its count, and nothing else does. */
  lemma {:induction false} LeakedIsLosses(s: State, actions: seq<Action>)
    requires Init(s)
    ensures Run(s, actions).leaked == Losses(s, actions)
  {
    if actions == [] {
    } else {
      hide Init, Step, LosesConnection;
      LeakedIsLosses(s, actions[..|actions| - 1]);
      OnlyPanicLeaks(Run(s, actions[..|actions| - 1]), actions[|actions| - 1]);
    }
  }

  /** Only a panic on a held connection leaks its count. */
  lemma {:induction false} LeaksNeedPanics(s: State, actions: seq<Action>)
    requires Init(s) && forall i :: 0 <= i < |actions| ==> !actions[i].Panic?
    ensures Run(s, actions).leaked == 0
  {
    if actions == [] {
    } else {
      LeaksNeedPanics(s, actions[..|actions| - 1]);
      OnlyPanicLeaks(Run(s, actions[..|actions| - 1]), actions[|actions| - 1]);
      hide Init, Step;
    }
  }

  lemma TakenIsUsable(s: State, r: nat)
    requires Inv(s) && s.steady && r < |s.phases| && s.phases[r].Spawned?
    ensures var t := Step(s, Take(r));
      && Ordered(s.pool, s.now) && |t.pool| <= |s.pool|
      && (forall i :: 0 <= i < |t.pool| ==> Usable(t.pool[i], s.now, s.interval))
      && (t.phases[r].Creating? || t.phases[r].Held?)
      && (t.phases[r].Creating? <==> forall i :: 0 <= i < |s.pool| ==> !Usable(s.pool[i], s.now, s.interval))
      && (t.phases[r].Creating? ==> t.pool == [])
      && (t.phases[r].Held? ==>
            var n := |s.pool| - |t.pool| - 1;
            && 0 <= n && s.pool[n].client == t.phases[r].client && t.pool == s.pool[n + 1..]
            && Usable(s.pool[n], s.now, s.interval)
            && forall i :: 0 <= i < n ==> !Usable(s.pool[i], s.now, s.interval))
  {
    InvIs(s);
    FrontIsOldestUsable(s.pool, s.now, s.interval);
    assert Step(s, Take(r)) == TakeStep(s, r);
    hide Inv, Usable, DropStale, Step, Act, Ordered;
  }

  /** While the clock has never gone back, a task is handed the oldest connection younger than the check interval, if
      there is one; what it passes over is too old, and nothing too old stays. */
  lemma TakenIsFresh(s: State, r: nat)
    requires Inv(s) && s.steady && r < |s.phases| && s.phases[r].Spawned?
    ensures var t := Step(s, Take(r));
      && (forall i :: 0 <= i < |t.pool| ==> s.now < t.pool[i].lastUsed + s.interval)
      && (t.phases[r].Creating? || t.phases[r].Held?)
      && (t.phases[r].Creating? <==> forall i :: 0 <= i < |s.pool| ==> s.pool[i].lastUsed + s.interval <= s.now)
      && (t.phases[r].Held? ==>
            var n := |s.pool| - |t.pool| - 1;
            && 0 <= n && s.pool[n].client == t.phases[r].client && t.pool == s.pool[n + 1..]
            && s.now < s.pool[n].lastUsed + s.interval
            && forall i :: 0 <= i < n ==> s.pool[i].lastUsed + s.interval <= s.now)
  {
    TakenIsUsable(s, r);
    UsableIsYoung(s.pool, s.now, s.interval);
    hide Inv, Usable, Ordered, Step;
    var t := Step(s, Take(r));
    forall i | 0 <= i < |t.pool| ensures s.now < t.pool[i].lastUsed + s.interval {
      assert t.pool[i] == s.pool[|s.pool| - |t.pool| + i];
    }
  }

  lemma UsableIsYoung(q: seq<Pooled>, now: nat, interval: nat)
    requires Ordered(q, now)
    ensures forall i :: 0 <= i < |q| ==> (Usable(q[i], now, interval) <==> now < q[i].lastUsed + interval)
  {}

  /** A connection whose operation succeeded is the youngest idle one, if there is room; any other is taken off the
      count and closed. */
  lemma FinishedIs(s: State, r: nat, isHealthy: bool)
    requires r < |s.phases| == |s.replies| && s.phases[r].Held?
    ensures var t, c := Step(s, Finish(r, isHealthy)), s.phases[r].client;
      if isHealthy && |s.pool| < s.poolSize
      then t == s.(pool := s.pool + [Pooled(c, s.now, true)], phases := s.phases[r := Replying])
      else t == s.(total := s.total - 1, phases := s.phases[r := Closing(c)])
  {}

  /** Nobody has the connection and nobody will, except to close it. */
  predicate Gone(s: State, client: nat) {
    && client < s.nextClient && (forall i :: 0 <= i < |s.pool| ==> s.pool[i].client != client)
    && forall q :: 0 <= q < |s.phases| && HasClient(s.phases[q]) && s.phases[q].client == client ==>
         s.phases[q].Closing?
  }

  lemma TakeStaysGone(s: State, r: nat, client: nat)
    requires r < |s.phases| && Gone(s, client)
    ensures Gone(TakeStep(s, r), client)
  {
    hide Usable, FirstUsable;
  }

  lemma FinishStaysGone(s: State, r: nat, isHealthy: bool, client: nat)
    requires r < |s.phases| && s.phases[r].Held? && Gone(s, client)
    ensures Gone(FinishStep(s, r, s.phases[r].client, isHealthy), client)
  {}

  lemma OthersStayGone(s: State, a: Action, r: nat, client: nat)
    requires r < |s.phases| == |s.replies| && Gone(s, client)
    requires !(s.phases[r].Spawned? && a.Take?) && !(s.phases[r].Held? && a.Finish?)
    ensures Gone(Act(s, a, r), client)
  {
    if s.phases[r].Creating? && a.Connect? && a.ok {
      assert Act(s, a, r) == Move(s, r, Opened(s.nextClient)).(nextClient := s.nextClient + 1);
      hide Act;
    } else if s.phases[r].Opened? && a.CountIn? {
      assert s.phases[r].client != client;
      hide TakeStep, FinishStep;
    } else {
      OtherActsMoveNoClient(s, a, r);
      ActMoves(s, a, r);
      OnlyCountInHolds(s, a, r);
      hide Act;
    }
  }

  lemma OnlyCountInHolds(s: State, a: Action, r: nat)
    requires r < |s.phases| == |s.replies| && !(s.phases[r].Opened? && a.CountIn?)
    requires !(s.phases[r].Spawned? && a.Take?) && !(s.phases[r].Held? && a.Finish?)
    requires !(s.phases[r].Creating? && a.Connect? && a.ok)
    ensures |Act(s, a, r).phases| == |s.phases|
    ensures var p := Act(s, a, r).phases[r]; HasClient(p) ==> p == s.phases[r]
  {
    hide TakeStep, FinishStep;
  }

  lemma GoneStays(s: State, a: Action, client: nat)
    requires |s.phases| == |s.replies| && Gone(s, client)
    ensures Gone(Step(s, a), client)
  {
    hide TakeStep, FinishStep;
    StepIs(s, a);
    if !a.Arrive? && !a.Tick? && a.r < |s.phases| {
      if s.phases[a.r].Spawned? && a.Take? {
        TakeStaysGone(s, a.r, client);
        hide Gone;
      } else if s.phases[a.r].Held? && a.Finish? {
        FinishStaysGone(s, a.r, a.isHealthy, client);
        hide Gone;
      } else {
        OthersStayGone(s, a, a.r, client);
        hide Gone, Act;
      }
    } else {
      hide Act;
    }
  }

  /** In every continuation a connection whose operation failed or panicked is never idle and never held again. */
  lemma {:induction false} FailedIsNeverUsedAgain(s: State, r: nat, a: Action, more: seq<Action>)
    requires Inv(s) && r < |s.phases| && s.phases[r].Held? && (a == Finish(r, false) || a == Panic(r))
    ensures |Step(s, a).phases| == |Step(s, a).replies|
    ensures var t, c := Run(Step(s, a), more), s.phases[r].client;
      && (forall i :: 0 <= i < |t.pool| ==> t.pool[i].client != c)
      && (forall q :: 0 <= q < |t.phases| && t.phases[q].Held? ==> t.phases[q].client != c)
      && Gone(t, c)
  {
    InvIs(s);
    var t := Step(s, a);
    if more == [] {
      FinishedIs(s, r, false);
      hide SlotsExact, CountExact, Bounded, WorkerExact, QueueOk;
    } else {
      var n := |more| - 1;
      FailedIsNeverUsedAgain(s, r, a, more[..n]);
      hide Step, Inv, Gone;
      GoneStays(Run(t, more[..n]), more[n], s.phases[r].client);
      GoneIs(Run(t, more), s.phases[r].client);
    }
  }

  lemma GoneIs(s: State, client: nat)
    requires Gone(s, client)
    ensures forall i :: 0 <= i < |s.pool| ==> s.pool[i].client != client
    ensures forall q :: 0 <= q < |s.phases| && s.phases[q].Held? ==> s.phases[q].client != client
  {}

  /** A request that the worker looks at is turned away exactly when as many as may run hold slots. */
  lemma RefusedExactlyAtCapacity(s: State, r: nat)
    requires Inv(s) && r < |s.phases| && s.phases[r].Waiting? && s.worker == Idle
    ensures Step(s, TryAcquire(r)).phases[r] == if Total(Slot, s.phases) == s.max then Answering else Preparing
  {
    hide Total, Answered, CountExact, Bounded, WorkerExact, Exclusive, QueueOk;
  }

  predicate Forsaken(p: Phase) { p.Lost? || p.Abandoned? }

  predicate Finished(p: Phase) { p.Done? || Forsaken(p) }

  /** When every request is finished, the lost and the abandoned ones hold the slots in use. */
  lemma {:induction false} OnlyLostHold(ps: seq<Phase>)
    requires forall r :: 0 <= r < |ps| ==> Finished(ps[r]) || ps[r].Waiting?
    ensures Total(Slot, ps) == Total(Crashed, ps) + Total(Dropped, ps)
    ensures Total(Open, ps) == Total(Counted, ps) == 0
  {
    if ps == [] {
    } else {
      OnlyLostHold(ps[..|ps| - 1]);
    }
  }

  /** In every run no request has two answers. One that is done has exactly one. Only once the worker has panicked
      are there others: the one it panicked on and the tasks dropped with the runtime have no answer and keep their
      slots; otherwise no slot is in use once every request is finished. */
  lemma EveryRequestIsAnsweredOnce(s: State, actions: seq<Action>)
    requires Init(s)
    ensures var t := Run(s, actions);
      && |t.replies| == |t.phases|
      && (forall r :: 0 <= r < |t.phases| ==>
            && t.replies[r] <= 1
            && (t.phases[r].Done? ==> t.replies[r] == 1)
            && (Forsaken(t.phases[r]) ==> t.replies[r] == 0 && t.worker == Dead))
      && Total(Crashed, t.phases) == (if t.worker == Dead then 1 else 0)
      && ((forall r :: 0 <= r < |t.phases| ==> Finished(t.phases[r])) ==>
            t.inFlight == Total(Crashed, t.phases) + Total(Dropped, t.phases) && t.total == |t.pool| + t.leaked)
  {
    RunKeepsInv(s, actions);
    var t := Run(s, actions);
    hide Run, Total, Exclusive, QueueOk;
    forall r | 0 <= r < |t.phases| && Forsaken(t.phases[r]) ensures t.worker == Dead { ForsakenMeansDead(t, r); }
    if forall r :: 0 <= r < |t.phases| ==> Finished(t.phases[r]) { OnlyLostHold(t.phases); }
  }

  lemma ForsakenMeansDead(s: State, r: nat)
    requires WorkerExact(s) && r < |s.phases| && Forsaken(s.phases[r])
    ensures s.worker == Dead
  {
    TotalAtLeast(Crashed, s.phases, r);
    TotalAtLeast(Dropped, s.phases, r);
  }

  lemma DeadWorkerLooksAtNothing(s: State, a: Action, r: nat)
    requires r < |s.phases| == |s.replies| && s.worker == Dead && (s.phases[r].Waiting? || Forsaken(s.phases[r]))
    ensures Act(s, a, r) == s
  {}

  lemma ForsakenStays(s: State, a: Action, r: nat)
    requires Inv(s) && r < |s.phases| && Forsaken(s.phases[r])
    ensures var t := Step(s, a);
      && r < |t.phases| && t.phases[r] == s.phases[r] && t.worker == Dead
      && forall q :: 0 <= q < |s.phases| && s.phases[q].Waiting? ==> q < |t.phases| && t.phases[q].Waiting?
  {
    hide *;
    InvIs(s);
    StepKeepsInv(s, a);
    InvIs(Step(s, a));
    ForsakenMeansDead(s, r);
    StepIs(s, a);
    if !a.Arrive? && !a.Tick? && a.r < |s.phases| {
      if s.phases[a.r].Waiting? || Forsaken(s.phases[a.r]) {
        DeadWorkerLooksAtNothing(s, a, a.r);
      } else {
        ActMoves(s, a, a.r);
      }
    }
    ForsakenMeansDead(Step(s, a), r);
  }

  lemma StepIs(s: State, a: Action)
    requires |s.phases| == |s.replies|
    ensures a.Arrive? ==> Step(s, a).phases == s.phases + [Waiting]
    ensures a.Tick? ==> Step(s, a).phases == s.phases
    ensures !a.Arrive? && !a.Tick? ==> Step(s, a) == if a.r < |s.phases| then Act(s, a, a.r) else s
  {
    hide Act;
  }

  /** What a panic of the worker costs, for good: the request it was at, and every task dropped with the runtime, is
      never answered and its slot never given back, and no request that still waits is ever looked at. */
  lemma {:induction false} LostForGood(s: State, actions: seq<Action>, r: nat)
    requires Inv(s) && r < |s.phases| && Forsaken(s.phases[r])
    ensures var t := Run(s, actions);
      && r < |t.phases| && t.phases[r] == s.phases[r] && t.replies[r] == 0 && t.inFlight >= 1 && t.worker == Dead
      && forall q :: 0 <= q < |s.phases| && s.phases[q].Waiting? ==> q < |t.phases| && t.phases[q].Waiting?
  {
    InvLasts(s, actions);
    if actions == [] {
      ForsakenMeansDead(s, r);
      TotalAtLeast(Slot, s.phases, r);
      hide Total;
    } else {
      var before := Run(s, actions[..|actions| - 1]);
      InvLasts(s, actions[..|actions| - 1]);
      LostForGood(s, actions[..|actions| - 1], r);
      ForsakenStays(before, actions[|actions| - 1], r);
      TotalAtLeast(Slot, Run(s, actions).phases, r);
      hide Step, Total, Exclusive, QueueOk;
    }
  }

  // ---------------------------------------------------------------- every failure is answered

  /** The ways in which a request that holds a slot can fail while the worker lives. */
  predicate Fails(p: Phase, a: Action, r: nat) {
    || (p.Preparing? && a == Refuse(r))
    || (p.Spawned? && a == BadGroup(r))
    || (p.Creating? && a == Connect(r, false))
    || (p.Held? && (a == Finish(r, false) || a == Panic(r)))
  }

  /** What is left to do after a failure. */
  function AfterFailure(a: Action, r: nat): seq<Action> {
    if a.Refuse? then [GiveBack(r), Reply(r)]
    else if a.Finish? then [Close(r), Reply(r), DropGuard(r)]
    else [Reply(r), DropGuard(r)]
  }

  lemma FailedPhase(s: State, r: nat, a: Action)
    requires r < |s.phases| == |s.replies| && Fails(s.phases[r], a, r)
    ensures a.Finish? ==> s.phases[r].Held?
    ensures MovedTo(s, Step(s, a), r, if a.Refuse? then Refusing
                                      else if a.Finish? then Closing(s.phases[r].client) else Replying)
  {
    if s.phases[r].Held? && a.Finish? { FinishedIs(s, r, false); } else { hide TakeStep, FinishStep; }
  }

  /** Reply and give the slot back. */
  lemma RepliesAndReturns(s: State, r: nat)
    requires r < |s.phases| == |s.replies| && s.inFlight > 0 && s.phases[r] == Replying
    ensures var t := Step(Step(s, Reply(r)), DropGuard(r));
      && t.phases == s.phases[r := Done] && t.replies == s.replies[r := s.replies[r] + 1]
      && t.inFlight == s.inFlight - 1 && t.pool == s.pool
  {
    hide TakeStep, FinishStep;
    assert s.phases[r := Replied][r := Done] == s.phases[r := Done];
  }

  lemma GivesBackAndReplies(s: State, r: nat)
    requires r < |s.phases| == |s.replies| && s.inFlight > 0 && s.phases[r] == Refusing
    ensures var t := Step(Step(s, GiveBack(r)), Reply(r));
      && t.phases == s.phases[r := Done] && t.replies == s.replies[r := s.replies[r] + 1]
      && t.inFlight == s.inFlight - 1 && t.pool == s.pool
  {
    hide TakeStep, FinishStep;
    assert s.phases[r := Answering][r := Done] == s.phases[r := Done];
  }

  lemma Closes(s: State, r: nat)
    requires r < |s.phases| == |s.replies| && s.phases[r].Closing?
    ensures Step(s, Close(r)) == s.(phases := s.phases[r := Replying])
  {
    hide TakeStep, FinishStep;
  }

  lemma HolderIsUnanswered(s: State, r: nat, a: Action)
    requires Inv(s) && r < |s.phases| && Fails(s.phases[r], a, r)
    ensures |s.phases| == |s.replies| && s.inFlight > 0 && s.replies[r] == 0
  {
    TotalAtLeast(Slot, s.phases, r);
    hide Total, CountExact, Bounded, WorkerExact, QueueOk, Exclusive;
  }

  /** Request `r` has moved on to `p`, and nothing else of this kind has changed. */
  predicate MovedTo(s: State, t: State, r: nat, p: Phase)
    requires r < |s.phases| == |s.replies|
  {
    && t.phases == s.phases[r := p] && t.inFlight == s.inFlight && t.pool == s.pool
    && t.replies == s.replies
  }

  /** Request `r` is over and was answered, and nothing else of this kind has changed. */
  predicate AnsweredOnce(s: State, t: State, r: nat)
    requires r < |s.phases| == |s.replies|
  {
    && t.phases == s.phases[r := Done] && t.inFlight == s.inFlight - 1 && t.pool == s.pool
    && t.replies == s.replies[r := s.replies[r] + 1]
  }

  lemma ReplyingEnds(s: State, t: State, r: nat)
    requires r < |s.phases| == |s.replies| && s.inFlight > 0 && MovedTo(s, t, r, Replying)
    ensures AnsweredOnce(s, Run(t, [Reply(r), DropGuard(r)]), r)
  {
    TwoActions(t, Reply(r), DropGuard(r));
    RepliesAndReturns(t, r);
    SetTwice(s.phases, r, Replying);
    hide Step, Run;
  }

  lemma RefusingEnds(s: State, t: State, r: nat)
    requires r < |s.phases| == |s.replies| && s.inFlight > 0 && MovedTo(s, t, r, Refusing)
    ensures AnsweredOnce(s, Run(t, [GiveBack(r), Reply(r)]), r)
  {
    TwoActions(t, GiveBack(r), Reply(r));
    GivesBackAndReplies(t, r);
    SetTwice(s.phases, r, Refusing);
    hide Step, Run;
  }

  lemma ClosingEnds(s: State, t: State, r: nat, client: nat)
    requires r < |s.phases| == |s.replies| && s.inFlight > 0 && MovedTo(s, t, r, Closing(client))
    ensures AnsweredOnce(s, Run(t, [Close(r), Reply(r), DropGuard(r)]), r)
  {
    hide Step, Run;
    assert [Close(r), Reply(r), DropGuard(r)] == [Close(r)] + [Reply(r), DropGuard(r)];
    RunFirst(t, Close(r), [Reply(r), DropGuard(r)]);
    Closes(t, r);
    assert MovedTo(s, Step(t, Close(r)), r, Replying);
    hide MovedTo;
    ReplyingEnds(s, Step(t, Close(r)), r);
  }

  /** Whether there is no pool, the group is bad, no connection can be made, or the operation fails or panics: the
      request is then answered once, its slot is given back, and the idle connections are as they were. */
  lemma FailureIsAnswered(s: State, r: nat, a: Action)
    requires Inv(s) && r < |s.phases| && Fails(s.phases[r], a, r)
    ensures |s.phases| == |s.replies|
    ensures s.replies[r] == 0 && AnsweredOnce(s, Run(s, [a] + AfterFailure(a, r)), r)
  {
    HolderIsUnanswered(s, r, a);
    FailedPhase(s, r, a);
    hide Inv, Step, Run, Fails, AnsweredOnce;
    var t := Step(s, a);
    RunFirst(s, a, AfterFailure(a, r));
    if a.Refuse? {
      RefusingEnds(s, t, r);
    } else if a.Finish? {
      ClosingEnds(s, t, r, s.phases[r].client);
    } else {
      ReplyingEnds(s, t, r);
    }
  }

  /** A request that needs no slot, or finds none, is answered at once and changes nothing else. */
  lemma TurnedAwayIsAnswered(s: State, r: nat, a: Action)
    requires Inv(s) && r < |s.phases| && s.phases[r].Waiting? && s.worker == Idle
    requires a == AnswerAtOnce(r) || (a == TryAcquire(r) && s.inFlight == s.max)
    ensures |s.phases| == |s.replies| && s.replies[r] == 0
    ensures Run(s, [a, Reply(r)]) == s.(phases := s.phases[r := Done], replies := s.replies[r := 1])
  {
    InvIs(s);
    TwoActions(s, a, Reply(r));
    TurnedAwayStep(s, r, a);
    hide Inv, Run, Step, SlotsExact, CountExact, Bounded, WorkerExact, QueueOk, Exclusive;
  }

  lemma TurnedAwayStep(s: State, r: nat, a: Action)
    requires r < |s.phases| == |s.replies| && s.phases[r].Waiting? && s.worker == Idle
    requires a == AnswerAtOnce(r) || (a == TryAcquire(r) && s.inFlight >= s.max)
    ensures Step(Step(s, a), Reply(r))
         == s.(phases := s.phases[r := Done], replies := s.replies[r := s.replies[r] + 1])
  {
    hide TakeStep, FinishStep;
    assert Step(s, a) == Attend(s, r, Answering);
    SetTwice(s.phases, r, Answering);
  }

  lemma SetTwice(ps: seq<Phase>, r: nat, p: Phase)
    requires r < |ps|
    ensures ps[r := p][r := Done] == ps[r := Done]
  {}

  lemma TwoActions(s: State, a: Action, b: Action)
    requires |s.phases| == |s.replies|
    ensures Run(s, [a, b]) == Step(Step(s, a), b)
  {
    hide Step;
    RunOneMore(s, [], a);
    RunOneMore(s, [a], b);
    assert [] + [a] == [a] && [a] + [b] == [a, b];
  }

  // ---------------------------------------------------------------- every request finishes

  function Rank(p: Phase): nat {
    match p
    case Waiting => 10
    case Preparing => 9
    case Spawned => 8
    case Creating => 7
    case Opened(_) => 6
    case Held(_) => 5
    case Closing(_) => 4
    case Replying | Refusing => 3
    case Answering | Replied => 2
    case Done | Lost | Abandoned => 0
  }

  /** An action of a request that does something. */
  predicate Moves(s: State, a: Action)
    requires |s.phases| == |s.replies|
  {
    !a.Arrive? && !a.Tick? && Step(s, a) != s
  }

  /** Whatever the outcome, what a request does brings it nearer to its end. */
  lemma ActGoesDown(s: State, a: Action, r: nat)
    requires r < |s.phases| == |s.replies| && Act(s, a, r) != s
    ensures |Act(s, a, r).phases| == |s.phases| && Rank(Act(s, a, r).phases[r]) < Rank(s.phases[r])
  {
    hide TakeStep, FinishStep;
    TakeAndFinishGoDown(s, a, r);
  }

  lemma TakeAndFinishGoDown(s: State, a: Action, r: nat)
    requires r < |s.phases| == |s.replies|
    ensures |TakeStep(s, r).phases| == |s.phases| && Rank(TakeStep(s, r).phases[r]) <= 7
    ensures s.phases[r].Held? && a.Finish? ==>
      var t := FinishStep(s, r, s.phases[r].client, a.isHealthy); |t.phases| == |s.phases| && Rank(t.phases[r]) <= 4
  {
    hide DropStale, PutBack;
  }

  lemma MovesGoDown(s: State, a: Action)
    requires |s.phases| == |s.replies| && Moves(s, a)
    ensures var t := Step(s, a);
      && a.r < |s.phases| == |t.phases| && t.phases == s.phases[a.r := t.phases[a.r]]
      && Rank(t.phases[a.r]) < Rank(s.phases[a.r]) && Total(Rank, t.phases) < Total(Rank, s.phases)
  {
    assert Step(s, a) == Act(s, a, a.r);
    hide Step, Act, Total, Rank;
    ActGoesDown(s, a, a.r);
    ActMoves(s, a, a.r);
    ActTotal(s, a, a.r, Rank);
  }

  /** How often request `r` does something in a run. */
  function MovesOf(s: State, actions: seq<Action>, r: nat): nat
    requires |s.phases| == |s.replies|
  {
    if actions == [] then 0
    else
      var n := |actions| - 1;
      var before, a := Run(s, actions[..n]), actions[n];
      MovesOf(s, actions[..n], r) + if Moves(before, a) && a.r == r then 1 else 0
  }

  /** In every run, whatever the network, the device and the other requests do, a request does at most ten things. */
  lemma {:induction false} TenMovesAtMost(s: State, actions: seq<Action>, r: nat)
    requires |s.phases| == |s.replies| && r < |s.phases|
    ensures var t := Run(s, actions);
      r < |t.phases| && MovesOf(s, actions, r) + Rank(t.phases[r]) <= Rank(s.phases[r]) <= 10
  {
    if actions == [] {
    } else {
      var n := |actions| - 1;
      var before, a := Run(s, actions[..n]), actions[n];
      TenMovesAtMost(s, actions[..n], r);
      if Moves(before, a) { MovesGoDown(before, a); }
      hide Act, Rank;
    }
  }

  /** Every request is finished, or waits for a worker that is dead. */
  predicate Settled(s: State) {
    forall r :: 0 <= r < |s.phases| ==> Finished(s.phases[r]) || (s.worker == Dead && s.phases[r].Waiting?)
  }

  /** Something a request that the worker has looked at, or may look at, can do next. */
  function Next(p: Phase, r: nat): Action
    requires !Finished(p)
  {
    match p
    case Waiting => TryAcquire(r)
    case Answering | Replying => Reply(r)
    case Preparing => Spawn(r)
    case Refusing => GiveBack(r)
    case Spawned => Take(r)
    case Creating => Connect(r, true)
    case Opened(_) => CountIn(r)
    case Held(_) => Finish(r, true)
    case Closing(_) => Close(r)
    case Replied => DropGuard(r)
  }

  lemma NextMoves(s: State, r: nat)
    requires r < |s.phases| == |s.replies| && !Finished(s.phases[r])
    requires s.phases[r].Waiting? ==> s.worker == Idle
    ensures Moves(s, Next(s.phases[r], r))
    ensures s.worker != Dead ==> Step(s, Next(s.phases[r], r)).worker != Dead
  {
    hide DropStale, PutBack;
    var a := Next(s.phases[r], r);
    assert Step(s, a) == Act(s, a, r);
    assert Act(s, a, r).phases[r] != s.phases[r];
  }

  lemma {:induction false} SomeoneAttended(ps: seq<Phase>) returns (r: nat)
    requires Total(Attended, ps) > 0
    ensures r < |ps| && AtWorker(ps[r])
  {
    var n := |ps| - 1;
    if AtWorker(ps[n]) { r := n; } else { r := SomeoneAttended(ps[..n]); }
  }

  /** No state is stuck: while some request is unfinished, one can move, unless all wait for a dead worker. */
  lemma SomeoneMoves(s: State) returns (a: Action)
    requires Inv(s) && !Settled(s)
    ensures Moves(s, a) && (s.worker != Dead ==> Step(s, a).worker != Dead)
  {
    hide Moves, Next, Step, Total, SlotsExact, CountExact, Bounded, QueueOk, Exclusive;
    var r :| 0 <= r < |s.phases| && !(Finished(s.phases[r]) || (s.worker == Dead && s.phases[r].Waiting?));
    if s.phases[r].Waiting? && s.worker == Busy { r := SomeoneAttended(s.phases); }
    a := Next(s.phases[r], r);
    NextMoves(s, r);
  }

  /** The state after `n` choices, or before when everything is settled. */
  function Follow(s: State, choose: State -> Action, n: nat): State
    requires |s.phases| == |s.replies|
    decreases n
  {
    if n == 0 || Settled(s) then s else Follow(Step(s, choose(s)), choose, n - 1)
  }

  /** However the next move is chosen, with its outcome, as long as one is made while one can be, everything
      settles: no scheduler, network or device can keep a request from its end. */
  lemma {:induction false} EverythingSettles(s: State, choose: State -> Action, n: nat)
    requires Inv(s) && Total(Rank, s.phases) <= n
    requires forall t: State :: Inv(t) && !Settled(t) ==> Moves(t, choose(t))
    ensures Settled(Follow(s, choose, n)) && Inv(Follow(s, choose, n))
    decreases n
  {
    hide Inv, Moves, Rank, Step;
    InvIs(s);
    if Settled(s) {
    } else if n == 0 {
      NothingLeft(s);
    } else {
      var a := choose(s);
      MovesGoDown(s, a);
      StepKeepsInv(s, a);
      EverythingSettles(Step(s, a), choose, n - 1);
      InvIs(Step(s, a));
    }
  }

  lemma NothingLeft(s: State)
    requires Total(Rank, s.phases) == 0
    ensures Settled(s)
  {
    forall r | 0 <= r < |s.phases| ensures Finished(s.phases[r]) { TotalAtLeast(Rank, s.phases, r); }
  }

  lemma {:induction false} RunFirst(s: State, a: Action, rest: seq<Action>)
    requires |s.phases| == |s.replies|
    ensures |Step(s, a).phases| == |Step(s, a).replies| && Run(s, [a] + rest) == Run(Step(s, a), rest)
  {
    hide Step;
    assert Run(s, [a]) == Step(s, a) by { assert [a][..0] == []; }
    if rest == [] {
      assert [a] + rest == [a];
    } else {
      var n := |rest| - 1;
      RunFirst(s, a, rest[..n]);
      assert ([a] + rest)[..n + 1] == [a] + rest[..n];
    }
  }

  /** As long as the worker lives, every request can be answered and every slot given back. */
  lemma {:induction false} AllCanFinish(s: State) returns (actions: seq<Action>)
    requires Inv(s) && s.worker != Dead
    ensures var t := Run(s, actions);
      Inv(t) && |t.phases| == |s.phases| && t.inFlight == 0 && forall r :: 0 <= r < |t.phases| ==> t.phases[r].Done?
    decreases Total(Rank, s.phases)
  {
    InvIs(s);
    if !Settled(s) {
      var a := SomeoneMoves(s);
      MovesGoDown(s, a);
      StepKeepsInv(s, a);
      hide Step, Moves, Inv, Settled, Rank;
      var rest := AllCanFinish(Step(s, a));
      RunFirst(s, a, rest);
      actions := [a] + rest;
    } else {
      actions := [];
      forall r | 0 <= r < |s.phases| ensures s.phases[r].Done? {
        TotalAtLeast(Crashed, s.phases, r);
        TotalAtLeast(Dropped, s.phases, r);
      }
      OnlyLostHold(s.phases);
    }
  }

  lemma RunOneMore(s: State, actions: seq<Action>, a: Action)
    requires |s.phases| == |s.replies|
    ensures Run(s, actions + [a]) == Step(Run(s, actions), a)
  {
    assert (actions + [a])[..|actions|] == actions;
  }

  lemma ThreeMore(s: State, before: seq<Action>, a: Action, b: Action, c: Action)
    requires |s.phases| == |s.replies|
    ensures Run(s, before + [a, b, c]) == Step(Step(Step(Run(s, before), a), b), c)
  {
    hide Step;
    RunOneMore(s, before, a);
    RunOneMore(s, before + [a], b);
    RunOneMore(s, before + [a] + [b], c);
    assert before + [a, b, c] == before + [a] + [b] + [c];
  }

  lemma ArrivesAndSpawns(t: State, r: nat)
    requires r == |t.phases| == |t.replies| && t.inFlight < t.max && t.worker == Idle
    ensures Step(Step(Step(t, Arrive), TryAcquire(r)), Spawn(r))
         == t.(phases := t.phases + [Spawned], replies := t.replies + [0], inFlight := t.inFlight + 1)
  {
    hide TakeStep, FinishStep;
    var t1 := Step(t, Arrive);
    var t2 := Step(t1, TryAcquire(r));
    assert t2.phases == t.phases + [Preparing] && t2.worker == Busy;
  }

  /** A task that finds no idle connection opens one, whatever is open already. */
  lemma TakesAndConnects(t: State, r: nat)
    requires r < |t.phases| == |t.replies| && t.phases[r] == Spawned && t.pool == []
    ensures Step(Step(Step(t, Take(r)), Connect(r, true)), CountIn(r))
         == t.(phases := t.phases[r := Held(t.nextClient)], nextClient := t.nextClient + 1, total := t.total + 1)
  {
    var t1 := Step(t, Take(r));
    assert t1 == Move(t, r, Creating);
    hide TakeStep, FinishStep;
    var t2 := Step(t1, Connect(r, true));
    assert t2.phases == t.phases[r := Opened(t.nextClient)];
  }

  lemma OneMoreHeld(s: State, before: seq<Action>, r: nat) returns (actions: seq<Action>)
    requires |s.phases| == |s.replies|
    requires var t := Run(s, before); r == |t.phases| && t.inFlight < t.max && t.pool == [] && t.worker == Idle
    ensures var t := Run(s, before);
      Run(s, actions) == t.(phases := t.phases + [Held(t.nextClient)], replies := t.replies + [0],
                            inFlight := t.inFlight + 1, nextClient := t.nextClient + 1, total := t.total + 1)
  {
    hide *;
    var t := Run(s, before);
    ThreeMore(s, before, Arrive, TryAcquire(r), Spawn(r));
    ArrivesAndSpawns(t, r);
    var mid := before + [Arrive, TryAcquire(r), Spawn(r)];
    ThreeMore(s, mid, Take(r), Connect(r, true), CountIn(r));
    TakesAndConnects(Run(s, mid), r);
    actions := mid + [Take(r), Connect(r, true), CountIn(r)];
    assert (t.phases + [Spawned])[r := Held(t.nextClient)] == t.phases + [Held(t.nextClient)];
  }

  /** The bound is reached, and the pool size is no bound: whatever that is, as many connections as there may be
      concurrent operations can be in use at once. */
  lemma {:induction false} BoundIsReached(s: State, n: nat) returns (actions: seq<Action>)
    requires Init(s) && n <= s.max
    ensures var t := Run(s, actions);
      && |t.phases| == n && (forall r :: 0 <= r < n ==> t.phases[r].Held?)
      && t.total == n && t.inFlight == n && t.pool == [] && t.max == s.max && t.worker == Idle
  {
    if n == 0 {
      actions := [];
    } else {
      hide Step, Run;
      var before := BoundIsReached(s, n - 1);
      hide *;
      actions := OneMoreHeld(s, before, n - 1);
    }
  }

  lemma TicksAndFinishes(s: State, actions: seq<Action>, time: nat, r: nat) returns (more: seq<Action>)
    requires |s.phases| == |s.replies|
    requires var t := Run(s, actions); r < |t.phases| && t.phases[r].Held? && |t.pool| < t.poolSize
    ensures var t, u := Run(s, actions), Run(s, more);
      && u.pool == PutBack(t.pool, t.phases[r].client, true, t.poolSize, time) && u.now == time
      && u.phases == t.phases[r := Replying] && u.poolSize == t.poolSize && u.interval == t.interval
  {
    RunOneMore(s, actions, Tick(time));
    RunOneMore(s, actions + [Tick(time)], Finish(r, true));
    more := actions + [Tick(time)] + [Finish(r, true)];
    hide Run, Step, PutBack;
    TickAndFinishAre(Run(s, actions), time, r);
  }

  lemma TickAndFinishAre(t: State, time: nat, r: nat)
    requires r < |t.phases| == |t.replies| && t.phases[r].Held? && |t.pool| < t.poolSize
    ensures var u := Step(Step(t, Tick(time)), Finish(r, true));
      && u.pool == PutBack(t.pool, t.phases[r].client, true, t.poolSize, time) && u.now == time
      && u.phases == t.phases[r := Replying] && u.poolSize == t.poolSize && u.interval == t.interval
  {
    hide TakeStep;
  }

  lemma {:induction false} SizesStay(s: State, actions: seq<Action>)
    requires |s.phases| == |s.replies|
    ensures Run(s, actions).poolSize == s.poolSize && Run(s, actions).interval == s.interval
  {
    if actions == [] {
    } else {
      var n := |actions| - 1;
      SizesStay(s, actions[..n]);
      hide Act;
      var before, a := Run(s, actions[..n]), actions[n];
      if !a.Arrive? && !a.Tick? && a.r < |before.phases| { ActMoves(before, a, a.r); }
    }
  }

  /** A pool of two or more does reach that state: when the clock goes back between two releases, an acquisition at
      the first time again drops nothing, although the second connection is too old by then. */
  lemma ClockGoingBackIsReached(s: State, first: nat, second: nat) returns (actions: seq<Action>)
    requires Init(s) && s.max >= 2 && s.poolSize >= 2 && 0 < s.interval <= first - second
    ensures var t := Run(s, actions);
      && |t.pool| == 2 && t.now == first && !OldestFirst(t.pool)
      && DropStale(t.pool, t.now, t.interval) == t.pool && !Usable(t.pool[1], t.now, t.interval)
  {
    var held := BoundIsReached(s, 2);
    SizesStay(s, held);
    hide Run, Step, DropStale, Usable, OldestFirst, Init;
    var one := TicksAndFinishes(s, held, first, 0);
    var two := TicksAndFinishes(s, one, second, 1);
    RunOneMore(s, two, Tick(first));
    actions := two + [Tick(first)];
    var t, u := Run(s, two), Run(s, actions);
    TickIs(t, first);
    OutOfOrderIsKept(t.pool, first, second, s.interval);
  }

  lemma TickIs(s: State, time: nat)
    requires |s.phases| == |s.replies|
    ensures Step(s, Tick(time)).pool == s.pool && Step(s, Tick(time)).now == time
    ensures Step(s, Tick(time)).interval == s.interval
  {}
}
