/** Sending to the hub with protection: callers put their message in a bounded queue and wait for a signal with
    a timeout; a fixed number of workers take messages from the queue, send them and signal. */
module HubSend {
  const HUB_SEND_POOL_SIZE: nat := 16
  const HUB_SEND_QUEUE_CAPACITY: nat := 512

  datatype Outcome = Ok | QueueFull | TimedOut

  /** One call of `send_to_hub_with_protection`, begun at time `begun`; its index also names its message. */
  datatype Call = Call(client: nat, begun: nat, signalled: bool, progress: Progress)

  datatype Progress = Waiting | Returned(outcome: Outcome, at: nat)

  datatype Worker = Free | InHand(call: nat) | ToSignal(call: nat)

  /** `log` is what the hub has received; `clock` counts the calls and the returns. */
  datatype State = State(queue: seq<nat>, workers: seq<Worker>, calls: seq<Call>, log: seq<nat>, clock: nat)

  datatype Action =
    | Submit(client: nat)
    | Take(w: nat)
    | Send(w: nat)
    | Signal(w: nat)
    | Return(c: nat)
    | TimeOut(c: nat)

  predicate Returned(s: State, c: nat)
    requires c < |s.calls|
  {
    s.calls[c].progress.Returned?
  }

  /** A client calls again only after its last call has returned. */
  predicate CanCall(s: State, client: nat) {
    forall c :: 0 <= c < |s.calls| && s.calls[c].client == client ==> Returned(s, c)
  }

  predicate Enabled(s: State, a: Action) {
    match a
    case Submit(client) => CanCall(s, client)
    case Take(w) => w < |s.workers| && s.workers[w].Free? && s.queue != []
    case Send(w) => w < |s.workers| && s.workers[w].InHand?
    case Signal(w) => w < |s.workers| && s.workers[w].ToSignal? && s.workers[w].call < |s.calls|
    case Return(c) => c < |s.calls| && !Returned(s, c) && s.calls[c].signalled
    case TimeOut(c) => c < |s.calls| && !Returned(s, c) && !s.calls[c].signalled
  }

  function Put(s: State, w: nat, worker: Worker): State
    requires w < |s.workers|
  {
    s.(workers := s.workers[w := worker])
  }

  function Finish(s: State, c: nat, outcome: Outcome): State
    requires c < |s.calls|
  {
    s.(calls := s.calls[c := s.calls[c].(progress := Progress.Returned(outcome, s.clock + 1))], clock := s.clock + 1)
  }

  function Act(s: State, a: Action): State
    requires Enabled(s, a)
  {
    match a
    case Submit(client) =>
      var now := s.clock + 1;
      if |s.queue| < HUB_SEND_QUEUE_CAPACITY
      then s.(queue := s.queue + [|s.calls|], calls := s.calls + [Call(client, now, false, Waiting)], clock := now)
      else s.(calls := s.calls + [Call(client, now, false, Progress.Returned(QueueFull, now))], clock := now)
    case Take(w) => Put(s, w, InHand(s.queue[0])).(queue := s.queue[1..])
    case Send(w) => Put(s, w, ToSignal(s.workers[w].call)).(log := s.log + [s.workers[w].call])
    case Signal(w) =>
      var c := s.workers[w].call;
      Put(s, w, Free).(calls := s.calls[c := s.calls[c].(signalled := true)])
    case Return(c) => Finish(s, c, Ok)
    case TimeOut(c) => Finish(s, c, TimedOut)
  }

  /** One step; an action that is not due does nothing. */
  function Step(s: State, a: Action): State {
    if Enabled(s, a) then Act(s, a) else s
  }

  predicate Init(s: State) {
    && s.queue == [] && s.calls == [] && s.log == []
    && |s.workers| == HUB_SEND_POOL_SIZE && forall w :: 0 <= w < |s.workers| ==> s.workers[w].Free?
  }

  function Run(s: State, actions: seq<Action>): State {
    if actions == [] then s else Step(Run(s, actions[..|actions| - 1]), actions[|actions| - 1])
  }

  // ---------------------------------------------------------------- where a message is

  function Hand(w: Worker): multiset<nat> { if w.InHand? then multiset{w.call} else multiset{} }

  function Hands(ws: seq<Worker>): multiset<nat> {
    if ws == [] then multiset{} else Hands(ws[..|ws| - 1]) + Hand(ws[|ws| - 1])
  }

  /** Changing one worker changes one hand. */
  lemma {:induction false} HandsUpdate(ws: seq<Worker>, w: nat, worker: Worker) returns (others: multiset<nat>)
    requires w < |ws|
    ensures Hands(ws) == others + Hand(ws[w]) && Hands(ws[w := worker]) == others + Hand(worker)
  {
    hide Hand;
    var n := |ws| - 1;
    if w == n {
      assert ws[w := worker][..n] == ws[..n];
      others := Hands(ws[..n]);
    } else {
      assert ws[w := worker][..n] == ws[..n][w := worker];
      var rest := HandsUpdate(ws[..n], w, worker);
      others := rest + Hand(ws[n]);
    }
  }

  lemma {:induction false} HandsAreFew(ws: seq<Worker>)
    ensures |Hands(ws)| <= |ws|
  {
    if ws == [] {
    } else {
      HandsAreFew(ws[..|ws| - 1]);
    }
  }

  lemma {:induction false} NoHands(ws: seq<Worker>)
    requires forall w :: 0 <= w < |ws| ==> !ws[w].InHand?
    ensures Hands(ws) == multiset{}
  {
    if ws == [] {
    } else {
      NoHands(ws[..|ws| - 1]);
    }
  }

  /** Every message in the queue, in the hands of a worker, or sent. */
  function Places(s: State): multiset<nat> {
    multiset(s.queue) + Hands(s.workers) + multiset(s.log)
  }

  predicate Accepted(s: State, c: nat) {
    c < |s.calls| && !(s.calls[c].progress.Returned? && s.calls[c].progress.outcome == QueueFull)
  }

  predicate ReturnedOk(s: State, c: nat) {
    c < |s.calls| && s.calls[c].progress.Returned? && s.calls[c].progress.outcome == Ok
  }

  /** An accepted message is in exactly one place, any other in none. */
  ghost predicate Placed(s: State) {
    forall c: nat :: Places(s)[c] == if Accepted(s, c) then 1 else 0
  }

  /** A signal follows the send, and `Ok` follows the signal. */
  ghost predicate Signalled(s: State) {
    && (forall c :: 0 <= c < |s.calls| && s.calls[c].signalled ==> c in s.log)
    && (forall c: nat :: ReturnedOk(s, c) ==> s.calls[c].signalled)
    && (forall w :: 0 <= w < |s.workers| && s.workers[w].ToSignal? ==> s.workers[w].call in s.log)
  }

  /** Times are past, and the calls of one client follow each other. */
  ghost predicate Timed(s: State) {
    && (forall c :: 0 <= c < |s.calls| ==> s.calls[c].begun <= s.clock)
    && (forall c :: 0 <= c < |s.calls| && Returned(s, c) ==> s.calls[c].progress.at <= s.clock)
    && (forall i, j :: 0 <= i < j < |s.calls| && s.calls[i].client == s.calls[j].client ==>
          Returned(s, i) && s.calls[i].progress.at < s.calls[j].begun)
  }

  /** A call that begins after another returned `Ok` is not before it in the log. */
  ghost predicate InOrder(s: State) {
    forall p, q :: 0 <= q <= p < |s.log| && ReturnedOk(s, s.log[p]) && s.log[q] < |s.calls| ==>
      s.calls[s.log[q]].begun <= s.calls[s.log[p]].progress.at
  }

  ghost predicate Inv(s: State) {
    && |s.queue| <= HUB_SEND_QUEUE_CAPACITY && |s.workers| == HUB_SEND_POOL_SIZE
    && Placed(s) && Signalled(s) && Timed(s) && InOrder(s)
  }

  /** The message that a step accepts. */
  function Fresh(s: State, a: Action): multiset<nat> {
    if a.Submit? && |s.queue| < HUB_SEND_QUEUE_CAPACITY then multiset{|s.calls|} else multiset{}
  }

  lemma AcceptedKept(s: State, a: Action, c: nat)
    requires Enabled(s, a)
    ensures Accepted(Act(s, a), c) <==> Accepted(s, c) || c in Fresh(s, a)
  {}

  lemma PlacesAre(s: State, c: nat)
    ensures Places(s)[c] == multiset(s.queue)[c] + Hands(s.workers)[c] + multiset(s.log)[c]
  {}

  lemma HandMoves(ws: seq<Worker>, w: nat, worker: Worker, c: nat)
    requires w < |ws|
    ensures Hands(ws[w := worker])[c] + Hand(ws[w])[c] == Hands(ws)[c] + Hand(worker)[c]
  {
    var others := HandsUpdate(ws, w, worker);
    hide Hands, Hand;
  }

  lemma Leaves(q: seq<nat>, c: nat)
    requires q != []
    ensures multiset(q)[c] == multiset{q[0]}[c] + multiset(q[1..])[c]
  {
    assert q == [q[0]] + q[1..];
  }

  /** No step loses or repeats a message: it moves one, or accepts one. */
  lemma PlacesKept(s: State, a: Action, c: nat)
    requires Enabled(s, a)
    ensures Places(Act(s, a))[c] == Places(s)[c] + Fresh(s, a)[c]
  {
    hide Places, Hands;
    PlacesAre(s, c);
    PlacesAre(Act(s, a), c);
    match a
    case Take(w) => HandMoves(s.workers, w, InHand(s.queue[0]), c); Leaves(s.queue, c);
    case Send(w) => HandMoves(s.workers, w, ToSignal(s.workers[w].call), c);
    case Signal(w) => HandMoves(s.workers, w, Free, c);
    case _ =>
  }

  lemma PlacedAt(s: State, a: Action, c: nat)
    requires Enabled(s, a) && Places(s)[c] == if Accepted(s, c) then 1 else 0
    ensures Places(Act(s, a))[c] == if Accepted(Act(s, a), c) then 1 else 0
  {
    PlacesKept(s, a, c);
    AcceptedKept(s, a, c);
    hide Places, Act, Enabled;
  }

  lemma PlacedKept(s: State, a: Action)
    requires Placed(s) && Enabled(s, a)
    ensures Placed(Act(s, a))
  {
    hide Places, Accepted, Act, Enabled;
    forall c: nat ensures Places(Act(s, a))[c] == if Accepted(Act(s, a), c) then 1 else 0 { PlacedAt(s, a, c); }
  }

  lemma SignalledKept(s: State, a: Action)
    requires Signalled(s) && Enabled(s, a)
    ensures Signalled(Act(s, a))
  {}

  lemma TimedReturn(s: State, c: nat, outcome: Outcome)
    requires Timed(s) && c < |s.calls| && !Returned(s, c)
    ensures Timed(Finish(s, c, outcome))
  {
    var t := Finish(s, c, outcome);
    forall i, j | 0 <= i < j < |t.calls| && t.calls[i].client == t.calls[j].client
      ensures Returned(t, i) && t.calls[i].progress.at < t.calls[j].begun
    {
      assert Returned(s, i) && i != c;
    }
  }

  lemma TimedKept(s: State, a: Action)
    requires Timed(s) && Enabled(s, a)
    ensures Timed(Act(s, a))
  {
    match a
    case Submit(_) =>
    case Signal(_) =>
    case Return(c) => TimedReturn(s, c, Ok); hide Timed;
    case TimeOut(c) => TimedReturn(s, c, TimedOut); hide Timed;
    case _ =>
  }

  lemma LogIsAccepted(s: State, p: nat)
    requires Placed(s) && p < |s.log|
    ensures Accepted(s, s.log[p])
  {
    hide Accepted, Hands;
    var c := s.log[p];
    assert multiset(s.log)[c] > 0;
    assert Places(s)[c] > 0;
  }

  /** What a worker is about to send has not been sent. */
  lemma InHandIsUnsent(s: State, w: nat)
    requires Placed(s) && w < |s.workers| && s.workers[w].InHand?
    ensures s.workers[w].call !in s.log
  {
    hide Accepted;
    var c := s.workers[w].call;
    var others := HandsUpdate(s.workers, w, Free);
    hide Hands;
    assert Hands(s.workers)[c] > 0 && Places(s)[c] <= 1;
  }

  lemma OrderKept(s: State, a: Action)
    requires Placed(s) && Signalled(s) && Timed(s) && InOrder(s) && Enabled(s, a)
    ensures InOrder(Act(s, a))
  {
    forall p | 0 <= p < |s.log| ensures s.log[p] < |s.calls| { LogIsAccepted(s, p); }
    if a.Send? { InHandIsUnsent(s, a.w); }
    hide Placed, CanCall;
  }

  lemma StepKeepsInv(s: State, a: Action)
    requires Inv(s)
    ensures Inv(Step(s, a))
  {
    if Enabled(s, a) {
      var t := Act(s, a);
      TimedKept(s, a);
      PlacedKept(s, a);
      SignalledKept(s, a);
      OrderKept(s, a);
      assert |t.queue| <= HUB_SEND_QUEUE_CAPACITY && |t.workers| == HUB_SEND_POOL_SIZE;
      hide Act, Enabled;
    }
  }

  lemma {:induction false} InvLasts(s: State, actions: seq<Action>)
    requires Inv(s)
    ensures Inv(Run(s, actions))
  {
    if actions == [] {
    } else {
      hide Inv, Step;
      InvLasts(s, actions[..|actions| - 1]);
      StepKeepsInv(Run(s, actions[..|actions| - 1]), actions[|actions| - 1]);
    }
  }

  lemma RunKeepsInv(s: State, actions: seq<Action>)
    requires Init(s)
    ensures Inv(Run(s, actions))
  {
    NoHands(s.workers);
    InvLasts(s, actions);
  }

  // ---------------------------------------------------------------- what a caller can rely on

  /** In every run: after `Ok` the message is in the log exactly once, after `QueueFull` never, and otherwise at
      most once. */
  lemma SentExactlyAsTold(s: State, actions: seq<Action>, c: nat)
    requires Init(s)
    ensures var t := Run(s, actions);
      c < |t.calls| ==>
        var sent := multiset(t.log)[c];
        && sent <= 1
        && (t.calls[c].progress.Returned? ==>
              match t.calls[c].progress.outcome case Ok => sent == 1 case QueueFull => sent == 0 case TimedOut => true)
  {
    RunKeepsInv(s, actions);
    var t := Run(s, actions);
    PlacesAre(t, c);
    hide Run, Places, Hands, Timed, InOrder;
  }

  /** What is in the log stays there: a message counted at its return is counted for good. */
  lemma {:induction false} LogOnlyGrows(s: State, actions: seq<Action>)
    ensures s.log <= Run(s, actions).log
  {
    if actions == [] {
    } else {
      LogOnlyGrows(s, actions[..|actions| - 1]);
    }
  }

  lemma OkInOrder(t: State, p: nat, q: nat)
    requires Inv(t) && p < |t.log| && q < |t.log| && ReturnedOk(t, t.log[p])
    ensures t.log[p] < |t.calls| && t.log[q] < |t.calls|
    ensures var first, second := t.calls[t.log[p]], t.calls[t.log[q]];
      && (first.progress.at < second.begun ==> p < q)
      && (first.client == second.client && t.log[p] < t.log[q] ==> p < q)
  {
    LogIsAccepted(t, p);
    LogIsAccepted(t, q);
    assert Timed(t) && InOrder(t);
    hide Placed, Signalled;
  }

  /** A call that begins after another has returned `Ok` is behind it in the log; so the calls of one client
      that return `Ok` are in the log in the order in which they were made. */
  lemma OkMessagesAreInCallOrder(s: State, actions: seq<Action>, p: nat, q: nat)
    requires Init(s)
    requires var t := Run(s, actions); p < |t.log| && q < |t.log| && ReturnedOk(t, t.log[p])
    ensures var t := Run(s, actions);
      t.log[p] < |t.calls| && t.log[q] < |t.calls| &&
      var first, second := t.calls[t.log[p]], t.calls[t.log[q]];
      && (first.progress.at < second.begun ==> p < q)
      && (first.client == second.client && t.log[p] < t.log[q] ==> p < q)
  {
    RunKeepsInv(s, actions);
    OkInOrder(Run(s, actions), p, q);
    hide *;
  }

  // ---------------------------------------------------------------- how much can be under way

  function AcceptedCalls(calls: seq<Call>): nat {
    if calls == [] then 0
    else
      var p := calls[|calls| - 1].progress;
      AcceptedCalls(calls[..|calls| - 1]) + if p.Returned? && p.outcome == QueueFull then 0 else 1
  }

  lemma {:induction false} AcceptedUpdate(calls: seq<Call>, c: nat, call: Call)
    requires c < |calls|
    requires (calls[c].progress.Returned? && calls[c].progress.outcome == QueueFull)
        <==> (call.progress.Returned? && call.progress.outcome == QueueFull)
    ensures AcceptedCalls(calls[c := call]) == AcceptedCalls(calls)
  {
    var n := |calls| - 1;
    if c == n {
      assert calls[c := call][..n] == calls[..n];
    } else {
      assert calls[c := call][..n] == calls[..n][c := call];
      AcceptedUpdate(calls[..n], c, call);
    }
  }

  lemma HandCounts(ws: seq<Worker>, w: nat, worker: Worker)
    requires w < |ws|
    ensures |Hands(ws[w := worker])| + |Hand(ws[w])| == |Hands(ws)| + |Hand(worker)|
  {
    var others := HandsUpdate(ws, w, worker);
    hide Hands, Hand;
  }

  ghost predicate Conserved(s: State) {
    AcceptedCalls(s.calls) == |s.queue| + |Hands(s.workers)| + |s.log|
  }

  lemma StepConserves(s: State, a: Action)
    requires Conserved(s)
    ensures Conserved(Step(s, a))
  {
    hide Hands, CanCall;
    if Enabled(s, a) {
      var t := Act(s, a);
      match a
      case Submit(_) => assert t.calls[..|s.calls|] == s.calls;
      case Take(w) => HandCounts(s.workers, w, InHand(s.queue[0]));
      case Send(w) => HandCounts(s.workers, w, ToSignal(s.workers[w].call));
      case Signal(w) =>
        HandCounts(s.workers, w, Free);
        AcceptedUpdate(s.calls, s.workers[w].call, t.calls[s.workers[w].call]);
      case Return(c) => AcceptedUpdate(s.calls, c, t.calls[c]);
      case TimeOut(c) => AcceptedUpdate(s.calls, c, t.calls[c]);
    }
  }

  /** Accepted messages are sent, in a hand or in the queue, and at most 512 + 16 of them are not yet sent. */
  lemma {:induction false} UnsentAreBounded(s: State, actions: seq<Action>)
    requires Init(s)
    ensures var t := Run(s, actions);
      && AcceptedCalls(t.calls) == |t.queue| + |Hands(t.workers)| + |t.log|
      && AcceptedCalls(t.calls) - |t.log| <= 528
  {
    RunKeepsInv(s, actions);
    HandsAreFew(Run(s, actions).workers);
    if actions == [] {
      NoHands(s.workers);
    } else {
      UnsentAreBounded(s, actions[..|actions| - 1]);
      StepConserves(Run(s, actions[..|actions| - 1]), actions[|actions| - 1]);
      hide Hands, AcceptedCalls, Step, Placed;
    }
  }

  /** A call is refused exactly when 512 messages wait; otherwise its message joins the end of the queue. */
  lemma RefusedExactlyWhenFull(s: State, client: nat)
    requires CanCall(s, client)
    ensures var t, c := Step(s, Submit(client)), |s.calls|;
      && |t.calls| == c + 1 && t.calls[..c] == s.calls && t.calls[c].client == client && !t.calls[c].signalled
      && t.log == s.log && t.workers == s.workers
      && if |s.queue| >= 512
         then t.queue == s.queue && t.calls[c].progress.Returned? && t.calls[c].progress.outcome == QueueFull
         else t.queue == s.queue + [c] && t.calls[c].progress == Waiting
  {}

  /** A call returns `Ok` exactly once it has been signalled, and times out only before. */
  lemma ReturnsAsSignalled(s: State, c: nat)
    requires c < |s.calls| && !Returned(s, c)
    ensures var t := Step(s, Return(c));
      if s.calls[c].signalled
      then ReturnedOk(t, c) && t.calls == s.calls[c := t.calls[c]] && t.queue == s.queue && t.log == s.log
      else t == s
    ensures var t := Step(s, TimeOut(c));
      if s.calls[c].signalled then t == s
      else t.calls == s.calls[c := t.calls[c]] && Returned(t, c) && t.calls[c].progress.outcome == TimedOut
           && t.queue == s.queue && t.workers == s.workers && t.log == s.log
  {}

  /** What waits was called in the order in which it waits, and later than all that a worker has taken. */
  ghost predicate OldestFirst(s: State) {
    && (forall i, j :: 0 <= i < j < |s.queue| ==> s.queue[i] < s.queue[j])
    && (forall i :: 0 <= i < |s.queue| ==> s.queue[i] < |s.calls|)
    && (forall p, i :: 0 <= p < |s.log| && 0 <= i < |s.queue| ==> s.log[p] < s.queue[i])
    && (forall w, i :: 0 <= w < |s.workers| && s.workers[w].InHand? && 0 <= i < |s.queue| ==>
          s.workers[w].call < s.queue[i])
    && (forall p :: 0 <= p < |s.log| ==> s.log[p] < |s.calls|)
    && (forall w :: 0 <= w < |s.workers| && s.workers[w].InHand? ==> s.workers[w].call < |s.calls|)
  }

  lemma StepKeepsOldestFirst(s: State, a: Action)
    requires OldestFirst(s)
    ensures OldestFirst(Step(s, a))
  {
    hide CanCall;
    if Enabled(s, a) {
      match a
      case Submit(_) =>
      case Take(w) => assert s.queue[1..] == Act(s, a).queue;
      case Send(w) =>
      case Signal(w) =>
      case Return(c) =>
      case TimeOut(c) =>
    }
  }

  /** The workers take the messages in the order of the calls: in every run whatever is in a hand or sent was called
      before everything that still waits. */
  lemma {:induction false} TakenInCallOrder(s: State, actions: seq<Action>)
    requires Init(s)
    ensures var t := Run(s, actions);
      && (forall i, j :: 0 <= i < j < |t.queue| ==> t.queue[i] < t.queue[j])
      && (forall p, i :: 0 <= p < |t.log| && 0 <= i < |t.queue| ==> t.log[p] < t.queue[i])
      && (forall w, i :: 0 <= w < |t.workers| && t.workers[w].InHand? && 0 <= i < |t.queue| ==>
            t.workers[w].call < t.queue[i])
    ensures OldestFirst(Run(s, actions))
  {
    if actions != [] {
      TakenInCallOrder(s, actions[..|actions| - 1]);
      StepKeepsOldestFirst(Run(s, actions[..|actions| - 1]), actions[|actions| - 1]);
      hide Step;
    }
  }

  /** `k` calls of as many clients, the first of them in the hands of workers, the others waiting. */
  predicate Filled(s: State, k: nat, taken: nat) {
    && taken <= k == |s.calls| && taken <= |s.workers| == HUB_SEND_POOL_SIZE && s.log == []
    && |s.queue| == k - taken
    && (forall c :: 0 <= c < k ==> s.calls[c].client == c && s.calls[c].progress == Waiting)
    && (forall w :: taken <= w < |s.workers| ==> s.workers[w].Free?)
  }

  lemma SubmitFills(s: State, k: nat, taken: nat)
    requires Filled(s, k, taken) && k - taken < HUB_SEND_QUEUE_CAPACITY
    ensures Filled(Step(s, Submit(k)), k + 1, taken)
  {}

  lemma TakeFills(s: State, k: nat, taken: nat)
    requires Filled(s, k, taken) && taken < k && taken < HUB_SEND_POOL_SIZE
    ensures Filled(Step(s, Take(taken)), k, taken + 1)
  {}

  lemma {:induction false} Fills(s: State, k: nat) returns (actions: seq<Action>)
    requires Init(s) && k <= HUB_SEND_QUEUE_CAPACITY + HUB_SEND_POOL_SIZE
    ensures Filled(Run(s, actions), k, if k < HUB_SEND_POOL_SIZE then k else HUB_SEND_POOL_SIZE)
    decreases k
  {
    if k == 0 {
      actions := [];
    } else {
      var before := Fills(s, k - 1);
      hide Step, Run, Filled, Init;
      var taken := if k - 1 < HUB_SEND_POOL_SIZE then k - 1 else HUB_SEND_POOL_SIZE;
      RunOneMore(s, before, Submit(k - 1));
      SubmitFills(Run(s, before), k - 1, taken);
      actions := before + [Submit(k - 1)];
      if taken < HUB_SEND_POOL_SIZE {
        RunOneMore(s, actions, Take(taken));
        TakeFills(Run(s, actions), k, taken);
        actions := actions + [Take(taken)];
      }
    }
  }

  lemma {:induction false} WaitingAreAccepted(calls: seq<Call>)
    requires forall c :: 0 <= c < |calls| ==> calls[c].progress == Waiting
    ensures AcceptedCalls(calls) == |calls|
  {
    if calls != [] { WaitingAreAccepted(calls[..|calls| - 1]); }
  }

  /** The bound is reached: in some run 528 accepted messages are not yet sent. */
  lemma UnsentBoundIsReached(s: State) returns (actions: seq<Action>)
    requires Init(s)
    ensures var t := Run(s, actions); AcceptedCalls(t.calls) - |t.log| == 528
  {
    actions := Fills(s, 528);
    WaitingAreAccepted(Run(s, actions).calls);
  }

  // ---------------------------------------------------------------- nothing accepted is stuck

  function Due(w: Worker): nat { match w case Free => 0 case ToSignal(_) => 1 case InHand(_) => 2 }

  function AllDue(ws: seq<Worker>): nat {
    if ws == [] then 0 else AllDue(ws[..|ws| - 1]) + Due(ws[|ws| - 1])
  }

  lemma {:induction false} DueUpdate(ws: seq<Worker>, w: nat, worker: Worker)
    requires w < |ws|
    ensures AllDue(ws[w := worker]) == AllDue(ws) - Due(ws[w]) + Due(worker)
  {
    var n := |ws| - 1;
    if w == n {
      assert ws[w := worker][..n] == ws[..n];
    } else {
      assert ws[w := worker][..n] == ws[..n][w := worker];
      DueUpdate(ws[..n], w, worker);
    }
  }

  lemma {:induction false} RunFirst(s: State, a: Action, rest: seq<Action>)
    ensures Run(s, [a] + rest) == Run(Step(s, a), rest)
  {
    hide Step;
    assert Run(s, [a]) == Step(s, a) by { assert [a][..0] == []; }
    if rest == [] {
      assert [a] + rest == [a];
    } else {
      var n := |rest| - 1;
      RunFirst(s, a, rest[..n]);
      assert ([a] + rest)[..n + 1] == [a] + rest[..n];
    }
  }

  /** What the workers may do next: finish a message in hand, or take one. */
  lemma NextWork(s: State) returns (a: Action)
    requires Inv(s) && (s.queue != [] || exists w :: 0 <= w < |s.workers| && !s.workers[w].Free?)
    ensures Enabled(s, a) && |Act(s, a).calls| == |s.calls|
    ensures 3 * |Act(s, a).queue| + AllDue(Act(s, a).workers) < 3 * |s.queue| + AllDue(s.workers)
  {
    if w :| 0 <= w < |s.workers| && !s.workers[w].Free? {
      if s.workers[w].InHand? {
        a := Send(w);
        DueUpdate(s.workers, w, ToSignal(s.workers[w].call));
      } else {
        var c := s.workers[w].call;
        var p :| 0 <= p < |s.log| && s.log[p] == c;
        LogIsAccepted(s, p);
        a := Signal(w);
        DueUpdate(s.workers, w, Free);
      }
    } else {
      a := Take(0);
      DueUpdate(s.workers, 0, InHand(s.queue[0]));
    }
  }

  /** From every state that a run can reach the workers alone can send every accepted message. */
  lemma {:induction false} AllAcceptedCanBeSent(s: State) returns (actions: seq<Action>)
    requires Inv(s)
    ensures var t := Run(s, actions);
      && |t.calls| == |s.calls|
      && forall c: nat :: multiset(t.log)[c] == if Accepted(t, c) then 1 else 0
    decreases 3 * |s.queue| + AllDue(s.workers)
  {
    if s.queue != [] || exists w :: 0 <= w < |s.workers| && !s.workers[w].Free? {
      hide Enabled, Act, Accepted, AllDue, Placed;
      var a := NextWork(s);
      StepKeepsInv(s, a);
      var rest := AllAcceptedCanBeSent(Step(s, a));
      hide *;
      RunFirst(s, a, rest);
      actions := [a] + rest;
    } else {
      NoHands(s.workers);
      actions := [];
      forall c: nat ensures multiset(s.log)[c] == if Accepted(s, c) then 1 else 0 { PlacesAre(s, c); }
    }
  }

  // ---------------------------------------------------------------- after a timeout

  lemma {:induction false} RunConcat(s: State, a: seq<Action>, b: seq<Action>)
    ensures Run(s, a + b) == Run(Run(s, a), b)
  {
    hide Step;
    if b == [] {
      assert a + b == a;
    } else {
      var n := |b| - 1;
      assert (a + b)[..|a| + n] == a + b[..n];
      RunConcat(s, a, b[..n]);
    }
  }

  /** The callers see the same. */
  ghost predicate SameCalls(s: State, t: State) {
    && |t.calls| == |s.calls|
    && forall c :: 0 <= c < |s.calls| ==>
         t.calls[c].client == s.calls[c].client && t.calls[c].progress == s.calls[c].progress
  }

  lemma SameCallsAccept(s: State, t: State, c: nat)
    requires SameCalls(s, t)
    ensures Accepted(t, c) == Accepted(s, c)
    ensures forall u :: SameCalls(t, u) ==> SameCalls(s, u)
  {}

  /** A worker that is neither free nor about to send `c`. */
  predicate IsOther(w: Worker, c: nat) { !w.Free? && w != InHand(c) }

  lemma {:induction false} TwoHands(ws: seq<Worker>, v: nat, w: nat, c: nat)
    requires v < w < |ws| && ws[v] == InHand(c) == ws[w]
    ensures Hands(ws)[c] >= 2
  {
    var n := |ws| - 1;
    if w == n { InSomeHand(ws[..n], v, c); } else { TwoHands(ws[..n], v, w, c); }
  }

  lemma {:induction false} InSomeHand(ws: seq<Worker>, v: nat, c: nat)
    requires v < |ws| && ws[v] == InHand(c)
    ensures Hands(ws)[c] >= 1
  {
    var n := |ws| - 1;
    if v < n { InSomeHand(ws[..n], v, c); }
  }

  lemma {:induction false} SomeHand(ws: seq<Worker>, c: nat) returns (v: nat)
    requires Hands(ws)[c] > 0
    ensures v < |ws| && ws[v] == InHand(c)
  {
    var n := |ws| - 1;
    if Hand(ws[n])[c] > 0 { v := n; } else { v := SomeHand(ws[..n], c); }
  }

  /** The workers can do everything but send `c`. */
  lemma NextOtherWork(s: State, c: nat) returns (a: Action)
    requires Inv(s) && c !in s.log
    requires s.queue != [] || exists w :: 0 <= w < |s.workers| && IsOther(s.workers[w], c)
    ensures Enabled(s, a) && SameCalls(s, Act(s, a)) && c !in Act(s, a).log
    ensures 3 * |Act(s, a).queue| + AllDue(Act(s, a).workers) < 3 * |s.queue| + AllDue(s.workers)
  {
    if w :| 0 <= w < |s.workers| && IsOther(s.workers[w], c) {
      if s.workers[w].InHand? {
        a := Send(w);
        DueUpdate(s.workers, w, ToSignal(s.workers[w].call));
      } else {
        var d := s.workers[w].call;
        var p :| 0 <= p < |s.log| && s.log[p] == d;
        LogIsAccepted(s, p);
        a := Signal(w);
        DueUpdate(s.workers, w, Free);
      }
    } else {
      var w := FreeWorker(s, c);
      a := Take(w);
      DueUpdate(s.workers, w, InHand(s.queue[0]));
    }
  }

  /** One message occupies one worker only. */
  lemma FreeWorker(s: State, c: nat) returns (w: nat)
    requires Inv(s) && forall w :: 0 <= w < |s.workers| ==> !IsOther(s.workers[w], c)
    ensures w < |s.workers| && s.workers[w].Free?
    ensures w <= 1
  {
    PlacesAre(s, c);
    if s.workers[0].Free? {
      w := 0;
    } else {
      w := 1;
      if !s.workers[1].Free? { TwoHands(s.workers, 0, 1, c); }
    }
  }

  /** From every state an accepted message that is not yet sent can be left in the hand of one worker while all
      others are done with theirs and the queue is empty. */
  lemma {:induction false} DrainsAllBut(s: State, c: nat) returns (actions: seq<Action>)
    requires Inv(s) && Accepted(s, c) && c !in s.log
    ensures var t := Run(s, actions);
      && Inv(t) && SameCalls(s, t) && c !in t.log && t.queue == []
      && forall w :: 0 <= w < |t.workers| ==> !IsOther(t.workers[w], c)
    decreases 3 * |s.queue| + AllDue(s.workers)
  {
    if s.queue != [] || exists w :: 0 <= w < |s.workers| && IsOther(s.workers[w], c) {
      var a := NextOtherWork(s, c);
      StepKeepsInv(s, a);
      var t := Step(s, a);
      assert t == Act(s, a);
      SameCallsAccept(s, t, c);
      hide Step, Act, Enabled, Inv, Accepted, AllDue, IsOther, SameCalls;
      var rest := DrainsAllBut(t, c);
      RunFirst(s, a, rest);
      actions := [a] + rest;
      hide Run;
    } else {
      actions := [];
    }
  }

  lemma RunOneMore(s: State, actions: seq<Action>, a: Action)
    ensures Run(s, actions + [a]) == Step(Run(s, actions), a)
  {
    assert (actions + [a])[..|actions|] == actions;
  }

  /** A worker alone takes the only message, sends it and signals, and its call returns. */
  lemma SendsTheOnlyMessage(s: State, w: nat, n: nat)
    requires w < |s.workers| && s.workers[w].Free? && s.queue == [n] && n < |s.calls| && !Returned(s, n)
    ensures var t := Step(Step(Step(Step(s, Take(w)), Send(w)), Signal(w)), Return(n));
      && t.log == s.log + [n] && t.queue == [] && t.workers == s.workers
      && |t.calls| == |s.calls| && ReturnedOk(t, n) && t.calls[n].client == s.calls[n].client
  {
    hide CanCall;
    var t1 := Step(s, Take(w));
    assert t1 == Put(s, w, InHand(n)).(queue := []);
    var t2 := Step(t1, Send(w));
    assert t2 == Put(t1, w, ToSignal(n)).(log := s.log + [n]);
    var t3 := Step(t2, Signal(w));
    assert t3.workers == s.workers && t3.calls[n].signalled && !Returned(t3, n);
  }

  /** While one worker holds `c`, another passes the next message of the same client, and the call returns. */
  lemma Overtakes(s: State, c: nat, v: nat, w: nat, client: nat) returns (actions: seq<Action>)
    requires Inv(s) && CanCall(s, client) && s.queue == []
    requires v < |s.workers| && w < |s.workers| && v != w && s.workers[v] == InHand(c) && s.workers[w].Free?
    ensures var n, t := |s.calls|, Run(s, actions);
      t.log == s.log + [n, c] && ReturnedOk(t, n) && t.calls[n].client == client
  {
    hide Inv, CanCall, Step;
    var n := |s.calls|;
    SubmitsToEmptyQueue(s, client);
    var s1 := Step(s, Submit(client));
    SendsTheOnlyMessage(s1, w, n);
    var s5 := Step(Step(Step(Step(s1, Take(w)), Send(w)), Signal(w)), Return(n));
    SendsItsMessage(s5, v, c);
    assert s.log + [n] + [c] == s.log + [n, c];
    assert Run(s, []) == s;
    actions := Extended(s, [], Submit(client));
    actions := Extended(s, actions, Take(w));
    actions := Extended(s, actions, Send(w));
    actions := Extended(s, actions, Signal(w));
    actions := Extended(s, actions, Return(n));
    actions := Extended(s, actions, Send(v));
  }

  lemma SubmitsToEmptyQueue(s: State, client: nat)
    requires CanCall(s, client) && s.queue == []
    ensures var n, t := |s.calls|, Step(s, Submit(client));
      && t.queue == [n] && t.workers == s.workers && t.log == s.log
      && |t.calls| == n + 1 && t.calls[n].client == client && !Returned(t, n)
  {}

  lemma SendsItsMessage(s: State, v: nat, c: nat)
    requires v < |s.workers| && s.workers[v] == InHand(c)
    ensures Step(s, Send(v)).log == s.log + [c] && Step(s, Send(v)).calls == s.calls
  {}

  lemma Extended(s: State, actions: seq<Action>, a: Action) returns (more: seq<Action>)
    ensures Run(s, more) == Step(Run(s, actions), a)
  {
    more := actions + [a];
    RunOneMore(s, actions, a);
  }

  lemma Twice(log: seq<nat>, p: nat, q: nat)
    requires p < q < |log| && log[p] == log[q]
    ensures multiset(log)[log[p]] >= 2
  {
    assert log == log[..p] + [log[p]] + log[p + 1..q] + [log[q]] + log[q + 1..];
  }

  lemma OnceInLog(s: State, p: nat, q: nat)
    requires Placed(s) && p < |s.log| && q < |s.log| && s.log[p] == s.log[q]
    ensures p == q
  {
    PlacesAre(s, s.log[p]);
    hide Places, Hands;
    if p < q {
      Twice(s.log, p, q);
    } else if q < p {
      Twice(s.log, q, p);
    }
  }

  /** The message `n` was sent before `c`, and its call returned `Ok`. */
  ghost predicate Overtaken(s: State, n: nat, c: nat) {
    ReturnedOk(s, n) && exists p, q :: 0 <= p < q < |s.log| && s.log[p] == n && s.log[q] == c
  }

  /** What is in the log already is not overtaken by a later call, in any continuation. */
  lemma SentIsNotOvertaken(s: State, c: nat, actions: seq<Action>)
    requires Inv(s) && c in s.log
    ensures !Overtaken(Run(s, actions), |s.calls|, c)
  {
    var t, n := Run(s, actions), |s.calls|;
    InvLasts(s, actions);
    LogOnlyGrows(s, actions);
    hide Run;
    var r :| 0 <= r < |s.log| && s.log[r] == c;
    if p, q :| 0 <= p < q < |t.log| && t.log[p] == n && t.log[q] == c {
      assert t.log[r] == c;
      OnceInLog(t, r, q);
      LogIsAccepted(s, p);
    }
  }

  /** The exact order after a timeout: the client's next message can be sent, and acknowledged, before the one that
      timed out exactly when that one has not been sent yet. */
  lemma TimedOutIsOvertakenExactly(s: State, c: nat)
    requires Inv(s) && c < |s.calls| && Returned(s, c) && s.calls[c].progress.outcome == TimedOut
    requires CanCall(s, s.calls[c].client)
    ensures (exists actions :: OvertakenAfter(s, actions, c)) <==> c !in s.log
  {
    if c in s.log {
      forall actions ensures !OvertakenAfter(s, actions, c) { SentIsNotOvertaken(s, c, actions); }
    } else {
      var client := s.calls[c].client;
      var drain := DrainsAllBut(s, c);
      var t := Run(s, drain);
      assert CanCall(t, client) && |t.calls| == |s.calls|;
      var v := HolderOf(t, c);
      var w := AnotherFree(t, v, c);
      var pass := Overtakes(t, c, v, w, client);
      RunConcat(s, drain, pass);
      var u := Run(s, drain + pass);
      hide *;
      assert u.log[|t.log|] == |s.calls| && u.log[|t.log| + 1] == c;
      OvertakenIs(s, drain + pass, c, |t.log|);
    }
  }

  /** A timeout can come before any worker has taken the message. */
  lemma TimeoutCanComeFirst(s: State, client: nat)
    requires Init(s)
    ensures var t := Run(s, [Submit(client), TimeOut(0)]);
      && Inv(t) && |t.calls| == 1 && t.calls[0].client == client && CanCall(t, client)
      && Returned(t, 0) && t.calls[0].progress.outcome == TimedOut && 0 !in t.log
  {
    RunKeepsInv(s, [Submit(client), TimeOut(0)]);
    hide Inv;
    var t1 := Step(s, Submit(client));
    assert |t1.calls| == 1 && !Returned(t1, 0) && t1.log == [];
    RunOneMore(s, [], Submit(client));
    RunOneMore(s, [Submit(client)], TimeOut(0));
    assert [] + [Submit(client)] == [Submit(client)];
    assert [Submit(client)] + [TimeOut(0)] == [Submit(client), TimeOut(0)];
  }

  /** In the continuation the next call is of the same client as `c` and overtakes it. */
  ghost predicate OvertakenAfter(s: State, actions: seq<Action>, c: nat)
    requires c < |s.calls|
  {
    var t, n := Run(s, actions), |s.calls|;
    Overtaken(t, n, c) && t.calls[n].client == s.calls[c].client
  }

  lemma OvertakenIs(s: State, actions: seq<Action>, c: nat, p: nat)
    requires c < |s.calls|
    requires var t, n := Run(s, actions), |s.calls|;
      && p + 1 < |t.log| && t.log[p] == n && t.log[p + 1] == c
      && ReturnedOk(t, n) && t.calls[n].client == s.calls[c].client
    ensures OvertakenAfter(s, actions, c)
  {}

  lemma HolderOf(s: State, c: nat) returns (v: nat)
    requires Placed(s) && Accepted(s, c) && c !in s.log && s.queue == []
    ensures v < |s.workers| && s.workers[v] == InHand(c)
  {
    PlacesAre(s, c);
    v := SomeHand(s.workers, c);
  }

  lemma AnotherFree(s: State, v: nat, c: nat) returns (w: nat)
    requires Inv(s) && v < |s.workers| && s.workers[v] == InHand(c)
    requires forall w :: 0 <= w < |s.workers| ==> !IsOther(s.workers[w], c)
    ensures w < |s.workers| && w != v && s.workers[w].Free?
  {
    w := if v == 0 then 1 else 0;
    PlacesAre(s, c);
    if !s.workers[w].Free? {
      if v < w { TwoHands(s.workers, v, w, c); } else { TwoHands(s.workers, w, v, c); }
    }
  }
}
