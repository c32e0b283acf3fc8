/** The capacity limiter of a device: a counter changed by compare-and-swap loops, first as an object whose
    calls are serialised by a mutex, then as a machine in which any number of threads interleave. */
module OperationQueue {
  import opened Basics

  const MAX_CAS_RETRIES: nat := 100

  /** The limiter behind its mutex. */
  class OperationQueue<T> {
    var pending: seq<T>
    var inFlight: nat
    const maxInFlight: nat

    /** Everything ever pushed and popped, and how often capacity was taken and given back. */
    ghost var pushed: seq<T>
    ghost var popped: seq<T>
    ghost var acquired: nat
    ghost var completed: nat

    ghost predicate Valid()
      reads this
    {
      && inFlight <= maxInFlight
      && pushed == popped + pending
      && completed <= acquired && inFlight == acquired - completed
    }

    constructor (maxInFlight: nat)
      ensures Valid() && this.maxInFlight == maxInFlight
      ensures pushed == [] && acquired == 0
    {
      this.maxInFlight := maxInFlight;
      pending, inFlight := [], 0;
      pushed, popped, acquired, completed := [], [], 0, 0;
    }

    method CompareExchange(current: nat, next: nat) returns (ok: bool)
      modifies `inFlight
      ensures ok <==> old(inFlight) == current
      ensures inFlight == if ok then next else old(inFlight)
    {
      ok := inFlight == current;
      if ok { inFlight := next; }
    }

    method Push(op: T)
      requires Valid()
      modifies `pending, `pushed
      ensures Valid() && pending == old(pending) + [op] && pushed == old(pushed) + [op]
    {
      pending := pending + [op];
      pushed := pushed + [op];
    }

    // The loops below retry a failed swap up to MAX_CAS_RETRIES times. Behind the mutex the first swap
    // succeeds (`CasLimiter.AloneTheFirstSwapSucceeds`), which is what their invariants say of `attempt`.

    /** Takes the oldest pending operation when there is one and capacity for it; otherwise nothing changes. */
    method PopIfReady() returns (op: Option<T>)
      requires Valid()
      modifies this
      ensures Valid() && pushed == old(pushed)
      ensures op.Some? <==> old(inFlight) < maxInFlight && old(pending) != []
      ensures op.Some? ==> op.value == old(pending)[0] && popped == old(popped) + [op.value]
                           && acquired == old(acquired) + 1 && completed == old(completed)
      ensures op.None? ==> pending == old(pending) && inFlight == old(inFlight) && popped == old(popped)
    {
      op := None;
      var attempt: int, finished := 0, false;
      while !finished && attempt < MAX_CAS_RETRIES
        invariant Valid() && pushed == old(pushed) && completed == old(completed)
        invariant !finished ==> attempt == 0 && op.None? && inFlight == old(inFlight) && acquired == old(acquired)
                                && pending == old(pending) && popped == old(popped)
        invariant finished ==> (op.Some? <==> old(inFlight) < maxInFlight && old(pending) != [])
        invariant op.Some? ==> op.value == old(pending)[0] && popped == old(popped) + [op.value]
                               && acquired == old(acquired) + 1
        invariant op.None? ==> pending == old(pending) && inFlight == old(inFlight) && popped == old(popped)
      {
        var current := inFlight;
        if current >= maxInFlight {
          finished := true;
        } else {
          var swapped := CompareExchange(current, current + 1);
          if swapped {
            if pending != [] {
              op := Some(pending[0]);
              popped, pending := popped + [pending[0]], pending[1..];
              acquired := acquired + 1;
            } else {
              inFlight := inFlight - 1;
            }
            finished := true;
          } else {
            attempt := attempt + 1;
          }
        }
      }
    }

    /** Takes capacity exactly when some is left. */
    method TryAcquireAtomic() returns (ok: bool)
      requires Valid()
      modifies `inFlight, `acquired
      ensures Valid()
      ensures ok <==> old(inFlight) < maxInFlight
      ensures acquired == old(acquired) + if ok then 1 else 0
    {
      ok := false;
      var attempt: int, finished := 0, false;
      while !finished && attempt < MAX_CAS_RETRIES
        invariant Valid() && acquired == old(acquired) + if ok then 1 else 0
        invariant !finished ==> attempt == 0 && !ok && inFlight == old(inFlight)
        invariant finished ==> (ok <==> old(inFlight) < maxInFlight)
      {
        var current := inFlight;
        if current >= maxInFlight {
          finished := true;
        } else {
          ok := CompareExchange(current, current + 1);
          if ok {
            acquired := acquired + 1;
            finished := true;
          } else {
            attempt := attempt + 1;
          }
        }
      }
    }

    /** Gives capacity back; at zero it does nothing. */
    method Complete()
      requires Valid()
      modifies `inFlight, `completed
      ensures Valid()
      ensures completed == old(completed) + if old(inFlight) > 0 then 1 else 0
    {
      var attempt: int, finished := 0, false;
      while !finished && attempt < MAX_CAS_RETRIES
        invariant Valid()
        invariant !finished ==> attempt == 0 && inFlight == old(inFlight) && completed == old(completed)
        invariant finished ==> completed == old(completed) + if old(inFlight) > 0 then 1 else 0
      {
        var current := inFlight;
        if current == 0 {
          finished := true;
        } else {
          var swapped := CompareExchange(current, current - 1);
          if swapped {
            completed := completed + 1;
            finished := true;
          } else {
            attempt := attempt + 1;
          }
        }
      }
    }
  }
}

/** The same loops run by any number of threads at once, one atomic access per step. */
module CasLimiter {
  import opened OQ = OperationQueue

  datatype Call = Acquire | Complete

  /** Where a thread is. `begun` counts the changes by other threads before its call, `lost` its failed attempts;
      `loaded` is the counter it read and `at` the number of changes then. */
  datatype Thread =
    | Idle
    | AboutToLoad(call: Call, begun: int, lost: nat)
    | AboutToSwap(call: Call, begun: int, lost: nat, loaded: nat, at: nat)
    | Returned(call: Call, begun: int, result: Result)

  /** How a call ends: it changed the counter, it saw the counter at its bound, or it gave up. */
  datatype Result = Changed | AtBound | GaveUp

  /** `taken` and `given` count the successful swaps of each kind, `made` those of each thread. */
  datatype State = State(max: nat, inFlight: nat, taken: nat, given: nat, made: seq<nat>, threads: seq<Thread>)
  {
    predicate Shaped() { |made| == |threads| }

    function Changes(): nat { taken + given }

    /** The changes made by threads other than `i`. */
    function ByOthers(i: nat): int
      requires Shaped() && i < |threads|
    {
      Changes() - made[i]
    }
  }

  predicate Init(s: State) {
    && s.Shaped() && s.inFlight == 0 && s.taken == 0 && s.given == 0
    && forall i :: 0 <= i < |s.threads| ==> s.threads[i] == Idle && s.made[i] == 0
  }

  function Set(s: State, i: nat, t: Thread): State
    requires i < |s.threads|
  {
    s.(threads := s.threads[i := t])
  }

  /** A successful swap. */
  function Swapped(s: State, i: nat, c: Call): State
    requires s.Shaped() && i < |s.threads|
  {
    var made := s.made[i := s.made[i] + 1];
    if c == Acquire then s.(inFlight := s.inFlight + 1, taken := s.taken + 1, made := made)
    else s.(inFlight := if s.inFlight > 0 then s.inFlight - 1 else 0, given := s.given + 1, made := made)
  }

  /** The next atomic access of thread `i`, or the start of a call by an idle thread. */
  function Step(s: State, i: nat, call: Call): (t: State)
    requires s.Shaped() && i < |s.threads|
    ensures t.Shaped() && |t.threads| == |s.threads| && t.max == s.max
  {
    match s.threads[i]
    case Idle => Set(s, i, AboutToLoad(call, s.ByOthers(i), 0))
    case Returned(_, _, _) => Set(s, i, Idle)
    case AboutToLoad(c, begun, lost) =>
      if lost >= MAX_CAS_RETRIES then Set(s, i, Returned(c, begun, GaveUp))
      else if (c == Acquire && s.inFlight >= s.max) || (c == Complete && s.inFlight == 0)
      then Set(s, i, Returned(c, begun, AtBound))
      else Set(s, i, AboutToSwap(c, begun, lost, s.inFlight, s.Changes()))
    case AboutToSwap(c, begun, lost, loaded, at) =>
      if s.inFlight == loaded
      then Set(Swapped(s, i, c), i, Returned(c, begun, Changed))
      else Set(s, i, AboutToLoad(c, begun, lost + 1))
  }

  predicate ThreadOk(s: State, i: nat)
    requires s.Shaped() && i < |s.threads|
  {
    match s.threads[i]
    case Idle => true
    case AboutToLoad(_, begun, lost) => lost <= MAX_CAS_RETRIES && begun + lost <= s.ByOthers(i)
    case AboutToSwap(c, begun, lost, loaded, at) =>
      && lost < MAX_CAS_RETRIES && begun + lost + s.made[i] <= at <= s.Changes()
      && (at == s.Changes() ==> s.inFlight == loaded)
      && (c == Acquire ==> loaded < s.max) && (c == Complete ==> 0 < loaded)
    case Returned(_, begun, result) => result == GaveUp ==> begun + MAX_CAS_RETRIES <= s.ByOthers(i)
  }

  predicate Inv(s: State) {
    && s.Shaped() && s.inFlight <= s.max && s.inFlight == s.taken - s.given
    && forall i :: 0 <= i < |s.threads| ==> ThreadOk(s, i)
  }

  /** A step moves thread `i` only; to the others it is a change of the counter, or nothing. */
  lemma OthersStayOk(s: State, i: nat, j: nat, call: Call)
    requires s.Shaped() && i < |s.threads| && j < |s.threads| && i != j && ThreadOk(s, j)
    ensures ThreadOk(Step(s, i, call), j)
  {
    assert Step(s, i, call).threads[j] == s.threads[j];
  }

  lemma StepKeepsInv(s: State, i: nat, call: Call)
    requires Inv(s) && i < |s.threads|
    ensures Inv(Step(s, i, call))
  {
    assert ThreadOk(s, i);
    var t := Step(s, i, call);
    assert ThreadOk(t, i) && t.inFlight <= t.max && t.inFlight == t.taken - t.given;
    hide Step;
    forall j | 0 <= j < |t.threads| && j != i ensures ThreadOk(t, j) { OthersStayOk(s, i, j, call); }
  }

  /** A schedule names the thread of every step and the call an idle thread starts. */
  function Run(s: State, schedule: seq<(nat, Call)>): State
    requires s.Shaped() && forall k :: 0 <= k < |schedule| ==> schedule[k].0 < |s.threads|
    ensures Run(s, schedule).Shaped()
    ensures |Run(s, schedule).threads| == |s.threads| && Run(s, schedule).max == s.max
  {
    if schedule == [] then s
    else
      var before := Run(s, schedule[..|schedule| - 1]);
      var (i, call) := schedule[|schedule| - 1];
      Step(before, i, call)
  }

  /** Over every run of any number of threads the counter stays in bounds and is the acquisitions that succeeded
      minus the completions that did, at every step; and a call that gives up, refusing spuriously or losing a
      completion, has had 100 changes made by other threads meanwhile. */
  lemma {:induction false} CasIsSafe(s: State, schedule: seq<(nat, Call)>)
    requires Init(s)
    requires forall k :: 0 <= k < |schedule| ==> schedule[k].0 < |s.threads|
    ensures var t := Run(s, schedule);
      && t.inFlight <= t.max && t.inFlight == t.taken - t.given
      && (forall i :: 0 <= i < |t.threads| && t.threads[i].Returned? && t.threads[i].result == GaveUp ==>
            t.ByOthers(i) - t.threads[i].begun >= 100)
    ensures Inv(Run(s, schedule))
  {
    if schedule == [] {
      assert forall i :: 0 <= i < |s.threads| ==> ThreadOk(s, i);
    } else {
      CasIsSafe(s, schedule[..|schedule| - 1]);
      var (i, call) := schedule[|schedule| - 1];
      StepKeepsInv(Run(s, schedule[..|schedule| - 1]), i, call);
    }
    var t := Run(s, schedule);
    forall i | 0 <= i < |t.threads| && t.threads[i].Returned? && t.threads[i].result == GaveUp
      ensures t.ByOthers(i) - t.threads[i].begun >= MAX_CAS_RETRIES
    {
      assert ThreadOk(t, i);
    }
  }

  /** A call during which no other thread moves, as behind the mutex, never retries: it changes the counter
      exactly when the counter is not at its bound. */
  lemma AloneTheFirstSwapSucceeds(s: State, i: nat, call: Call)
    requires Inv(s) && i < |s.threads| && s.threads[i] == Idle
    ensures var loaded := Step(Step(s, i, call), i, call);
      if (call == Acquire && s.inFlight >= s.max) || (call == Complete && s.inFlight == 0)
      then loaded == Set(s, i, Returned(call, s.ByOthers(i), AtBound))
      else Step(loaded, i, call) == Set(Swapped(s, i, call), i, Returned(call, s.ByOthers(i), Changed))
  {}

  // ---------------------------------------------------------------- a call can give up

  lemma RunOneMore(s: State, schedule: seq<(nat, Call)>, i: nat, call: Call) returns (more: seq<(nat, Call)>)
    requires s.Shaped() && (forall k :: 0 <= k < |schedule| ==> schedule[k].0 < |s.threads|) && i < |s.threads|
    ensures forall k :: 0 <= k < |more| ==> more[k].0 < |s.threads|
    ensures Run(s, more) == Step(Run(s, schedule), i, call)
  {
    more := schedule + [(i, call)];
    assert more[..|schedule|] == schedule;
  }

  /** Thread 0 is about to try again, and thread 1 is idle. */
  predicate Losing(s: State, lost: nat) {
    && s.Shaped() && |s.threads| >= 2 && s.max >= 2 && s.inFlight <= 1
    && s.threads[0] == AboutToLoad(Acquire, 0, lost) && s.threads[1] == Idle
    && s.made[0] == 0 && s.Changes() == lost
  }

  /** The next call of the other thread: what changes the counter and keeps it below two. */
  function Opposite(s: State): Call { if s.inFlight == 0 then Acquire else Complete }

  /** Between the load and the swap of thread 0 the other thread makes one call. */
  function LosesOnce(s: State): State
    requires s.Shaped() && |s.threads| >= 2
  {
    var call := Opposite(s);
    var t := Step(Step(Step(Step(s, 0, call), 1, call), 1, call), 1, call);
    Step(Step(t, 0, call), 1, call)
  }

  lemma LosesOneMore(s: State, lost: nat)
    requires Losing(s, lost) && lost < MAX_CAS_RETRIES
    ensures Losing(LosesOnce(s), lost + 1)
  {
    var call := Opposite(s);
    var s1 := Step(s, 0, call);
    assert s1 == Set(s, 0, AboutToSwap(Acquire, 0, lost, s.inFlight, lost));
    OtherCall(s1, call);
    hide Step;
    var s4 := Step(Step(Step(s1, 1, call), 1, call), 1, call);
    SwapFails(s4, lost, s.inFlight, call);
    Returns(Step(s4, 0, call), call);
  }

  /** A call of thread 1 that nobody disturbs. */
  lemma OtherCall(s: State, call: Call)
    requires s.Shaped() && |s.threads| >= 2 && s.threads[1] == Idle && s.inFlight <= 1 && s.max >= 2
    requires call == Opposite(s)
    ensures var t := Step(Step(Step(s, 1, call), 1, call), 1, call);
      && t.Shaped() && |t.threads| == |s.threads| && t.max == s.max && t.threads[0] == s.threads[0]
      && t.threads[1].Returned? && t.made[0] == s.made[0]
      && t.Changes() == s.Changes() + 1 && t.inFlight == 1 - s.inFlight
  {}

  lemma SwapFails(s: State, lost: nat, loaded: nat, call: Call)
    requires s.Shaped() && |s.threads| >= 2 && s.inFlight != loaded
    requires s.threads[0] == AboutToSwap(Acquire, 0, lost, loaded, lost)
    ensures Step(s, 0, call) == Set(s, 0, AboutToLoad(Acquire, 0, lost + 1))
  {}

  lemma Returns(s: State, call: Call)
    requires s.Shaped() && |s.threads| >= 2 && s.threads[1].Returned?
    ensures Step(s, 1, call) == Set(s, 1, Idle)
  {}

  lemma {:induction false} LosesOften(s: State, lost: nat) returns (schedule: seq<(nat, Call)>)
    requires Init(s) && |s.threads| >= 2 && s.max >= 2 && lost <= MAX_CAS_RETRIES
    ensures forall k :: 0 <= k < |schedule| ==> schedule[k].0 < |s.threads|
    ensures Losing(Run(s, schedule), lost)
  {
    if lost == 0 {
      assert Run(s, []) == s;
      schedule := RunOneMore(s, [], 0, Acquire);
    } else {
      var before := LosesOften(s, lost - 1);
      var u := Run(s, before);
      LosesOneMore(u, lost - 1);
      hide Step, Run, Losing, Init;
      var call := Opposite(u);
      schedule := RunOneMore(s, before, 0, call);
      schedule := RunOneMore(s, schedule, 1, call);
      schedule := RunOneMore(s, schedule, 1, call);
      schedule := RunOneMore(s, schedule, 1, call);
      schedule := RunOneMore(s, schedule, 0, call);
      schedule := RunOneMore(s, schedule, 1, call);
    }
  }

  /** The bound is tight: with two threads and room for two, a call that meets one change by the other thread at each
      of its attempts gives up after exactly 100, although there was capacity at each. */
  lemma GivesUpAfterHundredChanges(s: State) returns (schedule: seq<(nat, Call)>)
    requires Init(s) && |s.threads| >= 2 && s.max >= 2
    ensures forall k :: 0 <= k < |schedule| ==> schedule[k].0 < |s.threads|
    ensures var t := Run(s, schedule);
      t.threads[0] == Returned(Acquire, 0, GaveUp) && t.ByOthers(0) == 100 && t.inFlight < t.max
  {
    var before := LosesOften(s, MAX_CAS_RETRIES);
    schedule := RunOneMore(s, before, 0, Acquire);
  }
}
