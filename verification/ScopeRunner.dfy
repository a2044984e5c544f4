// The ScopeRunner of utility.hpp: any number of calls of continue_lock and stop that interleave
// at their atomic operations on one counter. Compare-and-swap may fail for no reason.
module ScopeRunner {

  // Where a call stands. A lock is live from the swap that takes it to its destructor.
  datatype Call =
    | Entering                   // continue_lock, before it loads the count
    | Expecting(expected: int)   // continue_lock, about to test what it expects and to swap
    | Refused                    // continue_lock, returned null
    | Live                       // continue_lock, returned a lock
    | Released                   // the lock was destroyed
    | Trying                     // stop, about to swap 0 for -1
    | Failing(actual: int)       // stop, about to test what the failed swap found
    | Stopped                    // stop, returned

  datatype State = State(count: int, calls: seq<Call>)

  // Spurious says whether a swap in the step fails although it found what it expected.
  datatype Step = CallContinueLock | CallStop | Advance(i: nat, spurious: bool)

  const INITIAL := State(0, [])

  predicate Enabled(s: State, step: Step) {
    step.Advance? ==>
      step.i < |s.calls| && !s.calls[step.i].Refused? && !s.calls[step.i].Released? && !s.calls[step.i].Stopped?
  }

  function Next(s: State, step: Step): State
    requires Enabled(s, step)
  {
    match step
    case CallContinueLock => State(s.count, s.calls + [Entering])
    case CallStop => State(s.count, s.calls + [Trying])
    case Advance(i, spurious) =>
      match s.calls[i]
      case Entering => State(s.count, s.calls[i := Expecting(s.count)])
      case Expecting(expected) =>
        if expected < 0 then State(s.count, s.calls[i := Refused])
        else if s.count == expected && !spurious then State(expected + 1, s.calls[i := Live])
        else State(s.count, s.calls[i := Expecting(s.count)])
      case Live => State(s.count - 1, s.calls[i := Released])
      case Trying =>
        if s.count == 0 && !spurious then State(-1, s.calls[i := Stopped])
        else State(s.count, s.calls[i := Failing(s.count)])
      case Failing(actual) =>
        if actual < 0 then State(s.count, s.calls[i := Stopped])
        else State(s.count, s.calls[i := Trying])
  }

  // ---- Locks that are live ----

  function Lives(calls: seq<Call>): nat {
    if calls == [] then 0 else Lives(calls[..|calls| - 1]) + if calls[|calls| - 1].Live? then 1 else 0
  }

  lemma LivesSnoc(calls: seq<Call>, call: Call)
    ensures Lives(calls + [call]) == Lives(calls) + if call.Live? then 1 else 0
  {
    assert (calls + [call])[..|calls|] == calls;
  }

  lemma {:induction false} LivesUpdate(calls: seq<Call>, i: nat, call: Call)
    requires i < |calls|
    ensures Lives(calls[i := call]) ==
            Lives(calls) - (if calls[i].Live? then 1 else 0) + if call.Live? then 1 else 0
  {
    var init := calls[..|calls| - 1];
    if i == |init| {
      assert calls[i := call][..i] == init;
    } else {
      LivesUpdate(init, i, call);
      assert calls[i := call][..|init|] == init[i := call];
    }
  }

  lemma {:induction false} NoneLive(calls: seq<Call>)
    ensures Lives(calls) == 0 <==> forall i | 0 <= i < |calls| :: !calls[i].Live?
  {
    if calls != [] {
      var init := calls[..|calls| - 1];
      NoneLive(init);
      assert forall i | 0 <= i < |init| :: init[i] == calls[i];
    }
  }

  // ---- The invariant ----

  // A call that has seen -1, or made it so.
  predicate HasSeenStop(call: Call) {
    call.Stopped? || (call.Expecting? && call.expected < 0) || (call.Failing? && call.actual < 0) || call.Refused?
  }

  // Either the count is the number of live locks, or it is -1 and no lock is live.
  predicate Invariant(s: State) {
    && (s.count == Lives(s.calls) || (s.count == -1 && Lives(s.calls) == 0))
    && ((exists i | 0 <= i < |s.calls| :: HasSeenStop(s.calls[i])) ==> s.count == -1)
  }

  lemma StepKeepsInvariant(s: State, step: Step)
    requires Invariant(s) && Enabled(s, step)
    ensures Invariant(Next(s, step))
    ensures s.count == -1 ==> Next(s, step).count == -1
  {
    var t := Next(s, step);
    match step
    case CallContinueLock => LivesSnoc(s.calls, Entering);
    case CallStop => LivesSnoc(s.calls, Trying);
    case Advance(i, _) =>
      LivesUpdate(s.calls, i, t.calls[i]);
      NoneLive(s.calls);
    forall i | 0 <= i < |t.calls| && HasSeenStop(t.calls[i])
      ensures t.count == -1
    {
      assert i < |s.calls| && s.calls[i] == t.calls[i] ==> HasSeenStop(s.calls[i]);
    }
  }

  // ---- Runs ----

  predicate IsRun(states: seq<State>, steps: seq<Step>) {
    && |states| == |steps| + 1 && states[0] == INITIAL
    && forall k | 0 <= k < |steps| :: Enabled(states[k], steps[k]) && states[k + 1] == Next(states[k], steps[k])
  }

  lemma {:induction false} RunKeepsInvariant(states: seq<State>, steps: seq<Step>, k: nat)
    requires IsRun(states, steps) && k < |states|
    ensures Invariant(states[k])
    decreases k
  {
    if k > 0 {
      RunKeepsInvariant(states, steps, k - 1);
      StepKeepsInvariant(states[k - 1], steps[k - 1]);
    }
  }

  lemma {:induction false} StaysStopped(states: seq<State>, steps: seq<Step>, from: nat, k: nat)
    requires IsRun(states, steps) && from <= k < |states| && states[from].count == -1
    ensures states[k].count == -1 && |states[from].calls| <= |states[k].calls|
    decreases k
  {
    if k > from {
      StaysStopped(states, steps, from, k - 1);
      RunKeepsInvariant(states, steps, k - 1);
      StepKeepsInvariant(states[k - 1], steps[k - 1]);
    }
  }

  // In every state of every run, the count is the number of live locks, or -1 with none live.
  lemma CountIsLives(states: seq<State>, steps: seq<Step>, k: nat)
    requires IsRun(states, steps) && k < |states|
    ensures var s := states[k];
            || s.count == Lives(s.calls)
            || (s.count == -1 && forall i | 0 <= i < |s.calls| :: !s.calls[i].Live?)
  {
    RunKeepsInvariant(states, steps, k);
    NoneLive(states[k].calls);
  }

  // Once a stop has returned no lock is live, and no continue_lock gets one any more: those
  // under way and those that come later have returned null or have still to return.
  lemma StopExcludes(states: seq<State>, steps: seq<Step>, from: nat, stopper: nat, k: nat, i: nat)
    requires IsRun(states, steps) && from <= k < |states|
    requires stopper < |states[from].calls| && states[from].calls[stopper].Stopped?
    requires i < |states[k].calls|
    ensures states[k].count == -1 && !states[k].calls[i].Live?
    ensures i >= |states[from].calls| ==> !states[k].calls[i].Released?
  {
    RunKeepsInvariant(states, steps, from);
    assert HasSeenStop(states[from].calls[stopper]);
    StaysStopped(states, steps, from, k);
    RunKeepsInvariant(states, steps, k);
    NoneLive(states[k].calls);
    if i >= |states[from].calls| {
      LaterCallsHoldNothing(states, steps, from, k, i);
    }
  }

  lemma {:induction false} LaterCallsHoldNothing(states: seq<State>, steps: seq<Step>, from: nat, k: nat, i: nat)
    requires IsRun(states, steps) && from <= k < |states| && states[from].count == -1
    requires |states[from].calls| <= i < |states[k].calls|
    ensures !states[k].calls[i].Live? && !states[k].calls[i].Released?
    decreases k
  {
    StaysStopped(states, steps, from, k);
    RunKeepsInvariant(states, steps, k);
    NoneLive(states[k].calls);
    if k > from && i < |states[k - 1].calls| {
      LaterCallsHoldNothing(states, steps, from, k - 1, i);
    }
  }

  // stop does not return before the locks are released, and it returns null only after a stop.
  lemma RefusalMeansStop(states: seq<State>, steps: seq<Step>, k: nat, i: nat)
    requires IsRun(states, steps) && k < |states| && i < |states[k].calls|
    requires states[k].calls[i].Refused?
    ensures exists j, stopper :: 0 <= j <= k && WasStopped(states[j], stopper)
    decreases k
  {
    RunKeepsInvariant(states, steps, k);
    assert HasSeenStop(states[k].calls[i]);
    CountComesFromStop(states, steps, k);
  }

  predicate WasStopped(s: State, stopper: int) {
    0 <= stopper < |s.calls| && s.calls[stopper].Stopped?
  }

  lemma {:induction false} CountComesFromStop(states: seq<State>, steps: seq<Step>, k: nat)
    requires IsRun(states, steps) && k < |states| && states[k].count == -1
    ensures exists j, stopper :: 0 <= j <= k && WasStopped(states[j], stopper)
    decreases k
  {
    assert k > 0;
    RunKeepsInvariant(states, steps, k - 1);
    if states[k - 1].count == -1 {
      CountComesFromStop(states, steps, k - 1);
    } else {
      var i := steps[k - 1].i;
      LivesUpdate(states[k - 1].calls, i, states[k].calls[i]);
      NoneLive(states[k - 1].calls);
      assert WasStopped(states[k], i);
    }
  }

  // ---- Progress ----

  // Whether a step is one of the call's own.
  function Own(step: Step, i: nat): nat {
    if step.Advance? && step.i == i then 1 else 0
  }

  function OwnSteps(steps: seq<Step>, i: nat, from: nat, k: nat): nat
    requires from <= k <= |steps|
    decreases k
  {
    if k == from then 0 else OwnSteps(steps, i, from, k - 1) + Own(steps[k - 1], i)
  }

  lemma RunStep(states: seq<State>, steps: seq<Step>, k: nat)
    requires IsRun(states, steps) && k + 1 < |states|
    ensures k < |steps| && Enabled(states[k], steps[k]) && states[k + 1] == Next(states[k], steps[k])
  {
  }

  // A continue_lock that has not got a lock, and how many of its own steps it is from null once
  // the count is -1.
  predicate IsEntering(call: Call) {
    call.Entering? || call.Expecting? || call.Refused?
  }

  function Distance(call: Call): nat {
    match call
    case Entering => 2
    case Expecting(expected) => if expected < 0 then 1 else 2
    case _ => 0
  }

  lemma RefusedSooner(s: State, step: Step, i: nat)
    requires Invariant(s) && s.count == -1 && Enabled(s, step)
    requires i < |s.calls| && IsEntering(s.calls[i])
    ensures i < |Next(s, step).calls| && IsEntering(Next(s, step).calls[i])
    ensures Distance(Next(s, step).calls[i]) + Own(step, i) == Distance(s.calls[i])
  {
  }

  // After a stop, a continue_lock that is under way, or comes later, returns null in at most two
  // of its own steps, whatever it expected, whatever the swaps do and however the other calls
  // interleave.
  lemma {:induction false} RefusedSoon(states: seq<State>, steps: seq<Step>, from: nat, k: nat, i: nat)
    requires IsRun(states, steps) && from <= k < |states| && states[from].count == -1
    requires i < |states[from].calls| && IsEntering(states[from].calls[i])
    ensures i < |states[k].calls| && IsEntering(states[k].calls[i])
    ensures Distance(states[k].calls[i]) + OwnSteps(steps, i, from, k) == Distance(states[from].calls[i])
    ensures Distance(states[k].calls[i]) == 0 <==> states[k].calls[i].Refused?
    decreases k
  {
    hide Next, Enabled, Invariant, IsRun, Own;
    if k > from {
      RefusedSoon(states, steps, from, k - 1, i);
      RunKeepsInvariant(states, steps, k - 1);
      StaysStopped(states, steps, from, k - 1);
      RunStep(states, steps, k - 1);
      RefusedSooner(states[k - 1], steps[k - 1], i);
    }
  }

  // A stop that has been called, and how many of its own steps it is from returning while no
  // lock is live.
  predicate IsStopping(call: Call) {
    call.Trying? || call.Failing?
  }

  function StopDistance(call: Call): nat {
    match call
    case Failing(actual) => if actual < 0 then 1 else 3
    case Trying => 2
    case _ => 0
  }

  lemma StopsSooner(s: State, step: Step, i: nat)
    requires Invariant(s) && Lives(s.calls) == 0 && Enabled(s, step)
    requires Own(step, i) == 1 ==> !step.spurious
    requires i < |s.calls| && (IsStopping(s.calls[i]) || s.calls[i].Stopped?)
    ensures i < |Next(s, step).calls|
    ensures var call := Next(s, step).calls[i];
            (IsStopping(call) || call.Stopped?) && StopDistance(call) + Own(step, i) <= StopDistance(s.calls[i])
  {
  }

  // While no lock is live and its own swaps do not fail spuriously, a stop returns in at most
  // three of its own steps.
  lemma {:induction false} StopsSoon(states: seq<State>, steps: seq<Step>, from: nat, k: nat, i: nat)
    requires IsRun(states, steps) && from <= k < |states|
    requires i < |states[from].calls| && (IsStopping(states[from].calls[i]) || states[from].calls[i].Stopped?)
    requires forall j | from <= j < k :: Lives(states[j].calls) == 0 && (Own(steps[j], i) == 1 ==> !steps[j].spurious)
    ensures i < |states[k].calls| && (IsStopping(states[k].calls[i]) || states[k].calls[i].Stopped?)
    ensures StopDistance(states[k].calls[i]) + OwnSteps(steps, i, from, k) <= StopDistance(states[from].calls[i]) <= 3
    ensures StopDistance(states[k].calls[i]) == 0 <==> states[k].calls[i].Stopped?
    decreases k
  {
    hide Next, Enabled, Invariant, IsRun, Own, Lives;
    if k > from {
      StopsSoon(states, steps, from, k - 1, i);
      RunKeepsInvariant(states, steps, k - 1);
      RunStep(states, steps, k - 1);
      StopsSooner(states[k - 1], steps[k - 1], i);
    }
  }

  lemma StopGoesOn(s: State, step: Step, i: nat)
    requires Invariant(s) && Lives(s.calls) > 0 && Enabled(s, step)
    requires i < |s.calls| && IsStopping(s.calls[i])
    ensures i < |Next(s, step).calls| && IsStopping(Next(s, step).calls[i])
  {
    assert HasSeenStop(s.calls[i]) ==> s.count == -1;
  }

  // Until the last lock is released, a stop goes on trying.
  lemma {:induction false} StopWaits(states: seq<State>, steps: seq<Step>, from: nat, k: nat, i: nat)
    requires IsRun(states, steps) && from <= k < |states|
    requires i < |states[from].calls| && IsStopping(states[from].calls[i])
    requires forall j | from <= j < k :: Lives(states[j].calls) > 0
    ensures i < |states[k].calls| && IsStopping(states[k].calls[i])
    decreases k
  {
    hide Next, Enabled, Invariant, IsRun, Lives, IsStopping;
    if k > from {
      StopWaits(states, steps, from, k - 1, i);
      RunKeepsInvariant(states, steps, k - 1);
      RunStep(states, steps, k - 1);
      StopGoesOn(states[k - 1], steps[k - 1], i);
    }
  }
}
