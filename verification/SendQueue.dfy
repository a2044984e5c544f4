// The send queue of a WebSocket connection (client_ws.hpp, and the same in server_ws.hpp): calls
// of send and completions of writes that interleave under one mutex, and callbacks that are
// called once the mutex is free again.
module SendQueue {

  // A callback to be called, or called, with the outcome of the write.
  datatype Callback = Callback(id: nat, ok: bool)

  // Messages are numbered in the order in which send enqueues them. Next to the queue, the state
  // holds what is outside it: the writes in flight, those started so far, and the completion
  // handlers that still have callbacks to call. The outcomes are those of the messages that
  // have left the queue.
  datatype State = State(
    wanted: seq<bool>,            // for each message sent, whether it has a callback
    queue: seq<nat>,
    inFlight: seq<nat>,
    wire: seq<nat>,
    handlers: seq<seq<Callback>>,
    called: seq<Callback>,
    outcomes: seq<bool>,
    stopped: bool)

  const INITIAL := State([], [], [], [], [], [], [], false)

  datatype Step = Send(hasCallback: bool) | Written(w: nat, ok: bool) | Call(h: nat) | Stop

  // The runner stops only while no handler holds its lock.
  predicate Enabled(s: State, step: Step) {
    match step
    case Send(_) => true
    case Written(w, _) => w < |s.inFlight| && (s.stopped || s.queue != [])
    case Call(h) => h < |s.handlers| && s.handlers[h] != []
    case Stop => forall h | 0 <= h < |s.handlers| :: s.handlers[h] == []
  }

  function Started(s: State): State
    requires s.queue != []
  {
    s.(inFlight := s.inFlight + [s.queue[0]], wire := s.wire + [s.queue[0]])
  }

  // The callbacks of the given messages that have one.
  function Wanted(wanted: seq<bool>, ids: seq<nat>, ok: bool): seq<Callback> {
    if ids == [] then []
    else
      var id := ids[|ids| - 1];
      Wanted(wanted, ids[..|ids| - 1], ok) + if id < |wanted| && wanted[id] then [Callback(id, ok)] else []
  }

  // The handler of a write: one message leaves the queue, or all do after an error.
  function Complete(s: State, ok: bool): State
    requires s.queue != []
  {
    var gone := if ok then 1 else |s.queue|;
    var t := s.(queue := s.queue[gone..],
                handlers := s.handlers + [Wanted(s.wanted, s.queue[..gone], ok)],
                outcomes := s.outcomes + seq(gone, _ => ok));
    if t.queue != [] then Started(t) else t
  }

  function Next(s: State, step: Step): State
    requires Enabled(s, step)
  {
    match step
    case Send(hasCallback) =>
      var t := s.(queue := s.queue + [|s.wanted|], wanted := s.wanted + [hasCallback]);
      if |t.queue| == 1 then Started(t) else t
    case Written(w, ok) =>
      var t := s.(inFlight := s.inFlight[..w] + s.inFlight[w + 1..]);
      if s.stopped then t else Complete(t, ok)
    case Call(h) =>
      s.(handlers := s.handlers[h := s.handlers[h][1..]], called := s.called + [s.handlers[h][0]])
    case Stop => s.(stopped := true)
  }

  // ---- Counting callbacks ----

  function Count(calls: seq<Callback>, id: nat): nat {
    if calls == [] then 0 else Count(calls[..|calls| - 1], id) + if calls[|calls| - 1].id == id then 1 else 0
  }

  function CountAll(handlers: seq<seq<Callback>>, id: nat): nat {
    if handlers == [] then 0 else CountAll(handlers[..|handlers| - 1], id) + Count(handlers[|handlers| - 1], id)
  }

  lemma CountSnoc(calls: seq<Callback>, call: Callback, id: nat)
    ensures Count(calls + [call], id) == Count(calls, id) + if call.id == id then 1 else 0
  {
    assert (calls + [call])[..|calls|] == calls;
  }

  lemma {:induction false} CountFirst(calls: seq<Callback>, id: nat)
    requires calls != []
    ensures Count(calls, id) == Count(calls[1..], id) + if calls[0].id == id then 1 else 0
  {
    var init := calls[..|calls| - 1];
    if init != [] {
      CountFirst(init, id);
      assert calls[1..][..|calls| - 2] == init[1..];
    }
  }

  lemma CountAllSnoc(handlers: seq<seq<Callback>>, handler: seq<Callback>, id: nat)
    ensures CountAll(handlers + [handler], id) == CountAll(handlers, id) + Count(handler, id)
  {
    assert (handlers + [handler])[..|handlers|] == handlers;
  }

  lemma {:induction false} CountAllUpdate(handlers: seq<seq<Callback>>, h: nat, handler: seq<Callback>, id: nat)
    requires h < |handlers|
    ensures CountAll(handlers[h := handler], id) == CountAll(handlers, id) - Count(handlers[h], id) + Count(handler, id)
  {
    var init := handlers[..|handlers| - 1];
    if h == |init| {
      assert handlers[h := handler][..h] == init;
    } else {
      CountAllUpdate(init, h, handler, id);
      assert handlers[h := handler][..|init|] == init[h := handler];
    }
  }

  lemma {:induction false} CountAllNone(handlers: seq<seq<Callback>>, id: nat)
    requires forall h | 0 <= h < |handlers| :: handlers[h] == []
    ensures CountAll(handlers, id) == 0
  {
    if handlers != [] {
      CountAllNone(handlers[..|handlers| - 1], id);
    }
  }

  lemma {:induction false} WantedCount(wanted: seq<bool>, start: nat, n: nat, ok: bool, id: nat)
    requires start + n <= |wanted|
    ensures Count(Wanted(wanted, Ids(start, n), ok), id) ==
            if start <= id < start + n && wanted[id] then 1 else 0
    decreases n
  {
    if n == 0 {
      assert Ids(start, n) == [];
    } else {
      var last := start + n - 1;
      var init := Wanted(wanted, Ids(start, n - 1), ok);
      WantedCount(wanted, start, n - 1, ok, id);
      assert Ids(start, n)[..n - 1] == Ids(start, n - 1);
      CountSnoc(init, Callback(last, ok), id);
      assert init + [] == init;
      assert Wanted(wanted, Ids(start, n), ok) == init + if wanted[last] then [Callback(last, ok)] else [];
    }
  }

  lemma {:induction false} WantedOutcome(wanted: seq<bool>, ids: seq<nat>, ok: bool, k: nat)
    requires k < |Wanted(wanted, ids, ok)|
    ensures Wanted(wanted, ids, ok)[k].id in ids && Wanted(wanted, ids, ok)[k].ok == ok
  {
    var init := ids[..|ids| - 1];
    if k < |Wanted(wanted, init, ok)| {
      WantedOutcome(wanted, init, ok, k);
    }
  }

  // ---- The invariant ----

  function Ids(start: nat, n: nat): (ids: seq<nat>)
    ensures |ids| == n
  {
    seq(n, i requires 0 <= i < n => start + i)
  }

  // The messages in the queue are the last ones sent, in order.
  predicate InOrder(s: State) {
    |s.wanted| == |s.outcomes| + |s.queue| && s.queue == Ids(|s.outcomes|, |s.queue|)
  }

  // One write is in flight exactly when the queue is not empty: that of its first message.
  predicate OneInFlight(s: State) {
    && (!s.stopped ==> s.inFlight == if s.queue == [] then [] else [s.queue[0]])
    && (s.stopped ==> s.inFlight == [] || (s.queue != [] && s.inFlight == [s.queue[0]]))
  }

  // Writes start in the order of send, and every message that succeeded was written.
  predicate WireInOrder(s: State) {
    && (forall i, j | 0 <= i < j < |s.wire| :: s.wire[i] < s.wire[j])
    && (forall i | 0 <= i < |s.wire| :: s.wire[i] < |s.outcomes| + if s.queue == [] then 0 else 1)
    && (forall id | 0 <= id < |s.outcomes| && s.outcomes[id] :: id in s.wire)
    && (s.queue != [] ==> s.wire != [] && s.wire[|s.wire| - 1] == s.queue[0])
  }

  predicate IsOutcome(s: State, call: Callback) {
    call.id < |s.outcomes| && s.outcomes[call.id] == call.ok
  }

  predicate TrueOutcomes(s: State) {
    && (forall k | 0 <= k < |s.called| :: IsOutcome(s, s.called[k]))
    && (forall h | 0 <= h < |s.handlers| :: forall k | 0 <= k < |s.handlers[h]| :: IsOutcome(s, s.handlers[h][k]))
  }

  function Owed(s: State, id: nat): nat {
    if id < |s.outcomes| && id < |s.wanted| && s.wanted[id] then 1 else 0
  }

  // The callback of each message that has left the queue was called once, or will be.
  ghost predicate CalledOnce(s: State) {
    forall id: nat :: Count(s.called, id) + CountAll(s.handlers, id) == Owed(s, id)
  }

  ghost predicate Invariant(s: State) {
    Ordered(s) && TrueOutcomes(s) && CalledOnce(s)
  }

  predicate Ordered(s: State) {
    InOrder(s) && OneInFlight(s) && WireInOrder(s)
  }

  lemma SendKeepsOrder(s: State, hasCallback: bool)
    requires Ordered(s)
    ensures Ordered(Next(s, Send(hasCallback)))
  {
    SendKeepsQueue(s, hasCallback);
    SendKeepsWire(s, hasCallback);
    hide Next, InOrder, OneInFlight, WireInOrder;
  }

  lemma SendKeepsQueue(s: State, hasCallback: bool)
    requires InOrder(s) && OneInFlight(s)
    ensures InOrder(Next(s, Send(hasCallback))) && OneInFlight(Next(s, Send(hasCallback)))
  {
    var t := Next(s, Send(hasCallback));
    assert t.queue == s.queue + [|s.wanted|];
  }

  lemma SendKeepsWire(s: State, hasCallback: bool)
    requires InOrder(s) && WireInOrder(s)
    ensures WireInOrder(Next(s, Send(hasCallback)))
  {
    var t := Next(s, Send(hasCallback));
    assert t.queue == s.queue + [|s.wanted|];
  }

  lemma CompletionKeepsQueue(s: State, ok: bool)
    requires InOrder(s) && s.queue != [] && s.inFlight == [] && !s.stopped
    ensures InOrder(Complete(s, ok)) && OneInFlight(Complete(s, ok))
  {
    hide Wanted;
    var t := Complete(s, ok);
    assert t.queue == Ids(|t.outcomes|, |t.queue|);
  }

  lemma CompletionKeepsWire(s: State, ok: bool)
    requires InOrder(s) && WireInOrder(s) && s.queue != [] && !s.stopped
    ensures WireInOrder(Complete(s, ok))
  {
    hide Wanted;
    var t := Complete(s, ok);
    assert s.wire[|s.wire| - 1] == |s.outcomes|;
    forall id | 0 <= id < |t.outcomes| && t.outcomes[id]
      ensures id in t.wire
    {
      if id < |s.outcomes| {
        assert id in s.wire;
      }
    }
  }

  lemma CompletionKeepsOrder(s: State, ok: bool)
    requires InOrder(s) && WireInOrder(s) && s.queue != [] && s.inFlight == [] && !s.stopped
    ensures Ordered(Complete(s, ok))
  {
    hide Complete, InOrder, OneInFlight, WireInOrder;
    CompletionKeepsQueue(s, ok);
    CompletionKeepsWire(s, ok);
  }

  lemma StepKeepsOrder(s: State, step: Step)
    requires Ordered(s) && Enabled(s, step)
    ensures Ordered(Next(s, step))
  {
    hide Wanted, Complete;
    match step
    case Send(hasCallback) => SendKeepsOrder(s, hasCallback);
    case Written(w, ok) =>
      assert s.inFlight[..w] + s.inFlight[w + 1..] == [];
      if !s.stopped {
        CompletionKeepsOrder(s.(inFlight := []), ok);
      }
    case Call(_) =>
    case Stop =>
  }

  lemma StepKeepsOutcomes(s: State, step: Step)
    requires InOrder(s) && OneInFlight(s) && TrueOutcomes(s) && Enabled(s, step)
    ensures TrueOutcomes(Next(s, step))
  {
    hide Wanted;
    var t := Next(s, step);
    if step.Written? && !s.stopped {
      var gone := if step.ok then 1 else |s.queue|;
      var handler := Wanted(s.wanted, s.queue[..gone], step.ok);
      forall k | 0 <= k < |handler|
        ensures IsOutcome(t, handler[k])
      {
        WantedOutcome(s.wanted, s.queue[..gone], step.ok, k);
      }
    }
  }

  lemma StepKeepsCount(s: State, step: Step, id: nat)
    requires InOrder(s) && OneInFlight(s) && Enabled(s, step)
    requires Count(s.called, id) + CountAll(s.handlers, id) == Owed(s, id)
    ensures var t := Next(s, step); Count(t.called, id) + CountAll(t.handlers, id) == Owed(t, id)
  {
    hide Wanted, Count, CountAll;
    match step
    case Send(_) =>
    case Written(_, ok) =>
      if !s.stopped {
        var gone := if ok then 1 else |s.queue|;
        assert s.queue[..gone] == Ids(|s.outcomes|, gone);
        CountAllSnoc(s.handlers, Wanted(s.wanted, s.queue[..gone], ok), id);
        WantedCount(s.wanted, |s.outcomes|, gone, ok, id);
      }
    case Call(h) =>
      CountSnoc(s.called, s.handlers[h][0], id);
      CountFirst(s.handlers[h], id);
      CountAllUpdate(s.handlers, h, s.handlers[h][1..], id);
    case Stop =>
  }

  lemma StepKeepsInvariant(s: State, step: Step)
    requires Invariant(s) && Enabled(s, step)
    ensures Invariant(Next(s, step))
  {
    hide InOrder, OneInFlight, WireInOrder, TrueOutcomes, Next, Enabled, Owed;
    StepKeepsOrder(s, step);
    StepKeepsOutcomes(s, step);
    forall id: nat
      ensures Count(Next(s, step).called, id) + CountAll(Next(s, step).handlers, id) == Owed(Next(s, step), id)
    {
      StepKeepsCount(s, step, id);
    }
  }

  // ---- Runs ----

  predicate IsRun(states: seq<State>, steps: seq<Step>) {
    && |states| == |steps| + 1 && states[0] == INITIAL
    && forall k | 0 <= k < |steps| :: Enabled(states[k], steps[k]) && states[k + 1] == Next(states[k], steps[k])
  }

  lemma {:induction false} RunKeepsInvariant(states: seq<State>, steps: seq<Step>, k: nat)
    requires IsRun(states, steps) && k < |states|
    ensures Invariant(states[k])
    decreases k
  {
    hide Next, Enabled;
    if k > 0 {
      RunKeepsInvariant(states, steps, k - 1);
      StepKeepsInvariant(states[k - 1], steps[k - 1]);
    }
  }

  // At most one write is ever in flight, and while the runner is not stopped there is one
  // exactly when the queue is not empty; so no completion finds the queue empty.
  lemma AtMostOneInFlight(states: seq<State>, steps: seq<Step>, k: nat)
    requires IsRun(states, steps) && k < |states|
    ensures |states[k].inFlight| <= 1
    ensures !states[k].stopped ==> (states[k].inFlight != [] <==> states[k].queue != [])
    ensures forall w | w in states[k].inFlight :: states[k].queue != [] && w == states[k].queue[0]
    ensures forall i, j | 0 <= i < j < |states[k].wire| :: states[k].wire[i] < states[k].wire[j]
  {
    hide Next, Enabled;
    RunKeepsInvariant(states, steps, k);
  }

  // A message that was written leaves the queue, its callback is called if it has one, and the next
  // message is written, if there is one.
  lemma SuccessMovesOn(states: seq<State>, steps: seq<Step>, k: nat, w: nat)
    requires IsRun(states, steps) && k < |steps| && steps[k] == Written(w, true) && !states[k].stopped
    ensures var (s, t) := (states[k], states[k + 1]);
            && s.queue != [] && t.queue == s.queue[1..] && t.outcomes == s.outcomes + [true]
            && t.inFlight == (if t.queue == [] then [] else [t.queue[0]]) && t.wire == s.wire + t.inFlight
            && t.handlers == s.handlers
                             + [if s.queue[0] < |s.wanted| && s.wanted[s.queue[0]]
                                then [Callback(s.queue[0], true)] else []]
  {
    RunKeepsInvariant(states, steps, k);
    var s := states[k];
    hide Wanted;
    FirstWanted(s.wanted, s.queue, true);
    assert s.inFlight[..w] + s.inFlight[w + 1..] == [];
  }

  // After a failure the whole queue is given up: nothing more is written, and every callback in it
  // is called with the failure, once and in order.
  lemma FailureEmpties(states: seq<State>, steps: seq<Step>, k: nat, w: nat)
    requires IsRun(states, steps) && k < |steps| && steps[k] == Written(w, false) && !states[k].stopped
    ensures var (s, t) := (states[k], states[k + 1]);
            && t.queue == [] && t.inFlight == [] && t.wire == s.wire
            && |t.outcomes| == |s.wanted| && t.outcomes[..|s.outcomes|] == s.outcomes
            && (forall id | |s.outcomes| <= id < |s.wanted| :: !t.outcomes[id])
            && |t.handlers| == |s.handlers| + 1 && t.handlers[..|s.handlers|] == s.handlers
            && var calls := t.handlers[|s.handlers|];
               && (forall i | 0 <= i < |calls| :: !calls[i].ok)
               && (forall i, j | 0 <= i < j < |calls| :: calls[i].id < calls[j].id)
               && forall id: nat :: Callback(id, false) in calls <==> |s.outcomes| <= id < |s.wanted| && s.wanted[id]
  {
    RunKeepsInvariant(states, steps, k);
    var s := states[k];
    assert s.inFlight[..w] + s.inFlight[w + 1..] == [];
    assert s.queue[..|s.queue|] == s.queue;
    WantedIs(s.wanted, |s.outcomes|, |s.queue|, false);
  }

  lemma WantedSnoc(wanted: seq<bool>, start: nat, n: nat, ok: bool)
    requires start + n < |wanted|
    ensures Wanted(wanted, Ids(start, n + 1), ok) ==
            Wanted(wanted, Ids(start, n), ok) + if wanted[start + n] then [Callback(start + n, ok)] else []
  {
    assert Ids(start, n + 1)[..n] == Ids(start, n);
  }

  lemma {:induction false} WantedIs(wanted: seq<bool>, start: nat, n: nat, ok: bool)
    requires start + n <= |wanted|
    ensures var calls := Wanted(wanted, Ids(start, n), ok);
            && (forall i | 0 <= i < |calls| :: calls[i].ok == ok && start <= calls[i].id < start + n)
            && (forall i, j | 0 <= i < j < |calls| :: calls[i].id < calls[j].id)
            && forall id: nat :: Callback(id, ok) in calls <==> start <= id < start + n && wanted[id]
    decreases n
  {
    hide Wanted, Ids;
    if n == 0 {
      NothingWanted(wanted, start, ok);
    } else {
      WantedIs(wanted, start, n - 1, ok);
      WantedSnoc(wanted, start, n - 1, ok);
    }
  }

  lemma NothingWanted(wanted: seq<bool>, start: nat, ok: bool)
    ensures Wanted(wanted, Ids(start, 0), ok) == []
  {
    assert Ids(start, 0) == [];
  }

  // No callback is called twice, or with another outcome than that of its message.
  lemma NoCallbackTwice(states: seq<State>, steps: seq<Step>, k: nat, id: nat)
    requires IsRun(states, steps) && k < |states|
    ensures Count(states[k].called, id) <= 1
    ensures forall c | c in states[k].called :: IsOutcome(states[k], c)
  {
    hide Next, Enabled, Count, CountAll;
    RunKeepsInvariant(states, steps, k);
    assert Count(states[k].called, id) + CountAll(states[k].handlers, id) == Owed(states[k], id);
  }

  // When the writes and the handlers are done and the runner was not stopped, every message has
  // left the queue, each callback has been called exactly once, and without an error the
  // messages were written one after the other as they were sent.
  lemma AllCalledWhenQuiet(states: seq<State>, steps: seq<Step>, k: nat, id: nat)
    requires IsRun(states, steps) && k < |states|
    requires var s := states[k];
             !s.stopped && s.inFlight == [] && forall h | 0 <= h < |s.handlers| :: s.handlers[h] == []
    ensures var s := states[k];
            && s.queue == [] && |s.outcomes| == |s.wanted|
            && Count(s.called, id) == if id < |s.wanted| && s.wanted[id] then 1 else 0
    ensures (forall ok | ok in states[k].outcomes :: ok) ==> states[k].wire == Ids(0, |states[k].wanted|)
  {
    hide Next, Enabled, Count, CountAll;
    RunKeepsInvariant(states, steps, k);
    var s := states[k];
    CountAllNone(s.handlers, id);
    assert Count(s.called, id) + CountAll(s.handlers, id) == Owed(s, id);
    if forall ok | ok in s.outcomes :: ok {
      forall m | 0 <= m < |s.outcomes|
        ensures m in s.wire
      {
        assert s.outcomes[m] in s.outcomes;
      }
      AllInOrder(s.wire, |s.outcomes|);
    }
  }

  // Increasing numbers below n among which none is missing are all of them, in order.
  lemma {:induction false} AllInOrder(ids: seq<nat>, n: nat)
    requires forall i, j | 0 <= i < j < |ids| :: ids[i] < ids[j]
    requires forall i | 0 <= i < |ids| :: ids[i] < n
    requires forall m | 0 <= m < n :: m in ids
    ensures ids == Ids(0, n)
    decreases n
  {
    if n == 0 {
      assert ids == [];
    } else {
      assert n - 1 in ids;
      var k :| 0 <= k < |ids| && ids[k] == n - 1;
      var init := ids[..|ids| - 1];
      forall m | 0 <= m < n - 1
        ensures m in init
      {
        assert m in ids;
        var i :| 0 <= i < |ids| && ids[i] == m;
        assert init[i] == m;
      }
      forall i | 0 <= i < |init|
        ensures init[i] < n - 1
      {
        assert ids[i] < ids[|ids| - 1] < n;
      }
      AllInOrder(init, n - 1);
      assert ids == init + [n - 1];
    }
  }

  // ---- Progress ----

  function Pending(handlers: seq<seq<Callback>>): nat {
    if handlers == [] then 0 else Pending(handlers[..|handlers| - 1]) + |handlers[|handlers| - 1]|
  }

  lemma {:induction false} PendingUpdate(handlers: seq<seq<Callback>>, h: nat, handler: seq<Callback>)
    requires h < |handlers|
    ensures Pending(handlers[h := handler]) == Pending(handlers) - |handlers[h]| + |handler|
  {
    var init := handlers[..|handlers| - 1];
    if h == |init| {
      assert handlers[h := handler][..h] == init;
    } else {
      PendingUpdate(init, h, handler);
      assert handlers[h := handler][..|init|] == init[h := handler];
    }
  }

  lemma {:induction false} WantedLength(wanted: seq<bool>, ids: seq<nat>, ok: bool)
    ensures |Wanted(wanted, ids, ok)| <= |ids|
  {
    if ids != [] {
      WantedLength(wanted, ids[..|ids| - 1], ok);
    }
  }

  // What is left to do when nothing more is sent: every completion and every callback makes it
  // less, so that the queue drains.
  function Remaining(s: State): nat {
    2 * |s.queue| + Pending(s.handlers)
  }

  lemma QueueDrains(s: State, step: Step)
    requires Invariant(s) && !s.stopped && Enabled(s, step) && (step.Written? || step.Call?)
    ensures Remaining(Next(s, step)) < Remaining(s)
  {
    hide Wanted;
    match step
    case Written(_, ok) =>
      var gone := if ok then 1 else |s.queue|;
      var handler := Wanted(s.wanted, s.queue[..gone], ok);
      WantedLength(s.wanted, s.queue[..gone], ok);
      assert (s.handlers + [handler])[..|s.handlers|] == s.handlers;
    case Call(h) =>
      PendingUpdate(s.handlers, h, s.handlers[h][1..]);
  }

  // ---- The connection ----

  // An entry of the queue: the number of its message, and whether there is a callback.
  datatype OutData = OutData(message: nat, hasCallback: bool)

  function Messages(queue: seq<OutData>): (ids: seq<nat>)
    ensures |ids| == |queue|
  {
    seq(|queue|, i requires 0 <= i < |queue| => queue[i].message)
  }

  predicate Matches(queue: seq<OutData>, wanted: seq<bool>) {
    forall i | 0 <= i < |queue| ::
      queue[i].message < |wanted| && queue[i].hasCallback == wanted[queue[i].message]
  }

  // The fields of the connection, with the history that the other parts of the state stand for.
  class Connection {
    var sendQueue: seq<OutData>
    var sent: nat
    var closed: bool
    var stopped: bool
    var inFlight: seq<nat>
    var wire: seq<nat>
    ghost var wanted: seq<bool>
    ghost var handlers: seq<seq<Callback>>
    ghost var called: seq<Callback>
    ghost var outcomes: seq<bool>

    ghost function Abstract(): State
      reads this
    {
      State(wanted, Messages(sendQueue), inFlight, wire, handlers, called, outcomes, stopped)
    }

    ghost predicate Valid()
      reads this
    {
      Ordered(Abstract()) && sent == |wanted| && Matches(sendQueue, wanted)
    }

    constructor ()
      ensures Valid() && Abstract() == INITIAL && !closed
    {
      sendQueue, sent, closed, stopped, inFlight, wire := [], 0, false, false, [], [];
      wanted, handlers, called, outcomes := [], [], [], [];
      new;
      assert Messages(sendQueue) == [];
    }

    method SendFromQueue()
      requires sendQueue != []
      modifies this`inFlight, this`wire
      ensures Abstract() == Started(old(Abstract()))
    {
      inFlight := inFlight + [sendQueue[0].message];
      wire := wire + [sendQueue[0].message];
    }

    method Send(hasCallback: bool)
      requires Valid()
      modifies this`sendQueue, this`sent, this`inFlight, this`wire, this`wanted
      ensures Valid() && Abstract() == Next(old(Abstract()), Step.Send(hasCallback))
    {
      hide Ordered;
      ghost var before := Abstract();
      SendKeepsOrder(before, hasCallback);
      assert InOrder(before) by {
        OrderedMeansInOrder(before);
      }
      sendQueue := sendQueue + [OutData(sent, hasCallback)];
      sent := sent + 1;
      wanted := wanted + [hasCallback];
      assert Messages(sendQueue) == before.queue + [|before.wanted|];
      if |sendQueue| == 1 {
        SendFromQueue();
      }
    }

    // The callbacks of everything in the queue, in its order.
    method Callbacks(ok: bool) returns (callbacks: seq<Callback>)
      requires Matches(sendQueue, wanted)
      ensures callbacks == Wanted(wanted, Messages(sendQueue), ok)
    {
      callbacks := [];
      for i := 0 to |sendQueue|
        invariant callbacks == Wanted(wanted, Messages(sendQueue[..i]), ok)
      {
        assert Messages(sendQueue[..i + 1])[..i] == Messages(sendQueue[..i]);
        assert callbacks + [] == callbacks;
        if sendQueue[i].hasCallback {
          callbacks := callbacks + [Callback(sendQueue[i].message, ok)];
        }
      }
      assert sendQueue[..|sendQueue|] == sendQueue;
    }

    // A message was written and leaves the queue.
    method FirstLeaves() returns (callbacks: seq<Callback>)
      requires sendQueue != [] && Matches(sendQueue, wanted)
      modifies this`sendQueue, this`inFlight, this`wire, this`handlers, this`outcomes
      ensures Abstract() == Complete(old(Abstract()), true) && Matches(sendQueue, wanted)
      ensures handlers == old(handlers) + [callbacks]
    {
      hide Wanted;
      ghost var before := Abstract();
      var first := sendQueue[0];
      callbacks := if first.hasCallback then [Callback(first.message, true)] else [];
      sendQueue := sendQueue[1..];
      assert Messages(sendQueue) == before.queue[1..];
      FirstWanted(before.wanted, before.queue, true);
      handlers, outcomes := handlers + [callbacks], outcomes + seq(1, _ => true);
      if |sendQueue| > 0 {
        SendFromQueue();
      }
    }

    // A write failed, and all messages leave the queue.
    method AllLeave() returns (callbacks: seq<Callback>)
      requires sendQueue != [] && Matches(sendQueue, wanted)
      modifies this`sendQueue, this`handlers, this`outcomes
      ensures Abstract() == Complete(old(Abstract()), false) && Matches(sendQueue, wanted)
      ensures handlers == old(handlers) + [callbacks]
    {
      hide Wanted;
      ghost var before := Abstract();
      callbacks := Callbacks(false);
      sendQueue := [];
      assert Messages(sendQueue) == before.queue[|before.queue|..] && before.queue[..|before.queue|] == before.queue;
      handlers, outcomes := handlers + [callbacks], outcomes + seq(|before.queue|, _ => false);
    }

    // The handler of the write in flight. It returns the callbacks that it calls once the mutex
    // is free.
    method OnWritten(ok: bool) returns (callbacks: seq<Callback>)
      requires Valid() && inFlight != []
      modifies this`sendQueue, this`inFlight, this`wire, this`handlers, this`outcomes
      ensures Valid() && Abstract() == Next(old(Abstract()), Written(0, ok))
      ensures handlers == if stopped then old(handlers) else old(handlers) + [callbacks]
    {
      hide Ordered, Complete, Next, Matches;
      ghost var before := Abstract();
      NextWritten(before, ok);
      StepKeepsOrder(before, Written(0, ok));
      inFlight := inFlight[1..];
      callbacks := [];
      if stopped {
        return;
      }
      if ok {
        callbacks := FirstLeaves();
      } else {
        callbacks := AllLeave();
      }
    }

    // Sends a close frame the first time only.
    method SendClose(hasCallback: bool)
      requires Valid()
      modifies this`closed, this`sendQueue, this`sent, this`inFlight, this`wire, this`wanted
      ensures Valid() && closed
      ensures Abstract() == if old(closed) then old(Abstract()) else Next(old(Abstract()), Step.Send(hasCallback))
    {
      if closed {
        return;
      }
      closed := true;
      Send(hasCallback);
    }
  }

  lemma FirstWanted(wanted: seq<bool>, ids: seq<nat>, ok: bool)
    requires ids != []
    ensures Wanted(wanted, ids[..1], ok) ==
            if ids[0] < |wanted| && wanted[ids[0]] then [Callback(ids[0], ok)] else []
  {
    assert ids[..1][..0] == [];
  }

  lemma NextWritten(s: State, ok: bool)
    requires Ordered(s) && s.inFlight != []
    ensures Enabled(s, Written(0, ok)) && s.queue != []
    ensures var t := s.(inFlight := s.inFlight[1..]);
            Next(s, Written(0, ok)) == if s.stopped then t else Complete(t, ok)
  {
    hide Complete;
    assert s.inFlight[..0] + s.inFlight[1..] == s.inFlight[1..];
  }

  lemma OrderedMeansInOrder(s: State)
    requires Ordered(s)
    ensures InOrder(s) && OneInFlight(s)
  {
  }
}
