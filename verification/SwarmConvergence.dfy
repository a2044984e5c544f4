// Re-broadcasting stops: a run in which no peer comes or goes is bounded in length by a
// weight of the state it starts from, and when it can go no further the nodes agree.
module SwarmConvergence {
  import opened Swarm
  import opened SwarmSafety
  import opened SwarmHistory
  import opened SwarmAgreement

  // ---- Weights ----

  // What one broadcast can cost at most, among so many nodes that know so many urls.
  function BroadcastCost(nodes: nat, urls: nat): nat {
    nodes * (4 * urls + 2)
  }

  function MessageWeight(cost: nat): Message -> nat {
    (m: Message) => if m.body.Dbs? then 4 * |m.body.urls| + 2 else cost + 1
  }

  function HandlerWeight(cost: nat): Handler -> nat {
    (h: Handler) =>
      4 * |h.rest| + (if h.Looping? then 1 else if h.Getting? then 3 else 2) + if SawNew(h) then cost + 1 else 0
  }

  function NodeWeight(cost: nat, urls: nat): Node -> nat {
    (n: Node) =>
      (if |n.known| <= urls then (urls - |n.known|) * (cost + 2) else 0) + Sum(HandlerWeight(cost), n.handlers)
  }

  function Weight(s: Network, urls: nat): nat {
    var cost := BroadcastCost(|s.nodes|, urls);
    Sum(NodeWeight(cost, urls), s.nodes) + Sum(MessageWeight(cost), s.flight)
  }

  // ---- What the weight rests on ----

  // Every url comes from a fixed set, no node lists a peer twice or knows a url twice.
  ghost predicate Bounded(s: Network, urls: set<Url>) {
    && Within(s, urls)
    && (forall u | 0 <= u < |s.nodes| :: NoDuplicates(s.nodes[u].known))
    && (forall u | 0 <= u < |s.nodes| :: NoDuplicates(s.nodes[u].peers))
  }

  lemma {:induction false} DistinctFit<T>(s: seq<T>, all: set<T>)
    requires NoDuplicates(s) && forall x | x in s :: x in all
    ensures |s| <= |all|
  {
    if s != [] {
      var last := s[|s| - 1];
      assert forall x | x in s[..|s| - 1] :: x in all - {last};
      DistinctFit(s[..|s| - 1], all - {last});
    }
  }

  function UpTo(n: nat): (r: set<nat>)
    ensures |r| == n && forall v: nat :: v in r <==> v < n
  {
    if n == 0 then {}
    else
      var r := UpTo(n - 1);
      assert n - 1 !in r;
      r + {n - 1}
  }

  lemma PeersFit(s: Network, u: nat)
    requires PeersInRange(s) && u < |s.nodes| && NoDuplicates(s.nodes[u].peers)
    ensures |s.nodes[u].peers| <= |s.nodes|
  {
    DistinctFit(s.nodes[u].peers, UpTo(|s.nodes|));
  }

  lemma {:induction false} SumBound<T>(f: T -> nat, s: seq<T>, c: nat)
    requires forall x | x in s :: f(x) <= c
    ensures Sum(f, s) <= |s| * c
  {
    if s != [] {
      SumBound(f, s[1..], c);
      assert |s| * c == c + |s[1..]| * c;
    }
  }

  lemma ProductGrows(a: nat, b: nat, c: nat)
    requires a <= b
    ensures a * c <= b * c
  {
    assert (b - a) * c >= 0;
  }

  lemma BroadcastWeight(u: nat, n: Node, nodes: nat, urls: nat)
    requires |n.peers| <= nodes && |n.known| <= urls
    ensures Sum(MessageWeight(BroadcastCost(nodes, urls)), BroadcastDBs(u, n)) <= BroadcastCost(nodes, urls)
  {
    hide Sum;
    SumBound(MessageWeight(BroadcastCost(nodes, urls)), BroadcastDBs(u, n), 4 * urls + 2);
    ProductGrows(|n.peers|, nodes, 4 * urls + 2);
  }

  // ---- Every step that is not a change of peers costs weight ----

  predicate Internal(step: Step) {
    step.Deliver? || step.Proceed?
  }

  // A piece of a handler: what the node loses in weight exceeds what it sends.
  lemma ResumeCosts(u: nat, n: Node, i: nat, nodes: nat, urls: nat)
    requires i < |n.handlers| && |n.peers| <= nodes
    requires |n.known| <= urls && |Resume(u, n, i).0.known| <= urls
    ensures var cost := BroadcastCost(nodes, urls);
            var (n', sent) := Resume(u, n, i);
            NodeWeight(cost, urls)(n') + Sum(MessageWeight(cost), sent) < NodeWeight(cost, urls)(n)
  {
    hide Sum, BroadcastCost;
    var cost := BroadcastCost(nodes, urls);
    var (n', sent) := Resume(u, n, i);
    var h := n.handlers[i];
    if h.Looping? && h.rest == [] {
      SumRemove(HandlerWeight(cost), n.handlers, i);
      BroadcastWeight(u, n', nodes, urls);
      SumNothing(MessageWeight(cost));
      assert n'.known == n.known;
    } else {
      SumUpdate(HandlerWeight(cost), n.handlers, i, n'.handlers[i]);
      assert n'.handlers == n.handlers[i := n'.handlers[i]];
      SumNothing(MessageWeight(cost));
      if n'.known != n.known {
        assert (urls - |n.known|) * (cost + 2) == (urls - |n'.known|) * (cost + 2) + (cost + 2);
      }
    }
  }

  lemma SumNothing<T>(f: T -> nat)
    ensures Sum(f, []) == 0
  {
  }

  lemma ProceedCosts(s: Network, u: nat, i: nat, urls: set<Url>)
    requires Enabled(s, Proceed(u, i)) && Bounded(s, urls) && Bounded(Apply(s, Proceed(u, i)), urls)
    ensures Weight(Apply(s, Proceed(u, i)), |urls|) < Weight(s, |urls|)
  {
    hide Sum, BroadcastCost, NodeWeight, Resume;
    var cost := BroadcastCost(|s.nodes|, |urls|);
    var (n', sent) := Resume(u, s.nodes[u], i);
    var s' := Apply(s, Proceed(u, i));
    assert s'.nodes[u] == n';
    DistinctFit(s.nodes[u].known, urls);
    DistinctFit(n'.known, urls);
    PeersFit(s, u);
    ResumeCosts(u, s.nodes[u], i, |s.nodes|, |urls|);
    SumUpdate(NodeWeight(cost, |urls|), s.nodes, u, n');
    SumAppend(MessageWeight(cost), s.flight, sent);
  }

  lemma DeliverCosts(s: Network, k: nat, urls: set<Url>)
    requires Enabled(s, Deliver(k)) && Bounded(s, urls)
    ensures Weight(Apply(s, Deliver(k)), |urls|) < Weight(s, |urls|)
  {
    hide Sum, BroadcastCost;
    var cost := BroadcastCost(|s.nodes|, |urls|);
    var (m, rest) := (s.flight[k], Remove(s.flight, k));
    var n := s.nodes[m.dst];
    SumRemove(MessageWeight(cost), s.flight, k);
    if m.body.Dbs? {
      var h := Looping(m.body.urls, false);
      SumAppend(HandlerWeight(cost), n.handlers, [h]);
      SumOne(HandlerWeight(cost), h);
      SumUpdate(NodeWeight(cost, |urls|), s.nodes, m.dst, Receive(n, m.body.urls));
    } else {
      SumAppend(MessageWeight(cost), rest, BroadcastDBs(m.dst, n));
      DistinctFit(n.known, urls);
      PeersFit(s, m.dst);
      BroadcastWeight(m.dst, n, |s.nodes|, |urls|);
    }
  }

  lemma SumOne<T>(f: T -> nat, x: T)
    ensures Sum(f, [x]) == f(x)
  {
    assert Sum(f, [x][1..]) == 0;
  }

  // ---- Runs without changes of peers ----

  lemma StepStaysBounded(s: Network, step: Step, urls: set<Url>)
    requires Enabled(s, step) && Internal(step) && Bounded(s, urls)
    ensures Bounded(Apply(s, step), urls)
  {
    StepStaysWithin(s, step, urls);
    if step.Proceed? {
      ResumeStaysWithin(step.u, s.nodes[step.u], step.i, urls);
      ResumeStaysDistinct(step.u, s.nodes[step.u], step.i);
    }
  }

  lemma ResumeStaysDistinct(u: nat, n: Node, i: nat)
    requires i < |n.handlers| && NoDuplicates(n.known)
    ensures NoDuplicates(Resume(u, n, i).0.known)
  {
  }

  // Such a run is no longer than the weight it starts with, and ends within it.
  lemma {:induction false} RunIsBounded(s: Network, steps: seq<Step>, urls: set<Url>)
    requires IsRun(s, steps) && Bounded(s, urls)
    requires forall step | step in steps :: Internal(step)
    ensures |steps| + Weight(After(s, steps), |urls|) <= Weight(s, |urls|)
    ensures Bounded(After(s, steps), urls)
    decreases |steps|
  {
    hide Weight;
    if steps != [] {
      assert steps[0] in steps;
      StepStaysBounded(s, steps[0], urls);
      if steps[0].Deliver? {
        DeliverCosts(s, steps[0].k, urls);
      } else {
        ProceedCosts(s, steps[0].u, steps[0].i, urls);
      }
      RunIsBounded(Apply(s, steps[0]), steps[1..], urls);
    }
  }

  // ---- From the start ----

  function Locals(locals: seq<Url>): set<Url> {
    set url | url in locals
  }

  lemma {:induction false} WithoutStaysDistinct(peers: seq<nat>, v: nat)
    requires NoDuplicates(peers)
    ensures NoDuplicates(Without(peers, v))
  {
    if peers != [] {
      var rest := Without(peers[1..], v);
      WithoutStaysDistinct(peers[1..], v);
      forall i | 0 <= i < |rest|
        ensures rest[i] != peers[0]
      {
        WithoutIs(peers[1..], v, rest[i]);
      }
    }
  }

  lemma AnyStepStaysBounded(s: Network, step: Step, urls: set<Url>)
    requires Enabled(s, step) && Bounded(s, urls)
    ensures Bounded(Apply(s, step), urls)
  {
    if Internal(step) {
      StepStaysBounded(s, step, urls);
    } else {
      StepStaysWithin(s, step, urls);
      WithoutStaysDistinct(s.nodes[step.u].peers, step.v);
    }
  }

  lemma {:induction false} RunStaysBounded(s: Network, steps: seq<Step>, urls: set<Url>)
    requires IsRun(s, steps) && Bounded(s, urls)
    ensures Bounded(After(s, steps), urls)
    decreases |steps|
  {
    if steps != [] {
      AnyStepStaysBounded(s, steps[0], urls);
      RunStaysBounded(Apply(s, steps[0]), steps[1..], urls);
    }
  }

  lemma InitialBounded(locals: seq<Url>)
    ensures Bounded(Initial(locals), Locals(locals))
  {
  }

  lemma QuietWhenNothingEnabled(s: Network)
    requires forall m | m in s.flight :: m.dst < |s.nodes|
    ensures Quiescent(s) <==> forall step | Internal(step) :: !Enabled(s, step)
  {
    if forall step | Internal(step) :: !Enabled(s, step) {
      if s.flight != [] {
        assert s.flight[0] in s.flight;
        assert Enabled(s, Deliver(0));
      }
      forall u | 0 <= u < |s.nodes|
        ensures s.nodes[u].handlers == []
      {
        assert !Enabled(s, Proceed(u, 0));
      }
    }
  }

  // After any run at all, once peers stop coming and going the gossip stops: at most as many
  // steps follow as the state weighs, and a run that can go no further has left it quiet.
  lemma Convergence(locals: seq<Url>, steps: seq<Step>, more: seq<Step>)
    requires IsRun(Initial(locals), steps)
    requires IsRun(After(Initial(locals), steps), more)
    requires forall step | step in more :: Internal(step)
    ensures |more| <= Weight(After(Initial(locals), steps), |Locals(locals)|)
    ensures var s := After(After(Initial(locals), steps), more);
            Quiescent(s) <==> forall step | Internal(step) :: !Enabled(s, step)
  {
    hide Weight;
    InitialBounded(locals);
    RunStaysBounded(Initial(locals), steps, Locals(locals));
    RunIsBounded(After(Initial(locals), steps), more, Locals(locals));
    QuietWhenNothingEnabled(After(After(Initial(locals), steps), more));
  }

  // A quiet node that every node reaches over connections knows every node's database and
  // nothing else.
  lemma KnowsEverything(locals: seq<Url>, steps: seq<Step>, u: nat, routes: seq<seq<nat>>)
    requires IsRun(Initial(locals), steps) && Quiescent(After(Initial(locals), steps))
    requires u < |locals| && |routes| == |locals|
    requires forall w | 0 <= w < |locals| ::
               && routes[w] != [] && IsRoute(|locals|, steps, routes[w])
               && routes[w][0] == w && routes[w][|routes[w]| - 1] == u
    ensures Locals(locals) == set url | url in After(Initial(locals), steps).nodes[u].known
  {
    var s := After(Initial(locals), steps);
    InitialBounded(locals);
    RunStaysBounded(Initial(locals), steps, Locals(locals));
    InitialInvariant(locals);
    RunKeepsInvariant(Initial(locals), steps, locals);
    RunKeepsFlow(Initial(locals), steps);
    forall url | url in locals
      ensures url in s.nodes[u].known
    {
      var w :| 0 <= w < |locals| && locals[w] == url;
      assert NodeInvariant(s.nodes[w], locals[w]);
      RouteIsPath(locals, steps, routes[w]);
      QuiescentPathKnows(s, routes[w], url);
    }
  }

  // For example, two nodes that join each other both know both databases once all is quiet.
  lemma TwoNodes(a: Url, b: Url, more: seq<Step>, u: nat)
    requires u < 2 && forall step | step in more :: Internal(step)
    requires IsRun(Initial([a, b]), [PeerAdd(0, 1), PeerAdd(1, 0)] + more)
    requires Quiescent(After(Initial([a, b]), [PeerAdd(0, 1), PeerAdd(1, 0)] + more))
    ensures (set url | url in After(Initial([a, b]), [PeerAdd(0, 1), PeerAdd(1, 0)] + more).nodes[u].known) == {a, b}
  {
    var steps := [PeerAdd(0, 1), PeerAdd(1, 0)] + more;
    assert forall j | 2 <= j < |steps| :: steps[j] in more;
    assert JoinedAt(steps, 0, 1, 0) && JoinedAt(steps, 1, 0, 1);
    assert Linked(steps, 0, 1) && Linked(steps, 1, 0);
    KnowsEverything([a, b], steps, u, if u == 0 then [[0], [1, 0]] else [[0, 1], [1]]);
    assert Locals([a, b]) == {a, b};
  }
}
