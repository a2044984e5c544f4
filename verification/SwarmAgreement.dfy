// Gossip agreement: whatever the order of the steps, no url is forgotten on the way to a
// peer, so that connected nodes agree once nothing is in flight and no handler is pending.
module SwarmAgreement {
  import opened Swarm
  import opened SwarmHistory

  // ---- One piece of a handler ----

  // A handler that goes on neither forgets a url it still has to look at, nor a broadcast
  // it owes, nor leaves a new url without a broadcast to come.
  lemma ResumeKeepsPromises(u: nat, n: Node, i: nat)
    requires i < |n.handlers|
    ensures var (n', sent) := Resume(u, n, i);
            && n'.peers == n.peers
            && n.known <= n'.known
            && (forall url | InHandler(n, url) :: InHandler(n', url) || url in n'.known)
            && (WillBroadcast(n) ==> WillBroadcast(n') || sent == BroadcastDBs(u, n'))
            && (n'.known != n.known ==> WillBroadcast(n'))
  {
    var (n', sent) := Resume(u, n, i);
    var h := n.handlers[i];
    forall url | InHandler(n, url)
      ensures InHandler(n', url) || url in n'.known
    {
      var g :| g in n.handlers && url in g.rest;
      if g == h {
        ResumeKeepsRest(u, n, i, url);
      } else {
        ResumeKeepsOthers(u, n, i, g);
      }
    }
    if WillBroadcast(n) {
      var g :| g in n.handlers && SawNew(g);
      if g == h {
        ResumeKeepsDebt(u, n, i);
      } else {
        ResumeKeepsOthers(u, n, i, g);
      }
    }
    if n'.known != n.known {
      InUpdate(n.handlers, i, Getting(h.rest[0], h.rest[1..]), h);
      assert SawNew(Getting(h.rest[0], h.rest[1..]));
    }
  }

  lemma ResumeKeepsOthers(u: nat, n: Node, i: nat, g: Handler)
    requires i < |n.handlers| && g in n.handlers && g != n.handlers[i]
    ensures g in Resume(u, n, i).0.handlers
  {
    InRemove(n.handlers, i, g);
    var k :| 0 <= k < |n.handlers| && n.handlers[k] == g;
    var n' := Resume(u, n, i).0;
    assert |n'.handlers| == |n.handlers| ==> n'.handlers[k] == g;
  }

  lemma ResumeKeepsRest(u: nat, n: Node, i: nat, url: Url)
    requires i < |n.handlers| && url in n.handlers[i].rest
    ensures var n' := Resume(u, n, i).0; InHandler(n', url) || url in n'.known
  {
    var n' := Resume(u, n, i).0;
    var h := n.handlers[i];
    if h.Looping? && url == h.rest[0] {
      assert h.rest[0] in n'.known;
    } else {
      assert h.Looping? ==> h.rest == [h.rest[0]] + h.rest[1..];
      assert n'.handlers[i] in n'.handlers && url in n'.handlers[i].rest;
    }
  }

  lemma ResumeKeepsDebt(u: nat, n: Node, i: nat)
    requires i < |n.handlers| && SawNew(n.handlers[i])
    ensures var (n', sent) := Resume(u, n, i); WillBroadcast(n') || sent == BroadcastDBs(u, n')
  {
    var (n', sent) := Resume(u, n, i);
    var h := n.handlers[i];
    if h.Looping? && h.rest == [] {
      assert sent == BroadcastDBs(u, n');
    } else {
      assert n'.handlers[i] in n'.handlers && SawNew(n'.handlers[i]);
    }
  }

  // ---- Every step keeps the flow ----

  lemma PeerAddKeepsFlow(s: Network, a: nat, b: nat)
    requires Enabled(s, PeerAdd(a, b)) && Flows(s)
    ensures Flows(Apply(s, PeerAdd(a, b)))
  {
    var s' := Apply(s, PeerAdd(a, b));
    var n := s'.nodes[a];
    forall u, v, url | 0 <= u < |s'.nodes| && v in s'.nodes[u].peers && url in s'.nodes[u].known
      ensures v < |s'.nodes| && Covered(s', u, v, url)
    {
      OnItsWayAppend(s.flight, InitConnection(a, n), u, v, url);
      if v in s.nodes[u].peers {
        assert Covered(s, u, v, url);
      } else {
        ToPeersCarries(a, n, b, url);
        OnItsWayAppend(ToPeers(a, n.peers, Request), BroadcastDBs(a, n), a, b, url);
      }
    }
  }

  lemma PeerRemoveKeepsFlow(s: Network, a: nat, b: nat)
    requires Enabled(s, PeerRemove(a, b)) && Flows(s)
    ensures Flows(Apply(s, PeerRemove(a, b)))
  {
    var s' := Apply(s, PeerRemove(a, b));
    forall u, v | 0 <= u < |s'.nodes| && v in s'.nodes[u].peers
      ensures v in s.nodes[u].peers && (u == a ==> v != b)
    {
      WithoutIs(s.nodes[a].peers, b, v);
    }
    forall u, v, url | 0 <= u < |s'.nodes| && v in s'.nodes[u].peers && url in s'.nodes[u].known
      ensures v < |s'.nodes| && Covered(s', u, v, url)
    {
      assert Covered(s, u, v, url);
      if OnItsWay(s.flight, u, v, url) {
        var m :| m in s.flight && Carries(m, u, v, url);
        LoseKeepsOthers(s.flight, a, b, m);
      }
    }
  }

  lemma DeliverKeepsFlow(s: Network, k: nat)
    requires Enabled(s, Deliver(k)) && Flows(s)
    ensures Flows(Apply(s, Deliver(k)))
  {
    var s' := Apply(s, Deliver(k));
    var m := s.flight[k];
    var rest := Remove(s.flight, k);
    var answer := if m.body.Dbs? then [] else BroadcastDBs(m.dst, s.nodes[m.dst]);
    assert s'.flight == rest + answer;
    forall u, v, url | 0 <= u < |s'.nodes| && v in s'.nodes[u].peers && url in s'.nodes[u].known
      ensures v < |s'.nodes| && Covered(s', u, v, url)
    {
      assert Covered(s, u, v, url);
      OnItsWayAppend(rest, answer, u, v, url);
      if OnItsWay(s.flight, u, v, url) {
        var c :| c in s.flight && Carries(c, u, v, url);
        InRemove(s.flight, k, c);
        if c == m {
          assert Looping(m.body.urls, false) in s'.nodes[v].handlers;
        }
      }
      assert forall w, h | 0 <= w < |s.nodes| && h in s.nodes[w].handlers :: h in s'.nodes[w].handlers;
    }
  }

  lemma ProceedKeepsFlow(s: Network, a: nat, i: nat)
    requires Enabled(s, Proceed(a, i)) && Flows(s)
    ensures Flows(Apply(s, Proceed(a, i)))
  {
    var s' := Apply(s, Proceed(a, i));
    var (n', sent) := Resume(a, s.nodes[a], i);
    ResumeKeepsPromises(a, s.nodes[a], i);
    forall u, v, url | 0 <= u < |s'.nodes| && v in s'.nodes[u].peers && url in s'.nodes[u].known
      ensures v < |s'.nodes| && Covered(s', u, v, url)
    {
      OnItsWayAppend(s.flight, sent, u, v, url);
      if url in s.nodes[u].known {
        assert Covered(s, u, v, url);
        if u == a && sent == BroadcastDBs(a, n') {
          ToPeersCarries(a, n', v, url);
        }
      }
    }
  }

  lemma StepKeepsFlow(s: Network, step: Step)
    requires Enabled(s, step) && Flows(s)
    ensures Flows(Apply(s, step))
  {
    match step
    case PeerAdd(u, v) => PeerAddKeepsFlow(s, u, v);
    case PeerRemove(u, v) => PeerRemoveKeepsFlow(s, u, v);
    case Deliver(k) => DeliverKeepsFlow(s, k);
    case Proceed(u, i) => ProceedKeepsFlow(s, u, i);
  }

  lemma {:induction false} RunKeepsFlow(s: Network, steps: seq<Step>)
    requires IsRun(s, steps) && Flows(s)
    ensures Flows(After(s, steps))
    decreases |steps|
  {
    if steps != [] {
      StepKeepsFlow(s, steps[0]);
      RunKeepsFlow(Apply(s, steps[0]), steps[1..]);
    }
  }

  // ---- Agreement ----

  // Each node of the path lists the next one among its peers.
  predicate IsPath(s: Network, path: seq<nat>) {
    && (forall k | 0 <= k < |path| :: path[k] < |s.nodes|)
    && (forall k | 0 < k < |path| :: path[k] in s.nodes[path[k - 1]].peers)
  }

  lemma QuiescentPeersKnow(s: Network, u: nat, v: nat, url: Url)
    requires Flows(s) && Quiescent(s)
    requires u < |s.nodes| && v in s.nodes[u].peers && url in s.nodes[u].known
    ensures v < |s.nodes| && url in s.nodes[v].known
  {
    assert Covered(s, u, v, url);
  }

  lemma {:induction false} QuiescentPathKnows(s: Network, path: seq<nat>, url: Url)
    requires Flows(s) && Quiescent(s) && IsPath(s, path) && path != []
    requires url in s.nodes[path[0]].known
    ensures url in s.nodes[path[|path| - 1]].known
    decreases |path|
  {
    if |path| > 1 {
      assert path[1] in s.nodes[path[0]].peers;
      QuiescentPeersKnow(s, path[0], path[1], url);
      assert forall k | 0 < k < |path[1..]| :: path[1..][k] == path[k + 1] && path[1..][k - 1] == path[k];
      QuiescentPathKnows(s, path[1..], url);
    }
  }

  // Each node of the route has been joined by the next one, which has not left since.
  predicate IsRoute(nodes: nat, steps: seq<Step>, route: seq<nat>) {
    && (forall k | 0 <= k < |route| :: route[k] < nodes)
    && (forall k | 0 < k < |route| :: Linked(steps, route[k - 1], route[k]))
  }

  lemma RouteIsPath(locals: seq<Url>, steps: seq<Step>, route: seq<nat>)
    requires IsRun(Initial(locals), steps) && IsRoute(|locals|, steps, route)
    ensures IsPath(After(Initial(locals), steps), route)
  {
    hide Linked;
    forall k | 0 < k < |route|
      ensures route[k] in After(Initial(locals), steps).nodes[route[k - 1]].peers
    {
      PeersAreLinked(locals, steps, route[k - 1], route[k]);
    }
  }

  // In every run from the start, with peers coming and going, whenever the network is quiet
  // two nodes that reach each other over connections hold the same set of databases.
  lemma Agreement(locals: seq<Url>, steps: seq<Step>, there: seq<nat>, back: seq<nat>, url: Url)
    requires IsRun(Initial(locals), steps) && Quiescent(After(Initial(locals), steps))
    requires IsRoute(|locals|, steps, there) && IsRoute(|locals|, steps, back)
    requires there != [] && back != [] && there[0] == back[|back| - 1] && there[|there| - 1] == back[0]
    ensures var s := After(Initial(locals), steps);
            url in s.nodes[there[0]].known <==> url in s.nodes[back[0]].known
  {
    var s := After(Initial(locals), steps);
    RunKeepsFlow(Initial(locals), steps);
    RouteIsPath(locals, steps, there);
    RouteIsPath(locals, steps, back);
    if url in s.nodes[there[0]].known {
      QuiescentPathKnows(s, there, url);
    }
    if url in s.nodes[back[0]].known {
      QuiescentPathKnows(s, back, url);
    }
  }
}
