// Who is connected to whom, by the history alone: node u lists v exactly when v joined the peers
// of u and has not left them since. And what it means to connect: the new peer is asked, and told.
module SwarmHistory {
  import opened Swarm

  // v joined the peers of u at step k and has not left since.
  predicate JoinedAt(steps: seq<Step>, u: nat, v: nat, k: nat)
    requires k < |steps|
  {
    steps[k] == PeerAdd(u, v) && forall j | k < j < |steps| :: steps[j] != PeerRemove(u, v)
  }

  predicate Linked(steps: seq<Step>, u: nat, v: nat) {
    exists k | 0 <= k < |steps| :: JoinedAt(steps, u, v, k)
  }

  // ---- The peers of a node ----

  lemma ResumeKeepsPeers(u: nat, n: Node, i: nat)
    requires i < |n.handlers|
    ensures Resume(u, n, i).0.peers == n.peers
  {
  }

  lemma StepPeers(s: Network, step: Step, u: nat, v: nat)
    requires Enabled(s, step) && u < |s.nodes|
    ensures v in Apply(s, step).nodes[u].peers <==>
            step == PeerAdd(u, v) || (v in s.nodes[u].peers && step != PeerRemove(u, v))
  {
    match step
    case PeerAdd(_, _) =>
    case PeerRemove(a, w) => WithoutIs(s.nodes[a].peers, w, v);
    case Deliver(_) =>
    case Proceed(a, i) => ResumeKeepsPeers(a, s.nodes[a], i);
  }

  lemma LinkedFirst(steps: seq<Step>, u: nat, v: nat)
    requires steps != []
    ensures Linked(steps, u, v) <==>
            Linked(steps[1..], u, v) || (steps[0] == PeerAdd(u, v) && PeerRemove(u, v) !in steps[1..])
  {
    var others := steps[1..];
    if Linked(steps, u, v) {
      var k :| 0 <= k < |steps| && JoinedAt(steps, u, v, k);
      if k > 0 {
        assert JoinedAt(others, u, v, k - 1);
      }
    }
    if Linked(others, u, v) {
      var k :| 0 <= k < |others| && JoinedAt(others, u, v, k);
      assert JoinedAt(steps, u, v, k + 1);
    }
    if steps[0] == PeerAdd(u, v) && PeerRemove(u, v) !in others {
      assert JoinedAt(steps, u, v, 0);
    }
  }

  lemma {:induction false} PeersAfter(s: Network, steps: seq<Step>, u: nat, v: nat)
    requires IsRun(s, steps) && u < |s.nodes|
    ensures v in After(s, steps).nodes[u].peers <==>
            Linked(steps, u, v) || (v in s.nodes[u].peers && PeerRemove(u, v) !in steps)
    decreases |steps|
  {
    hide Apply, Linked;
    if steps == [] {
      NothingLinked(u, v);
    } else {
      StepPeers(s, steps[0], u, v);
      PeersAfter(Apply(s, steps[0]), steps[1..], u, v);
      LinkedFirst(steps, u, v);
      assert PeerRemove(u, v) in steps <==> steps[0] == PeerRemove(u, v) || PeerRemove(u, v) in steps[1..];
    }
  }

  lemma NothingLinked(u: nat, v: nat)
    ensures !Linked([], u, v)
  {
  }

  // From the start, the peers of a node are exactly those that joined and have not left since.
  lemma PeersAreLinked(locals: seq<Url>, steps: seq<Step>, u: nat, v: nat)
    requires IsRun(Initial(locals), steps) && u < |locals|
    ensures v in After(Initial(locals), steps).nodes[u].peers <==> Linked(steps, u, v)
  {
    PeersAfter(Initial(locals), steps, u, v);
  }

  // So any node can join, unless it has joined already, and any can leave.
  lemma MayJoinIff(locals: seq<Url>, steps: seq<Step>, u: nat, v: nat)
    requires IsRun(Initial(locals), steps)
    ensures Enabled(After(Initial(locals), steps), PeerAdd(u, v)) <==>
            u < |locals| && v < |locals| && !Linked(steps, u, v)
    ensures Enabled(After(Initial(locals), steps), PeerRemove(u, v)) <==> u < |locals|
  {
    hide Linked;
    if u < |locals| {
      PeersAreLinked(locals, steps, u, v);
    }
  }

  // ---- What is sent ----

  predicate IsTold(flight: seq<Message>, u: nat, v: nat, known: seq<Url>) {
    exists m | m in flight :: m.src == u && m.dst == v && m.body.Dbs? && forall url | url in known :: url in m.body.urls
  }

  lemma BroadcastTells(front: seq<Message>, u: nat, n: Node, v: nat)
    requires v in n.peers
    ensures IsTold(front + BroadcastDBs(u, n), u, v, n.known)
  {
    var i :| 0 <= i < |n.peers| && n.peers[i] == v;
    var m := Message(u, v, Dbs(n.known));
    assert BroadcastDBs(u, n)[i] == m;
    assert m in BroadcastDBs(u, n);
  }

  // A node that joins is asked for its databases and told those that are known; so is every peer.
  lemma JoiningSends(s: Network, u: nat, v: nat, w: nat)
    requires Enabled(s, PeerAdd(u, v)) && (w == v || w in s.nodes[u].peers)
    ensures var s' := Apply(s, PeerAdd(u, v));
            && Message(u, w, Request) in s'.flight && IsTold(s'.flight, u, w, s.nodes[u].known)
            && s.flight <= s'.flight && s'.nodes[u].known == s.nodes[u].known
  {
    var n := s.nodes[u].(peers := s.nodes[u].peers + [v]);
    var asked := ToPeers(u, n.peers, Request);
    assert n.peers[|n.peers| - 1] == v && w in n.peers;
    var i :| 0 <= i < |n.peers| && n.peers[i] == w;
    assert asked[i] == Message(u, w, Request);
    assert Apply(s, PeerAdd(u, v)).flight == (s.flight + asked) + BroadcastDBs(u, n);
    BroadcastTells(s.flight + asked, u, n, w);
  }

  // A node that is asked tells every peer all that it knows.
  lemma AskingIsAnswered(s: Network, k: nat, w: nat)
    requires Enabled(s, Deliver(k)) && s.flight[k].body.Request? && w in s.nodes[s.flight[k].dst].peers
    ensures var u := s.flight[k].dst; IsTold(Apply(s, Deliver(k)).flight, u, w, s.nodes[u].known)
  {
    var u := s.flight[k].dst;
    BroadcastTells(Remove(s.flight, k), u, s.nodes[u], w);
  }

  // When v leaves the peers of u, just what is on its way from u to v is lost.
  lemma {:induction false} LoseIs(flight: seq<Message>, u: nat, v: nat, m: Message)
    ensures multiset(Lose(flight, u, v))[m] == if m.src == u && m.dst == v then 0 else multiset(flight)[m]
  {
    if flight == [] {
      assert multiset(flight)[m] == 0;
    } else {
      LoseIs(flight[1..], u, v, m);
      assert flight == [flight[0]] + flight[1..];
    }
  }
}
