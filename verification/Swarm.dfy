// The gossip of template/swarm.js: nodes that exchange the sets of databases they know.
// A handler runs without interruption between two awaits, so one step of the model is one
// such piece, or less: a pending handler is a value that says where it waits.
module Swarm {

  type Url = string

  datatype Body = Dbs(urls: seq<Url>) | Request

  datatype Message = Message(src: nat, dst: nat, body: Body)

  // A call of the sync handler: about to look at the urls left in its message; or waiting
  // for sdk.get of a new url; or waiting for addInput.
  datatype Handler =
    | Looping(rest: seq<Url>, sawNew: bool)
    | Getting(url: Url, rest: seq<Url>)
    | Adding(url: Url, rest: seq<Url>)

  // knownDBs in the order of insertion, the peers of the discovery core, the pending
  // handlers, the urls passed to addInput, and how often the sync handler has broadcast.
  datatype Node = Node(known: seq<Url>, peers: seq<nat>, handlers: seq<Handler>, inputs: seq<Url>, rebroadcasts: nat)

  datatype Network = Network(nodes: seq<Node>, flight: seq<Message>)

  // ---- One node ----

  function Start(localUrl: Url): Node {
    Node([localUrl], [], [], [], 0)
  }

  function ToPeers(u: nat, peers: seq<nat>, body: Body): seq<Message> {
    seq(|peers|, i requires 0 <= i < |peers| => Message(u, peers[i], body))
  }

  function BroadcastDBs(u: nat, n: Node): seq<Message> {
    ToPeers(u, n.peers, Dbs(n.known))
  }

  // initConnection: ask everyone to sync, and tell everyone.
  function InitConnection(u: nat, n: Node): seq<Message> {
    ToPeers(u, n.peers, Request) + BroadcastDBs(u, n)
  }

  function Remove<T>(s: seq<T>, i: nat): seq<T>
    requires i < |s|
  {
    s[..i] + s[i + 1..]
  }

  function Without(peers: seq<nat>, v: nat): seq<nat> {
    if peers == [] then []
    else (if peers[0] == v then [] else [peers[0]]) + Without(peers[1..], v)
  }

  function Receive(n: Node, urls: seq<Url>): Node {
    n.(handlers := n.handlers + [Looping(urls, false)])
  }

  // One piece of a handler, and what it broadcasts.
  function Resume(u: nat, n: Node, i: nat): (Node, seq<Message>)
    requires i < |n.handlers|
  {
    match n.handlers[i]
    case Looping(rest, sawNew) =>
      if rest == [] then
        var done := n.(handlers := Remove(n.handlers, i));
        if sawNew then (done.(rebroadcasts := n.rebroadcasts + 1), BroadcastDBs(u, n)) else (done, [])
      else if rest[0] in n.known then
        (n.(handlers := n.handlers[i := Looping(rest[1..], sawNew)]), [])
      else
        (n.(known := n.known + [rest[0]], handlers := n.handlers[i := Getting(rest[0], rest[1..])]), [])
    case Getting(url, rest) =>
      (n.(inputs := n.inputs + [url], handlers := n.handlers[i := Adding(url, rest)]), [])
    case Adding(url, rest) =>
      (n.(handlers := n.handlers[i := Looping(rest, true)]), [])
  }

  // ---- The network ----

  // A peer joins or leaves a node's list; a message arrives; a pending handler goes on.
  // When v leaves the peers of u, what u had on its way to v is lost.
  datatype Step = PeerAdd(u: nat, v: nat) | PeerRemove(u: nat, v: nat) | Deliver(k: nat) | Proceed(u: nat, i: nat)

  predicate Enabled(s: Network, step: Step) {
    match step
    case PeerAdd(u, v) => u < |s.nodes| && v < |s.nodes| && v !in s.nodes[u].peers
    case PeerRemove(u, v) => u < |s.nodes|
    case Deliver(k) => k < |s.flight| && s.flight[k].dst < |s.nodes|
    case Proceed(u, i) => u < |s.nodes| && i < |s.nodes[u].handlers|
  }

  function Lose(flight: seq<Message>, u: nat, v: nat): seq<Message> {
    if flight == [] then []
    else (if flight[0].src == u && flight[0].dst == v then [] else [flight[0]]) + Lose(flight[1..], u, v)
  }

  function Apply(s: Network, step: Step): (s': Network)
    requires Enabled(s, step)
    ensures |s'.nodes| == |s.nodes|
  {
    match step
    case PeerAdd(u, v) =>
      var n := s.nodes[u].(peers := s.nodes[u].peers + [v]);
      Network(s.nodes[u := n], s.flight + InitConnection(u, n))
    case PeerRemove(u, v) =>
      var n := s.nodes[u].(peers := Without(s.nodes[u].peers, v));
      Network(s.nodes[u := n], Lose(s.flight, u, v))
    case Deliver(k) =>
      var (m, rest) := (s.flight[k], Remove(s.flight, k));
      (match m.body
       case Dbs(urls) => Network(s.nodes[m.dst := Receive(s.nodes[m.dst], urls)], rest)
       case Request => Network(s.nodes, rest + BroadcastDBs(m.dst, s.nodes[m.dst])))
    case Proceed(u, i) =>
      var (n, sent) := Resume(u, s.nodes[u], i);
      Network(s.nodes[u := n], s.flight + sent)
  }

  // The state after a run of steps, each enabled in its turn.
  ghost predicate IsRun(s: Network, steps: seq<Step>)
    decreases |steps|
  {
    steps == [] || (Enabled(s, steps[0]) && IsRun(Apply(s, steps[0]), steps[1..]))
  }

  function After(s: Network, steps: seq<Step>): (s': Network)
    requires IsRun(s, steps)
    ensures |s'.nodes| == |s.nodes|
    decreases |steps|
  {
    if steps == [] then s else After(Apply(s, steps[0]), steps[1..])
  }

  function Initial(locals: seq<Url>): Network {
    Network(seq(|locals|, u requires 0 <= u < |locals| => Start(locals[u])), [])
  }

  // No message is in flight and no handler is pending.
  predicate Quiescent(s: Network) {
    s.flight == [] && forall u | 0 <= u < |s.nodes| :: s.nodes[u].handlers == []
  }

  // ---- Nothing is forgotten ----

  predicate SawNew(h: Handler) {
    h.Looping? ==> h.sawNew
  }

  ghost predicate WillBroadcast(n: Node) {
    exists h | h in n.handlers :: SawNew(h)
  }

  ghost predicate InHandler(n: Node, url: Url) {
    exists h | h in n.handlers :: url in h.rest
  }

  predicate Carries(m: Message, u: nat, v: nat, url: Url) {
    m.src == u && m.dst == v && m.body.Dbs? && url in m.body.urls
  }

  ghost predicate OnItsWay(flight: seq<Message>, u: nat, v: nat, url: Url) {
    exists m | m in flight :: Carries(m, u, v, url)
  }

  // A url that u knows has reached v, or is on its way, or u has still to broadcast.
  ghost predicate Covered(s: Network, u: nat, v: nat, url: Url)
    requires u < |s.nodes| && v < |s.nodes|
  {
    || url in s.nodes[v].known
    || OnItsWay(s.flight, u, v, url)
    || InHandler(s.nodes[v], url)
    || WillBroadcast(s.nodes[u])
  }

  ghost predicate PeersInRange(s: Network) {
    forall u, v | 0 <= u < |s.nodes| && v in s.nodes[u].peers :: v < |s.nodes|
  }

  ghost predicate Flows(s: Network) {
    && PeersInRange(s)
    && forall u, v, url | 0 <= u < |s.nodes| && v in s.nodes[u].peers && url in s.nodes[u].known ::
         Covered(s, u, v, url)
  }

  lemma InRemove<T>(s: seq<T>, i: nat, x: T)
    requires i < |s|
    ensures x in Remove(s, i) ==> x in s
    ensures x in s && x != s[i] ==> x in Remove(s, i)
  {
    if x in s && x != s[i] {
      var k :| 0 <= k < |s| && s[k] == x;
      assert Remove(s, i)[if k < i then k else k - 1] == x;
    }
  }

  lemma InUpdate<T>(s: seq<T>, i: nat, y: T, x: T)
    requires i < |s|
    ensures y in s[i := y]
    ensures x in s && x != s[i] ==> x in s[i := y]
    ensures x in s[i := y] ==> x == y || x in s
  {
    assert s[i := y][i] == y;
    if x in s && x != s[i] {
      var k :| 0 <= k < |s| && s[k] == x;
      assert s[i := y][k] == x;
    }
  }

  lemma ToPeersCarries(u: nat, n: Node, v: nat, url: Url)
    requires v in n.peers && url in n.known
    ensures OnItsWay(BroadcastDBs(u, n), u, v, url)
  {
    var k :| 0 <= k < |n.peers| && n.peers[k] == v;
    var m := BroadcastDBs(u, n)[k];
    assert m in BroadcastDBs(u, n) && Carries(m, u, v, url);
  }

  lemma OnItsWayAppend(a: seq<Message>, b: seq<Message>, u: nat, v: nat, url: Url)
    ensures OnItsWay(a + b, u, v, url) <==> OnItsWay(a, u, v, url) || OnItsWay(b, u, v, url)
  {
    assert forall m :: m in a + b <==> m in a || m in b;
  }

  lemma {:induction false} LoseKeepsOthers(flight: seq<Message>, u: nat, v: nat, m: Message)
    ensures m in Lose(flight, u, v) <==> m in flight && !(m.src == u && m.dst == v)
  {
    if flight != [] {
      LoseKeepsOthers(flight[1..], u, v, m);
      assert m in flight <==> m == flight[0] || m in flight[1..];
    }
  }

  lemma {:induction false} WithoutIs(peers: seq<nat>, v: nat, w: nat)
    ensures w in Without(peers, v) <==> w in peers && w != v
  {
    if peers != [] {
      WithoutIs(peers[1..], v, w);
      assert w in peers <==> w == peers[0] || w in peers[1..];
    }
  }
}
