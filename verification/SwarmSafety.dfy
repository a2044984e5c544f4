// What every run of the gossip keeps: each url is passed to addInput at most once, the sync
// handler broadcasts at most once per url it added, and no url is ever made up.
module SwarmSafety {
  import opened Swarm

  // ---- Sums over pending handlers ----

  function Sum<T>(f: T -> nat, s: seq<T>): nat {
    if s == [] then 0 else f(s[0]) + Sum(f, s[1..])
  }

  lemma {:induction false} SumAppend<T>(f: T -> nat, a: seq<T>, b: seq<T>)
    ensures Sum(f, a + b) == Sum(f, a) + Sum(f, b)
  {
    if a == [] {
      assert a + b == b;
    } else {
      SumAppend(f, a[1..], b);
      assert (a + b)[1..] == a[1..] + b;
    }
  }

  lemma SumRemove<T>(f: T -> nat, s: seq<T>, i: nat)
    requires i < |s|
    ensures Sum(f, Remove(s, i)) + f(s[i]) == Sum(f, s)
  {
    SumAppend(f, s[..i], s[i + 1..]);
    SumAppend(f, s[..i], s[i..]);
    assert s == s[..i] + s[i..] && s[i..][1..] == s[i + 1..];
  }

  lemma SumUpdate<T>(f: T -> nat, s: seq<T>, i: nat, x: T)
    requires i < |s|
    ensures Sum(f, s[i := x]) + f(s[i]) == Sum(f, s) + f(x)
  {
    SumRemove(f, s, i);
    SumRemove(f, s[i := x], i);
    assert Remove(s, i) == Remove(s[i := x], i);
  }

  // ---- Each url is added at most once ----

  predicate NoDuplicates<T(==)>(s: seq<T>) {
    forall i, j | 0 <= i < j < |s| :: s[i] != s[j]
  }

  function Count(s: seq<Url>, url: Url): nat {
    multiset(s)[url]
  }

  // A handler that will still call addInput for the url.
  function WaitsFor(url: Url): Handler -> nat {
    (h: Handler) => if h.Getting? && h.url == url then 1 else 0
  }

  function Owes(h: Handler): nat {
    if SawNew(h) then 1 else 0
  }

  // A known url is the local one, or was passed to addInput, or will be, once in all.
  predicate Accounted(n: Node, localUrl: Url, url: Url) {
    Count(n.known, url) == (if url == localUrl then 1 else 0) + Count(n.inputs, url) + Sum(WaitsFor(url), n.handlers)
  }

  // Every broadcast of the sync handler, made or owed, is paid for by a url the handler added.
  ghost predicate NodeInvariant(n: Node, localUrl: Url) {
    && NoDuplicates(n.known)
    && |n.known| > 0 && n.known[0] == localUrl
    && (forall url :: Accounted(n, localUrl, url))
    && n.rebroadcasts + Sum(Owes, n.handlers) < |n.known|
  }

  lemma PeersDoNotMatter(n: Node, peers: seq<nat>, localUrl: Url)
    requires NodeInvariant(n, localUrl)
    ensures NodeInvariant(n.(peers := peers), localUrl)
  {
    assert forall url :: Accounted(n, localUrl, url) ==> Accounted(n.(peers := peers), localUrl, url);
  }

  lemma ReceiveKeepsInvariant(n: Node, localUrl: Url, urls: seq<Url>)
    requires NodeInvariant(n, localUrl)
    ensures NodeInvariant(Receive(n, urls), localUrl)
  {
    var h := Looping(urls, false);
    SumAppend(Owes, n.handlers, [h]);
    forall url
      ensures Accounted(Receive(n, urls), localUrl, url)
    {
      assert Accounted(n, localUrl, url);
      SumAppend(WaitsFor(url), n.handlers, [h]);
    }
  }

  lemma ResumeKeepsAccount(u: nat, n: Node, i: nat, localUrl: Url, url: Url)
    requires i < |n.handlers| && Accounted(n, localUrl, url)
    ensures Accounted(Resume(u, n, i).0, localUrl, url)
  {
    hide Sum;
    var n' := Resume(u, n, i).0;
    if n.handlers[i].Looping? && n.handlers[i].rest == [] {
      SumRemove(WaitsFor(url), n.handlers, i);
    } else {
      SumUpdate(WaitsFor(url), n.handlers, i, n'.handlers[i]);
      assert n'.handlers == n.handlers[i := n'.handlers[i]];
    }
  }

  lemma ResumeKeepsInvariant(u: nat, n: Node, i: nat, localUrl: Url)
    requires i < |n.handlers| && NodeInvariant(n, localUrl)
    ensures NodeInvariant(Resume(u, n, i).0, localUrl)
  {
    hide Sum, Accounted;
    var n' := Resume(u, n, i).0;
    forall url
      ensures Accounted(n', localUrl, url)
    {
      ResumeKeepsAccount(u, n, i, localUrl, url);
    }
    if n.handlers[i].Looping? && n.handlers[i].rest == [] {
      SumRemove(Owes, n.handlers, i);
    } else {
      SumUpdate(Owes, n.handlers, i, n'.handlers[i]);
      assert n'.handlers == n.handlers[i := n'.handlers[i]];
    }
  }

  // addInput is called at most once for each url, and never for the node's own; and when no
  // handler is pending it has been called for every other known url.
  lemma AddedAtMostOnce(n: Node, localUrl: Url)
    requires NodeInvariant(n, localUrl)
    ensures NoDuplicates(n.inputs) && localUrl !in n.inputs
    ensures forall url | url in n.inputs :: url in n.known
    ensures n.handlers == [] ==> forall url | url in n.known && url != localUrl :: url in n.inputs
  {
    forall url
      ensures Count(n.inputs, url) <= 1
      ensures url in n.inputs ==> url in n.known && url != localUrl
      ensures n.handlers == [] && url in n.known && url != localUrl ==> url in n.inputs
    {
      assert Accounted(n, localUrl, url);
      NoDuplicatesCount(n.known, url);
      CountIsMembership(n.inputs, url);
    }
    CountsGiveNoDuplicates(n.inputs);
  }

  lemma CountIsMembership(s: seq<Url>, url: Url)
    ensures Count(s, url) > 0 <==> url in s
  {
    assert url in multiset(s) <==> url in s;
  }

  lemma {:induction false} NoDuplicatesCount(s: seq<Url>, url: Url)
    requires NoDuplicates(s)
    ensures Count(s, url) <= 1
    ensures Count(s, url) > 0 <==> url in s
  {
    CountIsMembership(s, url);
    if s != [] {
      NoDuplicatesCount(s[1..], url);
      assert s == [s[0]] + s[1..];
      CountIsMembership(s[1..], url);
    }
  }

  lemma CountsGiveNoDuplicates(s: seq<Url>)
    requires forall url :: Count(s, url) <= 1
    ensures NoDuplicates(s)
  {
    forall i, j | 0 <= i < j < |s|
      ensures s[i] != s[j]
    {
      if s[i] == s[j] {
        CountTwice(s, i, j);
        assert false;
      }
    }
  }

  lemma CountTwice(s: seq<Url>, i: nat, j: nat)
    requires i < j < |s| && s[i] == s[j]
    ensures Count(s, s[i]) >= 2
  {
    assert s == s[..j] + [s[j]] + s[j + 1..];
    assert s[..j] == s[..i] + [s[i]] + s[i + 1..j];
  }

  // ---- Over whole runs ----

  ghost predicate Invariant(s: Network, locals: seq<Url>) {
    |s.nodes| == |locals| && forall u | 0 <= u < |locals| :: NodeInvariant(s.nodes[u], locals[u])
  }

  lemma StepKeepsInvariant(s: Network, step: Step, locals: seq<Url>)
    requires Enabled(s, step) && Invariant(s, locals)
    ensures Invariant(Apply(s, step), locals)
  {
    match step
    case PeerAdd(u, v) => PeersDoNotMatter(s.nodes[u], s.nodes[u].peers + [v], locals[u]);
    case PeerRemove(u, v) => PeersDoNotMatter(s.nodes[u], Without(s.nodes[u].peers, v), locals[u]);
    case Deliver(k) =>
      var m := s.flight[k];
      if m.body.Dbs? {
        ReceiveKeepsInvariant(s.nodes[m.dst], locals[m.dst], m.body.urls);
      }
    case Proceed(u, i) => ResumeKeepsInvariant(u, s.nodes[u], i, locals[u]);
  }

  lemma {:induction false} RunKeepsInvariant(s: Network, steps: seq<Step>, locals: seq<Url>)
    requires IsRun(s, steps) && Invariant(s, locals)
    ensures Invariant(After(s, steps), locals)
    decreases |steps|
  {
    if steps != [] {
      StepKeepsInvariant(s, steps[0], locals);
      RunKeepsInvariant(Apply(s, steps[0]), steps[1..], locals);
    }
  }

  lemma StartInvariant(localUrl: Url)
    ensures NodeInvariant(Start(localUrl), localUrl)
  {
    forall url
      ensures Accounted(Start(localUrl), localUrl, url)
    {
      assert multiset([localUrl]) == multiset{localUrl};
      assert Count([], url) == 0;
      assert Sum(WaitsFor(url), []) == 0;
    }
  }

  lemma InitialInvariant(locals: seq<Url>)
    ensures Invariant(Initial(locals), locals)
  {
    forall u | 0 <= u < |locals|
      ensures NodeInvariant(Initial(locals).nodes[u], locals[u])
    {
      StartInvariant(locals[u]);
    }
  }

  // In every interleaving, at every node: addInput is called at most once for each url, and
  // the sync handler has broadcast at most once for each url it added.
  lemma Safety(locals: seq<Url>, steps: seq<Step>, u: nat)
    requires IsRun(Initial(locals), steps) && u < |locals|
    ensures var n := After(Initial(locals), steps).nodes[u];
            && NoDuplicates(n.inputs) && locals[u] !in n.inputs
            && (forall url | url in n.inputs :: url in n.known)
            && n.rebroadcasts < |n.known|
            && (n.handlers == [] ==> forall url | url in n.known && url != locals[u] :: url in n.inputs)
  {
    InitialInvariant(locals);
    RunKeepsInvariant(Initial(locals), steps, locals);
    AddedAtMostOnce(After(Initial(locals), steps).nodes[u], locals[u]);
  }

  // ---- No url is made up ----

  ghost predicate Within(s: Network, urls: set<Url>) {
    && (forall u, url | 0 <= u < |s.nodes| && url in s.nodes[u].known :: url in urls)
    && (forall u, h, url | 0 <= u < |s.nodes| && h in s.nodes[u].handlers && url in h.rest :: url in urls)
    && (forall m, url | m in s.flight && m.body.Dbs? && url in m.body.urls :: url in urls)
    && (forall m | m in s.flight :: m.dst < |s.nodes|)
    && PeersInRange(s)
  }

  lemma BroadcastIs(u: nat, n: Node, m: Message)
    requires m in InitConnection(u, n)
    ensures m.src == u && m.dst in n.peers
    ensures m.body.Dbs? ==> m.body.urls == n.known
  {
  }

  lemma PeerAddStaysWithin(s: Network, a: nat, b: nat, urls: set<Url>)
    requires Enabled(s, PeerAdd(a, b)) && Within(s, urls)
    ensures Within(Apply(s, PeerAdd(a, b)), urls)
  {
    var s' := Apply(s, PeerAdd(a, b));
    forall m | m in s'.flight
      ensures m.dst < |s.nodes| && (m.body.Dbs? ==> forall url | url in m.body.urls :: url in urls)
    {
      if m !in s.flight {
        BroadcastIs(a, s'.nodes[a], m);
      }
    }
  }

  lemma PeerRemoveStaysWithin(s: Network, a: nat, b: nat, urls: set<Url>)
    requires Enabled(s, PeerRemove(a, b)) && Within(s, urls)
    ensures Within(Apply(s, PeerRemove(a, b)), urls)
  {
    var s' := Apply(s, PeerRemove(a, b));
    forall m | m in s'.flight
      ensures m in s.flight
    {
      LoseKeepsOthers(s.flight, a, b, m);
    }
    forall u, v | 0 <= u < |s'.nodes| && v in s'.nodes[u].peers
      ensures v in s.nodes[u].peers
    {
      WithoutIs(s.nodes[a].peers, b, v);
    }
  }

  lemma DeliverStaysWithin(s: Network, k: nat, urls: set<Url>)
    requires Enabled(s, Deliver(k)) && Within(s, urls)
    ensures Within(Apply(s, Deliver(k)), urls)
  {
    var s' := Apply(s, Deliver(k));
    var c := s.flight[k];
    assert c in s.flight;
    var answer := if c.body.Dbs? then [] else BroadcastDBs(c.dst, s.nodes[c.dst]);
    assert s'.flight == Remove(s.flight, k) + answer;
    forall m | m in s'.flight
      ensures m.dst < |s.nodes| && (m.body.Dbs? ==> forall url | url in m.body.urls :: url in urls)
    {
      InRemove(s.flight, k, m);
      if m !in s.flight {
        assert m in InitConnection(c.dst, s.nodes[c.dst]);
        BroadcastIs(c.dst, s.nodes[c.dst], m);
      }
    }
  }

  lemma StepStaysWithin(s: Network, step: Step, urls: set<Url>)
    requires Enabled(s, step) && Within(s, urls)
    ensures Within(Apply(s, step), urls)
  {
    match step
    case PeerAdd(u, v) => PeerAddStaysWithin(s, u, v, urls);
    case PeerRemove(u, v) => PeerRemoveStaysWithin(s, u, v, urls);
    case Deliver(k) => DeliverStaysWithin(s, k, urls);
    case Proceed(u, i) => ProceedStaysWithin(s, u, i, urls);
  }

  predicate NodeWithin(n: Node, urls: set<Url>) {
    && (forall url | url in n.known :: url in urls)
    && (forall h | h in n.handlers :: forall url | url in h.rest :: url in urls)
  }

  lemma ResumeStaysWithin(u: nat, n: Node, i: nat, urls: set<Url>)
    requires i < |n.handlers| && NodeWithin(n, urls)
    ensures var (n', sent) := Resume(u, n, i);
            NodeWithin(n', urls) && n'.peers == n.peers && (sent == [] || sent == BroadcastDBs(u, n'))
  {
    var (n', sent) := Resume(u, n, i);
    var h := n.handlers[i];
    assert h in n.handlers;
    forall g | g in n'.handlers
      ensures forall url | url in g.rest :: url in urls
    {
      InRemove(n.handlers, i, g);
      if !(h.Looping? && h.rest == []) {
        InUpdate(n.handlers, i, n'.handlers[i], g);
        assert n'.handlers == n.handlers[i := n'.handlers[i]];
        assert h.Looping? ==> forall url | url in h.rest[1..] :: url in h.rest;
      }
    }
  }

  lemma ProceedStaysWithin(s: Network, a: nat, i: nat, urls: set<Url>)
    requires Enabled(s, Proceed(a, i)) && Within(s, urls)
    ensures Within(Apply(s, Proceed(a, i)), urls)
  {
    hide Resume;
    var s' := Apply(s, Proceed(a, i));
    var (n', sent) := Resume(a, s.nodes[a], i);
    ResumeStaysWithin(a, s.nodes[a], i, urls);
    forall m | m in s'.flight
      ensures m.dst < |s.nodes| && (m.body.Dbs? ==> forall url | url in m.body.urls :: url in urls)
    {
      if m !in s.flight {
        assert m in InitConnection(a, n');
        BroadcastIs(a, n', m);
      }
    }
  }

  lemma {:induction false} RunStaysWithin(s: Network, steps: seq<Step>, urls: set<Url>)
    requires IsRun(s, steps) && Within(s, urls)
    ensures Within(After(s, steps), urls)
    decreases |steps|
  {
    if steps != [] {
      StepStaysWithin(s, steps[0], urls);
      RunStaysWithin(Apply(s, steps[0]), steps[1..], urls);
    }
  }
}
