// A network of the mutable nodes: what its nodes do step by step is a run of the network that the
// results about the gossip speak of.
module SwarmNetwork {
  import opened Swarm
  import opened SwarmHistory
  import opened SwarmNode

  class NetworkState {
    const nodes: seq<SwarmState>
    var flight: seq<Message>

    // Each node is an object of its own.
    ghost predicate AreNodes()
      reads nodes
    {
      && (forall u | 0 <= u < |nodes| :: nodes[u].id == u)
      && (forall u, v | 0 <= u < v < |nodes| :: nodes[u] != nodes[v])
    }

    // What the nodes were given to send has been taken.
    ghost predicate Valid()
      reads nodes
    {
      AreNodes() && forall u | 0 <= u < |nodes| :: nodes[u].outbox == []
    }

    ghost function Views(): (views: seq<Node>)
      reads nodes
      ensures |views| == |nodes| && forall u | 0 <= u < |nodes| :: views[u] == nodes[u].View()
    {
      seq(|nodes|, u requires 0 <= u < |nodes| reads nodes => nodes[u].View())
    }

    ghost function View(): Network
      reads this, nodes
    {
      Network(Views(), flight)
    }

    // Takes what a node was given to send; the other nodes are as they were.
    method Collect(u: nat, node: SwarmState, ghost before: seq<Node>)
      requires u < |nodes| == |before| && node == nodes[u] && AreNodes()
      requires forall v | 0 <= v < |nodes| && v != u :: nodes[v].View() == before[v] && nodes[v].outbox == []
      modifies this`flight, node`outbox
      ensures Valid() && flight == old(flight) + old(node.outbox)
      ensures Views() == before[u := old(node.View())]
    {
      flight := flight + node.outbox;
      node.outbox := [];
    }

    method PeerAdd(u: nat, v: nat)
      requires Valid() && Enabled(View(), Step.PeerAdd(u, v))
      modifies this, nodes
      ensures Valid() && View() == Apply(old(View()), Step.PeerAdd(u, v))
    {
      hide InitConnection;
      ghost var before := Views();
      nodes[u].OnPeerAdd(v);
      Collect(u, nodes[u], before);
    }

    method PeerRemove(u: nat, v: nat)
      requires Valid() && Enabled(View(), Step.PeerRemove(u, v))
      modifies this, nodes
      ensures Valid() && View() == Apply(old(View()), Step.PeerRemove(u, v))
    {
      hide Lose, Without;
      ghost var before := Views();
      nodes[u].OnPeerRemove(v);
      flight := Lose(flight, u, v);
      assert Views() == before[u := nodes[u].View()];
    }

    method Deliver(k: nat)
      requires Valid() && Enabled(View(), Step.Deliver(k))
      modifies this, nodes
      ensures Valid() && View() == Apply(old(View()), Step.Deliver(k))
    {
      hide BroadcastDBs, Receive;
      ghost var before := Views();
      var m := flight[k];
      flight := Remove(flight, k);
      match m.body {
        case Dbs(urls) => nodes[m.dst].OnSync(urls);
        case Request => nodes[m.dst].OnRequestSync();
      }
      assert flight + [] == flight;
      Collect(m.dst, nodes[m.dst], before);
    }

    method Proceed(u: nat, i: nat)
      requires Valid() && Enabled(View(), Step.Proceed(u, i))
      modifies this, nodes
      ensures Valid() && View() == Apply(old(View()), Step.Proceed(u, i))
    {
      hide Resume;
      ghost var before := Views();
      nodes[u].Proceed(i);
      Collect(u, nodes[u], before);
    }

    // Any run of the mutable nodes is a run of the network.
    method Run(steps: seq<Step>)
      requires Valid() && IsRun(View(), steps)
      modifies this, nodes
      ensures Valid() && View() == After(old(View()), steps)
      ensures forall u, v | 0 <= u < |nodes| && 0 <= v < |nodes| ::
                v in nodes[u].peers <==>
                Linked(steps, u, v) || (v in old(nodes[u].peers) && Step.PeerRemove(u, v) !in steps)
    {
      hide Apply, Enabled, Linked;
      ghost var start := View();
      assert steps[0..] == steps;
      for k := 0 to |steps|
        invariant Valid() && IsRun(View(), steps[k..]) && After(View(), steps[k..]) == After(start, steps)
      {
        assert steps[k..][0] == steps[k] && steps[k..][1..] == steps[k + 1..];
        match steps[k] {
          case PeerAdd(u, v) => PeerAdd(u, v);
          case PeerRemove(u, v) => PeerRemove(u, v);
          case Deliver(m) => Deliver(m);
          case Proceed(u, i) => Proceed(u, i);
        }
      }
      forall u, v | 0 <= u < |nodes| && 0 <= v < |nodes|
        ensures v in nodes[u].peers <==>
                Linked(steps, u, v) || (v in start.nodes[u].peers && Step.PeerRemove(u, v) !in steps)
      {
        PeersAfter(start, steps, u, v);
        assert View().nodes[u].peers == nodes[u].peers;
      }
    }
  }
}
