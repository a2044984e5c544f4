// The mutable state of template/swarm.js: the closure of createSwarm, whose handlers are
// cut at their awaits, and the subscription records that events are sent to.
module SwarmNode {
  import opened Swarm
  import opened SwarmSafety

  // ---- The node ----

  class SwarmState {
    const id: nat
    var knownDBs: seq<Url>
    var peers: seq<nat>
    var handlers: seq<Handler>
    var inputs: seq<Url>
    var rebroadcasts: nat
    // What the discovery core was given to send.
    var outbox: seq<Message>

    function View(): Node
      reads this
    {
      Node(knownDBs, peers, handlers, inputs, rebroadcasts)
    }

    constructor (id: nat, localUrl: Url)
      ensures this.id == id && View() == Start(localUrl) && outbox == []
    {
      this.id := id;
      knownDBs := [localUrl];
      peers := [];
      handlers := [];
      inputs := [];
      rebroadcasts := 0;
      outbox := [];
    }

    method BroadcastDBs()
      modifies this`outbox
      ensures outbox == old(outbox) + Swarm.BroadcastDBs(id, View())
    {
      outbox := outbox + ToPeers(id, peers, Dbs(knownDBs));
    }

    // The peer-add event.
    method OnPeerAdd(v: nat)
      modifies this`peers, this`outbox
      ensures View() == old(View()).(peers := old(peers) + [v])
      ensures outbox == old(outbox) + Swarm.InitConnection(id, View())
    {
      peers := peers + [v];
      InitConnection();
    }

    // The peer list of the discovery core, when a peer leaves.
    method OnPeerRemove(v: nat)
      modifies this`peers
      ensures View() == old(View()).(peers := Without(old(peers), v))
    {
      peers := Without(peers, v);
    }

    method InitConnection()
      modifies this`outbox
      ensures outbox == old(outbox) + Swarm.InitConnection(id, View())
    {
      outbox := outbox + ToPeers(id, peers, Request);
      BroadcastDBs();
    }

    // onmessage of the request-sync extension.
    method OnRequestSync()
      modifies this`outbox
      ensures outbox == old(outbox) + Swarm.BroadcastDBs(id, View())
    {
      BroadcastDBs();
    }

    // onmessage of the sync extension, up to its loop.
    method OnSync(message: seq<Url>)
      modifies this`handlers
      ensures View() == Receive(old(View()), message)
    {
      handlers := handlers + [Looping(message, false)];
    }

    // A pending call of the sync handler goes on.
    method Proceed(i: nat)
      requires i < |handlers|
      modifies this
      ensures View() == Resume(id, old(View()), i).0
      ensures outbox == old(outbox) + Resume(id, old(View()), i).1
    {
      match handlers[i] {
        case Looping(rest, sawNew) =>
          if rest == [] {
            handlers := Remove(handlers, i);
            if sawNew {
              BroadcastDBs();
              rebroadcasts := rebroadcasts + 1;
            }
          } else if rest[0] in knownDBs {
            handlers := handlers[i := Looping(rest[1..], sawNew)];
          } else {
            knownDBs := knownDBs + [rest[0]];
            handlers := handlers[i := Getting(rest[0], rest[1..])];
          }
        case Getting(url, rest) =>
          inputs := inputs + [url];
          handlers := handlers[i := Adding(url, rest)];
        case Adding(url, rest) =>
          handlers := handlers[i := Looping(rest, true)];
      }
    }
  }

  // ---- Subscriptions ----

  type EventId = string

  // What a record's socket has got after one more event is offered to it.
  function SendOnce(sent: seq<EventId>, id: EventId): seq<EventId> {
    if id in sent then sent else sent + [id]
  }

  function SendAll(sent: seq<EventId>, ids: seq<EventId>): seq<EventId>
    decreases |ids|
  {
    if ids == [] then sent else SendAll(SendOnce(sent, ids[0]), ids[1..])
  }

  // Each element where it comes first.
  function FirstOccurrences(ids: seq<EventId>): seq<EventId> {
    if ids == [] then []
    else
      var (before, last) := (ids[..|ids| - 1], ids[|ids| - 1]);
      FirstOccurrences(before) + if last in before then [] else [last]
  }

  lemma {:induction false} SendAllAppend(sent: seq<EventId>, a: seq<EventId>, b: seq<EventId>)
    ensures SendAll(sent, a + b) == SendAll(SendAll(sent, a), b)
    decreases |a|
  {
    if a == [] {
      assert a + b == b;
    } else {
      SendAllAppend(SendOnce(sent, a[0]), a[1..], b);
      assert (a + b)[1..] == a[1..] + b;
    }
  }

  lemma {:induction false} SendAllMembers(ids: seq<EventId>, id: EventId)
    ensures id in SendAll([], ids) <==> id in ids
  {
    if ids != [] {
      var (before, last) := (ids[..|ids| - 1], ids[|ids| - 1]);
      assert ids == before + [last];
      SendAllAppend([], before, [last]);
      assert SendAll(SendAll([], before), [last]) == SendOnce(SendAll([], before), last);
      SendAllMembers(before, id);
    }
  }

  // However the events are cut into streamed events and query results, and in whatever order
  // these run, a record sends exactly the first occurrence of each id offered to it, in order.
  lemma {:induction false} SendsFirstOccurrences(ids: seq<EventId>)
    ensures SendAll([], ids) == FirstOccurrences(ids)
    ensures NoDuplicates(SendAll([], ids))
  {
    if ids != [] {
      var (before, last) := (ids[..|ids| - 1], ids[|ids| - 1]);
      assert ids == before + [last];
      SendAllAppend([], before, [last]);
      assert SendAll(SendAll([], before), [last]) == SendOnce(SendAll([], before), last);
      SendAllMembers(before, last);
      SendsFirstOccurrences(before);
    }
  }

  lemma OccurrenceSnoc(ids: seq<EventId>, id: EventId)
    ensures FirstOccurrences(ids + [id]) == FirstOccurrences(ids) + if id in ids then [] else [id]
  {
    assert (ids + [id])[..|ids|] == ids;
  }

  // These are the ids offered, each of them once; and what comes later is added at the end.
  lemma {:induction false} FirstOccurrencesAre(ids: seq<EventId>, k: nat)
    requires k <= |ids|
    ensures NoDuplicates(FirstOccurrences(ids)) && forall id :: id in FirstOccurrences(ids) <==> id in ids
    ensures FirstOccurrences(ids[..k]) <= FirstOccurrences(ids)
    decreases |ids|
  {
    if ids != [] {
      hide FirstOccurrences;
      var (before, last) := (ids[..|ids| - 1], ids[|ids| - 1]);
      assert ids == before + [last];
      OccurrenceSnoc(before, last);
      FirstOccurrencesAre(before, if k < |ids| then k else 0);
      assert ids[..k] == if k < |ids| then before[..k] else ids;
    }
  }

  lemma {:induction false} ReversedAt(ids: seq<EventId>, k: nat)
    requires k < |ids|
    ensures |Reversed(ids)| == |ids| && Reversed(ids)[k] == ids[|ids| - 1 - k]
  {
    if |ids| > 1 {
      ReversedAt(ids[1..], if k < |ids| - 1 then k else 0);
    }
  }

  function Reversed(ids: seq<EventId>): seq<EventId> {
    if ids == [] then [] else Reversed(ids[1..]) + [ids[0]]
  }

  class Subscription {
    const filters: string
    var receivedEvents: set<EventId>
    var sent: seq<EventId>
    // Every id that was ever offered to the record.
    ghost var offered: seq<EventId>

    ghost predicate Valid()
      reads this
    {
      && receivedEvents == (set id | id in sent)
      && sent == SendAll([], offered)
    }

    constructor (filters: string)
      ensures Valid() && this.filters == filters && offered == []
    {
      this.filters := filters;
      receivedEvents := {};
      sent := [];
      offered := [];
    }

    // sendEventTo.
    method SendEventTo(id: EventId)
      requires Valid()
      modifies this
      ensures Valid() && offered == old(offered) + [id]
      ensures sent == SendOnce(old(sent), id)
    {
      SendAllAppend([], offered, [id]);
      assert SendAll(sent, [id]) == SendOnce(sent, id);
      offered := offered + [id];
      if id !in receivedEvents {
        sent := sent + [id];
        receivedEvents := receivedEvents + {id};
      }
    }

    // What sendQueryToSubscription does with the events its query found: newest last.
    method SendEvents(events: seq<EventId>)
      requires Valid()
      modifies this
      ensures Valid() && offered == old(offered) + Reversed(events)
    {
      hide Valid, OfferedFrom;
      ghost var before := offered;
      OffersStart(before, events);
      var i := |events|;
      while i > 0
        invariant 0 <= i <= |events|
        invariant Valid() && OfferedFrom(offered, before, events, i)
      {
        i := i - 1;
        OffersTurn(offered, before, events, i);
        SendEventTo(events[i]);
      }
      OffersEnd(offered, before, events);
    }
  }

  // The events from k on have been offered, after those of before.
  ghost predicate OfferedFrom(offered: seq<EventId>, before: seq<EventId>, events: seq<EventId>, k: nat) {
    k <= |events| && offered == before + Reversed(events[k..])
  }

  lemma OffersStart(before: seq<EventId>, events: seq<EventId>)
    ensures OfferedFrom(before, before, events, |events|)
  {
    assert events[|events|..] == [];
  }

  lemma OffersTurn(offered: seq<EventId>, before: seq<EventId>, events: seq<EventId>, k: nat)
    requires k < |events| && OfferedFrom(offered, before, events, k + 1)
    ensures OfferedFrom(offered + [events[k]], before, events, k)
  {
    assert events[k..][1..] == events[k + 1..];
    assert offered + [events[k]] == before + (Reversed(events[k + 1..]) + [events[k]]);
  }

  lemma OffersEnd(offered: seq<EventId>, before: seq<EventId>, events: seq<EventId>)
    requires OfferedFrom(offered, before, events, 0)
    ensures offered == before + Reversed(events)
  {
    assert events[0..] == events;
  }

  // streamEvent: the event goes to every record whose filters it matches, once. The records
  // are the values of the subscriptions map, each of which was made for its key alone.
  method StreamEvent(subscriptions: seq<Subscription>, id: EventId, matches: string -> bool)
    requires forall j | 0 <= j < |subscriptions| :: subscriptions[j].Valid()
    requires forall i, j | 0 <= i < j < |subscriptions| :: subscriptions[i] != subscriptions[j]
    modifies subscriptions
    ensures forall j | 0 <= j < |subscriptions| ::
              && subscriptions[j].Valid()
              && subscriptions[j].sent ==
                 if matches(subscriptions[j].filters) then SendOnce(old(subscriptions[j].sent), id)
                 else old(subscriptions[j].sent)
  {
    hide SendOnce, SendAll;
    for k := 0 to |subscriptions|
      invariant forall j | 0 <= j < |subscriptions| :: subscriptions[j].Valid()
      invariant forall j | 0 <= j < |subscriptions| ::
        subscriptions[j].sent ==
        if j < k && matches(subscriptions[j].filters) then SendOnce(old(subscriptions[j].sent), id)
        else old(subscriptions[j].sent)
    {
      if matches(subscriptions[k].filters) {
        subscriptions[k].SendEventTo(id);
      }
    }
  }
}
