/**
 * The registry of connected cashier clients in src/main.rs: a map from
 * client id to the sender of that client's server-sent event stream, and
 * the global counter `NEXT_CLIENT_ID` that hands out ids from 1 on.
 *
 * A sender is modelled by the messages sent through it so far. Whether a
 * send succeeds (the client's stream is still open) is an input: the set
 * of client ids whose send fails.
 */
module Hub {
  import opened Common
  import opened Nfc

  /** The registry and the counter, as values. */
  datatype Registry = Registry(clients: map<nat, seq<NfcMessage>>, nextClientId: nat)

  /** The counter starts at 1 and every registered id was handed out by it. */
  predicate ValidRegistry(r: Registry) {
    1 <= r.nextClientId && forall k :: k in r.clients ==> 1 <= k < r.nextClientId
  }

  /** No clients, and the global counter `NEXT_CLIENT_ID` at its initial value 1. */
  const Initial: Registry := Registry(map[], 1)

  /** The initial registry is valid. */
  lemma InitialValid()
    ensures ValidRegistry(Initial) && Initial.clients == map[] && Initial.nextClientId == 1
  {
  }

  /** `cashier_event_stream`: take the next id, moving the counter on by one, and insert a new, empty sender under it. */
  function Subscribe(r: Registry): (res: (Registry, nat)) {
    var id := r.nextClientId;
    (Registry(r.clients[id := []], id + 1), id)
  }

  /** The `retain` of `consume_device_events`: send `msg` to every client and drop those whose send fails. */
  function Publish(r: Registry, msg: NfcMessage, failed: set<nat>): (res: Registry) {
    Registry(map k | k in r.clients && k !in failed :: r.clients[k] + [msg], r.nextClientId)
  }

  /**
   * A subscription gets an id that is not registered yet, registers it with
   * nothing sent, leaves every other client as it was, and moves the
   * counter past it.
   */
  lemma SubscribeFresh(r: Registry)
    requires ValidRegistry(r)
    ensures var (r', id) := Subscribe(r);
      ValidRegistry(r') && 1 <= id && id == r.nextClientId && id < r'.nextClientId &&
      id !in r.clients && r'.clients.Keys == r.clients.Keys + {id} && r'.clients[id] == [] &&
      forall k :: k in r.clients ==> r'.clients[k] == r.clients[k]
  {
  }

  /** Ids handed out one after the other strictly increase, whatever was published in between. */
  lemma IdsIncrease(r: Registry, msg: NfcMessage, failed: set<nat>)
    ensures Subscribe(r).1 < Subscribe(Publish(Subscribe(r).0, msg, failed)).1
    ensures Subscribe(r).1 < Subscribe(Subscribe(r).0).1
  {
  }

  /**
   * Publishing keeps exactly the clients whose send succeeded, sends each
   * of them one copy of the message after what it already had, adds no
   * client and leaves the counter alone.
   */
  lemma PublishRetains(r: Registry, msg: NfcMessage, failed: set<nat>)
    ensures Publish(r, msg, failed).clients.Keys == r.clients.Keys - failed
    ensures forall k :: k in Publish(r, msg, failed).clients ==> Publish(r, msg, failed).clients[k] == r.clients[k] + [msg]
    ensures Publish(r, msg, failed).nextClientId == r.nextClientId
    ensures ValidRegistry(r) ==> ValidRegistry(Publish(r, msg, failed))
  {
  }

  /** The main loop over reader events: publish the message of each event, with the failed sends of that round. */
  function Consume(r: Registry, events: seq<Option<CardDetail>>, failures: seq<set<nat>>): (res: Registry)
    requires |failures| == |events|
    decreases |events|
  {
    if events == [] then r
    else Consume(Publish(r, ToMessage(events[0]), failures[0]), events[1..], failures[1..])
  }

  /** The messages of a sequence of reader events. */
  function Messages(events: seq<Option<CardDetail>>): (ms: seq<NfcMessage>)
    ensures |ms| == |events|
    ensures forall i :: 0 <= i < |events| ==> ms[i] == ToMessage(events[i])
  {
    if events == [] then [] else [ToMessage(events[0])] + Messages(events[1..])
  }

  /** Some round of `failures` failed the send to `k`. */
  predicate FailedOnce(k: nat, failures: seq<set<nat>>) {
    exists i :: 0 <= i < |failures| && k in failures[i]
  }

  /** A failure in some round is one in the first round or one in the rounds after it. */
  lemma FailedOnceCons(k: nat, failures: seq<set<nat>>)
    requires failures != []
    ensures FailedOnce(k, failures) <==> k in failures[0] || FailedOnce(k, failures[1..])
  {
    if FailedOnce(k, failures) && k !in failures[0] {
      var i :| 0 <= i < |failures| && k in failures[i];
      assert failures[1..][i - 1] == failures[i];
    }
    if FailedOnce(k, failures[1..]) {
      var i :| 0 <= i < |failures[1..]| && k in failures[1..][i];
      assert failures[i + 1] == failures[1..][i];
    }
  }

  /** The events add no client and leave the counter alone. */
  lemma {:induction false} ConsumeAddsNone(r: Registry, events: seq<Option<CardDetail>>, failures: seq<set<nat>>)
    requires |failures| == |events|
    ensures Consume(r, events, failures).clients.Keys <= r.clients.Keys
    ensures Consume(r, events, failures).nextClientId == r.nextClientId
    ensures ValidRegistry(r) ==> ValidRegistry(Consume(r, events, failures))
    decreases |events|
  {
    if events != [] {
      PublishRetains(r, ToMessage(events[0]), failures[0]);
      ConsumeAddsNone(Publish(r, ToMessage(events[0]), failures[0]), events[1..], failures[1..]);
    }
  }

  /**
   * A client registered before the events whose send never fails stays
   * registered and receives the message of every event, in order.
   */
  lemma {:induction false} ConsumeDelivers(r: Registry, events: seq<Option<CardDetail>>, failures: seq<set<nat>>, k: nat)
    requires |failures| == |events|
    requires k in r.clients && !FailedOnce(k, failures)
    ensures k in Consume(r, events, failures).clients
    ensures Consume(r, events, failures).clients[k] == r.clients[k] + Messages(events)
    decreases |events|
  {
    if events != [] {
      var m := ToMessage(events[0]);
      var r1 := Publish(r, m, failures[0]);
      FailedOnceCons(k, failures);
      PublishRetains(r, m, failures[0]);
      assert k in r1.clients && r1.clients[k] == r.clients[k] + [m];
      ConsumeDelivers(r1, events[1..], failures[1..], k);
      assert r.clients[k] + [m] + Messages(events[1..]) == r.clients[k] + ([m] + Messages(events[1..]));
    }
  }

  /** A client whose send fails in some round is gone afterwards, and stays gone. */
  lemma {:induction false} ConsumeDrops(r: Registry, events: seq<Option<CardDetail>>, failures: seq<set<nat>>, k: nat)
    requires |failures| == |events|
    requires FailedOnce(k, failures) || k !in r.clients
    ensures k !in Consume(r, events, failures).clients
    decreases |events|
  {
    if events != [] {
      var r1 := Publish(r, ToMessage(events[0]), failures[0]);
      FailedOnceCons(k, failures);
      PublishRetains(r, ToMessage(events[0]), failures[0]);
      ConsumeDrops(r1, events[1..], failures[1..], k);
    }
  }

  /** `Clients`: the shared map of senders, together with the global id counter. */
  class Clients {
    var clients: map<nat, seq<NfcMessage>>
    var nextClientId: nat

    /** The registry as a value. */
    function Model(): (r: Registry)
      reads this
    {
      Registry(clients, nextClientId)
    }

    /** The counter is at least 1 and every registered id is below it. */
    ghost predicate Valid()
      reads this
    {
      ValidRegistry(Model())
    }

    /** An empty map, and the counter at its initial 1. */
    constructor()
      ensures Valid() && Model() == Initial
    {
      clients := map[];
      nextClientId := 1;
    }

    /** `cashier_event_stream`: register a new client and return its id. */
    method CashierEventStream() returns (myId: nat)
      requires Valid()
      modifies this
      ensures Valid()
      ensures (Model(), myId) == Subscribe(old(Model()))
      ensures myId !in old(clients) && myId in clients && clients[myId] == []
      ensures forall k :: k in old(clients) ==> k in clients && clients[k] == old(clients)[k]
    {
      myId := nextClientId;
      nextClientId := nextClientId + 1;
      clients := clients[myId := []];
    }

    /** The `retain` over the locked client map: one round of publishing. */
    method Broadcast(message: NfcMessage, failed: set<nat>)
      requires Valid()
      modifies this
      ensures Valid()
      ensures Model() == Publish(old(Model()), message, failed)
    {
      clients := map k | k in clients && k !in failed :: clients[k] + [message];
    }

    /**
     * `consume_device_events`: for every reader event, build its message
     * and publish it; `failures[i]` are the clients whose send fails in
     * round `i`.
     */
    method ConsumeDeviceEvents(events: seq<Option<CardDetail>>, failures: seq<set<nat>>)
      requires Valid()
      requires |failures| == |events|
      modifies this
      ensures Valid()
      ensures Model() == Consume(old(Model()), events, failures)
    {
      ghost var goal := Consume(Model(), events, failures);
      var es, fs := events, failures;
      while es != []
        invariant Valid()
        invariant |fs| == |es|
        invariant Consume(Model(), es, fs) == goal
        decreases |es|
      {
        var message := ToMessage(es[0]);
        Broadcast(message, fs[0]);
        es, fs := es[1..], fs[1..];
      }
    }
  }
}
