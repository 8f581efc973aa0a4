/** A filter subscription: the callbacks by content topic and the monitor's memory of what has arrived. */
module FilterDelivery {
  import opened InsertionOrder
  import opened Wrappers

  type ContentTopic = string
  type Hash = string
  type Callback = nat

  /** A decoder for messages on a topic; `key` tells apart those that expect different keys or versions. */
  datatype Decoder = Decoder(pubsubTopic: string, contentTopic: ContentTopic, key: nat)

  /** A pushed message. */
  datatype Push = Push(peer: string, hash: Hash, contentTopic: ContentTopic, payload: string)

  /** What is kept for a content topic: the decoders for it, in the order given, and the callback. */
  datatype SubscriptionCallback = SubscriptionCallback(decoders: seq<Decoder>, callback: Callback)

  type Callbacks = map<ContentTopic, SubscriptionCallback>

  /** The subscription's settings, and whether a decoder makes a message of what is pushed. */
  datatype Config = Config(pubsubTopic: string, reservedContentTopic: ContentTopic, decodes: (Decoder, Push) -> bool)

  /** The decoders for one topic, in order. */
  function Group(decoders: seq<Decoder>, c: ContentTopic): seq<Decoder> {
    if decoders == [] then []
    else
      var last := decoders[|decoders| - 1];
      Group(decoders[..|decoders| - 1], c) + if last.contentTopic == c then [last] else []
  }

  function ContentTopics(decoders: seq<Decoder>): seq<ContentTopic> {
    seq(|decoders|, i requires 0 <= i < |decoders| => decoders[i].contentTopic)
  }

  lemma NoTopics()
    ensures Distinct(ContentTopics([])) == []
  {}

  lemma TopicsLast(init: seq<Decoder>, last: Decoder)
    ensures Distinct(ContentTopics(init + [last])) == SetAdd(Distinct(ContentTopics(init)), last.contentTopic)
  {
    assert ContentTopics(init + [last]) == ContentTopics(init) + [last.contentTopic];
    DistinctAppend(ContentTopics(init), last.contentTopic);
  }

  lemma GroupLast(init: seq<Decoder>, last: Decoder, c: ContentTopic)
    ensures Group(init + [last], c) == Group(init, c) + if last.contentTopic == c then [last] else []
  {
    assert (init + [last])[..|init|] == init;
  }

  lemma {:induction false} GroupNotEmpty(decoders: seq<Decoder>, c: ContentTopic)
    ensures Group(decoders, c) != [] <==> exists d :: d in decoders && d.contentTopic == c
    decreases |decoders|
  {
    if decoders != [] {
      var init, last := decoders[..|decoders| - 1], decoders[|decoders| - 1];
      assert decoders == init + [last];
      GroupNotEmpty(init, c);
    }
  }

  /** The content topics decoders register: all of theirs except the reserved one. */
  function TopicsOf(cfg: Config, decoders: seq<Decoder>): set<ContentTopic> {
    set d | d in decoders && d.contentTopic != cfg.reservedContentTopic :: d.contentTopic
  }

  predicate Matching(cfg: Config, decoders: seq<Decoder>) {
    forall i | 0 <= i < |decoders| :: decoders[i].pubsubTopic == cfg.pubsubTopic
  }

  /** Each registered topic gets its decoders and the callback in place of what it had. */
  function Registered(cfg: Config, callbacks: Callbacks, decoders: seq<Decoder>, callback: Callback): Callbacks {
    map c | c in callbacks.Keys + TopicsOf(cfg, decoders) ::
      if c in TopicsOf(cfg, decoders) then SubscriptionCallback(Group(decoders, c), callback) else callbacks[c]
  }

  /** A decoder for another pubsub topic makes the call fail before it changes anything. */
  function AfterSubscribe(cfg: Config, callbacks: Callbacks, decoders: seq<Decoder>, callback: Callback): Callbacks {
    if Matching(cfg, decoders) then Registered(cfg, callbacks, decoders, callback) else callbacks
  }

  function Removed(callbacks: Callbacks, topics: seq<ContentTopic>): Callbacks {
    map c | c in callbacks && c !in topics :: callbacks[c]
  }

  predicate Accepted(cfg: Config, sc: SubscriptionCallback, push: Push) {
    exists d :: d in sc.decoders && cfg.decodes(d, push)
  }

  /** pushMessage: a message without a content topic, or one no decoder accepts, reaches no callback. */
  function PushMessage(cfg: Config, sc: SubscriptionCallback, push: Push): Option<Callback> {
    if push.contentTopic == "" || !Accepted(cfg, sc, push) then None else Some(sc.callback)
  }

  function Delivery(cfg: Config, received: set<Hash>, callbacks: Callbacks, push: Push): Option<Callback> {
    if push.hash in received || push.contentTopic !in callbacks then None
    else PushMessage(cfg, callbacks[push.contentTopic], push)
  }

  /** SubscriptionMonitor's record of arrivals. */
  class SubscriptionMonitor {
    var receivedMessagesFromPeer: set<(string, Hash)>
    var receivedMessages: set<Hash>
    var verifiedPeers: set<string>

    constructor ()
      ensures receivedMessages == {} && receivedMessagesFromPeer == {} && verifiedPeers == {}
    {
      receivedMessages, receivedMessagesFromPeer, verifiedPeers := {}, {}, {};
    }

    method NotifyMessageReceived(peer: string, hash: Hash) returns (known: bool)
      modifies this
      ensures known == (hash in old(receivedMessages))
      ensures receivedMessages == old(receivedMessages) + {hash}
      ensures receivedMessagesFromPeer == old(receivedMessagesFromPeer) + {(peer, hash)}
      ensures verifiedPeers == old(verifiedPeers) + {peer}
    {
      verifiedPeers := verifiedPeers + {peer};
      receivedMessagesFromPeer := receivedMessagesFromPeer + {(peer, hash)};
      if hash in receivedMessages {
        return true;
      }
      receivedMessages := receivedMessages + {hash};
      known := false;
    }
  }

  const GENERIC_FAIL := "Generic error"

  /** How a request to a peer ends; a fulfilled one carries the peer, or the failure it reports. */
  datatype Settled = Rejected | Fulfilled(response: Result<string, string>)

  datatype ProtocolResult = ProtocolResult(failures: seq<string>, successes: seq<string>)

  function Handled(results: seq<Settled>): ProtocolResult {
    if results == [] then ProtocolResult([], [])
    else
      var r := Handled(results[..|results| - 1]);
      match results[|results| - 1]
      case Rejected => r.(failures := r.failures + [GENERIC_FAIL])
      case Fulfilled(Err(failure)) => r.(failures := r.failures + [failure])
      case Fulfilled(Ok(peer)) => r.(successes := r.successes + [peer])
  }

  predicate Succeeded(result: Settled) { result.Fulfilled? && result.response.Ok? }

  /** Each request adds its outcome behind those of the requests before it. */
  lemma {:induction false} HandledInOrder(a: seq<Settled>, b: seq<Settled>)
    ensures Handled(a + b).failures == Handled(a).failures + Handled(b).failures
    ensures Handled(a + b).successes == Handled(a).successes + Handled(b).successes
    decreases |b|
  {
    if b == [] {
      assert a + b == a;
    } else {
      assert (a + b)[..|a + b| - 1] == a + b[..|b| - 1];
      HandledInOrder(a, b[..|b| - 1]);
    }
  }

  lemma OneHandled(failure: string, peer: string)
    ensures Handled([]) == ProtocolResult([], [])
    ensures Handled([Rejected]) == ProtocolResult(["Generic error"], [])
    ensures Handled([Fulfilled(Err(failure))]) == ProtocolResult([failure], [])
    ensures Handled([Fulfilled(Ok(peer))]) == ProtocolResult([], [peer])
  {
    assert [Rejected][..0] == [] && [Fulfilled(Err(failure))][..0] == [] && [Fulfilled(Ok(peer))][..0] == [];
  }

  /** Every request is accounted for once, and there are no failures exactly when all of them succeeded. */
  lemma {:induction false} HandledComplete(results: seq<Settled>)
    ensures |Handled(results).failures| + |Handled(results).successes| == |results|
    ensures Handled(results).failures == [] <==> forall i | 0 <= i < |results| :: Succeeded(results[i])
    ensures forall peer :: peer in Handled(results).successes <==> Fulfilled(Ok(peer)) in results
    decreases |results|
  {
    if results != [] {
      var init, last := results[..|results| - 1], results[|results| - 1];
      HandledComplete(init);
      assert results == init + [last];
    }
  }

  /** groupByContentTopic: the groups, and the topics in the order they first occur. */
  method GroupByContentTopic(decoders: seq<Decoder>)
    returns (groups: map<ContentTopic, seq<Decoder>>, topics: seq<ContentTopic>)
    ensures topics == Distinct(ContentTopics(decoders)) && groups.Keys == (set c | c in topics)
    ensures forall c :: c in topics <==> Group(decoders, c) != []
    ensures forall c | c in groups :: groups[c] == Group(decoders, c)
  {
    hide Group, Distinct;
    groups, topics := map[], [];
    NoTopics();
    forall c
      ensures Group([], c) == []
    {
      GroupNotEmpty([], c);
    }
    for i := 0 to |decoders|
      invariant topics == Distinct(ContentTopics(decoders[..i])) && groups.Keys == (set c | c in topics)
      invariant forall c :: c in topics <==> Group(decoders[..i], c) != []
      invariant forall c | c in groups :: groups[c] == Group(decoders[..i], c)
    {
      var value := decoders[i];
      forall c
        ensures Group(decoders[..i] + [value], c)
             == Group(decoders[..i], c) + if value.contentTopic == c then [value] else []
      {
        GroupLast(decoders[..i], value, c);
      }
      assert decoders[..i + 1] == decoders[..i] + [value];
      TopicsLast(decoders[..i], value);
      if value.contentTopic !in groups {
        groups := groups[value.contentTopic := []];
        topics := topics + [value.contentTopic];
      }
      groups := groups[value.contentTopic := groups[value.contentTopic] + [value]];
    }
    assert decoders[..|decoders|] == decoders;
  }

  /** `now` is `was` with what is given for `topics` set, except for the reserved one. */
  ghost predicate Holds(cfg: Config, was: Callbacks, decoders: seq<Decoder>, callback: Callback,
                        topics: seq<ContentTopic>, now: Callbacks)
  {
    && (forall c :: c in now <==> c in was || (c in topics && c != cfg.reservedContentTopic))
    && (forall c | c in now ::
          now[c] == if c in topics && c != cfg.reservedContentTopic
                    then SubscriptionCallback(Group(decoders, c), callback) else was[c])
  }

  lemma NothingSet(cfg: Config, was: Callbacks, decoders: seq<Decoder>, callback: Callback)
    ensures Holds(cfg, was, decoders, callback, [], was)
  {}

  lemma OneTopicSet(cfg: Config, was: Callbacks, decoders: seq<Decoder>, callback: Callback,
                    topics: seq<ContentTopic>, c: ContentTopic, now: Callbacks)
    requires Holds(cfg, was, decoders, callback, topics, now)
    ensures var next := if c == cfg.reservedContentTopic then now
                        else now[c := SubscriptionCallback(Group(decoders, c), callback)];
            Holds(cfg, was, decoders, callback, topics + [c], next)
  {
    hide Group;
  }

  lemma AllTopicsSet(cfg: Config, was: Callbacks, decoders: seq<Decoder>, callback: Callback,
                     topics: seq<ContentTopic>, now: Callbacks)
    requires Holds(cfg, was, decoders, callback, topics, now)
    requires forall c :: c in topics <==> Group(decoders, c) != []
    ensures now == Registered(cfg, was, decoders, callback)
  {
    hide Group;
    forall c
      ensures c in TopicsOf(cfg, decoders) <==> c in topics && c != cfg.reservedContentTopic
    {
      GroupNotEmpty(decoders, c);
    }
  }

  /** Decoders on the reserved topic register nothing. */
  lemma ReservedNotRegistered(
    cfg: Config, callbacks: Callbacks, decoders: seq<Decoder>, reserved: Decoder, callback: Callback)
    requires reserved.contentTopic == cfg.reservedContentTopic
    ensures Registered(cfg, callbacks, decoders + [reserved], callback)
         == Registered(cfg, callbacks, decoders, callback)
  {
    hide Group;
    assert TopicsOf(cfg, decoders + [reserved]) == TopicsOf(cfg, decoders);
    forall c | c in TopicsOf(cfg, decoders)
      ensures Group(decoders + [reserved], c) == Group(decoders, c)
    {
      GroupLast(decoders, reserved, c);
    }
  }

  class Subscription {
    const cfg: Config
    const lightPushCheck: bool
    const monitor: SubscriptionMonitor
    var subscriptionCallbacks: Callbacks

    constructor (cfg: Config, lightPushCheck: bool)
      ensures this.cfg == cfg && this.lightPushCheck == lightPushCheck
      ensures subscriptionCallbacks == map[] && fresh(monitor) && monitor.receivedMessages == {}
    {
      this.cfg, this.lightPushCheck := cfg, lightPushCheck;
      subscriptionCallbacks := map[];
      monitor := new SubscriptionMonitor();
    }

    method SetCallbacks(decoders: seq<Decoder>, callback: Callback)
      modifies this
      ensures subscriptionCallbacks == Registered(cfg, old(subscriptionCallbacks), decoders, callback)
    {
      hide Group, Registered, Holds;
      var groups, topics := GroupByContentTopic(decoders);
      NothingSet(cfg, subscriptionCallbacks, decoders, callback);
      for i := 0 to |topics|
        invariant Holds(cfg, old(subscriptionCallbacks), decoders, callback, topics[..i], subscriptionCallbacks)
      {
        var contentTopic := topics[i];
        assert topics[..i + 1] == topics[..i] + [contentTopic];
        OneTopicSet(cfg, old(subscriptionCallbacks), decoders, callback, topics[..i], contentTopic,
                    subscriptionCallbacks);
        if contentTopic != cfg.reservedContentTopic {
          subscriptionCallbacks :=
            subscriptionCallbacks[contentTopic := SubscriptionCallback(groups[contentTopic], callback)];
        }
      }
      assert topics[..|topics|] == topics;
      AllTopicsSet(cfg, old(subscriptionCallbacks), decoders, callback, topics, subscriptionCallbacks);
    }

    /** subscribe once the network requests have settled; false is the decoder mismatch, which changes nothing. */
    method Subscribe(decoders: seq<Decoder>, callback: Callback) returns (ok: bool)
      modifies this
      ensures ok == Matching(cfg, decoders)
      ensures subscriptionCallbacks == AfterSubscribe(cfg, old(subscriptionCallbacks), decoders, callback)
    {
      hide Registered;
      for i := 0 to |decoders|
        invariant Matching(cfg, decoders[..i])
      {
        if decoders[i].pubsubTopic != cfg.pubsubTopic {
          return false;
        }
      }
      var all := decoders;
      if lightPushCheck {
        var reserved := Decoder(cfg.pubsubTopic, cfg.reservedContentTopic, 0);
        all := all + [reserved];
        ReservedNotRegistered(cfg, subscriptionCallbacks, decoders, reserved, callback);
      }
      SetCallbacks(all, callback);
      ok := true;
    }

    /**
     * unsubscribe for peers whose requests resolve or reject: the callbacks are deleted by the code that follows a
     * resolved request.
     */
    method Unsubscribe(contentTopics: seq<ContentTopic>, resolved: seq<bool>)
      modifies this
      ensures subscriptionCallbacks
           == if true in resolved then Removed(old(subscriptionCallbacks), contentTopics)
              else old(subscriptionCallbacks)
    {
      for i := 0 to |resolved|
        invariant subscriptionCallbacks
               == if true in resolved[..i] then Removed(old(subscriptionCallbacks), contentTopics)
                  else old(subscriptionCallbacks)
      {
        assert resolved[..i + 1] == resolved[..i] + [resolved[i]];
        if resolved[i] {
          subscriptionCallbacks :=
            map c | c in subscriptionCallbacks && c !in contentTopics :: subscriptionCallbacks[c];
        }
      }
      assert resolved[..|resolved|] == resolved;
    }

    /** handleResult: a rejected request fails, and so does a fulfilled one whose response carries a failure. */
    method HandleResult(results: seq<Settled>) returns (result: ProtocolResult)
      ensures result == Handled(results)
    {
      result := ProtocolResult([], []);
      for i := 0 to |results|
        invariant result == Handled(results[..i])
      {
        assert results[..i + 1][..i] == results[..i];
        match results[i] {
          case Rejected => result := result.(failures := result.failures + [GENERIC_FAIL]);
          case Fulfilled(Err(failure)) => result := result.(failures := result.failures + [failure]);
          case Fulfilled(Ok(peer)) => result := result.(successes := result.successes + [peer]);
        }
      }
      assert results[..|results|] == results;
    }

    /** unsubscribeAll: the callbacks are cleared after the requests settle, whatever they bring. */
    method UnsubscribeAll(results: seq<Settled>) returns (finalResult: ProtocolResult)
      modifies this
      ensures subscriptionCallbacks == map[]
      ensures finalResult == Handled(results)
    {
      subscriptionCallbacks := map[];
      finalResult := HandleResult(results);
    }

    /** processIncomingMessage up to the callback it calls. */
    method ProcessIncomingMessage(push: Push) returns (called: Option<Callback>)
      modifies monitor
      ensures monitor.receivedMessages == old(monitor.receivedMessages) + {push.hash}
      ensures called == Delivery(cfg, old(monitor.receivedMessages), subscriptionCallbacks, push)
    {
      var received := monitor.NotifyMessageReceived(push.peer, push.hash);
      if received {
        return None;
      }
      if push.contentTopic !in subscriptionCallbacks {
        return None;
      }
      called := PushMessage(cfg, subscriptionCallbacks[push.contentTopic], push);
    }
  }

  // ---- Runs ----

  /** What happens to a subscription; peers that answer an unsubscribe at different times make several events. */
  datatype Event =
    | Arrive(push: Push)
    | Register(decoders: seq<Decoder>, callback: Callback)
    | Unregister(topics: seq<ContentTopic>, resolved: seq<bool>)
    | Clear

  datatype State = State(received: set<Hash>, callbacks: Callbacks)

  const START := State({}, map[])

  function Next(cfg: Config, s: State, e: Event): State {
    match e
    case Arrive(push) => s.(received := s.received + {push.hash})
    case Register(decoders, callback) => s.(callbacks := AfterSubscribe(cfg, s.callbacks, decoders, callback))
    case Unregister(topics, resolved) => if true in resolved then s.(callbacks := Removed(s.callbacks, topics)) else s
    case Clear => s.(callbacks := map[])
  }

  function After(cfg: Config, events: seq<Event>): State {
    if events == [] then START else Next(cfg, After(cfg, events[..|events| - 1]), events[|events| - 1])
  }

  /** The callback the `k`-th event, an arrival, is handed to. */
  function Handed(cfg: Config, events: seq<Event>, k: nat): Option<Callback>
    requires k < |events| && events[k].Arrive?
  {
    var s := After(cfg, events[..k]);
    Delivery(cfg, s.received, s.callbacks, events[k].push)
  }

  /** The event registers the topic, or takes it out. */
  predicate SetsTopic(cfg: Config, e: Event, c: ContentTopic) {
    e.Register? && Matching(cfg, e.decoders) && c in TopicsOf(cfg, e.decoders)
  }

  predicate ClearsTopic(e: Event, c: ContentTopic) {
    e.Clear? || (e.Unregister? && c in e.topics && true in e.resolved)
  }

  /** What the last event that says anything about `c` set for it. */
  function LastSet(cfg: Config, events: seq<Event>, c: ContentTopic): Option<SubscriptionCallback> {
    if events == [] then None
    else
      var e := events[|events| - 1];
      if SetsTopic(cfg, e, c) then Some(SubscriptionCallback(Group(e.decoders, c), e.callback))
      else if ClearsTopic(e, c) then None
      else LastSet(cfg, events[..|events| - 1], c)
  }

  lemma {:induction false} CallbackIsLastSet(cfg: Config, events: seq<Event>, c: ContentTopic)
    ensures var callbacks := After(cfg, events).callbacks;
            LastSet(cfg, events, c) == if c in callbacks then Some(callbacks[c]) else None
    decreases |events|
  {
    hide Matching, TopicsOf, Group;
    if events != [] {
      CallbackIsLastSet(cfg, events[..|events| - 1], c);
    }
  }

  lemma {:induction false} ReceivedIsHistory(cfg: Config, events: seq<Event>, hash: Hash)
    ensures hash in After(cfg, events).received
       <==> exists i | 0 <= i < |events| :: events[i].Arrive? && events[i].push.hash == hash
    decreases |events|
  {
    hide AfterSubscribe;
    if events != [] {
      var init := events[..|events| - 1];
      ReceivedIsHistory(cfg, init, hash);
      assert forall i | 0 <= i < |init| :: init[i] == events[i];
      if i :| 0 <= i < |events| && events[i].Arrive? && events[i].push.hash == hash {
        if i < |init| {
          assert init[i].Arrive? && init[i].push.hash == hash;
        }
      }
    }
  }

  /** No earlier event is an arrival of the same hash. */
  predicate FirstArrival(events: seq<Event>, k: nat)
    requires k < |events| && events[k].Arrive?
  {
    forall i | 0 <= i < k && events[i].Arrive? :: events[i].push.hash != events[k].push.hash
  }

  /**
   * In every run an arrival is handed to a callback exactly when it is the first of its hash, its topic is not
   * empty, a callback is set for the topic at that moment and one of the decoders set with it accepts the message;
   * and then to that callback.
   */
  lemma HandedExactly(cfg: Config, events: seq<Event>, k: nat)
    requires k < |events| && events[k].Arrive?
    ensures var push := events[k].push;
            var held := LastSet(cfg, events[..k], push.contentTopic);
            Handed(cfg, events, k)
            == if FirstArrival(events, k) && push.contentTopic != "" && held.Some? && Accepted(cfg, held.value, push)
               then Some(held.value.callback) else None
  {
    hide After, LastSet, Accepted;
    var push := events[k].push;
    ReceivedIsHistory(cfg, events[..k], push.hash);
    CallbackIsLastSet(cfg, events[..k], push.contentTopic);
    assert forall i | 0 <= i < k :: events[..k][i] == events[i];
  }

  /** However many peers push a message, at most one of its arrivals is handed over. */
  lemma AtMostOncePerHash(cfg: Config, events: seq<Event>, i: nat, j: nat)
    requires i < j < |events| && events[i].Arrive? && events[j].Arrive?
    requires events[i].push.hash == events[j].push.hash
    ensures Handed(cfg, events, j) == None
  {
    HandedExactly(cfg, events, j);
  }

  // ---- Delivery in terms of the calls made ----

  /** A subscribe call for the right pubsub topic that gives `callback` with a decoder for the message. */
  ghost predicate Serves(cfg: Config, e: Event, push: Push, callback: Callback) {
    && e.Register? && e.callback == callback && push.contentTopic != cfg.reservedContentTopic
    && (forall d | d in e.decoders :: d.pubsubTopic == cfg.pubsubTopic)
    && exists d :: d in e.decoders && d.contentTopic == push.contentTopic && cfg.decodes(d, push)
  }

  /** A call that replaces or removes what is set for the topic. */
  ghost predicate Overrides(cfg: Config, e: Event, c: ContentTopic) {
    match e
    case Arrive(_) => false
    case Register(decoders, _) =>
      && c != cfg.reservedContentTopic && (forall d | d in decoders :: d.pubsubTopic == cfg.pubsubTopic)
      && exists d :: d in decoders && d.contentTopic == c
    case Unregister(topics, resolved) => c in topics && true in resolved
    case Clear => true
  }

  lemma OverridesExactly(cfg: Config, e: Event, c: ContentTopic)
    ensures Overrides(cfg, e, c) <==> SetsTopic(cfg, e, c) || ClearsTopic(e, c)
  {
    if e.Register? {
      assert Matching(cfg, e.decoders) <==> forall d | d in e.decoders :: d.pubsubTopic == cfg.pubsubTopic;
    }
  }

  lemma {:induction false} GroupMembers(decoders: seq<Decoder>, c: ContentTopic, d: Decoder)
    ensures d in Group(decoders, c) <==> d in decoders && d.contentTopic == c
    decreases |decoders|
  {
    if decoders != [] {
      var init, last := decoders[..|decoders| - 1], decoders[|decoders| - 1];
      assert decoders == init + [last];
      GroupMembers(init, c, d);
    }
  }

  lemma ServesExactly(cfg: Config, e: Event, push: Push, callback: Callback)
    ensures Serves(cfg, e, push, callback)
       <==> && SetsTopic(cfg, e, push.contentTopic) && e.callback == callback
            && Accepted(cfg, SubscriptionCallback(Group(e.decoders, push.contentTopic), e.callback), push)
  {
    hide Group;
    OverridesExactly(cfg, e, push.contentTopic);
    if e.Register? {
      forall d
        ensures d in Group(e.decoders, push.contentTopic) <==> d in e.decoders && d.contentTopic == push.contentTopic
      {
        GroupMembers(e.decoders, push.contentTopic, d);
      }
    }
  }

  /** Event `j` serves the message and nothing after it overrides that. */
  ghost predicate ServedBy(cfg: Config, events: seq<Event>, j: nat, push: Push, callback: Callback)
    requires j < |events|
  {
    && Serves(cfg, events[j], push, callback)
    && forall i | j < i < |events| :: !Overrides(cfg, events[i], push.contentTopic)
  }

  lemma SetsOrClears(cfg: Config, e: Event, c: ContentTopic)
    ensures !(SetsTopic(cfg, e, c) && ClearsTopic(e, c))
  {}

  lemma ServedLonger(cfg: Config, init: seq<Event>, e: Event, j: nat, push: Push, callback: Callback)
    requires j < |init|
    ensures ServedBy(cfg, init + [e], j, push, callback)
       <==> ServedBy(cfg, init, j, push, callback) && !Overrides(cfg, e, push.contentTopic)
  {
    hide Serves, Overrides;
    var all := init + [e];
    assert all[j] == init[j] && all[|init|] == e;
    assert forall i | 0 <= i < |init| :: all[i] == init[i];
  }

  lemma ServedLast(cfg: Config, events: seq<Event>, push: Push, callback: Callback)
    requires events != []
    ensures ServedBy(cfg, events, |events| - 1, push, callback)
       <==> Serves(cfg, events[|events| - 1], push, callback)
  {
    hide Serves, Overrides;
  }

  lemma {:induction false} LastSetServes(cfg: Config, events: seq<Event>, push: Push, callback: Callback)
    ensures var held := LastSet(cfg, events, push.contentTopic);
            held.Some? && held.value.callback == callback && Accepted(cfg, held.value, push)
            <==> exists j: nat :: j < |events| && ServedBy(cfg, events, j, push, callback)
    decreases |events|
  {
    hide Serves, Overrides, SetsTopic, ClearsTopic, Accepted, Group, ServedBy;
    if events != [] {
      var init, e := events[..|events| - 1], events[|events| - 1];
      LastSetServes(cfg, init, push, callback);
      OverridesExactly(cfg, e, push.contentTopic);
      ServesExactly(cfg, e, push, callback);
      forall j: nat | j < |init|
        ensures ServedBy(cfg, events, j, push, callback)
           <==> ServedBy(cfg, init, j, push, callback) && !Overrides(cfg, e, push.contentTopic)
      {
        ServedLonger(cfg, init, e, j, push, callback);
        assert init + [e] == events;
      }
      SetsOrClears(cfg, e, push.contentTopic);
      ServedLast(cfg, events, push, callback);
      if j: nat :| j < |init| && ServedBy(cfg, init, j, push, callback) {
        assert ServedBy(cfg, events, j, push, callback) <==> !Overrides(cfg, e, push.contentTopic);
      }
    }
  }

  /**
   * In every run a push reaches `callback` exactly when it is the first arrival of its hash, its topic is not empty,
   * and some subscribe call gave that callback with a decoder on the topic that accepts it, and no later call
   * subscribed to the topic anew, took it out with an answer, or cleared everything.
   */
  lemma DeliveredExactly(cfg: Config, events: seq<Event>, k: nat, callback: Callback)
    requires k < |events| && events[k].Arrive?
    ensures var push := events[k].push;
            Handed(cfg, events, k) == Some(callback)
            <==> && (forall i | 0 <= i < k && events[i].Arrive? :: events[i].push.hash != push.hash)
                 && push.contentTopic != ""
                 && exists j: nat :: j < k && ServedBy(cfg, events[..k], j, push, callback)
  {
    hide Handed, LastSet, Accepted, ServedBy;
    HandedExactly(cfg, events, k);
    LastSetServes(cfg, events[..k], events[k].push, callback);
  }

  // ---- Unsubscribing ----

  /** Events that say nothing about a topic leave what is set for it. */
  lemma {:induction false} SilenceKeeps(cfg: Config, events: seq<Event>, silent: seq<Event>, c: ContentTopic)
    requires forall e | e in silent :: !SetsTopic(cfg, e, c) && !ClearsTopic(e, c)
    ensures LastSet(cfg, events + silent, c) == LastSet(cfg, events, c)
    decreases |silent|
  {
    hide SetsTopic, ClearsTopic;
    if silent == [] {
      assert events + silent == events;
    } else {
      var init, last := silent[..|silent| - 1], silent[|silent| - 1];
      assert last in silent && silent == init + [last];
      assert (events + silent)[..|events + silent| - 1] == events + init;
      SilenceKeeps(cfg, events, init, c);
    }
  }

  /**
   * A subscriber that unsubscribes from a topic and leaves it alone still gets the next new message on it exactly
   * when no peer's request resolved, however long ago that was.
   */
  lemma UnsubscribeNeedsAnAnswer(
    cfg: Config, before: seq<Event>, topics: seq<ContentTopic>, resolved: seq<bool>, silent: seq<Event>, push: Push)
    requires push.contentTopic in topics && push.contentTopic != ""
    requires forall e | e in silent :: !SetsTopic(cfg, e, push.contentTopic) && !ClearsTopic(e, push.contentTopic)
    requires var held := LastSet(cfg, before, push.contentTopic); held.Some? && Accepted(cfg, held.value, push)
    requires var events := before + [Unregister(topics, resolved)] + silent + [Arrive(push)];
             FirstArrival(events, |events| - 1)
    ensures var events := before + [Unregister(topics, resolved)] + silent + [Arrive(push)];
            Handed(cfg, events, |events| - 1)
            == if true in resolved then None else Some(LastSet(cfg, before, push.contentTopic).value.callback)
  {
    hide Accepted, Handed, FirstArrival;
    var told := before + [Unregister(topics, resolved)];
    var events := told + silent + [Arrive(push)];
    assert told[..|told| - 1] == before;
    assert events[..|events| - 1] == told + silent;
    SilenceKeeps(cfg, told, silent, push.contentTopic);
    HandedExactly(cfg, events, |events| - 1);
  }
}
