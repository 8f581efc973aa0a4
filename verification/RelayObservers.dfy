/** Relay's observer index: pubsub topic, then content topic, then a set of observers in insertion order. */
module RelayObservers {
  import opened ByteStrings
  import opened InsertionOrder
  import opened WakuCodec

  type PubsubTopic = string
  type ContentTopic = Bytes

  datatype Decoder = Decoder(pubsubTopic: PubsubTopic, contentTopic: ContentTopic)

  /** An observer object; the number of its subscription and its place in it stand for the object's identity. */
  datatype Observer = Observer(subscription: nat, place: nat, decoder: Decoder, callback: nat)

  type Index = map<PubsubTopic, map<ContentTopic, seq<Observer>>>

  function Lookup(m: Index, p: PubsubTopic, c: ContentTopic): seq<Observer> {
    if p in m && c in m[p] then m[p][c] else []
  }

  /** Who is called for a buffer: those filed under the topic the reduced decoder reads, if it reads one. */
  function Called(m: Index, p: PubsubTopic, bytes: Bytes): seq<Observer> {
    var topicOnly := Outcome(DecodeTopicOnly(bytes, 0, TopicOnlyMessage([])));
    if topicOnly.None? || topicOnly.value.contentTopic == [] then [] else Lookup(m, p, topicOnly.value.contentTopic)
  }

  function Without(s: seq<Observer>, o: Observer): seq<Observer> {
    if s == [] then []
    else Without(s[..|s| - 1], o) + if s[|s| - 1] == o then [] else [s[|s| - 1]]
  }

  function Add(m: Index, o: Observer): Index {
    var p, c := o.decoder.pubsubTopic, o.decoder.contentTopic;
    var ctObs := if p in m then m[p] else map[];
    m[p := ctObs[c := SetAdd(if c in ctObs then ctObs[c] else [], o)]]
  }

  function Remove(m: Index, o: Observer): Index {
    var p, c := o.decoder.pubsubTopic, o.decoder.contentTopic;
    if p !in m || c !in m[p] then m else m[p := m[p][c := Without(m[p][c], o)]]
  }

  function AddAll(m: Index, os: seq<Observer>): Index {
    if os == [] then m else Add(AddAll(m, os[..|os| - 1]), os[|os| - 1])
  }

  lemma NoneAdded(m: Index)
    ensures AddAll(m, []) == m
  {}

  lemma OneMoreAdded(m: Index, os: seq<Observer>, o: Observer)
    ensures AddAll(m, os + [o]) == Add(AddAll(m, os), o)
  {
    hide Add;
    assert (os + [o])[..|os|] == os;
  }

  function RemoveAll(m: Index, os: seq<Observer>): Index {
    if os == [] then m else Remove(RemoveAll(m, os[..|os| - 1]), os[|os| - 1])
  }

  /** The observers a subscription creates. */
  function Created(subscription: nat, decoders: seq<Decoder>, callback: nat): (r: seq<Observer>)
    ensures |r| == |decoders|
    ensures forall i | 0 <= i < |r| :: r[i] == Observer(subscription, i, decoders[i], callback)
  {
    seq(|decoders|, i requires 0 <= i < |decoders| => Observer(subscription, i, decoders[i], callback))
  }

  class Relay {
    var observers: Index
    var subscriptions: nat

    constructor ()
      ensures observers == map[] && subscriptions == 0
    {
      observers, subscriptions := map[], 0;
    }

    /** The result is what the returned unsubscribe function closes over. */
    method SubscribeWithUnsubscribe(decoders: seq<Decoder>, callback: nat) returns (created: seq<Observer>)
      modifies this
      ensures created == Created(old(subscriptions), decoders, callback)
      ensures observers == AddAll(old(observers), created) && subscriptions == old(subscriptions) + 1
    {
      hide AddAll;
      created := [];
      NoneAdded(observers);
      for i := 0 to |decoders|
        invariant subscriptions == old(subscriptions)
        invariant created == Created(subscriptions, decoders, callback)[..i]
        invariant observers == AddAll(old(observers), created)
      {
        var decoder := decoders[i];
        var ctObs := if decoder.pubsubTopic in observers then observers[decoder.pubsubTopic] else map[];
        var observer := Observer(subscriptions, i, decoder, callback);
        var known := if decoder.contentTopic in ctObs then ctObs[decoder.contentTopic] else [];
        if observer !in known {
          known := known + [observer];
        }
        ctObs := ctObs[decoder.contentTopic := known];
        observers := observers[decoder.pubsubTopic := ctObs];
        OneMoreAdded(old(observers), created, observer);
        created := created + [observer];
      }
      assert Created(subscriptions, decoders, callback)[..|decoders|] == Created(subscriptions, decoders, callback);
      subscriptions := subscriptions + 1;
    }

    method RemoveObservers(handle: seq<Observer>)
      modifies this`observers
      ensures observers == RemoveAll(old(observers), handle)
    {
      for i := 0 to |handle|
        invariant observers == RemoveAll(old(observers), handle[..i])
      {
        assert handle[..i + 1][..i] == handle[..i];
        var p, c := handle[i].decoder.pubsubTopic, handle[i].decoder.contentTopic;
        if p in observers && c in observers[p] {
          var obs := Without(observers[p][c], handle[i]);
          observers := observers[p := observers[p][c := obs]];
        }
      }
      assert handle[..|handle|] == handle;
    }

    /** processIncomingMessage up to the observers it calls; a buffer the reduced decoder rejects reaches none. */
    method ObserversOf(pubsubTopic: PubsubTopic, bytes: Bytes) returns (called: seq<Observer>)
      ensures called == Called(observers, pubsubTopic, bytes)
    {
      var topicOnlyMsg := DecodeTopicOnlyMessage(bytes);
      if topicOnlyMsg.None? || topicOnlyMsg.value.contentTopic == [] {
        return [];
      }
      if pubsubTopic !in observers {
        return [];
      }
      var contentTopicMap := observers[pubsubTopic];
      if topicOnlyMsg.value.contentTopic !in contentTopicMap {
        return [];
      }
      called := contentTopicMap[topicOnlyMsg.value.contentTopic];
    }
  }
}
