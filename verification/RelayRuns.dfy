/** The observer index over any sequence of subscribes and cancels. */
module RelayRuns {
  import opened ByteStrings
  import opened InsertionOrder
  import opened RelayObservers
  import opened WakuCodec
  import opened WakuProjection

  datatype Op = Subscribe(decoders: seq<Decoder>, callback: nat) | Cancel(subscription: nat)

  /** The index, what each subscription created, all observers in the order they came, and what was cancelled. */
  datatype World = World(index: Index, handles: seq<seq<Observer>>, history: seq<Observer>, cancelled: set<nat>)

  const START := World(map[], [], [], {})

  function Apply(w: World, op: Op): World {
    match op
    case Subscribe(decoders, callback) =>
      var created := Created(|w.handles|, decoders, callback);
      w.(index := AddAll(w.index, created), handles := w.handles + [created], history := w.history + created)
    case Cancel(k) =>
      if k < |w.handles| then w.(index := RemoveAll(w.index, w.handles[k]), cancelled := w.cancelled + {k}) else w
  }

  function After(w: World, ops: seq<Op>): World
    decreases |ops|
  {
    if ops == [] then w else After(Apply(w, ops[0]), ops[1..])
  }

  predicate Listens(o: Observer, p: PubsubTopic, c: ContentTopic) {
    o.decoder.pubsubTopic == p && o.decoder.contentTopic == c
  }

  /** The observers on a topic whose subscriptions are not cancelled, in the order they subscribed. */
  function Live(history: seq<Observer>, cancelled: set<nat>, p: PubsubTopic, c: ContentTopic): seq<Observer> {
    if history == [] then []
    else
      var last := history[|history| - 1];
      Live(history[..|history| - 1], cancelled, p, c)
      + if Listens(last, p, c) && last.subscription !in cancelled then [last] else []
  }

  lemma {:induction false} LiveConcat(
    a: seq<Observer>, b: seq<Observer>, cancelled: set<nat>, p: PubsubTopic, c: ContentTopic)
    ensures Live(a + b, cancelled, p, c) == Live(a, cancelled, p, c) + Live(b, cancelled, p, c)
    decreases |b|
  {
    if b == [] {
      assert a + b == a;
    } else {
      assert (a + b)[..|a + b| - 1] == a + b[..|b| - 1];
      LiveConcat(a, b[..|b| - 1], cancelled, p, c);
    }
  }

  lemma {:induction false} LiveMembers(
    history: seq<Observer>, cancelled: set<nat>, p: PubsubTopic, c: ContentTopic, o: Observer)
    ensures o in Live(history, cancelled, p, c) <==> o in history && Listens(o, p, c) && o.subscription !in cancelled
    decreases |history|
  {
    if history != [] {
      LiveMembers(history[..|history| - 1], cancelled, p, c, o);
      assert history == history[..|history| - 1] + [history[|history| - 1]];
    }
  }

  lemma LookupAdd(m: Index, o: Observer, p: PubsubTopic, c: ContentTopic)
    ensures Lookup(Add(m, o), p, c) == if Listens(o, p, c) then SetAdd(Lookup(m, p, c), o) else Lookup(m, p, c)
  {}

  lemma LookupRemove(m: Index, o: Observer, p: PubsubTopic, c: ContentTopic)
    ensures Lookup(Remove(m, o), p, c) == if Listens(o, p, c) then Without(Lookup(m, p, c), o) else Lookup(m, p, c)
  {}

  /** New observers are appended to what listens on their topic already. */
  lemma {:induction false} LookupAddAll(m: Index, os: seq<Observer>, p: PubsubTopic, c: ContentTopic)
    requires forall i, j | 0 <= i < j < |os| :: os[i] != os[j]
    requires forall o | o in os :: o !in Lookup(m, p, c)
    ensures Lookup(AddAll(m, os), p, c) == Lookup(m, p, c) + Live(os, {}, p, c)
    decreases |os|
  {
    hide Add;
    if os != [] {
      var init, last := os[..|os| - 1], os[|os| - 1];
      LookupAddAll(m, init, p, c);
      LookupAdd(AddAll(m, init), last, p, c);
      LiveMembers(init, {}, p, c, last);
      assert last in os && last !in init;
    }
  }

  /** `s` without the observers in `gone`. */
  ghost function Except(s: seq<Observer>, gone: seq<Observer>): seq<Observer> {
    if s == [] then []
    else Except(s[..|s| - 1], gone) + if s[|s| - 1] in gone then [] else [s[|s| - 1]]
  }

  lemma {:induction false} ExceptLess(s: seq<Observer>, gone: seq<Observer>, o: Observer)
    ensures Without(Except(s, gone), o) == Except(s, gone + [o])
    decreases |s|
  {
    if s != [] {
      ExceptLess(s[..|s| - 1], gone, o);
      var kept := Except(s[..|s| - 1], gone);
      if s[|s| - 1] !in gone {
        assert (kept + [s[|s| - 1]])[..|kept|] == kept;
      } else {
        assert kept + [] == kept;
      }
    }
  }

  lemma {:induction false} ExceptNone(s: seq<Observer>)
    ensures Except(s, []) == s
    decreases |s|
  {
    if s != [] {
      ExceptNone(s[..|s| - 1]);
      assert s == s[..|s| - 1] + [s[|s| - 1]];
    }
  }

  lemma {:induction false} ExceptForeign(s: seq<Observer>, gone: seq<Observer>, o: Observer)
    requires o !in s
    ensures Except(s, gone + [o]) == Except(s, gone)
    decreases |s|
  {
    if s != [] {
      assert s[|s| - 1] in s;
      ExceptForeign(s[..|s| - 1], gone, o);
    }
  }

  /** Every observer found on a topic listens on it. */
  ghost predicate Filed(m: Index) {
    forall p, c, o | o in Lookup(m, p, c) :: Listens(o, p, c)
  }

  lemma {:induction false} LookupRemoveAll(m: Index, os: seq<Observer>, p: PubsubTopic, c: ContentTopic)
    requires Filed(m)
    ensures Lookup(RemoveAll(m, os), p, c) == Except(Lookup(m, p, c), os)
    decreases |os|
  {
    hide Remove, Except;
    var s := Lookup(m, p, c);
    if os == [] {
      ExceptNone(s);
    } else {
      var init, last := os[..|os| - 1], os[|os| - 1];
      assert os == init + [last];
      LookupRemoveAll(m, init, p, c);
      LookupRemove(RemoveAll(m, init), last, p, c);
      if Listens(last, p, c) {
        ExceptLess(s, init, last);
      } else {
        ExceptForeign(s, init, last);
      }
    }
  }

  /** The index holds exactly the live observers, and handles and history agree. */
  ghost predicate Inv(w: World) {
    && (forall p, c :: Lookup(w.index, p, c) == Live(w.history, w.cancelled, p, c))
    && (forall o | o in w.history :: o.subscription < |w.handles| && o in w.handles[o.subscription])
    && (forall k, o | 0 <= k < |w.handles| && o in w.handles[k] :: o.subscription == k)
    && (forall k | k in w.cancelled :: k < |w.handles|)
  }

  lemma InvFiled(w: World)
    requires Inv(w)
    ensures Filed(w.index)
  {
    forall p, c, o | o in Lookup(w.index, p, c)
      ensures Listens(o, p, c)
    {
      LiveMembers(w.history, w.cancelled, p, c, o);
    }
  }

  lemma {:induction false} LiveUncancelled(os: seq<Observer>, cancelled: set<nat>, p: PubsubTopic, c: ContentTopic)
    requires forall o | o in os :: o.subscription !in cancelled
    ensures Live(os, cancelled, p, c) == Live(os, {}, p, c)
    decreases |os|
  {
    if os != [] {
      assert os[|os| - 1] in os;
      LiveUncancelled(os[..|os| - 1], cancelled, p, c);
    }
  }

  lemma SubscribeKeepsInv(w: World, decoders: seq<Decoder>, callback: nat)
    requires Inv(w)
    ensures Inv(Apply(w, Subscribe(decoders, callback)))
  {
    hide AddAll, Lookup, Live;
    var created := Created(|w.handles|, decoders, callback);
    var next := Apply(w, Subscribe(decoders, callback));
    forall p, c
      ensures Lookup(next.index, p, c) == Live(next.history, next.cancelled, p, c)
    {
      forall o | o in created
        ensures o !in Lookup(w.index, p, c)
      {
        LiveMembers(w.history, w.cancelled, p, c, o);
      }
      LookupAddAll(w.index, created, p, c);
      LiveConcat(w.history, created, w.cancelled, p, c);
      LiveUncancelled(created, w.cancelled, p, c);
    }
  }

  /** Taking out a subscription's observers is the same as no longer counting the subscription. */
  lemma {:induction false} LiveExcept(
    history: seq<Observer>, cancelled: set<nat>, handle: seq<Observer>, k: nat, p: PubsubTopic, c: ContentTopic)
    requires forall o | o in history :: o.subscription == k <==> o in handle
    ensures Except(Live(history, cancelled, p, c), handle) == Live(history, cancelled + {k}, p, c)
    decreases |history|
  {
    if history != [] {
      var init, last := history[..|history| - 1], history[|history| - 1];
      assert last in history;
      LiveExcept(init, cancelled, handle, k, p, c);
      var kept := Live(init, cancelled, p, c);
      if Listens(last, p, c) && last.subscription !in cancelled {
        assert (kept + [last])[..|kept|] == kept;
      } else {
        assert kept + [] == kept;
      }
    }
  }

  lemma CancelKeepsInv(w: World, k: nat)
    requires Inv(w)
    ensures Inv(Apply(w, Cancel(k)))
  {
    hide RemoveAll, Lookup, Live, Except;
    if k < |w.handles| {
      var next := Apply(w, Cancel(k));
      InvFiled(w);
      forall p, c
        ensures Lookup(next.index, p, c) == Live(next.history, next.cancelled, p, c)
      {
        LookupRemoveAll(w.index, w.handles[k], p, c);
        LiveExcept(w.history, w.cancelled, w.handles[k], k, p, c);
      }
    }
  }

  lemma {:induction false} AlwaysInv(w: World, ops: seq<Op>)
    requires Inv(w)
    ensures Inv(After(w, ops))
    decreases |ops|
  {
    hide Inv, Apply;
    if ops != [] {
      match ops[0] {
        case Subscribe(decoders, callback) => SubscribeKeepsInv(w, decoders, callback);
        case Cancel(k) => CancelKeepsInv(w, k);
      }
      AlwaysInv(Apply(w, ops[0]), ops[1..]);
    }
  }

  /**
   * After any subscribes and cancels, what the index holds for a topic are exactly the observers of subscriptions not
   * yet cancelled, in the order they subscribed; cancelling again changes nothing.
   */
  lemma IndexIsLive(ops: seq<Op>, p: PubsubTopic, c: ContentTopic, k: nat)
    ensures var w := After(START, ops);
            && Lookup(w.index, p, c) == Live(w.history, w.cancelled, p, c)
            && (k in w.cancelled ==> Lookup(Apply(w, Cancel(k)).index, p, c) == Lookup(w.index, p, c))
  {
    AlwaysInv(START, ops);
    var w := After(START, ops);
    CancelKeepsInv(w, k);
    if k in w.cancelled {
      assert w.cancelled + {k} == w.cancelled;
    }
  }

  /**
   * After any subscribes and cancels, the observers called for a well-typed message are exactly those of uncancelled
   * subscriptions to the topic that their own full decoding yields; none if that fails or yields no topic.
   */
  lemma RoutedByFullTopic(ops: seq<Op>, p: PubsubTopic, bytes: Bytes)
    requires WellTyped(bytes, 0)
    ensures var w := After(START, ops);
            var full := Outcome(DecodeWaku(bytes, 0, BLANK_MESSAGE));
            Called(w.index, p, bytes)
            == if full.None? || full.value.contentTopic == [] then []
               else Live(w.history, w.cancelled, p, full.value.contentTopic)
  {
    hide DecodeTopicOnly, DecodeWaku, WellTyped;
    TopicOnlyIsProjection(bytes);
    AlwaysInv(START, ops);
  }

  // ---- Observers in terms of the calls made ----

  /** How many subscribe calls there are. */
  function Subscribes(ops: seq<Op>): nat {
    if ops == [] then 0
    else Subscribes(ops[..|ops| - 1]) + if ops[|ops| - 1].Subscribe? then 1 else 0
  }

  lemma {:induction false} AfterLast(w: World, ops: seq<Op>, op: Op)
    ensures After(w, ops + [op]) == Apply(After(w, ops), op)
    decreases |ops|
  {
    hide Apply;
    if ops == [] {
      assert ops + [op] == [op] && [op][1..] == [];
      assert After(Apply(w, op), []) == Apply(w, op);
    } else {
      assert (ops + [op])[0] == ops[0] && (ops + [op])[1..] == ops[1..] + [op];
      AfterLast(Apply(w, ops[0]), ops[1..], op);
    }
  }

  /** The observer stands for a decoder of the `j`-th call, with the callback given there. */
  predicate SubscribedBy(ops: seq<Op>, j: nat, o: Observer)
    requires j < |ops|
  {
    && ops[j].Subscribe? && o.subscription == Subscribes(ops[..j])
    && o.place < |ops[j].decoders| && o.decoder == ops[j].decoders[o.place] && o.callback == ops[j].callback
  }

  /** The `i`-th call cancels a subscription made before it. */
  predicate CancelledBy(ops: seq<Op>, i: nat, k: nat)
    requires i < |ops|
  {
    ops[i] == Cancel(k) && k < Subscribes(ops[..i])
  }

  lemma CallsPrefix(init: seq<Op>, op: Op, j: nat)
    requires j < |init|
    ensures (init + [op])[j] == init[j] && (init + [op])[..j] == init[..j]
  {}

  lemma CreatedMembers(subscription: nat, decoders: seq<Decoder>, callback: nat, o: Observer)
    ensures o in Created(subscription, decoders, callback)
       <==> o.subscription == subscription && o.place < |decoders| && o.decoder == decoders[o.place]
            && o.callback == callback
  {
    var created := Created(subscription, decoders, callback);
    if o.place < |decoders| {
      assert created[o.place] in created;
    }
  }

  lemma NothingCalled()
    ensures After(START, []) == START && Subscribes([]) == 0
  {}

  lemma SubscribesLast(init: seq<Op>, op: Op)
    ensures Subscribes(init + [op]) == Subscribes(init) + if op.Subscribe? then 1 else 0
  {
    assert (init + [op])[..|init|] == init;
  }

  /** What the history holds are the observers of all subscribe calls; what is cancelled, the calls say. */
  lemma {:induction false} HistoryIsCalls(ops: seq<Op>, o: Observer, k: nat)
    ensures var w := After(START, ops);
            && |w.handles| == Subscribes(ops)
            && (o in w.history <==> exists j: nat :: j < |ops| && SubscribedBy(ops, j, o))
            && (k in w.cancelled <==> exists i: nat :: i < |ops| && CancelledBy(ops, i, k))
    decreases |ops|
  {
    hide After, AddAll, RemoveAll, Created, Subscribes;
    if ops == [] {
      NothingCalled();
    } else {
      var init, op := ops[..|ops| - 1], ops[|ops| - 1];
      assert ops == init + [op];
      HistoryIsCalls(init, o, k);
      AfterLast(START, init, op);
      SubscribesLast(init, op);
      forall j: nat | j < |init|
        ensures SubscribedBy(ops, j, o) <==> SubscribedBy(init, j, o)
        ensures CancelledBy(ops, j, k) <==> CancelledBy(init, j, k)
      {
        CallsPrefix(init, op, j);
      }
      if op.Subscribe? {
        CreatedMembers(Subscribes(init), op.decoders, op.callback, o);
      }
      assert ops[..|init|] == init;
      assert SubscribedBy(ops, |init|, o) || !SubscribedBy(ops, |init|, o);
      assert CancelledBy(ops, |init|, k) <==> op == Cancel(k) && k < Subscribes(init);
      if j: nat :| j < |init| && SubscribedBy(init, j, o) {
        assert SubscribedBy(ops, j, o);
      }
      if i: nat :| i < |init| && CancelledBy(init, i, k) {
        assert CancelledBy(ops, i, k);
      }
    }
  }

  lemma {:induction false} SubscribesGrow(ops: seq<Op>, i: nat, j: nat)
    requires i <= j <= |ops|
    ensures Subscribes(ops[..i]) <= Subscribes(ops[..j])
    ensures i < j && ops[i].Subscribe? ==> Subscribes(ops[..i]) < Subscribes(ops[..j])
    decreases j
  {
    if i < j {
      SubscribesGrow(ops, i, j - 1);
      assert ops[..j] == ops[..j - 1] + [ops[j - 1]];
      SubscribesLast(ops[..j - 1], ops[j - 1]);
    }
  }

  /**
   * After any calls, an observer is found on a topic exactly when a subscribe call gave its decoder, for that topic,
   * with its callback, and no later call cancelled that subscription.
   */
  lemma FoundExactly(ops: seq<Op>, p: PubsubTopic, c: ContentTopic, o: Observer)
    ensures o in Lookup(After(START, ops).index, p, c)
       <==> && o.decoder == Decoder(p, c)
            && exists j: nat :: j < |ops| && SubscribedBy(ops, j, o)
                 && forall i | j < i < |ops| :: ops[i] != Cancel(o.subscription)
  {
    hide After, Lookup, Live, Subscribes;
    IndexIsLive(ops, p, c, 0);
    var w := After(START, ops);
    LiveMembers(w.history, w.cancelled, p, c, o);
    HistoryIsCalls(ops, o, o.subscription);
    forall i: nat, j: nat | j < |ops| && i < |ops| && SubscribedBy(ops, j, o)
      ensures CancelledBy(ops, i, o.subscription) <==> ops[i] == Cancel(o.subscription) && j < i
    {
      if j < i {
        SubscribesGrow(ops, j, i);
      } else {
        SubscribesGrow(ops, i, j);
      }
    }
  }
}
