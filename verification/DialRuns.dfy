/**
 * Every interleaving of attempts, checks and dial outcomes. Calls to `attemptDial` may come at any time; a call
 * is being checked, has passed and waits to resume, or is dialing.
 */
module DialRuns {
  import opened ByteStrings
  import opened DialGate
  import opened DialScheduler
  import opened ShardCodec
  import opened ShardRoundTrip
  import opened ShardTopics
  import opened Wrappers

  datatype Event =
    | Request(peer: Peer)
    | Check(peer: Peer, facts: PeerFacts)
    | Resume(peer: Peer)
    | DialFails(peer: Peer, attempt: nat)
    | DialSucceeds(peer: Peer, attempt: nat)

  datatype World = World(
    fields: Fields,
    checking: multiset<Peer>,
    passed: multiset<Peer>,
    dialing: multiset<(Peer, nat)>,
    // history
    passes: nat,
    starts: nat,
    enqueued: seq<Peer>,
    dequeued: seq<Peer>,
    tried: set<Peer>,    // some attempt has ended
    left: set<Peer>)     // some dial has left its attempt loop

  const INIT := World(Fields(0, [], map[]), multiset{}, multiset{}, multiset{}, 0, 0, [], [], {}, {})

  predicate Enabled(w: World, e: Event) {
    match e
    case Request(_) => true
    case Check(p, _) => p in w.checking
    case Resume(p) => p in w.passed
    case DialFails(p, k) => (p, k) in w.dialing
    case DialSucceeds(p, k) => (p, k) in w.dialing
  }

  /** The dial of `peer` goes on as `effect` says. */
  function Continue(w: World, peer: Peer, effect: Effect): World {
    var w1 := w.(fields := effect.fields);
    var w2 := match effect.awaiting
              case Some(k) => w1.(dialing := w1.dialing + multiset{(peer, k)})
              case None => w1.(left := w1.left + {peer});
    match effect.redial
    case Some(q) => w2.(checking := w2.checking + multiset{q}, dequeued := w2.dequeued + [q])
    case None => w2
  }

  /** One step; an event that cannot happen changes nothing. */
  function Step(o: Options, w: World, e: Event): World {
    if !Enabled(w, e) then w
    else
      match e
      case Request(p) => w.(checking := w.checking + multiset{p})
      case Check(p, facts) =>
        var w1 := w.(checking := w.checking - multiset{p});
        if ShouldDial(o, w.fields, p, facts) then w1.(passed := w1.passed + multiset{p}, passes := w.passes + 1) else w1
      case Resume(p) =>
        var w1 := w.(passed := w.passed - multiset{p});
        if w.fields.active >= o.maxParallelDials then
          w1.(fields := w.fields.(queue := w.fields.queue + [p]), enqueued := w.enqueued + [p])
        else
          Continue(w1.(starts := w.starts + 1), p, Begin(o, w.fields))
      case DialFails(p, k) =>
        Continue(w.(dialing := w.dialing - multiset{(p, k)}, tried := w.tried + {p}), p, Fail(o, w.fields, p, k))
      case DialSucceeds(p, k) =>
        Continue(w.(dialing := w.dialing - multiset{(p, k)}, tried := w.tried + {p}), p, Succeed(o, w.fields, p))
  }

  function After(o: Options, w: World, events: seq<Event>): World
    decreases |events|
  {
    if events == [] then w else After(o, Step(o, w, events[0]), events[1..])
  }

  /** A peer is recorded with the attempt that failed last, or as dialed. */
  predicate Recorded(o: Options, f: Fields) {
    forall p | p in f.attempts :: f.attempts[p] == -1 || 1 <= f.attempts[p] <= o.maxDialAttemptsForPeer
  }

  /** Kept by every step. */
  ghost predicate Inv(o: Options, w: World) {
    && w.fields.active == |w.dialing|
    && (w.dialing != multiset{} ==> w.fields.active <= o.maxParallelDials)
    && w.passes == w.starts + |w.enqueued| + |w.passed|
    && w.enqueued == w.dequeued + w.fields.queue
    && w.fields.attempts.Keys == w.tried
    && (forall d | d in w.dialing :: d.1 < o.maxDialAttemptsForPeer)
    && (o.maxDialAttemptsForPeer >= 1 ==> w.left <= w.tried)
    && Recorded(o, w.fields)
  }

  /** A dial of `peer` is between two awaits, with the fields as in `f` and out of the dialing set of `w`. */
  ghost predicate MidDial(o: Options, w: World, f: Fields, peer: Peer) {
    && f.active == |w.dialing| + 1 && f.active <= o.maxParallelDials
    && w.passes == w.starts + |w.enqueued| + |w.passed|
    && w.enqueued == w.dequeued + f.queue
    && f.attempts.Keys == w.tried
    && (forall d | d in w.dialing :: d.1 < o.maxDialAttemptsForPeer)
    && (o.maxDialAttemptsForPeer >= 1 ==> w.left <= w.tried)
    && Recorded(o, f)
  }

  lemma LeavingKeepsInv(o: Options, w: World, f: Fields, peer: Peer)
    requires MidDial(o, w, f, peer) && (o.maxDialAttemptsForPeer >= 1 ==> peer in w.tried)
    ensures Inv(o, Continue(w, peer, Leave(o, f)))
  {
    if f.queue != [] {
      assert w.dequeued + f.queue == w.dequeued + [f.queue[0]] + f.queue[1..];
    }
  }

  lemma ContinuingKeepsInv(o: Options, w: World, f: Fields, peer: Peer, attempt: nat)
    requires MidDial(o, w, f, peer)
    requires o.maxDialAttemptsForPeer >= 1 && attempt > 0 ==> peer in w.tried
    ensures Inv(o, Continue(w, peer, AwaitOrLeave(o, f, attempt)))
  {
    if attempt >= o.maxDialAttemptsForPeer {
      LeavingKeepsInv(o, w, f, peer);
    }
  }

  lemma CheckKeepsInv(o: Options, w: World, p: Peer, facts: PeerFacts)
    requires Inv(o, w) && p in w.checking
    ensures Inv(o, Step(o, w, Check(p, facts)))
  {}

  lemma {:induction false} ResumeKeepsInv(o: Options, w: World, p: Peer)
    requires Inv(o, w) && p in w.passed
    ensures Inv(o, Step(o, w, Resume(p)))
  {
    hide Leave, Continue, AwaitOrLeave;
    if w.fields.active >= o.maxParallelDials {
      assert w.enqueued + [p] == w.dequeued + (w.fields.queue + [p]);
    } else {
      var w1 := w.(passed := w.passed - multiset{p}, starts := w.starts + 1);
      ContinuingKeepsInv(o, w1, w.fields.(active := w.fields.active + 1), p, 0);
    }
  }

  lemma {:induction false} FailureKeepsInv(o: Options, w: World, p: Peer, k: nat)
    requires Inv(o, w) && (p, k) in w.dialing
    ensures Inv(o, Step(o, w, DialFails(p, k)))
  {
    hide Leave, Continue, AwaitOrLeave;
    var w1 := w.(dialing := w.dialing - multiset{(p, k)}, tried := w.tried + {p});
    ContinuingKeepsInv(o, w1, w.fields.(attempts := w.fields.attempts[p := k + 1]), p, k + 1);
  }

  lemma {:induction false} SuccessKeepsInv(o: Options, w: World, p: Peer, k: nat)
    requires Inv(o, w) && (p, k) in w.dialing
    ensures Inv(o, Step(o, w, DialSucceeds(p, k)))
  {
    hide Leave, Continue, AwaitOrLeave;
    var w1 := w.(dialing := w.dialing - multiset{(p, k)}, tried := w.tried + {p});
    LeavingKeepsInv(o, w1, w.fields.(attempts := w.fields.attempts[p := -1]), p);
  }

  lemma {:induction false} StepKeepsInv(o: Options, w: World, e: Event)
    requires Inv(o, w)
    ensures Inv(o, Step(o, w, e))
  {
    hide Leave, Continue, AwaitOrLeave, ShouldDial;
    if Enabled(w, e) {
      match e
      case Request(_) =>
      case Check(p, facts) => CheckKeepsInv(o, w, p, facts);
      case Resume(p) => ResumeKeepsInv(o, w, p);
      case DialFails(p, k) => FailureKeepsInv(o, w, p, k);
      case DialSucceeds(p, k) => SuccessKeepsInv(o, w, p, k);
    }
  }

  lemma {:induction false} AlwaysInv(o: Options, w: World, events: seq<Event>)
    requires Inv(o, w)
    ensures Inv(o, After(o, w, events))
    decreases |events|
  {
    hide Inv;
    if events != [] {
      StepKeepsInv(o, w, events[0]);
      AlwaysInv(o, Step(o, w, events[0]), events[1..]);
    }
  }

  /** In every run: parallelism stays bounded, nothing is lost, and the queue is first in, first out. */
  lemma SchedulerSafe(o: Options, events: seq<Event>)
    ensures var w := After(o, INIT, events);
            && w.fields.active == |w.dialing|
            && (o.maxParallelDials >= 0 ==> w.fields.active <= o.maxParallelDials)
            && w.passes == w.starts + |w.enqueued| + |w.passed|
            && |w.enqueued| == |w.fields.queue| + |w.dequeued|
            && (forall d | d in w.dialing :: d.1 < o.maxDialAttemptsForPeer) && Recorded(o, w.fields)
            && w.dequeued == w.enqueued[..|w.dequeued|] && w.fields.queue == w.enqueued[|w.dequeued|..]
  {
    AlwaysInv(o, INIT, events);
  }

  /** What is stored about a peer lets it through: nothing, or readable bytes with a shard of one of the topics. */
  ghost predicate StoredShardsFit(stored: Result<Option<Bytes>, string>, pubsubTopics: seq<string>) {
    match stored
    case Err(_) => false
    case Ok(None) => true
    case Ok(Some(bytes)) =>
      Decode(bytes).Ok? && exists s: int :: s in Decode(bytes).value.shards
                                            && Topic(Decode(bytes).value.clusterId, s) in pubsubTopics
  }

  lemma AnyTopicIncluded(clusterId: int, shards: seq<int>, nodeTopics: seq<string>)
    ensures AnyIncluded(ShardInfoToPubsubTopics(Some(clusterId), shards), nodeTopics)
       <==> exists s: int :: s in shards && Topic(clusterId, s) in nodeTopics
  {
    hide ShardInfoToPubsubTopics, Topic;
    var topics := ShardInfoToPubsubTopics(Some(clusterId), shards);
    if i :| 0 <= i < |topics| && topics[i] in nodeTopics {
      TopicListed(topics[i], clusterId, shards);
      var j :| 0 <= j < |shards| && topics[i] == Topic(clusterId, shards[j]);
      assert shards[j] in shards;
    }
    if s :| s in shards && Topic(clusterId, s) in nodeTopics {
      TopicListed(Topic(clusterId, s), clusterId, shards);
    }
  }

  lemma TopicTestExactly(o: Options, facts: PeerFacts)
    ensures TopicConfigured(o, facts) == Ok(true) <==> StoredShardsFit(facts.shardInfo, o.pubsubTopics)
  {
    hide Decode, Topic, ShardInfoToPubsubTopics;
    if facts.shardInfo.Ok? && facts.shardInfo.value.Some? && Decode(facts.shardInfo.value.value).Ok? {
      var info := Decode(facts.shardInfo.value.value).value;
      AnyTopicIncluded(info.clusterId, info.shards, o.pubsubTopics);
    }
  }

  lemma InitInv(o: Options)
    ensures Inv(o, INIT)
  {}

  /**
   * Which peers pass the check in a reachable state: those not connected, whose stored shards fit the node's topics,
   * that have fewer bootstrap connections than allowed before them if they are bootstrap peers, and of which no
   * attempt has ended, whatever their other calls are doing.
   */
  lemma HasBeenDialedExactly(o: Options, events: seq<Event>, peer: Peer, facts: PeerFacts)
    ensures var w := After(o, INIT, events);
            ShouldDial(o, w.fields, peer, facts)
            <==> !facts.connected && StoredShardsFit(facts.shardInfo, o.pubsubTopics)
                 && ("bootstrap" in facts.tags ==> facts.bootstrapConnections < o.maxBootstrapPeersAllowed)
                 && peer !in w.tried
  {
    hide StoredShardsFit, TopicConfigured, After;
    AlwaysInv(o, INIT, events);
    InitInv(o);
    TopicTestExactly(o, facts);
  }

  /**
   * In every reachable state a bootstrap peer that passes finds fewer bootstrap connections than allowed; below that
   * limit tags change no answer, and without the bootstrap tag neither the limit nor the connections do.
   */
  lemma BootstrapDecides(
    o: Options, events: seq<Event>, peer: Peer, facts: PeerFacts, tags: set<string>, limit: int, connections: nat)
    ensures var f := After(o, INIT, events).fields;
            && (ShouldDial(o, f, peer, facts) && "bootstrap" in facts.tags ==>
                  facts.bootstrapConnections < o.maxBootstrapPeersAllowed)
            && (facts.bootstrapConnections < o.maxBootstrapPeersAllowed ==>
                  (ShouldDial(o, f, peer, facts) <==> ShouldDial(o, f, peer, facts.(tags := tags))))
            && ("bootstrap" !in facts.tags ==>
                  (ShouldDial(o, f, peer, facts)
                   <==> ShouldDial(o.(maxBootstrapPeersAllowed := limit), f, peer,
                                   facts.(bootstrapConnections := connections))))
  {
    hide After, IsPeerTopicConfigured;
  }

  /**
   * Which peers pass the check in a run of a statically configured node: of those that published `info`, exactly
   * those of its cluster that share a shard, are not connected, are within the bootstrap limit, and have had no
   * attempt of theirs end.
   */
  lemma PublishedShardsDecide(
    o: Options, events: seq<Event>, peer: Peer, facts: PeerFacts, info: ShardInfo, cluster: int, shards: seq<int>)
    requires o.pubsubTopics == ShardInfoToPubsubTopics(Some(cluster), shards)
    requires Encode(info).Ok? && facts.shardInfo == Ok(Some(Encode(info).value))
    ensures var w := After(o, INIT, events);
            var stored := if |info.shards| < RSV_THRESHOLD then Wrapped(info.shards) else info.shards;
            ShouldDial(o, w.fields, peer, facts)
            <==> !facts.connected && cluster == info.clusterId % U16_LIMIT && Meet(stored, shards)
                 && ("bootstrap" in facts.tags ==> facts.bootstrapConnections < o.maxBootstrapPeersAllowed)
                 && peer !in w.tried
  {
    hide Encode, ShardInfoToPubsubTopics, IsPeerTopicConfigured, After, Meet, StoredShardsFit;
    HasBeenDialedExactly(o, events, peer, facts);
    TopicTestExactly(o, facts);
    GateExact(info, cluster, shards);
  }

  lemma LeaveKeepsAttempts(o: Options, f: Fields)
    ensures Leave(o, f).fields.attempts == f.attempts && Leave(o, f).awaiting == None
  {}

  lemma StepFails(o: Options, w: World, peer: Peer, k: nat)
    requires (peer, k) in w.dialing
    ensures Step(o, w, DialFails(peer, k))
         == Continue(w.(dialing := w.dialing - multiset{(peer, k)}, tried := w.tried + {peer}), peer,
                     AwaitOrLeave(o, w.fields.(attempts := w.fields.attempts[peer := k + 1]), k + 1))
  {
    hide Continue, AwaitOrLeave;
  }

  lemma FailureOutcome(o: Options, w: World, peer: Peer, k: nat)
    requires (peer, k) in w.dialing
    ensures var next := Step(o, w, DialFails(peer, k));
            && next.fields.attempts == w.fields.attempts[peer := k + 1]
            && (k + 1 < o.maxDialAttemptsForPeer ==>
                  && next.dialing == w.dialing - multiset{(peer, k)} + multiset{(peer, k + 1)}
                  && next.left == w.left && next.dequeued == w.dequeued && next.checking == w.checking)
            && (k + 1 >= o.maxDialAttemptsForPeer ==>
                  next.dialing == w.dialing - multiset{(peer, k)} && next.left == w.left + {peer})
  {
    hide Step, Leave;
    var f := w.fields.(attempts := w.fields.attempts[peer := k + 1]);
    StepFails(o, w, peer, k);
    if k + 1 < o.maxDialAttemptsForPeer {
      assert AwaitOrLeave(o, f, k + 1) == Effect(f, Some(k + 1), None);
    } else {
      LeaveKeepsAttempts(o, f);
    }
  }

  lemma StepSucceeds(o: Options, w: World, peer: Peer, k: nat)
    requires (peer, k) in w.dialing
    ensures Step(o, w, DialSucceeds(peer, k))
         == Continue(w.(dialing := w.dialing - multiset{(peer, k)}, tried := w.tried + {peer}), peer,
                     Leave(o, w.fields.(attempts := w.fields.attempts[peer := -1])))
  {
    hide Continue, Leave;
  }

  lemma SuccessOutcome(o: Options, w: World, peer: Peer, k: nat)
    requires (peer, k) in w.dialing
    ensures var next := Step(o, w, DialSucceeds(peer, k));
            && next.fields.attempts == w.fields.attempts[peer := -1]
            && next.dialing == w.dialing - multiset{(peer, k)} && next.left == w.left + {peer}
  {
    hide Step, Leave;
    StepSucceeds(o, w, peer, k);
    LeaveKeepsAttempts(o, w.fields.(attempts := w.fields.attempts[peer := -1]));
  }

  lemma StepKeepsLeft(o: Options, w: World, e: Event)
    ensures w.left <= Step(o, w, e).left
  {}

  lemma {:induction false} LeftGrows(o: Options, w: World, events: seq<Event>)
    ensures w.left <= After(o, w, events).left
    decreases |events|
  {
    hide Step;
    if events != [] {
      StepKeepsLeft(o, w, events[0]);
      LeftGrows(o, Step(o, w, events[0]), events[1..]);
    }
  }

  lemma {:induction false} AfterConcat(o: Options, w: World, a: seq<Event>, b: seq<Event>)
    ensures After(o, w, a + b) == After(o, After(o, w, a), b)
    decreases |a|
  {
    if a == [] {
      assert a + b == b;
    } else {
      assert (a + b)[0] == a[0] && (a + b)[1..] == a[1..] + b;
      AfterConcat(o, Step(o, w, a[0]), a[1..], b);
    }
  }

  /** Once a dial of a peer has left its attempt loop, no later check of that peer passes. */
  lemma NeverDialedAgain(o: Options, before: seq<Event>, between: seq<Event>, peer: Peer, facts: PeerFacts)
    requires o.maxDialAttemptsForPeer >= 1
    requires peer in After(o, INIT, before).left
    ensures var w := After(o, INIT, before + between);
            var next := Step(o, w, Check(peer, facts));
            next.passed == w.passed && next.passes == w.passes
  {
    AfterConcat(o, INIT, before, between);
    LeftGrows(o, After(o, INIT, before), between);
    AlwaysInv(o, INIT, before + between);
  }

  lemma ResumeUsesCapacity(o: Options, w: World, peer: Peer)
    requires Inv(o, w) && peer in w.passed
    ensures var next := Step(o, w, Resume(peer));
            if |w.dialing| >= o.maxParallelDials then next.enqueued == w.enqueued + [peer] && next.starts == w.starts
            else next.enqueued == w.enqueued && next.starts == w.starts + 1
  {
    hide Leave, Recorded;
  }

  lemma LeavingServesQueue(o: Options, w: World, peer: Peer, k: nat)
    requires Inv(o, w) && (peer, k) in w.dialing && w.fields.queue != []
    ensures Step(o, w, DialSucceeds(peer, k)).dequeued == w.dequeued + [w.fields.queue[0]]
    ensures k + 1 >= o.maxDialAttemptsForPeer ==>
              Step(o, w, DialFails(peer, k)).dequeued == w.dequeued + [w.fields.queue[0]]
  {
    hide Recorded;
  }

  /**
   * Capacity is used: a passed check is queued exactly when the limit's worth of dials is in flight, and every dial
   * that leaves its loop takes the head of a non-empty queue, since its own place is free. A failure below the maximum
   * is tried again at once.
   */
  lemma CapacityUsed(o: Options, events: seq<Event>, peer: Peer, k: nat)
    ensures var w := After(o, INIT, events);
            && (peer in w.passed ==>
                  var next := Step(o, w, Resume(peer));
                  if |w.dialing| >= o.maxParallelDials
                  then next.enqueued == w.enqueued + [peer] && next.starts == w.starts
                  else next.enqueued == w.enqueued && next.starts == w.starts + 1)
            && ((peer, k) in w.dialing && w.fields.queue != [] ==>
                  && Step(o, w, DialSucceeds(peer, k)).dequeued == w.dequeued + [w.fields.queue[0]]
                  && (k + 1 >= o.maxDialAttemptsForPeer ==>
                        Step(o, w, DialFails(peer, k)).dequeued == w.dequeued + [w.fields.queue[0]]))
            && ((peer, k) in w.dialing && k + 1 < o.maxDialAttemptsForPeer ==>
                  var next := Step(o, w, DialFails(peer, k));
                  next.dialing == w.dialing - multiset{(peer, k)} + multiset{(peer, k + 1)}
                  && next.dequeued == w.dequeued)
  {
    hide Step, After, Inv;
    var w := After(o, INIT, events);
    InitInv(o);
    AlwaysInv(o, INIT, events);
    if peer in w.passed {
      ResumeUsesCapacity(o, w, peer);
    }
    if (peer, k) in w.dialing && w.fields.queue != [] {
      LeavingServesQueue(o, w, peer, k);
    }
    if (peer, k) in w.dialing {
      FailureOutcome(o, w, peer, k);
    }
  }

  function DialEvents(peer: Peer): seq<Event> {
    [Request(peer), Check(peer, PeerFacts(false, Ok(None), {}, 0)), Resume(peer)]
  }

  lemma DialOnce(o: Options, w: World, peer: Peer) returns (end: World)
    requires w.fields.active < o.maxParallelDials && o.maxDialAttemptsForPeer >= 1 && peer !in w.fields.attempts
    ensures end == After(o, w, DialEvents(peer))
    ensures end.dialing == w.dialing + multiset{(peer, 0)}
    ensures end.fields == w.fields.(active := w.fields.active + 1)
  {
    var events := DialEvents(peer);
    var w1 := Step(o, w, events[0]);
    var w2 := Step(o, w1, events[1]);
    end := Step(o, w2, events[2]);
    assert events[1..][1..] == events[2..] && events[2..][1..] == [];
    assert After(o, w2, events[2..]) == After(o, end, []);
    assert After(o, w1, events[1..]) == After(o, w2, events[2..]);
  }

  /** A peer whose first attempt has not ended passes the check again and is dialed twice at the same time. */
  lemma TwoDialsOfOnePeer(o: Options, peer: Peer)
    requires o.maxParallelDials >= 2 && o.maxDialAttemptsForPeer >= 1
    ensures exists events :: After(o, INIT, events).dialing == multiset{(peer, 0), (peer, 0)}
  {
    var w := DialOnce(o, INIT, peer);
    var w' := DialOnce(o, w, peer);
    AfterConcat(o, INIT, DialEvents(peer), DialEvents(peer));
    assert After(o, INIT, DialEvents(peer) + DialEvents(peer)).dialing == multiset{(peer, 0), (peer, 0)};
  }
}
