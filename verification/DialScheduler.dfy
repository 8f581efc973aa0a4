/**
 * ConnectionManager's dial scheduler. `attemptDial` and `dialPeer` are asynchronous: each method below is the code
 * they run between two awaits, so one call of a method is one indivisible step.
 */
module DialScheduler {
  import opened ByteStrings
  import opened DialGate
  import opened Wrappers

  /** PeerId.toString(). */
  type Peer = string

  const BOOTSTRAP := "bootstrap"

  /** The manager's options and the pubsub topics of its node. */
  datatype Options = Options(
    maxDialAttemptsForPeer: int,
    maxParallelDials: int,
    maxBootstrapPeersAllowed: int,
    pubsubTopics: seq<string>)

  /** The manager's fields; an entry of -1 in `attempts` marks a peer that was dialed successfully. */
  datatype Fields = Fields(active: int, queue: seq<Peer>, attempts: map<Peer, int>)

  /** What a step of `dialPeer` leaves: the attempt it now awaits, if any, and the peer it took off the queue. */
  datatype Effect = Effect(fields: Fields, awaiting: Option<nat>, redial: Option<Peer>)

  /**
   * What connections and peer store answer while `shouldDialPeer` runs: whether the peer is connected, its
   * `shardInfo` metadata or the error of the lookup, its tags, and how many connections bear the bootstrap tag.
   */
  datatype PeerFacts = PeerFacts(
    connected: bool,
    shardInfo: Result<Option<Bytes>, string>,
    tags: set<string>,
    bootstrapConnections: nat)

  /** End of the attempt loop: the count goes down and one queued peer may be taken. */
  function Leave(o: Options, f: Fields): Effect {
    var g := f.(active := f.active - 1);
    if |g.queue| > 0 && g.active < o.maxParallelDials then
      Effect(g.(queue := g.queue[1..]), None, Some(g.queue[0]))
    else
      Effect(g, None, None)
  }

  function AwaitOrLeave(o: Options, f: Fields, attempt: nat): Effect {
    if attempt < o.maxDialAttemptsForPeer then Effect(f, Some(attempt), None) else Leave(o, f)
  }

  function Begin(o: Options, f: Fields): Effect {
    AwaitOrLeave(o, f.(active := f.active + 1), 0)
  }

  function Fail(o: Options, f: Fields, peer: Peer, attempt: nat): Effect {
    AwaitOrLeave(o, f.(attempts := f.attempts[peer := attempt + 1]), attempt + 1)
  }

  function Succeed(o: Options, f: Fields, peer: Peer): Effect {
    Leave(o, f.(attempts := f.attempts[peer := -1]))
  }

  function TopicConfigured(o: Options, facts: PeerFacts): Result<bool, string> {
    match facts.shardInfo
    case Err(e) => Err(e)
    case Ok(metadata) => IsPeerTopicConfigured(metadata, o.pubsubTopics)
  }

  predicate BootstrapAllows(o: Options, facts: PeerFacts) {
    BOOTSTRAP in facts.tags ==> facts.bootstrapConnections < o.maxBootstrapPeersAllowed
  }

  /** The check passes; a check that throws ends `attemptDial` just as one that fails. */
  predicate ShouldDial(o: Options, f: Fields, peer: Peer, facts: PeerFacts) {
    !facts.connected && TopicConfigured(o, facts) == Ok(true) && BootstrapAllows(o, facts) && peer !in f.attempts
  }

  class ConnectionManager {
    const options: Options
    var currentActiveParallelDialCount: int
    var pendingPeerDialQueue: seq<Peer>
    var dialAttemptsForPeer: map<Peer, int>

    function State(): Fields
      reads this
    {
      Fields(currentActiveParallelDialCount, pendingPeerDialQueue, dialAttemptsForPeer)
    }

    constructor (options: Options)
      ensures this.options == options && State() == Fields(0, [], map[])
    {
      this.options := options;
      currentActiveParallelDialCount, pendingPeerDialQueue, dialAttemptsForPeer := 0, [], map[];
    }

    method IsPeerDialableBasedOnBootstrapStatus(facts: PeerFacts) returns (dialable: bool)
      ensures dialable == BootstrapAllows(options, facts)
    {
      var isBootstrap := BOOTSTRAP in facts.tags;
      if !isBootstrap {
        return true;
      }
      dialable := facts.bootstrapConnections < options.maxBootstrapPeersAllowed;
    }

    method ShouldDialPeer(peer: Peer, facts: PeerFacts) returns (dial: Result<bool, string>)
      ensures dial == Ok(true) <==> ShouldDial(options, State(), peer, facts)
      ensures dial.Err? <==> !facts.connected && TopicConfigured(options, facts).Err?
    {
      if facts.connected {
        return Ok(false);
      }
      var isSameShard := TopicConfigured(options, facts);
      if isSameShard.Err? {
        return isSameShard;
      }
      if !isSameShard.value {
        return Ok(false);
      }
      var isPreferredBasedOnBootstrap := IsPeerDialableBasedOnBootstrapStatus(facts);
      if !isPreferredBasedOnBootstrap {
        return Ok(false);
      }
      var hasBeenDialed := peer in dialAttemptsForPeer;
      dial := Ok(!hasBeenDialed);
    }

    /** Decrement and `processDialQueue`; a peer it returns goes through `attemptDial` again. */
    method LeaveLoop() returns (redial: Option<Peer>)
      modifies this
      ensures Effect(State(), None, redial) == Leave(options, old(State()))
    {
      currentActiveParallelDialCount := currentActiveParallelDialCount - 1;
      if |pendingPeerDialQueue| > 0 && currentActiveParallelDialCount < options.maxParallelDials {
        redial := Some(pendingPeerDialQueue[0]);
        pendingPeerDialQueue := pendingPeerDialQueue[1..];
      } else {
        redial := None;
      }
    }

    /** The loop test of `dialPeer`. */
    method ContinueLoop(dialAttempt: nat) returns (awaiting: Option<nat>, redial: Option<Peer>)
      modifies this
      ensures Effect(State(), awaiting, redial) == AwaitOrLeave(options, old(State()), dialAttempt)
    {
      if dialAttempt < options.maxDialAttemptsForPeer {
        return Some(dialAttempt), None;
      }
      redial := LeaveLoop();
      awaiting := None;
    }

    /** The rest of `attemptDial` once the peer has passed the check: either queue it or start `dialPeer`. */
    method AttemptDial(peer: Peer) returns (started: bool, awaiting: Option<nat>, redial: Option<Peer>)
      modifies this
      ensures started == (old(currentActiveParallelDialCount) < options.maxParallelDials)
      ensures !started ==> State() == old(State()).(queue := old(pendingPeerDialQueue) + [peer])
      ensures started ==> Effect(State(), awaiting, redial) == Begin(options, old(State()))
    {
      if currentActiveParallelDialCount >= options.maxParallelDials {
        pendingPeerDialQueue := pendingPeerDialQueue + [peer];
        return false, None, None;
      }
      currentActiveParallelDialCount := currentActiveParallelDialCount + 1;
      awaiting, redial := ContinueLoop(0);
      started := true;
    }

    method DialFailed(peer: Peer, attempt: nat) returns (awaiting: Option<nat>, redial: Option<Peer>)
      modifies this
      ensures Effect(State(), awaiting, redial) == Fail(options, old(State()), peer, attempt)
    {
      dialAttemptsForPeer := dialAttemptsForPeer[peer := attempt + 1];
      awaiting, redial := ContinueLoop(attempt + 1);
    }

    method DialSucceeded(peer: Peer) returns (redial: Option<Peer>)
      modifies this
      ensures Effect(State(), None, redial) == Succeed(options, old(State()), peer)
    {
      dialAttemptsForPeer := dialAttemptsForPeer[peer := -1];
      redial := LeaveLoop();
    }
  }
}
