/** How many connections are locked, over every run. */
module PeerLockRuns {
  import opened InsertionOrder
  import opened PeerLocks
  import opened Wrappers

  lemma CountLast(cs: seq<Conn>)
    requires cs != []
    ensures var n := |cs| - 1;
            LockedCount(cs) == LockedCount(cs[..n]) + if cs[n].isOpen && IsLocked(cs[n]) then 1 else 0
  {}

  /** The open connections that bear the tag. */
  function OpenAndTagged(cs: seq<Conn>): set<nat> {
    set i | 0 <= i < |cs| && cs[i].isOpen && "peer-manager-lock" in cs[i].tags
  }

  lemma OpenAndTaggedLast(cs: seq<Conn>, c: Conn)
    ensures OpenAndTagged(cs + [c])
         == OpenAndTagged(cs) + if c.isOpen && "peer-manager-lock" in c.tags then {|cs|} else {}
  {}

  lemma IndicesBelow(cs: seq<Conn>)
    ensures |cs| !in OpenAndTagged(cs)
  {}

  lemma NoneTagged()
    ensures OpenAndTagged([]) == {}
  {}

  /** The limit is about those. */
  lemma {:induction false} LockedCountIs(cs: seq<Conn>)
    ensures LockedCount(cs) == |OpenAndTagged(cs)|
    decreases |cs|
  {
    hide OpenAndTagged;
    if cs == [] {
      NoneTagged();
    } else {
      var init, last := cs[..|cs| - 1], cs[|cs| - 1];
      assert cs == init + [last];
      LockedCountIs(init);
      OpenAndTaggedLast(init, last);
      IndicesBelow(init);
    }
  }

  lemma LockAtInit(cs: seq<Conn>, at: seq<nat>, init: seq<nat>)
    requires cs != []
    requires forall i: nat | i < |cs| - 1 :: i in at <==> i in init
    ensures LockAt(cs, at)[..|cs| - 1] == LockAt(cs[..|cs| - 1], init)
  {}

  lemma NoneLocked(peer: Peer, same: bool, k: nat)
    requires k <= |Candidates([], peer, same)|
    ensures k == 0 && LockAt([], []) == [] && Candidates([], peer, same) == [] && LockedCount([]) == 0
  {}

  /** Locking the first `k` candidates locks `k` more connections. */
  lemma {:induction false} CountAfterLocking(cs: seq<Conn>, peer: Peer, same: bool, k: nat)
    requires k <= |Candidates(cs, peer, same)|
    ensures LockedCount(LockAt(cs, Candidates(cs, peer, same)[..k])) == LockedCount(cs) + k
    decreases |cs|
  {
    hide LockAt, LockedCount, Candidates;
    if cs != [] {
      var n := |cs| - 1;
      var before, all := Candidates(cs[..n], peer, same), Candidates(cs, peer, same);
      CandidatesLast(cs, peer, same);
      var init := if k <= |before| then before[..k] else before;
      assert all[..k] == init + if k <= |before| then [] else [n];
      assert init == before[..|init|];
      CountAfterLocking(cs[..n], peer, same, |init|);
      LockAtInit(cs, all[..k], init);
      CountLast(cs);
      CountLast(LockAt(cs, all[..k]));
    } else {
      NoneLocked(peer, same, k);
    }
  }

  /** requestRenew never locks the peer it replaces. */
  lemma RenewSparesPeer(cs: seq<Conn>, numPeersToUse: int, peer: Peer)
    ensures var next := AfterRenew(cs, numPeersToUse, peer);
            |next| == |cs| && forall i | 0 <= i < |cs| && cs[i].remotePeer == peer :: next[i] == cs[i]
  {
    var candidates := Candidates(cs, peer, false);
    var renewals := Renewals(cs, numPeersToUse, peer);
    assert forall j | j in renewals :: j in candidates;
  }

  lemma LockNone(cs: seq<Conn>)
    ensures LockAt(cs, []) == cs
  {}

  lemma SomeCandidate(cs: seq<Conn>, peer: Peer)
    requires Candidates(cs, peer, false) != []
    ensures exists i: nat :: i < |cs| && Unlocked(cs[i], peer, false)
  {}

  lemma NoneLeft(cs: seq<Conn>, peer: Peer)
    ensures Candidates(LockAt(cs, Candidates(cs, peer, false)), peer, false) == []
  {
    var next := LockAt(cs, Candidates(cs, peer, false));
    assert forall i: nat | i < |cs| :: !Unlocked(next[i], peer, false);
    if Candidates(next, peer, false) != [] {
      SomeCandidate(next, peer);
    }
  }

  /**
   * While the limit is respected a renewal keeps it, and afterwards either the limit is reached or only connections to
   * the replaced peer are left unlocked. With more connections locked than the limit the count still needed is
   * negative and slices from the end: as many candidates as exceed the surplus are locked on top, so that nothing is
   * locked exactly when there are no more candidates than surplus connections.
   */
  lemma RenewFillsUp(cs: seq<Conn>, numPeersToUse: int, peer: Peer)
    ensures var next := AfterRenew(cs, numPeersToUse, peer);
            var others, surplus := |Candidates(cs, peer, false)|, LockedCount(cs) - numPeersToUse;
            && (surplus <= 0 ==>
                  && LockedCount(next) <= numPeersToUse
                  && (LockedCount(next) == numPeersToUse || Candidates(next, peer, false) == []))
            && (surplus > 0 ==>
                  && LockedCount(next) == LockedCount(cs) + (if others > surplus then others - surplus else 0)
                  && (next == cs <==> others <= surplus))
  {
    hide LockedCount, Candidates, LockAt, Unlocked;
    var needed := numPeersToUse - LockedCount(cs);
    var candidates := Candidates(cs, peer, false);
    var k := if needed == 0 then 0 else SliceCount(|candidates|, needed);
    assert Renewals(cs, numPeersToUse, peer) == candidates[..k];
    CountAfterLocking(cs, peer, false, k);
    LockNone(cs);
    if needed > |candidates| {
      assert candidates[..k] == candidates;
      NoneLeft(cs, peer);
    }
  }

  /** lockPeerIfNeeded locks all of the peer's open connections, however many are still needed. */
  lemma ConnectLocksAll(cs: seq<Conn>, numPeersToUse: int, peer: Peer)
    requires LockedCount(cs) <= numPeersToUse
    ensures var own := |Candidates(cs, peer, true)|;
            var needed := numPeersToUse - LockedCount(cs);
            LockedCount(AfterConnect(cs, numPeersToUse, peer)) <= numPeersToUse <==> needed == 0 || own <= needed
  {
    var own := Candidates(cs, peer, true);
    CountAfterLocking(cs, peer, true, |own|);
    assert own[..|own|] == own;
  }

  // ---- What locking leaves alone ----

  /** Connection `i` gets the lock tag behind its own tags exactly when `chosen`; otherwise it stays as it is. */
  ghost predicate TaggedExactly(cs: seq<Conn>, next: seq<Conn>, i: nat, chosen: bool)
    requires i < |cs| == |next|
  {
    && next[i].remotePeer == cs[i].remotePeer && next[i].isOpen == cs[i].isOpen
    && next[i].tags == cs[i].tags + if chosen then ["peer-manager-lock"] else []
  }

  lemma LockedAt(cs: seq<Conn>, at: seq<nat>, i: nat)
    requires i < |cs|
    ensures TaggedExactly(cs, LockAt(cs, at), i, i in at) && (LockAt(cs, at)[i] != cs[i] <==> i in at)
    ensures TaggedExactly(cs, cs, i, false)
  {
    assert i in at ==> |LockAt(cs, at)[i].tags| == |cs[i].tags| + 1;
  }

  /** A connect event tags exactly the peer's open connections without the tag, unless the limit is met exactly. */
  lemma ConnectTags(cs: seq<Conn>, numPeersToUse: int, peer: Peer)
    ensures var next := AfterConnect(cs, numPeersToUse, peer);
            && |next| == |cs|
            && forall i | 0 <= i < |cs| ::
                 TaggedExactly(cs, next, i,
                   LockedCount(cs) != numPeersToUse && cs[i].isOpen && "peer-manager-lock" !in cs[i].tags
                   && cs[i].remotePeer == peer)
  {
    hide LockedCount, Candidates;
    var own := Candidates(cs, peer, true);
    forall i | 0 <= i < |cs|
      ensures i in own <==> Unlocked(cs[i], peer, true)
    {}
    if LockedCount(cs) == numPeersToUse {
      LockNone(cs);
    }
    forall i | 0 <= i < |cs|
      ensures TaggedExactly(cs, LockAt(cs, own), i, i in own)
      ensures TaggedExactly(cs, cs, i, false)
    {
      LockedAt(cs, own, i);
    }
  }

  lemma ForemostRenewed(cs: seq<Conn>, numPeersToUse: int, peer: Peer, i: nat, j: nat)
    requires i < j < |cs| && Unlocked(cs[i], peer, false) && j in Renewals(cs, numPeersToUse, peer)
    ensures i in Renewals(cs, numPeersToUse, peer)
  {
    hide LockedCount, Candidates, Unlocked;
    var others := Candidates(cs, peer, false);
    var renewals := Renewals(cs, numPeersToUse, peer);
    assert i in others;
    var a :| 0 <= a < |others| && others[a] == i;
    var b :| 0 <= b < |renewals| && renewals[b] == j;
    assert renewals[b] == others[b] && a < b;
    assert renewals[a] == i;
  }

  /**
   * A renewal tags open connections without the tag to other peers only, the foremost of them: if one is tagged, so is
   * every such connection before it.
   */
  lemma RenewTags(cs: seq<Conn>, numPeersToUse: int, peer: Peer)
    ensures var next := AfterRenew(cs, numPeersToUse, peer);
            && |next| == |cs|
            && (forall i | 0 <= i < |cs| ::
                  TaggedExactly(cs, next, i, next[i] != cs[i])
                  && (next[i] != cs[i] ==>
                        cs[i].isOpen && "peer-manager-lock" !in cs[i].tags && cs[i].remotePeer != peer))
            && (forall i, j | 0 <= i < j < |cs| && next[j] != cs[j] && cs[i].isOpen
                              && "peer-manager-lock" !in cs[i].tags && cs[i].remotePeer != peer :: next[i] != cs[i])
  {
    hide LockedCount, Candidates, LockAt, TaggedExactly;
    var others := Candidates(cs, peer, false);
    var renewals := Renewals(cs, numPeersToUse, peer);
    forall i | 0 <= i < |cs|
      ensures TaggedExactly(cs, LockAt(cs, renewals), i, i in renewals)
      ensures LockAt(cs, renewals)[i] != cs[i] <==> i in renewals
      ensures i in renewals ==> Unlocked(cs[i], peer, false)
    {
      LockedAt(cs, renewals, i);
      assert i in renewals ==> i in others;
    }
    forall i, j | 0 <= i < j < |cs| && j in renewals && Unlocked(cs[i], peer, false)
      ensures i in renewals
    {
      ForemostRenewed(cs, numPeersToUse, peer, i, j);
    }
  }

  // ---- Runs ----

  datatype Event =
    | Opened(peer: Peer)
    | Closed(index: nat)
    | Removed(index: nat)
    | Tagged(index: nat, tags: seq<string>)
    | PeerConnected(peer: Peer)
    | Renewed(peer: Peer)

  predicate HasOpen(cs: seq<Conn>, peer: Peer) {
    exists i | 0 <= i < |cs| :: cs[i].isOpen && cs[i].remotePeer == peer
  }

  /** One event; a second connection to a peer is not opened, and only the manager sets its tag. */
  function Apply(numPeersToUse: int, cs: seq<Conn>, e: Event): seq<Conn> {
    match e
    case Opened(p) => if HasOpen(cs, p) then cs else cs + [Conn(p, true, [])]
    case Closed(i) => if i < |cs| then cs[i := cs[i].(isOpen := false)] else cs
    case Removed(i) => if i < |cs| then cs[..i] + cs[i + 1..] else cs
    case Tagged(i, tags) =>
      if i < |cs| && CONNECTION_LOCK_TAG !in tags then cs[i := cs[i].(tags := Distinct(cs[i].tags + tags))] else cs
    case PeerConnected(p) => AfterConnect(cs, numPeersToUse, p)
    case Renewed(p) => AfterRenew(cs, numPeersToUse, p)
  }

  function Run(numPeersToUse: int, cs: seq<Conn>, events: seq<Event>): seq<Conn>
    decreases |events|
  {
    if events == [] then cs else Run(numPeersToUse, Apply(numPeersToUse, cs, events[0]), events[1..])
  }

  ghost predicate OneOpenEach(cs: seq<Conn>) {
    forall i, j | 0 <= i < j < |cs| && cs[i].isOpen && cs[j].isOpen :: cs[i].remotePeer != cs[j].remotePeer
  }

  lemma {:induction false} CountConcat(a: seq<Conn>, b: seq<Conn>)
    ensures LockedCount(a + b) == LockedCount(a) + LockedCount(b)
    decreases |b|
  {
    if b == [] {
      assert a + b == a;
    } else {
      assert (a + b)[..|a + b| - 1] == a + b[..|b| - 1];
      CountConcat(a, b[..|b| - 1]);
    }
  }

  /** Replacing a connection changes the count by that connection's share. */
  lemma CountUpdate(cs: seq<Conn>, i: nat, c: Conn)
    requires i < |cs|
    ensures LockedCount(cs[i := c]) == LockedCount(cs) - LockedCount([cs[i]]) + LockedCount([c])
    ensures LockedCount(cs[..i] + cs[i + 1..]) == LockedCount(cs) - LockedCount([cs[i]])
  {
    assert cs == cs[..i] + [cs[i]] + cs[i + 1..] && cs[i := c] == cs[..i] + [c] + cs[i + 1..];
    CountConcat(cs[..i], [cs[i]]);
    CountConcat(cs[..i], [c]);
    CountConcat(cs[..i] + [cs[i]], cs[i + 1..]);
    CountConcat(cs[..i] + [c], cs[i + 1..]);
    CountConcat(cs[..i], cs[i + 1..]);
  }

  lemma CountOne(c: Conn)
    ensures LockedCount([c]) == if c.isOpen && IsLocked(c) then 1 else 0
  {}

  predicate IsEnvironment(e: Event) { !e.PeerConnected? && !e.Renewed? }

  lemma EnvironmentKeepsOneOpen(numPeersToUse: int, cs: seq<Conn>, e: Event)
    requires OneOpenEach(cs) && IsEnvironment(e)
    ensures OneOpenEach(Apply(numPeersToUse, cs, e))
  {}

  lemma EnvironmentKeepsLimit(numPeersToUse: int, cs: seq<Conn>, e: Event)
    requires IsEnvironment(e)
    ensures LockedCount(Apply(numPeersToUse, cs, e)) <= LockedCount(cs)
  {
    hide LockedCount;
    match e
    case Opened(p) =>
      CountConcat(cs, [Conn(p, true, [])]);
      CountOne(Conn(p, true, []));
    case Closed(i) =>
      if i < |cs| {
        CountUpdate(cs, i, cs[i].(isOpen := false));
        CountOne(cs[i].(isOpen := false));
      }
    case Removed(i) =>
      if i < |cs| {
        CountUpdate(cs, i, cs[i]);
      }
    case Tagged(i, tags) =>
      if i < |cs| && CONNECTION_LOCK_TAG !in tags {
        var c := cs[i].(tags := Distinct(cs[i].tags + tags));
        DistinctMembers(cs[i].tags + tags, CONNECTION_LOCK_TAG);
        CountUpdate(cs, i, c);
        CountOne(cs[i]);
        CountOne(c);
      }
  }

  lemma LockingKeepsOneOpen(cs: seq<Conn>, at: seq<nat>)
    requires OneOpenEach(cs)
    ensures OneOpenEach(LockAt(cs, at))
  {}

  lemma TwoCandidates(cs: seq<Conn>, peer: Peer)
    requires |Candidates(cs, peer, true)| > 1
    ensures !OneOpenEach(cs)
  {
    var own := Candidates(cs, peer, true);
    assert own[0] < own[1] && cs[own[0]].remotePeer == cs[own[1]].remotePeer;
  }

  lemma OneCandidate(cs: seq<Conn>, peer: Peer)
    requires OneOpenEach(cs)
    ensures |Candidates(cs, peer, true)| <= 1
  {
    if |Candidates(cs, peer, true)| > 1 {
      TwoCandidates(cs, peer);
    }
  }

  lemma StepKeepsLimit(numPeersToUse: int, cs: seq<Conn>, e: Event)
    requires OneOpenEach(cs) && LockedCount(cs) <= numPeersToUse
    ensures OneOpenEach(Apply(numPeersToUse, cs, e))
    ensures LockedCount(Apply(numPeersToUse, cs, e)) <= numPeersToUse
  {
    hide LockedCount, OneOpenEach, Candidates, LockAt;
    match e
    case PeerConnected(p) =>
      OneCandidate(cs, p);
      ConnectLocksAll(cs, numPeersToUse, p);
      LockingKeepsOneOpen(cs, Candidates(cs, p, true));
    case Renewed(p) =>
      RenewFillsUp(cs, numPeersToUse, p);
      LockingKeepsOneOpen(cs, Renewals(cs, numPeersToUse, p));
    case _ =>
      EnvironmentKeepsLimit(numPeersToUse, cs, e);
      EnvironmentKeepsOneOpen(numPeersToUse, cs, e);
  }

  /** In every run in which a peer has at most one open connection, at most `numPeersToUse` are locked. */
  lemma {:induction false} LimitKept(numPeersToUse: int, cs: seq<Conn>, events: seq<Event>)
    requires OneOpenEach(cs) && LockedCount(cs) <= numPeersToUse
    ensures LockedCount(Run(numPeersToUse, cs, events)) <= numPeersToUse
    decreases |events|
  {
    hide Apply, LockedCount, OneOpenEach;
    if events != [] {
      StepKeepsLimit(numPeersToUse, cs, events[0]);
      LimitKept(numPeersToUse, Apply(numPeersToUse, cs, events[0]), events[1..]);
    }
  }

  lemma CandidatesOfTwo(cs: seq<Conn>, peer: Peer)
    requires |cs| == 2
    ensures |Candidates(cs, peer, true)| <= 2
  {
    var none: seq<Conn> := [];
    CandidatesLast(cs, peer, true);
    CandidatesLast(cs[..1], peer, true);
    assert cs[..1][..0] == none;
    NoCandidates(peer, true);
  }

  /** Where the `i`-th connection is after the events; None once it is removed. */
  function Whereabouts(numPeersToUse: int, cs: seq<Conn>, events: seq<Event>, i: nat): (r: Option<nat>)
    requires i < |cs|
    ensures r.Some? ==> r.value < |Run(numPeersToUse, cs, events)|
    decreases |events|
  {
    if events == [] then Some(i)
    else
      var next := Apply(numPeersToUse, cs, events[0]);
      match events[0]
      case Removed(j) =>
        if j == i then None
        else Whereabouts(numPeersToUse, next, events[1..], if j < i then i - 1 else i)
      case _ => Whereabouts(numPeersToUse, next, events[1..], i)
  }

  /** The tags hold no repetition; so it is with a new connection. */
  predicate NoTagTwice(c: Conn) { Distinct(c.tags) == c.tags }

  lemma TaggingKeepsTags(before: seq<string>, more: seq<string>)
    requires Distinct(before) == before
    ensures before <= Distinct(before + more) && Distinct(Distinct(before + more)) == Distinct(before + more)
  {
    assert (before + more)[..|before|] == before;
    DistinctInOrder(before + more, |before|);
    DistinctIdempotent(before + more);
  }

  lemma LockingKeepsTags(before: seq<string>)
    requires Distinct(before) == before && "peer-manager-lock" !in before
    ensures Distinct(before + ["peer-manager-lock"]) == before + ["peer-manager-lock"]
  {
    DistinctAppend(before, "peer-manager-lock");
  }

  lemma EventKeepsTags(numPeersToUse: int, cs: seq<Conn>, e: Event, i: nat)
    requires i < |cs| && NoTagTwice(cs[i])
    ensures var next := Apply(numPeersToUse, cs, e);
            match e
            case Removed(j) => j != i ==> var k := if j < i then i - 1 else i; k < |next| && next[k] == cs[i]
            case _ =>
              && |next| >= |cs| && next[i].remotePeer == cs[i].remotePeer
              && cs[i].tags <= next[i].tags && NoTagTwice(next[i])
  {
    hide LockAt, Candidates, LockedCount, Distinct;
    match e
    case PeerConnected(p) =>
      ConnectTags(cs, numPeersToUse, p);
      if AfterConnect(cs, numPeersToUse, p)[i].tags != cs[i].tags {
        LockingKeepsTags(cs[i].tags);
      }
    case Renewed(p) =>
      RenewTags(cs, numPeersToUse, p);
      if AfterRenew(cs, numPeersToUse, p)[i].tags != cs[i].tags {
        LockingKeepsTags(cs[i].tags);
      }
    case Tagged(j, tags) => TaggingKeepsTags(cs[i].tags, tags);
    case _ =>
  }

  /** In every run a connection that is not removed keeps its peer and all its tags, in order, and gets none twice. */
  lemma {:induction false} TagsOnlyGrow(numPeersToUse: int, cs: seq<Conn>, events: seq<Event>, i: nat)
    requires i < |cs| && NoTagTwice(cs[i])
    ensures var at := Whereabouts(numPeersToUse, cs, events, i);
            at.Some? ==>
              var c := Run(numPeersToUse, cs, events)[at.value];
              c.remotePeer == cs[i].remotePeer && cs[i].tags <= c.tags && NoTagTwice(c)
    decreases |events|
  {
    hide Apply, NoTagTwice;
    if events != [] {
      var next := Apply(numPeersToUse, cs, events[0]);
      EventKeepsTags(numPeersToUse, cs, events[0], i);
      match events[0]
      case Removed(j) =>
        if j != i {
          TagsOnlyGrow(numPeersToUse, next, events[1..], if j < i then i - 1 else i);
        }
      case _ => TagsOnlyGrow(numPeersToUse, next, events[1..], i);
    }
  }

  /** With two connections to one peer a single connect event can exceed the limit. */
  lemma TwoConnectionsExceed(peer: Peer)
    ensures var cs := [Conn(peer, true, []), Conn(peer, true, [])];
            LockedCount(cs) == 0 && LockedCount(AfterConnect(cs, 1, peer)) == 2
  {
    var c := Conn(peer, true, []);
    var cs := [c, c];
    CountConcat([c], [c]);
    CountOne(c);
    assert cs == [c] + [c];
    assert Unlocked(cs[0], peer, true) && Unlocked(cs[1], peer, true);
    var own := Candidates(cs, peer, true);
    assert 0 in own && 1 in own;
    CountAfterLocking(cs, peer, true, |own|);
    assert own[..|own|] == own;
    CandidatesOfTwo(cs, peer);
  }

  lemma OneMore(cs: seq<Conn>, c: Conn, peer: Peer)
    ensures LockedCount(cs + [c]) == LockedCount(cs) + if c.isOpen && IsLocked(c) then 1 else 0
    ensures |Candidates(cs + [c], peer, false)|
         == |Candidates(cs, peer, false)| + if Unlocked(c, peer, false) then 1 else 0
  {
    hide LockedCount, Candidates;
    assert (cs + [c])[..|cs|] == cs;
    CountLast(cs + [c]);
    CandidatesLast(cs + [c], peer, false);
  }

  /** A renewal over the limit can lock still more: with a limit of one, two locked and two spare connections. */
  lemma RenewalOverLimit(peer: Peer, a: Peer, b: Peer)
    requires a != peer && b != peer
    ensures var held, free := Conn(peer, true, [CONNECTION_LOCK_TAG]), (p: Peer) => Conn(p, true, []);
            var cs := [held, held, free(a), free(b)];
            LockedCount(cs) == 2 && LockedCount(AfterRenew(cs, 1, peer)) == 3
  {
    hide LockedCount, Candidates, AfterRenew;
    var held, x, y := Conn(peer, true, [CONNECTION_LOCK_TAG]), Conn(a, true, []), Conn(b, true, []);
    NoneLocked(peer, false, 0);
    OneMore([], held, peer);
    OneMore([held], held, peer);
    OneMore([held, held], x, peer);
    OneMore([held, held, x], y, peer);
    assert [] + [held] == [held] && [held] + [held] == [held, held];
    assert [held, held] + [x] == [held, held, x] && [held, held, x] + [y] == [held, held, x, y];
    RenewFillsUp([held, held, x, y], 1, peer);
  }
}
