/** PeerManager keeps a number of open connections locked by tagging them in place. */
module PeerLocks {
  import opened Wrappers

  type Peer = string

  const DEFAULT_NUM_PEERS_TO_USE := 2
  const CONNECTION_LOCK_TAG := "peer-manager-lock"

  /** A connection as a value. */
  datatype Conn = Conn(remotePeer: Peer, isOpen: bool, tags: seq<string>)

  predicate IsLocked(c: Conn) { CONNECTION_LOCK_TAG in c.tags }

  function Lock(c: Conn): Conn { c.(tags := c.tags + [CONNECTION_LOCK_TAG]) }

  /** An open connection without a lock whose peer is (`same`) or is not `peer`. */
  predicate Unlocked(c: Conn, peer: Peer, same: bool) {
    c.isOpen && !IsLocked(c) && (c.remotePeer == peer) == same
  }

  function LockedCount(cs: seq<Conn>): nat {
    if cs == [] then 0
    else
      var last := cs[|cs| - 1];
      LockedCount(cs[..|cs| - 1]) + if last.isOpen && IsLocked(last) then 1 else 0
  }

  /** Where the unlocked connections to the peer, or to other peers, are, in order. */
  function Candidates(cs: seq<Conn>, peer: Peer, same: bool): (r: seq<nat>)
    ensures forall j | 0 <= j < |r| :: r[j] < |cs| && Unlocked(cs[r[j]], peer, same)
    ensures forall i, j | 0 <= i < j < |r| :: r[i] < r[j]
    ensures forall i: nat | i < |cs| && Unlocked(cs[i], peer, same) :: i in r
  {
    if cs == [] then []
    else
      var n := |cs| - 1;
      Candidates(cs[..n], peer, same) + if Unlocked(cs[n], peer, same) then [n] else []
  }

  lemma NoCandidates(peer: Peer, same: bool)
    ensures Candidates([], peer, same) == []
  {}

  lemma CandidatesLast(cs: seq<Conn>, peer: Peer, same: bool)
    requires cs != []
    ensures var n := |cs| - 1;
            Candidates(cs, peer, same)
            == Candidates(cs[..n], peer, same) + if Unlocked(cs[n], peer, same) then [n] else []
  {}

  function LockAt(cs: seq<Conn>, at: seq<nat>): (r: seq<Conn>)
    ensures |r| == |cs|
    ensures forall i | 0 <= i < |cs| :: r[i] == if i in at then Lock(cs[i]) else cs[i]
  {
    seq(|cs|, i requires 0 <= i < |cs| => if i in at then Lock(cs[i]) else cs[i])
  }

  /** How many elements `slice(0, end)` keeps of `length`. */
  function SliceCount(length: nat, end: int): (k: nat)
    ensures k <= length
  {
    if end >= 0 then (if end < length then end else length)
    else if length + end > 0 then length + end else 0
  }

  /** What requestRenew locks. */
  function Renewals(cs: seq<Conn>, numPeersToUse: int, peer: Peer): seq<nat> {
    var needed := numPeersToUse - LockedCount(cs);
    var candidates := Candidates(cs, peer, false);
    if needed == 0 then [] else candidates[..SliceCount(|candidates|, needed)]
  }

  function AfterRenew(cs: seq<Conn>, numPeersToUse: int, peer: Peer): seq<Conn> {
    LockAt(cs, Renewals(cs, numPeersToUse, peer))
  }

  function AfterConnect(cs: seq<Conn>, numPeersToUse: int, peer: Peer): seq<Conn> {
    if numPeersToUse - LockedCount(cs) == 0 then cs else LockAt(cs, Candidates(cs, peer, true))
  }

  class Connection {
    const remotePeer: Peer
    var isOpen: bool
    var tags: seq<string>

    constructor (remotePeer: Peer)
      ensures this.remotePeer == remotePeer && isOpen && tags == []
    {
      this.remotePeer, isOpen, tags := remotePeer, true, [];
    }

    function Value(): Conn
      reads this
    {
      Conn(remotePeer, isOpen, tags)
    }
  }

  function Values(cs: seq<Connection>): seq<Conn>
    reads cs
  {
    seq(|cs|, i requires 0 <= i < |cs| reads cs => cs[i].Value())
  }

  ghost predicate NoRepeats(cs: seq<Connection>) {
    forall i, j | 0 <= i < j < |cs| :: cs[i] != cs[j]
  }

  class PeerManager {
    const numPeersToUse: int

    /** A configured count of 0 counts as absent. */
    constructor (configured: Option<int>)
      ensures numPeersToUse
           == if configured.Some? && configured.value != 0 then configured.value else DEFAULT_NUM_PEERS_TO_USE
    {
      numPeersToUse := if configured.Some? && configured.value != 0 then configured.value else DEFAULT_NUM_PEERS_TO_USE;
    }

    method CountLockedConnections(connections: seq<Connection>) returns (n: nat)
      ensures n == LockedCount(Values(connections))
    {
      n := 0;
      for i := 0 to |connections|
        invariant n == LockedCount(Values(connections)[..i])
      {
        var c := connections[i];
        assert Values(connections)[..i + 1][..i] == Values(connections)[..i];
        if c.isOpen && CONNECTION_LOCK_TAG in c.tags {
          n := n + 1;
        }
      }
      assert Values(connections)[..|connections|] == Values(connections);
    }

    /** getUnlockedConnections, filtered by peer; `at` is where they are. */
    method GetUnlockedConnections(connections: seq<Connection>, peerId: Peer, same: bool)
      returns (r: seq<Connection>, ghost at: seq<nat>)
      ensures at == Candidates(Values(connections), peerId, same)
      ensures |r| == |at| && forall j | 0 <= j < |at| :: r[j] == connections[at[j]]
    {
      hide Candidates;
      r, at := [], [];
      NoCandidates(peerId, same);
      for i := 0 to |connections|
        invariant at == Candidates(Values(connections)[..i], peerId, same)
        invariant |r| == |at| && forall j | 0 <= j < |at| :: at[j] < i && r[j] == connections[at[j]]
      {
        var c := connections[i];
        assert Values(connections)[..i + 1][..i] == Values(connections)[..i];
        CandidatesLast(Values(connections)[..i + 1], peerId, same);
        if c.isOpen && CONNECTION_LOCK_TAG !in c.tags && (c.remotePeer == peerId) == same {
          r := r + [c];
          at := at + [i];
        }
      }
      assert Values(connections)[..|connections|] == Values(connections);
    }

    /** Tags the chosen connections one after the other. */
    method LockConnections(ghost connections: seq<Connection>, chosen: seq<Connection>, ghost at: seq<nat>)
      requires NoRepeats(connections)
      requires |chosen| == |at| && forall j | 0 <= j < |at| :: at[j] < |connections| && chosen[j] == connections[at[j]]
      requires forall i, j | 0 <= i < j < |at| :: at[i] < at[j]
      modifies connections
      ensures Values(connections) == LockAt(old(Values(connections)), at)
    {
      for j := 0 to |chosen|
        invariant Values(connections) == LockAt(old(Values(connections)), at[..j])
      {
        var c := chosen[j];
        ghost var before := Values(connections);
        c.tags := c.tags + [CONNECTION_LOCK_TAG];
        assert at[..j + 1] == at[..j] + [at[j]];
        assert at[j] !in at[..j];
        forall i | 0 <= i < |connections|
          ensures Values(connections)[i] == if i == at[j] then Lock(before[i]) else before[i]
        {
          if i != at[j] {
            assert connections[i] != c;
          }
        }
      }
      assert at[..|at|] == at;
    }

    method RequestRenew(connections: seq<Connection>, peerId: Peer) returns (newPeerId: Option<Peer>)
      requires NoRepeats(connections)
      modifies connections
      ensures Values(connections) == AfterRenew(old(Values(connections)), numPeersToUse, peerId)
      ensures var renewed := Renewals(old(Values(connections)), numPeersToUse, peerId);
              newPeerId == if renewed == [] then None else Some(connections[renewed[0]].remotePeer)
    {
      hide LockAt, LockedCount, Candidates, NoRepeats;
      var locked := CountLockedConnections(connections);
      var neededPeers := numPeersToUse - locked;
      if neededPeers == 0 {
        assert Values(connections) == LockAt(Values(connections), []);
        return None;
      }
      var others, at := GetUnlockedConnections(connections, peerId, false);
      var k := SliceCount(|others|, neededPeers);
      LockConnections(connections, others[..k], at[..k]);
      newPeerId := if k == 0 then None else Some(others[0].remotePeer);
    }

    method LockPeerIfNeeded(connections: seq<Connection>, peerId: Peer)
      requires NoRepeats(connections)
      modifies connections
      ensures Values(connections) == AfterConnect(old(Values(connections)), numPeersToUse, peerId)
    {
      var locked := CountLockedConnections(connections);
      var neededPeers := numPeersToUse - locked;
      if neededPeers == 0 {
        return;
      }
      var own, at := GetUnlockedConnections(connections, peerId, true);
      LockConnections(connections, own, at);
    }
  }
}
