/**
 * Discovery selection: the batch loop and the generator that fetch node records until the wanted capabilities are
 * covered. `getNode(k)` is the environment's answer to call number k.
 */
module FetchNodes {
  import opened Wrappers

  datatype Capabilities = Capabilities(relay: bool, store: bool, filter: bool, lightPush: bool)

  datatype Count = Count(relay: int, store: int, filter: int, lightPush: int)

  /** A caller may leave out any of the counts. */
  datatype WantedCount =
    WantedCount(relay: Option<int>, store: Option<int>, filter: Option<int>, lightPush: Option<int>)

  /** A node record; the empty id is an absent one. */
  datatype Enr = Enr(nodeId: string, waku2: Option<Capabilities>)

  type Source = nat -> Option<Enr>

  const ZERO := Count(0, 0, 0, 0)

  function OrZero(n: Option<int>): int { if n.Some? then n.value else 0 }

  function Defaulted(w: WantedCount): Count {
    Count(OrZero(w.relay), OrZero(w.store), OrZero(w.filter), OrZero(w.lightPush))
  }

  function Sum(c: Count): int { c.relay + c.store + c.filter + c.lightPush }

  predicate IsSatisfied(wanted: Count, actual: Count) {
    && actual.relay >= wanted.relay && actual.store >= wanted.store
    && actual.filter >= wanted.filter && actual.lightPush >= wanted.lightPush
  }

  function MissingCapabilities(wanted: Count, actual: Count): Capabilities {
    Capabilities(actual.relay < wanted.relay, actual.store < wanted.store,
                 actual.filter < wanted.filter, actual.lightPush < wanted.lightPush)
  }

  /** The caller is told whether the node helps, or gets the internal error thrown once everything is covered. */
  function HelpsSatisfyCapabilities(node: Capabilities, wanted: Count, actual: Count): Result<bool, string> {
    if IsSatisfied(wanted, actual) then
      Err("Internal Error: Waku2 wanted capabilities are already fulfilled")
    else
      var missing := MissingCapabilities(wanted, actual);
      Ok((missing.relay && node.relay) || (missing.store && node.store)
         || (missing.filter && node.filter) || (missing.lightPush && node.lightPush))
  }

  function One(b: bool): nat { if b then 1 else 0 }

  function AddCapabilities(node: Capabilities, total: Count): Count {
    Count(total.relay + One(node.relay), total.store + One(node.store),
          total.filter + One(node.filter), total.lightPush + One(node.lightPush))
  }

  function Ids(peers: seq<Enr>): set<string> {
    set i | 0 <= i < |peers| :: peers[i].nodeId
  }

  method IsNewPeer(peer: Enr, peers: seq<Enr>) returns (isNew: bool)
    ensures isNew == (peer.nodeId != "" && peer.nodeId !in Ids(peers))
  {
    if peer.nodeId == "" {
      return false;
    }
    for i := 0 to |peers|
      invariant peer.nodeId !in Ids(peers[..i])
    {
      if peer.nodeId == peers[i].nodeId {
        return false;
      }
      assert peers[..i + 1] == peers[..i] + [peers[i]];
      assert Ids(peers[..i + 1]) <= Ids(peers[..i]) + {peers[i].nodeId};
    }
    assert peers[..|peers|] == peers;
    isNew := true;
  }

  /** What a loop has selected so far; `seen` holds the ids it will not look at again. */
  datatype Run = Run(peers: seq<Enr>, actual: Count, seen: set<string>, calls: nat)

  const START := Run([], ZERO, {}, 0)

  predicate Stopped(wanted: Count, limit: int, run: Run) {
    IsSatisfied(wanted, run.actual) || run.calls >= limit
  }

  predicate Helpful(peer: Enr, wanted: Count, actual: Count) {
    peer.waku2.Some? && HelpsSatisfyCapabilities(peer.waku2.value, wanted, actual) == Ok(true)
  }

  /** The call's answer is a record whose id has not been seen. */
  predicate Fresh(answer: Option<Enr>, seen: set<string>) {
    answer.Some? && answer.value.nodeId != "" && answer.value.nodeId !in seen
  }

  /**
   * One turn of either loop. The batch loop (`everySeen` false) remembers the ids it accepted, the generator those
   * it was ever offered.
   */
  function Turn(wanted: Count, everySeen: bool, run: Run, answer: Option<Enr>): Run {
    var next := run.(calls := run.calls + 1);
    if !Fresh(answer, run.seen) then next
    else if Helpful(answer.value, wanted, run.actual) then
      next.(peers := run.peers + [answer.value],
            actual := AddCapabilities(answer.value.waku2.value, run.actual),
            seen := run.seen + {answer.value.nodeId})
    else if everySeen then next.(seen := run.seen + {answer.value.nodeId})
    else next
  }

  function Loop(wanted: Count, limit: int, everySeen: bool, getNode: Source, run: Run): Run
    decreases limit - run.calls
  {
    if Stopped(wanted, limit, run) then run
    else Loop(wanted, limit, everySeen, getNode, Turn(wanted, everySeen, run, getNode(run.calls)))
  }

  lemma LoopOnce(wanted: Count, limit: int, everySeen: bool, getNode: Source, run: Run)
    ensures Loop(wanted, limit, everySeen, getNode, run)
         == if Stopped(wanted, limit, run) then run
            else Loop(wanted, limit, everySeen, getNode, Turn(wanted, everySeen, run, getNode(run.calls)))
  {}

  function Batch(wanted: WantedCount, errorTolerance: int, getNode: Source): Run {
    var w := Defaulted(wanted);
    Loop(w, Sum(w) + errorTolerance, false, getNode, START)
  }

  /** The generator, drained by its consumer. */
  function Drained(wanted: WantedCount, errorTolerance: int, getNode: Source): Run {
    var w := Defaulted(wanted);
    Loop(w, Sum(w) + errorTolerance, true, getNode, START)
  }

  lemma IdsAppend(peers: seq<Enr>, peer: Enr)
    ensures Ids(peers + [peer]) == Ids(peers) + {peer.nodeId}
  {
    var all := peers + [peer];
    forall id | id in Ids(peers) + {peer.nodeId}
      ensures id in Ids(all)
    {
      if id == peer.nodeId {
        assert all[|peers|].nodeId == id;
      } else {
        var i :| 0 <= i < |peers| && peers[i].nodeId == id;
        assert all[i].nodeId == id;
      }
    }
  }

  /** fetchNodesUntilCapabilitiesFulfilled; the internal error is never thrown. */
  method FetchNodesUntilCapabilitiesFulfilled(wantedCount: WantedCount, errorTolerance: int, getNode: Source)
    returns (r: Result<seq<Enr>, string>, totalSearches: nat)
    ensures r == Ok(Batch(wantedCount, errorTolerance, getNode).peers)
    ensures totalSearches == Batch(wantedCount, errorTolerance, getNode).calls
  {
    hide Loop, Defaulted, Sum;
    var wanted := Defaulted(wantedCount);
    var maxSearches := Sum(wanted);
    var actual, peers := ZERO, [];
    totalSearches := 0;
    assert Ids(peers) == {};
    while !IsSatisfied(wanted, actual) && totalSearches < maxSearches + errorTolerance
      invariant Loop(wanted, maxSearches + errorTolerance, false, getNode,
                     Run(peers, actual, Ids(peers), totalSearches))
             == Batch(wantedCount, errorTolerance, getNode)
      decreases maxSearches + errorTolerance - totalSearches
    {
      LoopOnce(wanted, maxSearches + errorTolerance, false, getNode, Run(peers, actual, Ids(peers), totalSearches));
      ghost var before := Run(peers, actual, Ids(peers), totalSearches);
      var peer := getNode(totalSearches);
      var isNew := false;
      if peer.Some? {
        isNew := IsNewPeer(peer.value, peers);
      }
      if isNew && peer.value.waku2.Some? {
        match HelpsSatisfyCapabilities(peer.value.waku2.value, wanted, actual) {
          case Err(thrown) => return Err(thrown), totalSearches;
          case Ok(helps) =>
            if helps {
              actual := AddCapabilities(peer.value.waku2.value, actual);
              IdsAppend(peers, peer.value);
              peers := peers + [peer.value];
            }
        }
      }
      totalSearches := totalSearches + 1;
      assert Run(peers, actual, Ids(peers), totalSearches) == Turn(wanted, false, before, peer);
    }
    LoopOnce(wanted, maxSearches + errorTolerance, false, getNode, Run(peers, actual, Ids(peers), totalSearches));
    r := Ok(peers);
  }

  /** yieldNodesUntilCapabilitiesFulfilled, collecting what it yields; the internal error is never thrown. */
  method YieldNodesUntilCapabilitiesFulfilled(wantedCount: WantedCount, errorTolerance: int, getNode: Source)
    returns (r: Result<seq<Enr>, string>, totalSearches: nat)
    ensures r == Ok(Drained(wantedCount, errorTolerance, getNode).peers)
    ensures totalSearches == Drained(wantedCount, errorTolerance, getNode).calls
  {
    hide Loop, Defaulted, Sum;
    var wanted := Defaulted(wantedCount);
    var maxSearches := Sum(wanted);
    var actual, yielded, peerNodeIds: set<string> := ZERO, [], {};
    totalSearches := 0;
    while !IsSatisfied(wanted, actual) && totalSearches < maxSearches + errorTolerance
      invariant Loop(wanted, maxSearches + errorTolerance, true, getNode,
                     Run(yielded, actual, peerNodeIds, totalSearches))
             == Drained(wantedCount, errorTolerance, getNode)
      decreases maxSearches + errorTolerance - totalSearches
    {
      LoopOnce(wanted, maxSearches + errorTolerance, true, getNode, Run(yielded, actual, peerNodeIds, totalSearches));
      ghost var before := Run(yielded, actual, peerNodeIds, totalSearches);
      var peer := getNode(totalSearches);
      if peer.Some? && peer.value.nodeId != "" && peer.value.nodeId !in peerNodeIds {
        peerNodeIds := peerNodeIds + {peer.value.nodeId};
        if peer.value.waku2.Some? {
          match HelpsSatisfyCapabilities(peer.value.waku2.value, wanted, actual) {
            case Err(thrown) => return Err(thrown), totalSearches;
            case Ok(helps) =>
              if helps {
                actual := AddCapabilities(peer.value.waku2.value, actual);
                yielded := yielded + [peer.value];
              }
          }
        }
      }
      totalSearches := totalSearches + 1;
      assert Run(yielded, actual, peerNodeIds, totalSearches) == Turn(wanted, true, before, peer);
    }
    LoopOnce(wanted, maxSearches + errorTolerance, true, getNode, Run(yielded, actual, peerNodeIds, totalSearches));
    r := Ok(yielded);
  }
}
