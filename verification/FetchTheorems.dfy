/** What the two fetch loops guarantee, and exactly when they select the same peers. */
module FetchTheorems {
  import opened FetchNodes
  import opened Wrappers

  function CountOf(peers: seq<Enr>): Count {
    if peers == [] then ZERO
    else
      var rest := CountOf(peers[..|peers| - 1]);
      var last := peers[|peers| - 1].waku2;
      if last.Some? then AddCapabilities(last.value, rest) else rest
  }

  // ---- What records advertise ----

  const RELAY: Capabilities -> bool := (c: Capabilities) => c.relay
  const STORE: Capabilities -> bool := (c: Capabilities) => c.store
  const FILTER: Capabilities -> bool := (c: Capabilities) => c.filter
  const LIGHT_PUSH: Capabilities -> bool := (c: Capabilities) => c.lightPush

  predicate Advertises(peer: Enr, has: Capabilities -> bool) { peer.waku2.Some? && has(peer.waku2.value) }

  /** The places of the records that advertise a capability. */
  function Advertising(peers: seq<Enr>, has: Capabilities -> bool): set<nat> {
    set i | 0 <= i < |peers| && Advertises(peers[i], has)
  }

  lemma AdvertisingLast(peers: seq<Enr>, last: Enr, has: Capabilities -> bool)
    ensures |Advertising(peers + [last], has)| == |Advertising(peers, has)| + if Advertises(last, has) then 1 else 0
  {
    assert Advertising(peers + [last], has)
        == Advertising(peers, has) + if Advertises(last, has) then {|peers|} else {};
    assert |peers| !in Advertising(peers, has);
  }

  lemma NoneAdvertising(has: Capabilities -> bool)
    ensures Advertising([], has) == {}
  {}

  lemma {:induction false} CountsAdvertising(peers: seq<Enr>)
    ensures CountOf(peers) == Count(|Advertising(peers, RELAY)|, |Advertising(peers, STORE)|,
                                    |Advertising(peers, FILTER)|, |Advertising(peers, LIGHT_PUSH)|)
    decreases |peers|
  {
    hide Advertising;
    if peers == [] {
      NoneAdvertising(RELAY);
      NoneAdvertising(STORE);
      NoneAdvertising(FILTER);
      NoneAdvertising(LIGHT_PUSH);
    } else {
      var init, last := peers[..|peers| - 1], peers[|peers| - 1];
      assert peers == init + [last];
      CountsAdvertising(init);
      AdvertisingLast(init, last, RELAY);
      AdvertisingLast(init, last, STORE);
      AdvertisingLast(init, last, FILTER);
      AdvertisingLast(init, last, LIGHT_PUSH);
    }
  }

  /** Fewer of the records than wanted advertise the capability. */
  predicate Lacking(wanted: Option<int>, peers: seq<Enr>, has: Capabilities -> bool) {
    wanted.Some? && |Advertising(peers, has)| < wanted.value
  }

  /** At least the wanted number of records advertise each capability. */
  predicate Covered(wanted: WantedCount, peers: seq<Enr>) {
    && !Lacking(wanted.relay, peers, RELAY) && !Lacking(wanted.store, peers, STORE)
    && !Lacking(wanted.filter, peers, FILTER) && !Lacking(wanted.lightPush, peers, LIGHT_PUSH)
  }

  /** The record advertises a capability of which more is wanted than `peers` have. */
  predicate Needed(wanted: WantedCount, peers: seq<Enr>, peer: Enr) {
    || (Lacking(wanted.relay, peers, RELAY) && Advertises(peer, RELAY))
    || (Lacking(wanted.store, peers, STORE) && Advertises(peer, STORE))
    || (Lacking(wanted.filter, peers, FILTER) && Advertises(peer, FILTER))
    || (Lacking(wanted.lightPush, peers, LIGHT_PUSH) && Advertises(peer, LIGHT_PUSH))
  }

  lemma TestsAreAdvertising(wanted: WantedCount, peers: seq<Enr>, peer: Enr)
    ensures IsSatisfied(Defaulted(wanted), CountOf(peers)) <==> Covered(wanted, peers)
    ensures Helpful(peer, Defaulted(wanted), CountOf(peers)) <==> Needed(wanted, peers, peer)
  {
    hide Advertising, CountOf;
    CountsAdvertising(peers);
  }

  function Positive(n: int): nat { if n > 0 then n else 0 }

  /** How many capability slots are still open. */
  function Deficit(wanted: Count, actual: Count): nat {
    Positive(wanted.relay - actual.relay) + Positive(wanted.store - actual.store)
    + Positive(wanted.filter - actual.filter) + Positive(wanted.lightPush - actual.lightPush)
  }

  ghost predicate Distinct(peers: seq<Enr>) {
    forall i, j | 0 <= i < j < |peers| :: peers[i].nodeId != peers[j].nodeId
  }

  /** Kept by every turn of either loop. */
  ghost predicate Sound(wanted: Count, run: Run) {
    && Distinct(run.peers) && Ids(run.peers) <= run.seen
    && (forall i | 0 <= i < |run.peers| :: run.peers[i].nodeId != "" && run.peers[i].waku2.Some?)
    && run.actual == CountOf(run.peers)
    && |run.peers| + Deficit(wanted, run.actual) <= Deficit(wanted, ZERO)
  }

  lemma DeficitAtStart(wanted: Count)
    ensures Deficit(wanted, ZERO)
         == Positive(wanted.relay) + Positive(wanted.store) + Positive(wanted.filter) + Positive(wanted.lightPush)
  {}

  lemma HelpShrinksDeficit(node: Capabilities, wanted: Count, actual: Count)
    requires HelpsSatisfyCapabilities(node, wanted, actual) == Ok(true)
    ensures Deficit(wanted, AddCapabilities(node, actual)) < Deficit(wanted, actual)
  {}

  lemma TurnSound(wanted: Count, everySeen: bool, run: Run, answer: Option<Enr>)
    requires Sound(wanted, run)
    ensures Sound(wanted, Turn(wanted, everySeen, run, answer))
  {
    hide Deficit, AddCapabilities, HelpsSatisfyCapabilities;
    if Fresh(answer, run.seen) && Helpful(answer.value, wanted, run.actual) {
      IdsAppend(run.peers, answer.value);
      HelpShrinksDeficit(answer.value.waku2.value, wanted, run.actual);
      var next := run.peers + [answer.value];
      assert next[..|next| - 1] == run.peers;
      forall i | 0 <= i < |run.peers|
        ensures run.peers[i].nodeId in Ids(run.peers)
      {}
    }
  }

  lemma {:induction false} LoopSound(wanted: Count, limit: int, everySeen: bool, getNode: Source, run: Run)
    requires Sound(wanted, run) && run.calls <= Positive(limit)
    ensures var end := Loop(wanted, limit, everySeen, getNode, run);
            && Sound(wanted, end)
            && end.calls <= Positive(limit)
            && (end.calls < limit ==> IsSatisfied(wanted, end.actual))
    decreases limit - run.calls
  {
    hide Sound;
    if !Stopped(wanted, limit, run) {
      var next := Turn(wanted, everySeen, run, getNode(run.calls));
      TurnSound(wanted, everySeen, run, getNode(run.calls));
      LoopSound(wanted, limit, everySeen, getNode, next);
    }
  }

  /**
   * Either loop makes at most sum(wanted) + errorTolerance calls, returns at most as many peers as there are wanted
   * slots, no two with the same id; `actual` counts exactly the returned peers' capabilities; and a run that ends
   * before the call limit has covered everything.
   */
  lemma {:induction false} FetchGuarantees(wanted: WantedCount, errorTolerance: int, getNode: Source, everySeen: bool)
    ensures var w := Defaulted(wanted);
            var end := if everySeen then Drained(wanted, errorTolerance, getNode)
                       else Batch(wanted, errorTolerance, getNode);
            var limit := w.relay + w.store + w.filter + w.lightPush + errorTolerance;
            && end.calls <= Positive(limit)
            && |end.peers| <= Positive(w.relay) + Positive(w.store) + Positive(w.filter) + Positive(w.lightPush)
            && Distinct(end.peers)
            && end.actual == Count(|Advertising(end.peers, RELAY)|, |Advertising(end.peers, STORE)|,
                                   |Advertising(end.peers, FILTER)|, |Advertising(end.peers, LIGHT_PUSH)|)
            && (end.calls < limit ==> Covered(wanted, end.peers))
  {
    hide Loop, Deficit, Defaulted, Advertising, IsSatisfied, Covered;
    var end := if everySeen then Drained(wanted, errorTolerance, getNode) else Batch(wanted, errorTolerance, getNode);
    CountsAdvertising(end.peers);
    TestsAreAdvertising(wanted, end.peers, Enr("", None));
    var w := Defaulted(wanted);
    DeficitAtStart(w);
    LoopSound(w, Sum(w) + errorTolerance, everySeen, getNode, START);
  }

  // ---- Equivalence ----

  /**
   * From `batch` on, the batch loop accepts a record whose id was offered before and turned down; `offered` holds
   * all ids offered so far.
   */
  predicate AcceptsOnSecondLook(wanted: Count, limit: int, getNode: Source, batch: Run, offered: set<string>)
    decreases limit - batch.calls
  {
    !Stopped(wanted, limit, batch) &&
    var answer := getNode(batch.calls);
    || (Fresh(answer, batch.seen) && Helpful(answer.value, wanted, batch.actual) && answer.value.nodeId in offered)
    || AcceptsOnSecondLook(wanted, limit, getNode, Turn(wanted, false, batch, answer),
                           if Fresh(answer, {}) then offered + {answer.value.nodeId} else offered)
  }

  /** The two loops are in step. */
  predicate InStep(batch: Run, gen: Run) {
    && batch.peers == gen.peers && batch.actual == gen.actual && batch.calls == gen.calls
    && Ids(batch.peers) == batch.seen && batch.seen <= gen.seen && "" !in gen.seen
  }

  /** The selected ids only grow, and an id that was seen is never selected later. */
  lemma {:induction false} SelectionGrows(wanted: Count, limit: int, everySeen: bool, getNode: Source, run: Run)
    ensures var end := Loop(wanted, limit, everySeen, getNode, run);
            && run.peers <= end.peers
            && forall i | |run.peers| <= i < |end.peers| :: end.peers[i].nodeId !in run.seen
    decreases limit - run.calls
  {
    if !Stopped(wanted, limit, run) {
      SelectionGrows(wanted, limit, everySeen, getNode, Turn(wanted, everySeen, run, getNode(run.calls)));
    }
  }

  /** Accepting what the generator will not look at again separates the results for good. */
  lemma SecondLookSeparates(wanted: Count, limit: int, getNode: Source, batch: Run, gen: Run)
    requires InStep(batch, gen) && !Stopped(wanted, limit, batch)
    requires var answer := getNode(batch.calls);
             && Fresh(answer, batch.seen) && Helpful(answer.value, wanted, batch.actual)
             && answer.value.nodeId in gen.seen
    ensures Loop(wanted, limit, false, getNode, batch).peers != Loop(wanted, limit, true, getNode, gen).peers
  {
    var answer := getNode(batch.calls);
    var n := |batch.peers|;
    var next := Turn(wanted, false, batch, answer);
    SelectionGrows(wanted, limit, false, getNode, next);
    SelectionGrows(wanted, limit, true, getNode, gen);
    var end := Loop(wanted, limit, false, getNode, batch);
    assert end == Loop(wanted, limit, false, getNode, next);
    assert next.peers[n] == answer.value && end.peers[n] == next.peers[n];
  }

  lemma {:induction false} LoopsAgreeExactly(wanted: Count, limit: int, getNode: Source, batch: Run, gen: Run)
    requires InStep(batch, gen)
    ensures var b, g := Loop(wanted, limit, false, getNode, batch), Loop(wanted, limit, true, getNode, gen);
            && (AcceptsOnSecondLook(wanted, limit, getNode, batch, gen.seen) ==> b.peers != g.peers)
            && (!AcceptsOnSecondLook(wanted, limit, getNode, batch, gen.seen) ==>
                  b.peers == g.peers && b.calls == g.calls)
    decreases limit - batch.calls
  {
    hide HelpsSatisfyCapabilities;
    if !Stopped(wanted, limit, batch) {
      var answer := getNode(batch.calls);
      if Fresh(answer, batch.seen) && Helpful(answer.value, wanted, batch.actual) && answer.value.nodeId in gen.seen {
        SecondLookSeparates(wanted, limit, getNode, batch, gen);
      } else {
        var b, g := Turn(wanted, false, batch, answer), Turn(wanted, true, gen, answer);
        if answer.Some? {
          IdsAppend(batch.peers, answer.value);
        }
        assert g.seen == if Fresh(answer, {}) then gen.seen + {answer.value.nodeId} else gen.seen;
        LoopsAgreeExactly(wanted, limit, getNode, b, g);
      }
    }
  }

  /**
   * The batch loop and the drained generator select the same peers, in the same order, exactly when the batch loop
   * never accepts a record whose id it turned down before; and then they make the same number of calls.
   */
  lemma {:induction false} BatchEqualsGenerator(wanted: WantedCount, errorTolerance: int, getNode: Source)
    ensures var w := Defaulted(wanted);
            var second := AcceptsOnSecondLook(w, Sum(w) + errorTolerance, getNode, START, {});
            var b, g := Batch(wanted, errorTolerance, getNode), Drained(wanted, errorTolerance, getNode);
            && (b.peers == g.peers <==> !second)
            && (!second ==> b.calls == g.calls)
  {
    hide Loop, AcceptsOnSecondLook, Defaulted, Sum;
    var w := Defaulted(wanted);
    LoopsAgreeExactly(w, Sum(w) + errorTolerance, getNode, START, START);
  }

  // ---- Records that do not change ----

  /** Records offered under one id always carry the same capabilities. */
  ghost predicate Consistent(getNode: Source) {
    forall i: nat, j: nat ::
      getNode(i).Some? && getNode(j).Some? && getNode(i).value.nodeId == getNode(j).value.nodeId
      ==> getNode(i).value.waku2 == getNode(j).value.waku2
  }

  predicate NoLess(a: Count, b: Count) {
    a.relay <= b.relay && a.store <= b.store && a.filter <= b.filter && a.lightPush <= b.lightPush
  }

  /** Missing capabilities only shrink, so a record that does not help never will. */
  lemma UselessStaysUseless(peer: Enr, wanted: Count, before: Count, after: Count)
    requires NoLess(before, after) && !IsSatisfied(wanted, before) && !Helpful(peer, wanted, before)
    ensures !Helpful(peer, wanted, after)
  {}

  /** Every offered id is either selected already or belongs to records that do not help. */
  ghost predicate OfferedSettled(wanted: Count, getNode: Source, batch: Run, offered: set<string>) {
    forall i: nat | getNode(i).Some? && getNode(i).value.nodeId in offered && getNode(i).value.nodeId !in batch.seen ::
      !Helpful(getNode(i).value, wanted, batch.actual)
  }

  lemma SettledStep(wanted: Count, limit: int, getNode: Source, batch: Run, offered: set<string>, i: nat)
    requires Consistent(getNode) && OfferedSettled(wanted, getNode, batch, offered) && !Stopped(wanted, limit, batch)
    requires getNode(i).Some?
    requires var answer := getNode(batch.calls);
             && (getNode(i).value.nodeId in offered
                 || (Fresh(answer, {}) && getNode(i).value.nodeId == answer.value.nodeId))
             && getNode(i).value.nodeId !in Turn(wanted, false, batch, answer).seen
    ensures !Helpful(getNode(i).value, wanted, Turn(wanted, false, batch, getNode(batch.calls)).actual)
  {}

  lemma {:induction false} ConsistentSettled(
    wanted: Count, limit: int, getNode: Source, batch: Run, offered: set<string>)
    requires Consistent(getNode) && OfferedSettled(wanted, getNode, batch, offered)
    ensures !AcceptsOnSecondLook(wanted, limit, getNode, batch, offered)
    decreases limit - batch.calls
  {
    if !Stopped(wanted, limit, batch) {
      var answer := getNode(batch.calls);
      var next := Turn(wanted, false, batch, answer);
      var offered' := if Fresh(answer, {}) then offered + {answer.value.nodeId} else offered;
      forall i: nat | getNode(i).Some? && getNode(i).value.nodeId in offered' && getNode(i).value.nodeId !in next.seen
        ensures !Helpful(getNode(i).value, wanted, next.actual)
      {
        SettledStep(wanted, limit, getNode, batch, offered, i);
      }
      ConsistentSettled(wanted, limit, getNode, next, offered');
    }
  }

  lemma TurnAddsUp(wanted: Count, run: Run, answer: Option<Enr>)
    ensures NoLess(run.actual, Turn(wanted, false, run, answer).actual)
  {}

  /** With records that do not change, the two loops always agree. */
  lemma ConsistentSourcesAgree(wanted: WantedCount, errorTolerance: int, getNode: Source)
    requires Consistent(getNode)
    ensures Batch(wanted, errorTolerance, getNode).peers == Drained(wanted, errorTolerance, getNode).peers
    ensures Batch(wanted, errorTolerance, getNode).calls == Drained(wanted, errorTolerance, getNode).calls
  {
    var w := Defaulted(wanted);
    ConsistentSettled(w, Sum(w) + errorTolerance, getNode, START, {});
    BatchEqualsGenerator(wanted, errorTolerance, getNode);
  }

  lemma TwoTurns(w: Count, limit: int, everySeen: bool, getNode: Source, first: Run, second: Run)
    requires !Stopped(w, limit, START) && first == Turn(w, everySeen, START, getNode(0)) && first.calls == 1
    requires !Stopped(w, limit, first) && second == Turn(w, everySeen, first, getNode(1)) && Stopped(w, limit, second)
    ensures Loop(w, limit, everySeen, getNode, START) == second
  {
    hide Loop, Stopped, Turn;
    LoopOnce(w, limit, everySeen, getNode, START);
    LoopOnce(w, limit, everySeen, getNode, first);
    LoopOnce(w, limit, everySeen, getNode, second);
  }

  /** A node that first advertises nothing and then relay is selected by the batch loop only. */
  lemma ChangingRecordSeparates(getNode: Source, id: string)
    requires id != ""
    requires getNode(0) == Some(Enr(id, Some(Capabilities(false, false, false, false))))
    requires getNode(1) == Some(Enr(id, Some(Capabilities(true, false, false, false))))
    ensures var wanted := WantedCount(Some(1), None, None, None);
            && Batch(wanted, 1, getNode).peers == [getNode(1).value]
            && Drained(wanted, 1, getNode).peers == []
  {
    var w := Count(1, 0, 0, 0);
    TwoTurns(w, 2, false, getNode, Run([], ZERO, {}, 1), Run([getNode(1).value], w, {id}, 2));
    TwoTurns(w, 2, true, getNode, Run([], ZERO, {id}, 1), Run([], ZERO, {id}, 2));
  }

  // ---- Nothing useful is left out ----

  ghost predicate AnsweredBefore(getNode: Source, calls: nat, peer: Enr) {
    exists k: nat :: k < calls && getNode(k) == Some(peer)
  }

  /** The answer to call `k` was selected, or shares its id with a selected record, or does not help. */
  ghost predicate Screened(wanted: Count, getNode: Source, run: Run) {
    && run.seen == Ids(run.peers)
    && (forall k: nat | k < run.calls && Fresh(getNode(k), run.seen) :: !Helpful(getNode(k).value, wanted, run.actual))
    && (forall i | 0 <= i < |run.peers| :: AnsweredBefore(getNode, run.calls, run.peers[i]))
  }

  lemma TurnScreens(wanted: Count, limit: int, getNode: Source, run: Run)
    requires Screened(wanted, getNode, run) && !Stopped(wanted, limit, run)
    ensures Screened(wanted, getNode, Turn(wanted, false, run, getNode(run.calls)))
  {
    hide IsSatisfied, AddCapabilities, HelpsSatisfyCapabilities;
    var answer := getNode(run.calls);
    var next := Turn(wanted, false, run, answer);
    TurnAddsUp(wanted, run, answer);
    forall k: nat | k < next.calls && Fresh(getNode(k), next.seen)
      ensures !Helpful(getNode(k).value, wanted, next.actual)
    {
      UselessStaysUseless(getNode(k).value, wanted, run.actual, next.actual);
    }
    if answer.Some? {
      IdsAppend(run.peers, answer.value);
    }
    forall i | 0 <= i < |next.peers|
      ensures AnsweredBefore(getNode, next.calls, next.peers[i])
    {
      if i < |run.peers| {
        var k: nat :| k < run.calls && getNode(k) == Some(run.peers[i]);
      }
    }
  }

  lemma NothingAnsweredYet(wanted: Count, getNode: Source)
    ensures Screened(wanted, getNode, START)
  {
    assert Ids([]) == {};
  }

  lemma {:induction false} LoopScreens(wanted: Count, limit: int, getNode: Source, run: Run)
    requires Screened(wanted, getNode, run)
    ensures Screened(wanted, getNode, Loop(wanted, limit, false, getNode, run))
    decreases limit - run.calls
  {
    hide Screened;
    if !Stopped(wanted, limit, run) {
      TurnScreens(wanted, limit, getNode, run);
      LoopScreens(wanted, limit, getNode, Turn(wanted, false, run, getNode(run.calls)));
    }
  }

  lemma ScreenedReturned(wanted: Count, getNode: Source, run: Run)
    requires Screened(wanted, getNode, run)
    ensures forall k: nat | k < run.calls && Fresh(getNode(k), Ids(run.peers)) ::
              !Helpful(getNode(k).value, wanted, run.actual)
    ensures forall i | 0 <= i < |run.peers| :: AnsweredBefore(getNode, run.calls, run.peers[i])
  {}

  lemma StartSound(wanted: Count)
    ensures Sound(wanted, START)
  {}

  lemma SoundCounts(wanted: Count, run: Run)
    requires Sound(wanted, run)
    ensures run.actual == CountOf(run.peers)
  {}

  /**
   * The batch loop returns only records it was offered, and of the offered records with an id no selected one has,
   * none advertises a capability of which more is still wanted.
   */
  lemma {:induction false} NothingUsefulLeftOut(wanted: WantedCount, errorTolerance: int, getNode: Source)
    ensures var end := Batch(wanted, errorTolerance, getNode);
            && (forall i | 0 <= i < |end.peers| :: exists k: nat :: k < end.calls && getNode(k) == Some(end.peers[i]))
            && (forall k: nat | k < end.calls && getNode(k).Some? && getNode(k).value.nodeId != ""
                                && getNode(k).value.nodeId !in Ids(end.peers) ::
                  !Needed(wanted, end.peers, getNode(k).value))
  {
    hide Loop, Screened, Defaulted, Sum, Needed, Helpful, Sound, Ids;
    var w := Defaulted(wanted);
    NothingAnsweredYet(w, getNode);
    LoopScreens(w, Sum(w) + errorTolerance, getNode, START);
    StartSound(w);
    LoopSound(w, Sum(w) + errorTolerance, false, getNode, START);
    var end := Batch(wanted, errorTolerance, getNode);
    ScreenedReturned(w, getNode, end);
    SoundCounts(w, end);
    forall i | 0 <= i < |end.peers|
      ensures exists k: nat :: k < end.calls && getNode(k) == Some(end.peers[i])
    {
      assert AnsweredBefore(getNode, end.calls, end.peers[i]);
    }
    forall k: nat | k < end.calls && Fresh(getNode(k), Ids(end.peers))
      ensures !Needed(wanted, end.peers, getNode(k).value)
    {
      TestsAreAdvertising(wanted, end.peers, getNode(k).value);
    }
  }

  // ---- Nothing useless is taken, and no call is made in vain ----

  /** Each record was needed when it was taken, and after the last call that took one more is still wanted. */
  ghost predicate Frugal(wanted: WantedCount, getNode: Source, run: Run) {
    && (forall i | 0 <= i < |run.peers| :: Needed(wanted, run.peers[..i], run.peers[i]))
    && (Covered(wanted, run.peers) && run.calls > 0 ==>
          run.peers != [] && getNode(run.calls - 1) == Some(run.peers[|run.peers| - 1])
          && !Covered(wanted, run.peers[..|run.peers| - 1]))
  }

  lemma TurnFrugal(wanted: WantedCount, limit: int, everySeen: bool, getNode: Source, run: Run)
    requires Frugal(wanted, getNode, run) && Sound(Defaulted(wanted), run) && !Stopped(Defaulted(wanted), limit, run)
    ensures Frugal(wanted, getNode, Turn(Defaulted(wanted), everySeen, run, getNode(run.calls)))
  {
    hide Needed, Covered, Helpful, IsSatisfied, Defaulted, AddCapabilities, Sound;
    var answer := getNode(run.calls);
    SoundCounts(Defaulted(wanted), run);
    TestsAreAdvertising(wanted, run.peers, if answer.Some? then answer.value else Enr("", None));
    var next := Turn(Defaulted(wanted), everySeen, run, answer);
    if next.peers != run.peers {
      assert next.peers == run.peers + [answer.value] && next.peers[..|run.peers|] == run.peers;
      forall i | 0 <= i < |next.peers|
        ensures Needed(wanted, next.peers[..i], next.peers[i])
      {
        if i < |run.peers| {
          assert next.peers[..i] == run.peers[..i] && next.peers[i] == run.peers[i];
        }
      }
    }
  }

  lemma {:induction false} LoopFrugal(wanted: WantedCount, limit: int, everySeen: bool, getNode: Source, run: Run)
    requires Frugal(wanted, getNode, run) && Sound(Defaulted(wanted), run)
    ensures Frugal(wanted, getNode, Loop(Defaulted(wanted), limit, everySeen, getNode, run))
    decreases limit - run.calls
  {
    hide Frugal, Sound, Defaulted;
    if !Stopped(Defaulted(wanted), limit, run) {
      TurnFrugal(wanted, limit, everySeen, getNode, run);
      TurnSound(Defaulted(wanted), everySeen, run, getNode(run.calls));
      LoopFrugal(wanted, limit, everySeen, getNode, Turn(Defaulted(wanted), everySeen, run, getNode(run.calls)));
    }
  }

  lemma StartFrugal(wanted: WantedCount, getNode: Source)
    ensures Frugal(wanted, getNode, START)
  {}

  /** Both loops take only records needed at that moment, and stop with the call that covers everything. */
  lemma NothingUselessTaken(wanted: WantedCount, errorTolerance: int, getNode: Source, everySeen: bool)
    ensures var end := if everySeen then Drained(wanted, errorTolerance, getNode)
                       else Batch(wanted, errorTolerance, getNode);
            Frugal(wanted, getNode, end)
  {
    hide Loop, Frugal, Sound, Defaulted, Sum;
    var w := Defaulted(wanted);
    StartSound(w);
    StartFrugal(wanted, getNode);
    LoopFrugal(wanted, Sum(w) + errorTolerance, everySeen, getNode, START);
  }
}
