/** What a paged query enumerates. */
module StoreTheorems {
  import opened StorePaging
  import opened Wrappers

  function Concat<T>(pages: seq<seq<T>>): seq<T> {
    if pages == [] then [] else pages[0] + Concat(pages[1..])
  }

  function Reversed<T>(pages: seq<seq<T>>): seq<seq<T>> {
    if pages == [] then [] else Reversed(pages[1..]) + [pages[0]]
  }

  /** The entries of a run put back in log order: backward pages come last page first. */
  function InLogOrder<T>(pages: seq<seq<T>>, forward: bool): seq<T> {
    if forward then Concat(pages) else Concat(Reversed(pages))
  }

  lemma {:induction false} ConcatAppend<T>(pages: seq<seq<T>>, last: seq<T>)
    ensures Concat(pages + [last]) == Concat(pages) + last
  {
    if pages == [] {
      assert pages + [last] == [last] && [last][1..] == [];
    } else {
      assert (pages + [last])[0] == pages[0] && (pages + [last])[1..] == pages[1..] + [last];
      ConcatAppend(pages[1..], last);
    }
  }

  lemma InLogOrderCons<T>(page: seq<T>, pages: seq<seq<T>>, forward: bool)
    ensures InLogOrder([page] + pages, forward)
         == if forward then page + InLogOrder(pages, true) else InLogOrder(pages, false) + page
  {
    assert ([page] + pages)[0] == page && ([page] + pages)[1..] == pages;
    if !forward {
      ConcatAppend(Reversed(pages), page);
    }
  }

  const NEVER: nat -> Fault := (k: nat) => NoFault

  /** Some page, from number `k` on, makes the loop stop although entries are left: all before it were full. */
  predicate Truncates(n: nat, sizes: nat -> Size, limit: nat, k: nat) {
    n > sizes(k) && (StopsAfter(sizes(k), limit) || Truncates(n - sizes(k), sizes, limit, k + 1))
  }

  /** With one page size only the first page matters. */
  lemma {:induction false} FixedSizeTruncates(n: nat, pageSize: Size, limit: nat, k: nat)
    ensures Truncates(n, _ => pageSize, limit, k)
       <==> 100 < pageSize < (if limit == 0 then 20 else limit) && n > pageSize
    decreases n
  {
    if n > pageSize {
      FixedSizeTruncates(n - pageSize, pageSize, limit, k + 1);
    }
  }

  /** Pages the server keeps within the protocol's maximum never make the loop stop early. */
  lemma {:induction false} SmallPagesNeverTruncate(n: nat, sizes: nat -> Size, limit: nat, k: nat)
    requires forall i :: sizes(i) <= MAX_PAGE_SIZE
    ensures !Truncates(n, sizes, limit, k)
    decreases n
  {
    if n > sizes(k) {
      SmallPagesNeverTruncate(n - sizes(k), sizes, limit, k + 1);
    }
  }

  /** `c` pages of `pageSize` hold `n` entries and one page less does not: c is n / pageSize, rounded up. */
  predicate RoundedUp(c: nat, n: nat, pageSize: nat) {
    n <= c * pageSize && (c > 0 ==> (c - 1) * pageSize < n)
  }

  lemma OnePage(n: nat, pageSize: nat)
    requires pageSize > 0
    ensures n == 0 ==> RoundedUp(0, n, pageSize)
    ensures 0 < n <= pageSize ==> RoundedUp(1, n, pageSize)
  {}

  lemma NoEntriesNoPages(c: nat, pageSize: nat)
    requires RoundedUp(c, 0, pageSize)
    ensures c == 0
  {}

  lemma OneMorePage(c: nat, n: nat, pageSize: nat)
    requires pageSize > 0 && RoundedUp(c, n, pageSize)
    ensures RoundedUp(c + 1, n + pageSize, pageSize)
  {}

  lemma Cancels(page: seq<Entry>, a: seq<Entry>, b: seq<Entry>)
    ensures page + a == page + b <==> a == b
    ensures a + page == b + page <==> a == b
  {
    assert a == (page + a)[|page|..] && b == (page + b)[|page|..];
    assert a == (a + page)[..|a + page| - |page|] && b == (b + page)[..|b + page| - |page|];
  }

  lemma NoPages<T>(forward: bool)
    ensures InLogOrder<T>([], forward) == []
  {}

  lemma PageSplits(rest: seq<Entry>, pageSize: Size, forward: bool)
    ensures var page := PageOf(rest, pageSize, forward);
            var left := After(rest, |page|, forward);
            rest == if forward then page + left else left + page
  {}

  /**
   * Without faults the pages put together are exactly what lies ahead of the cursor, in log order, unless a page is
   * longer than MAX_PAGE_SIZE, shorter than the query's limit, and not the last; and when the loop did not stop at a
   * page, one more request than there are pages finds nothing left.
   */
  lemma {:induction false} RunEnumerates(rest: seq<Entry>, sizes: nat -> Size, forward: bool, limit: nat, k: nat)
    ensures var r := RunFrom(rest, sizes, forward, limit, NEVER, k);
            && !r.threw
            && (InLogOrder(r.pages, forward) == rest <==> !Truncates(|rest|, sizes, limit, k))
            && ((forall i :: sizes(i) <= MAX_PAGE_SIZE) ==> r.requests == k + |r.pages| + 1)
    decreases |rest|
  {
    hide RunFrom, PageOf, After, InLogOrder;
    RunOnce(rest, sizes, forward, limit, NEVER, k);
    NoPages<Entry>(forward);
    if rest != [] {
      var page := PageOf(rest, sizes(k), forward);
      var left := After(rest, |page|, forward);
      PageSplits(rest, sizes(k), forward);
      InLogOrderCons(page, [], forward);
      assert [page] + [] == [page] && page + [] == page && [] + page == page;
      if !StopsAfter(|page|, limit) {
        RunEnumerates(left, sizes, forward, limit, k + 1);
        var r := RunFrom(left, sizes, forward, limit, NEVER, k + 1);
        InLogOrderCons(page, r.pages, forward);
        Cancels(page, InLogOrder(r.pages, forward), left);
      }
    }
  }

  /** With one page size there are just enough pages. */
  lemma {:induction false} PagesRoundedUp(rest: seq<Entry>, pageSize: Size, forward: bool, limit: nat, k: nat)
    requires !Truncates(|rest|, _ => pageSize, limit, k)
    ensures RoundedUp(|RunFrom(rest, _ => pageSize, forward, limit, NEVER, k).pages|, |rest|, pageSize)
    decreases |rest|
  {
    hide RunFrom, PageOf, After, RoundedUp;
    RunOnce(rest, _ => pageSize, forward, limit, NEVER, k);
    OnePage(|rest|, pageSize);
    if rest != [] {
      var page := PageOf(rest, pageSize, forward);
      if !StopsAfter(|page|, limit) {
        var left := After(rest, |page|, forward);
        PagesRoundedUp(left, pageSize, forward, limit, k + 1);
        var r := RunFrom(left, _ => pageSize, forward, limit, NEVER, k + 1);
        if |rest| > pageSize {
          OneMorePage(|r.pages|, |left|, pageSize);
        } else {
          NoEntriesNoPages(|r.pages|, pageSize);
        }
      }
    }
  }

  /**
   * The first fault ends the query: it has yielded the pages before it and throws exactly for an error status.
   * Without a fault among its requests the query is the fault-free one.
   */
  lemma {:induction false} FaultsCutOff(
    rest: seq<Entry>, sizes: nat -> Size, forward: bool, limit: nat, fault: nat -> Fault, k: nat, first: nat)
    requires k <= first && forall j | k <= j < first :: fault(j) == NoFault
    ensures var r := RunFrom(rest, sizes, forward, limit, fault, k);
            var ideal := RunFrom(rest, sizes, forward, limit, NEVER, k);
            if first >= ideal.requests then r == ideal
            else
              fault(first) != NoFault ==>
                && first - k <= |ideal.pages| && r.pages == ideal.pages[..first - k]
                && (r.threw <==> fault(first) == BadStatus)
                && r.requests == if fault(first) == BadStatus then first + 1 else first
    decreases |rest|
  {
    hide RunFrom, PageOf, After;
    RunOnce(rest, sizes, forward, limit, NEVER, k);
    RunOnce(rest, sizes, forward, limit, fault, k);
    var page := PageOf(rest, sizes(k), forward);
    if k < first && page != [] && !StopsAfter(|page|, limit) {
      FaultsCutOff(After(rest, |page|, forward), sizes, forward, limit, fault, k + 1, first);
    }
  }

  /**
   * StoreCore.queryPerPage over a log with distinct hashes: pages of 1 to 100 entries, however the server sizes each
   * of them, enumerate exactly the entries after the cursor (forward) or before it (backward), each once.
   */
  lemma QueryIsComplete(log: seq<Entry>, sizes: nat -> Size, q: Query)
    requires DistinctHashes(log) && Known(log, q.cursor) && forall i :: sizes(i) <= MAX_PAGE_SIZE
    ensures var ahead := Remaining(log, q.cursor, q.forward);
            var r := RunFrom(ahead, sizes, q.forward, q.limit, NEVER, 0);
            && InLogOrder(r.pages, q.forward) == ahead
            && DistinctHashes(ahead)
            && r.requests == |r.pages| + 1
  {
    hide RunFrom;
    var ahead := Remaining(log, q.cursor, q.forward);
    RunEnumerates(ahead, sizes, q.forward, q.limit, 0);
    SmallPagesNeverTruncate(|ahead|, sizes, q.limit, 0);
  }

  /** Pages of one size p <= 100 take ceil(n / p) + 1 requests. */
  lemma RequestCount(rest: seq<Entry>, pageSize: Size, forward: bool, limit: nat)
    requires pageSize <= MAX_PAGE_SIZE
    ensures RoundedUp(RunFrom(rest, _ => pageSize, forward, limit, NEVER, 0).requests - 1, |rest|, pageSize)
  {
    hide RunFrom, RoundedUp;
    RunEnumerates(rest, _ => pageSize, forward, limit, 0);
    SmallPagesNeverTruncate(|rest|, _ => pageSize, limit, 0);
    PagesRoundedUp(rest, pageSize, forward, limit, 0);
  }

  // ---- The loop and its runs ----

  /** One turn takes one page off the run. */
  lemma TurnMakesRun(s: Server, q: Query, k: nat, cursor: Option<Hash>, pages: seq<seq<Entry>>)
    requires DistinctHashes(s.log) && Known(s.log, cursor)
    ensures var ahead := Remaining(s.log, cursor, q.forward);
            var r := RunFrom(ahead, s.sizes, q.forward, q.limit, s.fault, k);
            match Turn(s, q, k, cursor, pages)
            case Finished(run) => run == r.(pages := pages + r.pages) && run.requests <= k + 1
            case Running(next, more) =>
              && Known(s.log, next) && |Remaining(s.log, next, q.forward)| < |ahead|
              && var rest := RunFrom(Remaining(s.log, next, q.forward), s.sizes, q.forward, q.limit, s.fault, k + 1);
                 r.(pages := pages + r.pages) == rest.(pages := more + rest.pages)
  {
    hide RunFrom, Known, Remaining, DistinctHashes, After, CursorAfter, PageOf;
    var ahead := Remaining(s.log, cursor, q.forward);
    RunOnce(ahead, s.sizes, q.forward, q.limit, s.fault, k);
    if s.fault(k) == NoFault && ahead != [] {
      CursorContinues(s.log, cursor, q.forward, s.sizes(k));
    }
  }

  /**
   * Over a log with distinct hashes the turns of the loop make up the run that works off what lies ahead: while it
   * is running, the rest of the run is still to come; when it has finished, it is that run.
   */
  lemma {:induction false} TurnsMakeRun(s: Server, q: Query, n: nat)
    requires DistinctHashes(s.log) && Known(s.log, q.cursor)
    ensures var whole := RunFrom(Remaining(s.log, q.cursor, q.forward), s.sizes, q.forward, q.limit, s.fault, 0);
            match LoopAfter(s, q, n)
            case Finished(run) => run == whole && run.requests <= n
            case Running(cursor, pages) =>
              && Known(s.log, cursor)
              && |Remaining(s.log, cursor, q.forward)| + n <= |Remaining(s.log, q.cursor, q.forward)|
              && var rest := RunFrom(Remaining(s.log, cursor, q.forward), s.sizes, q.forward, q.limit, s.fault, n);
                 whole == rest.(pages := pages + rest.pages)
  {
    hide RunFrom, PageOf, Known, Remaining, DistinctHashes, After, CursorAfter, LoopAfter;
    if n == 0 {
      LoopStarts(s, q);
    } else {
      TurnsMakeRun(s, q, n - 1);
      LoopTurns(s, q, n - 1);
      match LoopAfter(s, q, n - 1)
      case Finished(_) => FinishedStays(s, q, n - 1, n);
      case Running(cursor, pages) => TurnMakesRun(s, q, n - 1, cursor, pages);
    }
  }

  /**
   * Over a log with distinct hashes the loop always ends, and with the specified run; an unknown cursor is the
   * server's error.
   */
  lemma QueryIsRun(s: Server, q: Query, n: nat)
    requires DistinctHashes(s.log)
    ensures Ends(s, q)
    ensures LoopAfter(s, q, n).Finished? ==>
              LoopAfter(s, q, n).run
              == if Known(s.log, q.cursor)
                 then RunFrom(Remaining(s.log, q.cursor, q.forward), s.sizes, q.forward, q.limit, s.fault, 0)
                 else if s.fault(0) == NoStream then Run([], false, 0) else Run([], true, 1)
  {
    hide RunFrom, Remaining, DistinctHashes, LoopAfter;
    if Known(s.log, q.cursor) {
      var end := |Remaining(s.log, q.cursor, q.forward)| + 1;
      TurnsMakeRun(s, q, end);
      assert LoopAfter(s, q, end).Finished?;
      TurnsMakeRun(s, q, n);
    } else {
      LoopStarts(s, q);
      LoopTurns(s, q, 0);
      assert LoopAfter(s, q, 1).Finished?;
      if n > 0 {
        FinishedStays(s, q, 1, n);
      }
    }
  }

  /** Without faults the loop is still running after `n` turns exactly when its run has more than `n` requests. */
  lemma RunningUntilLastRequest(s: Server, q: Query, n: nat)
    requires DistinctHashes(s.log) && Known(s.log, q.cursor) && s.fault == NEVER
    ensures LoopAfter(s, q, n).Running?
       <==> n < RunFrom(Remaining(s.log, q.cursor, q.forward), s.sizes, q.forward, q.limit, NEVER, 0).requests
  {
    hide RunFrom, Remaining, DistinctHashes, LoopAfter, Known;
    TurnsMakeRun(s, q, n);
  }

  // ---- What the consumer gets ----

  /** Pages are delivered entry by entry, whichever way they are put together. */
  lemma {:induction false} DeliveredInOrder(decoders: set<string>, pages: seq<seq<Entry>>, forward: bool)
    ensures InLogOrder(DeliveredPages(decoders, pages), forward)
         == DeliveredPage(decoders, InLogOrder(pages, forward))
    decreases |pages|
  {
    hide InLogOrder, Delivered;
    if pages == [] {
      NoPages<Entry>(forward);
      NoPages<Option<Message>>(forward);
      assert DeliveredPages(decoders, pages) == [];
    } else {
      var page, rest := pages[0], pages[1..];
      assert pages == [page] + rest;
      DeliveredInOrder(decoders, rest, forward);
      DeliveredInOrder(decoders, rest, true);
      DeliveredInOrder(decoders, rest, false);
      InLogOrderCons(page, rest, forward);
      var shown := DeliveredPages(decoders, rest);
      InLogOrderCons(DeliveredPage(decoders, page), shown, forward);
      assert DeliveredPages(decoders, pages) == [DeliveredPage(decoders, page)] + shown;
    }
  }

  /**
   * What a query that meets no fault hands to its consumer, over a log with distinct hashes and pages of 1 to 100
   * entries: in log order, one slot for each entry ahead of the cursor, holding its message exactly when it has one
   * whose topic is not empty and has a decoder.
   */
  lemma ConsumerGetsAll(
    s: Server, q: Query, decoders: set<string>, n: nat, run: Run, yielded: seq<seq<Option<Message>>>)
    requires DistinctHashes(s.log) && Known(s.log, q.cursor) && (forall i :: s.sizes(i) <= MAX_PAGE_SIZE)
    requires s.fault == NEVER && LoopAfter(s, q, n) == Finished(run) && SlotsOf(decoders, run.pages, yielded)
    ensures var ahead, slots := Remaining(s.log, q.cursor, q.forward), InLogOrder(yielded, q.forward);
            && !run.threw && |slots| == |ahead|
            && forall i | 0 <= i < |ahead| :: SlotOf(decoders, ahead[i], slots[i])
  {
    hide InLogOrder, Remaining, Known, LoopAfter, RunFrom, DistinctHashes, Delivered, SlotOf, SlotsOf;
    SlotsAreDelivered(decoders, run.pages, yielded);
    QueryIsRun(s, q, n);
    QueryIsComplete(s.log, s.sizes, q);
    var ahead := Remaining(s.log, q.cursor, q.forward);
    RunEnumerates(ahead, s.sizes, q.forward, q.limit, 0);
    DeliveredInOrder(decoders, run.pages, q.forward);
    forall i | 0 <= i < |ahead|
      ensures SlotOf(decoders, ahead[i], Delivered(decoders, ahead[i]))
    {
      DeliveredIsSlot(decoders, ahead[i], Delivered(decoders, ahead[i]));
    }
  }

  // ---- Which logs make every query end ----

  /** No entry before the first occurrence has the hash. */
  lemma {:induction false} IndexIsFirst(log: seq<Entry>, h: Hash, i: nat)
    requires i < |log| && log[i].messageHash == Some(h)
    ensures IndexOf(log, h) <= i
  {
    if log[0].messageHash != Some(h) {
      IndexIsFirst(log[1..], h, i - 1);
    }
  }

  const ONES: nat -> Size := (k: nat) => 1

  /** Forward, from the start. */
  const ONE_BY_ONE := Query(None, true, 0)

  /** Entry `m` has no hash, or one that an earlier entry has. */
  predicate Unusable(log: seq<Entry>, m: nat)
    requires m < |log|
  {
    log[m].messageHash.None? || IndexOf(log, log[m].messageHash.value) < m
  }

  /** The cursor does not lie behind entry `m`. */
  predicate NotBehind(log: seq<Entry>, cursor: Option<Hash>, m: nat) {
    cursor.None? || IndexOf(log, cursor.value) < m
  }

  /** A page of one entry never leads past an entry with an unusable hash. */
  lemma OneEntryTurn(s: Server, m: nat, k: nat, cursor: Option<Hash>, pages: seq<seq<Entry>>)
    requires s.sizes(k) == 1 && s.fault(k) == NoFault
    requires m < |s.log| && Unusable(s.log, m) && NotBehind(s.log, cursor, m)
    ensures var next := Turn(s, ONE_BY_ONE, k, cursor, pages);
            next.Running? && NotBehind(s.log, next.cursor, m)
  {
    var i := if cursor.None? then 0 else IndexOf(s.log, cursor.value) + 1;
    assert Remaining(s.log, cursor, true)[0] == s.log[i];
    if s.log[i].messageHash.Some? {
      IndexIsFirst(s.log, s.log[i].messageHash.value, i);
    }
  }

  lemma {:induction false} NeverPast(s: Server, m: nat, n: nat)
    requires s.sizes == ONES && s.fault == NEVER && m < |s.log| && Unusable(s.log, m)
    ensures LoopAfter(s, ONE_BY_ONE, n).Running? && NotBehind(s.log, LoopAfter(s, ONE_BY_ONE, n).cursor, m)
  {
    hide Turn, Unusable, LoopAfter, IndexOf;
    if n == 0 {
      LoopStarts(s, ONE_BY_ONE);
    } else {
      NeverPast(s, m, n - 1);
      LoopTurns(s, ONE_BY_ONE, n - 1);
      var before := LoopAfter(s, ONE_BY_ONE, n - 1);
      OneEntryTurn(s, m, n - 1, before.cursor, before.pages);
    }
  }

  lemma NeverEnds(log: seq<Entry>, m: nat)
    requires m < |log| && Unusable(log, m)
    ensures !Ends(Server(log, ONES, NEVER), ONE_BY_ONE)
  {
    hide LoopAfter, Unusable, NotBehind;
    forall n: nat
      ensures LoopAfter(Server(log, ONES, NEVER), ONE_BY_ONE, n).Running?
    {
      NeverPast(Server(log, ONES, NEVER), m, n);
    }
  }

  lemma UnusableEntry(log: seq<Entry>) returns (m: nat)
    requires !DistinctHashes(log)
    ensures m < |log| && Unusable(log, m)
  {
    if i :| 0 <= i < |log| && log[i].messageHash.None? {
      m := i;
    } else {
      var i, j :| 0 <= i < j < |log| && log[i].messageHash == log[j].messageHash;
      IndexIsFirst(log, log[j].messageHash.value, i);
      m := j;
    }
  }

  /**
   * Every query to a server ends, however it sizes its pages and whatever fails, if and only if all entries of its
   * log have hashes and no two the same.
   */
  lemma QueriesEndExactly(log: seq<Entry>)
    ensures (forall sizes, fault, q :: Ends(Server(log, sizes, fault), q)) <==> DistinctHashes(log)
  {
    hide DistinctHashes, LoopAfter, Unusable, NotBehind;
    if DistinctHashes(log) {
      forall sizes, fault, q
        ensures Ends(Server(log, sizes, fault), q)
      {
        QueryIsRun(Server(log, sizes, fault), q, 0);
      }
    } else {
      var m := UnusableEntry(log);
      NeverEnds(log, m);
      assert !Ends(Server(log, ONES, NEVER), ONE_BY_ONE);
    }
  }

  /** A log with a repeated hash and one with a missing hash on which the loop asks forever. */
  lemma QueryNeedNotEnd(a: Entry, b: Entry, lost: Entry)
    requires a.messageHash.Some? && lost.messageHash.None?
    ensures !Ends(Server([a, b, a], ONES, NEVER), ONE_BY_ONE)
    ensures !Ends(Server([b, lost], ONES, NEVER), ONE_BY_ONE)
  {
    IndexIsFirst([a, b, a], a.messageHash.value, 0);
    NeverEnds([a, b, a], 2);
    NeverEnds([b, lost], 1);
  }
}
