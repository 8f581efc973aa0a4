/** The Store client's pagination loop against a server that holds a fixed, ordered log. */
module StorePaging {
  import opened Wrappers

  const DEFAULT_PAGE_SIZE: nat := 20
  const MAX_PAGE_SIZE: nat := 100

  type Hash = string

  datatype Message = Message(contentTopic: string, payload: string)

  /** A key-value pair of the log; either part may be absent. */
  datatype Entry = Entry(messageHash: Option<Hash>, body: Option<Message>)

  /** The query options the loop looks at; a limit of 0 is an absent one. */
  datatype Query = Query(cursor: Option<Hash>, forward: bool, limit: nat)

  /** What can go wrong with a request besides its answer. */
  datatype Fault = NoFault | NoStream | BadStatus

  /** A page size the server may choose. */
  type Size = n: nat | n > 0 witness 1

  /** What the loop meets: the server's log, how many entries each page may hold, and what goes wrong. */
  datatype Server = Server(log: seq<Entry>, sizes: nat -> Size, fault: nat -> Fault)

  ghost predicate DistinctHashes(log: seq<Entry>) {
    && (forall i | 0 <= i < |log| :: log[i].messageHash.Some?)
    && (forall i, j | 0 <= i < j < |log| :: log[i].messageHash != log[j].messageHash)
  }

  function IndexOf(log: seq<Entry>, h: Hash): (i: nat)
    ensures i <= |log|
    ensures i < |log| ==> log[i].messageHash == Some(h)
    ensures i == |log| ==> forall k | 0 <= k < |log| :: log[k].messageHash != Some(h)
  {
    if log == [] || log[0].messageHash == Some(h) then 0 else 1 + IndexOf(log[1..], h)
  }

  function Known(log: seq<Entry>, cursor: Option<Hash>): bool {
    cursor.None? || IndexOf(log, cursor.value) < |log|
  }

  /** The part of the log a query with this cursor ranges over. */
  function Remaining(log: seq<Entry>, cursor: Option<Hash>, forward: bool): seq<Entry>
    requires Known(log, cursor)
  {
    if cursor.None? then log
    else if forward then log[IndexOf(log, cursor.value) + 1..]
    else log[..IndexOf(log, cursor.value)]
  }

  /** A page is the entries next to the cursor, always in log order. */
  function PageOf(rest: seq<Entry>, pageSize: Size, forward: bool): (page: seq<Entry>)
    ensures |page| == if |rest| < pageSize then |rest| else pageSize
  {
    if |rest| <= pageSize then rest
    else if forward then rest[..pageSize]
    else rest[|rest| - pageSize..]
  }

  function CursorAfter(page: seq<Entry>, forward: bool): Option<Hash>
    requires page != []
  {
    if forward then page[|page| - 1].messageHash else page[0].messageHash
  }

  /** The test at the end of the loop body. */
  predicate StopsAfter(n: nat, limit: nat) {
    n > MAX_PAGE_SIZE && n < if limit == 0 then DEFAULT_PAGE_SIZE else limit
  }

  /** What is handed to the consumer for an entry: nothing without a body or a decoder for its topic. */
  function Delivered(decoders: set<string>, e: Entry): Option<Message> {
    if e.body.Some? && e.body.value.contentTopic != "" && e.body.value.contentTopic in decoders then e.body else None
  }

  /** The slot holds the entry's message if a decoder takes its topic, and nothing otherwise. */
  ghost predicate SlotOf(decoders: set<string>, e: Entry, slot: Option<Message>) {
    forall m: Message :: slot == Some(m) <==> e.body == Some(m) && m.contentTopic != "" && m.contentTopic in decoders
  }

  lemma DeliveredIsSlot(decoders: set<string>, e: Entry, slot: Option<Message>)
    ensures SlotOf(decoders, e, slot) <==> slot == Delivered(decoders, e)
  {
    if slot.Some? {
      assert SlotOf(decoders, e, slot) ==> e.body == Some(slot.value);
    }
    if Delivered(decoders, e).Some? {
      assert SlotOf(decoders, e, slot) ==> slot == Some(e.body.value);
    }
  }

  /** Page by page, the consumer gets one slot for each entry. */
  ghost predicate SlotsOf(decoders: set<string>, pages: seq<seq<Entry>>, yielded: seq<seq<Option<Message>>>) {
    && |yielded| == |pages|
    && forall i | 0 <= i < |pages| ::
         |yielded[i]| == |pages[i]| && forall j | 0 <= j < |pages[i]| :: SlotOf(decoders, pages[i][j], yielded[i][j])
  }

  function DeliveredPage(decoders: set<string>, page: seq<Entry>): seq<Option<Message>> {
    seq(|page|, i requires 0 <= i < |page| => Delivered(decoders, page[i]))
  }

  function DeliveredPages(decoders: set<string>, pages: seq<seq<Entry>>): seq<seq<Option<Message>>> {
    seq(|pages|, i requires 0 <= i < |pages| => DeliveredPage(decoders, pages[i]))
  }

  lemma SlotsAreDelivered(decoders: set<string>, pages: seq<seq<Entry>>, yielded: seq<seq<Option<Message>>>)
    ensures SlotsOf(decoders, pages, yielded) <==> yielded == DeliveredPages(decoders, pages)
  {
    hide SlotOf, Delivered;
    forall i, j | 0 <= i < |pages| && i < |yielded| && 0 <= j < |pages[i]| && j < |yielded[i]|
      ensures SlotOf(decoders, pages[i][j], yielded[i][j]) <==> yielded[i][j] == Delivered(decoders, pages[i][j])
    {
      DeliveredIsSlot(decoders, pages[i][j], yielded[i][j]);
    }
    if SlotsOf(decoders, pages, yielded) {
      forall i | 0 <= i < |pages|
        ensures yielded[i] == DeliveredPage(decoders, pages[i])
      {}
    }
  }

  /** A run of the loop: the pages it yielded, whether it ended by throwing, and the requests it made. */
  datatype Run = Run(pages: seq<seq<Entry>>, threw: bool, requests: nat)

  function After(rest: seq<Entry>, n: nat, forward: bool): (r: seq<Entry>)
    requires n <= |rest|
    ensures |r| == |rest| - n
  {
    if forward then rest[n..] else rest[..|rest| - n]
  }

  /** The run from request number `k` on, with the log's part `rest` still ahead; page `k` holds up to `sizes(k)`. */
  function RunFrom(rest: seq<Entry>, sizes: nat -> Size, forward: bool, limit: nat, fault: nat -> Fault, k: nat)
    : (r: Run)
    ensures r.requests >= k && (fault(k) != NoStream ==> r.requests > k)
    decreases |rest|
  {
    match fault(k)
    case NoStream => Run([], false, k)
    case BadStatus => Run([], true, k + 1)
    case NoFault =>
      if rest == [] then Run([], false, k + 1)
      else
        var page := PageOf(rest, sizes(k), forward);
        if StopsAfter(|page|, limit) then Run([page], false, k + 1)
        else
          var r := RunFrom(After(rest, |page|, forward), sizes, forward, limit, fault, k + 1);
          r.(pages := [page] + r.pages)
  }

  lemma IndexIsUnique(log: seq<Entry>, h: Hash, i: nat)
    requires DistinctHashes(log) && i < |log| && log[i].messageHash == Some(h)
    ensures IndexOf(log, h) == i
  {
    hide IndexOf;
  }

  /** A page begins or ends where the part still ahead does. */
  lemma PageEdge(rest: seq<Entry>, pageSize: Size, forward: bool)
    requires rest != []
    ensures var page := PageOf(rest, pageSize, forward);
            var edge := if forward then |page| - 1 else |rest| - |page|;
            CursorAfter(page, forward) == rest[edge].messageHash
  {}

  lemma HashPresent(log: seq<Entry>, i: nat)
    requires DistinctHashes(log) && i < |log|
    ensures log[i].messageHash.Some?
  {}

  /** The cursor taken from a page makes the server continue exactly behind it. */
  lemma CursorContinues(log: seq<Entry>, cursor: Option<Hash>, forward: bool, pageSize: Size)
    requires DistinctHashes(log) && Known(log, cursor) && Remaining(log, cursor, forward) != []
    ensures var rest := Remaining(log, cursor, forward);
            var page := PageOf(rest, pageSize, forward);
            var next := CursorAfter(page, forward);
            && next.Some? && Known(log, next)
            && Remaining(log, next, forward) == After(rest, |page|, forward)
  {
    hide IndexOf, DistinctHashes, CursorAfter;
    var rest := Remaining(log, cursor, forward);
    var page := PageOf(rest, pageSize, forward);
    PageEdge(rest, pageSize, forward);
    var start := if forward && cursor.Some? then IndexOf(log, cursor.value) + 1 else 0;
    var edge := start + if forward then |page| - 1 else |rest| - |page|;
    HashPresent(log, edge);
    IndexIsUnique(log, log[edge].messageHash.value, edge);
  }

  /** One turn of the loop. */
  lemma RunOnce(rest: seq<Entry>, sizes: nat -> Size, forward: bool, limit: nat, fault: nat -> Fault, k: nat)
    ensures var page := PageOf(rest, sizes(k), forward);
            RunFrom(rest, sizes, forward, limit, fault, k)
            == if fault(k) == NoStream then Run([], false, k)
               else if fault(k) == BadStatus then Run([], true, k + 1)
               else if page == [] then Run([], false, k + 1)
               else if StopsAfter(|page|, limit) then Run([page], false, k + 1)
               else var r := RunFrom(After(rest, |page|, forward), sizes, forward, limit, fault, k + 1);
                    r.(pages := [page] + r.pages)
  {}

  // ---- The loop over any log ----

  /** The loop before a request, or after the last one. */
  datatype Loop = Running(cursor: Option<Hash>, pages: seq<seq<Entry>>) | Finished(run: Run)

  /** The body of the loop with request `k`; the server answers an unknown cursor with an error status. */
  function Turn(s: Server, q: Query, k: nat, cursor: Option<Hash>, pages: seq<seq<Entry>>): Loop {
    match s.fault(k)
    case NoStream => Finished(Run(pages, false, k))
    case BadStatus => Finished(Run(pages, true, k + 1))
    case NoFault =>
      if !Known(s.log, cursor) then Finished(Run(pages, true, k + 1))
      else
        var page := PageOf(Remaining(s.log, cursor, q.forward), s.sizes(k), q.forward);
        if page == [] then Finished(Run(pages, false, k + 1))
        else if StopsAfter(|page|, q.limit) then Finished(Run(pages + [page], false, k + 1))
        else Running(CursorAfter(page, q.forward), pages + [page])
  }

  /** The loop after `n` turns, if it comes that far. */
  function LoopAfter(s: Server, q: Query, n: nat): Loop {
    if n == 0 then Running(q.cursor, [])
    else
      match LoopAfter(s, q, n - 1)
      case Finished(run) => Finished(run)
      case Running(cursor, pages) => Turn(s, q, n - 1, cursor, pages)
  }

  ghost predicate Ends(s: Server, q: Query) {
    exists n: nat :: LoopAfter(s, q, n).Finished?
  }

  lemma {:induction false} FinishedStays(s: Server, q: Query, m: nat, n: nat)
    requires m <= n && LoopAfter(s, q, m).Finished?
    ensures LoopAfter(s, q, n) == LoopAfter(s, q, m)
  {
    if m < n {
      FinishedStays(s, q, m, n - 1);
    }
  }

  lemma LoopStarts(s: Server, q: Query)
    ensures LoopAfter(s, q, 0) == Running(q.cursor, [])
  {}

  lemma LoopTurns(s: Server, q: Query, n: nat)
    ensures LoopAfter(s, q, n).Running? ==>
              LoopAfter(s, q, n + 1) == Turn(s, q, n, LoopAfter(s, q, n).cursor, LoopAfter(s, q, n).pages)
  {
    hide Turn;
  }

  /**
   * StoreCore.queryPerPage, whenever it ends. It yields what the decoders make of the entries in `pages`; those and
   * the other results are the ones of its turns.
   */
  method QueryPerPage(s: Server, q: Query, decoders: set<string>)
    returns (yielded: seq<seq<Option<Message>>>, threw: bool, requests: nat, ghost pages: seq<seq<Entry>>)
    requires Ends(s, q)
    ensures exists n: nat :: LoopAfter(s, q, n) == Finished(Run(pages, threw, requests))
    ensures SlotsOf(decoders, pages, yielded)
  {
    hide Known, Remaining, PageOf, DeliveredPage, LoopAfter, SlotsOf;
    SlotsAreDelivered(decoders, [], []);
    ghost var last: nat :| LoopAfter(s, q, last).Finished?;
    var currentCursor := q.cursor;
    yielded, requests, pages := [], 0, [];
    LoopStarts(s, q);
    while true
      invariant yielded == DeliveredPages(decoders, pages) && SlotsOf(decoders, pages, yielded)
      invariant LoopAfter(s, q, requests) == Running(currentCursor, pages)
      decreases last - requests
    {
      LoopTurns(s, q, requests);
      if last <= requests {
        FinishedStays(s, q, last, requests);
      }
      if s.fault(requests) == NoStream {
        return yielded, false, requests, pages;
      }
      if s.fault(requests) == BadStatus || !Known(s.log, currentCursor) {
        return yielded, true, requests + 1, pages;
      }
      var messages := PageOf(Remaining(s.log, currentCursor, q.forward), s.sizes(requests), q.forward);
      if |messages| == 0 {
        return yielded, false, requests + 1, pages;
      }
      yielded := yielded + [DeliveredPage(decoders, messages)];
      pages := pages + [messages];
      SlotsAreDelivered(decoders, pages, yielded);
      requests := requests + 1;
      if q.forward {
        currentCursor := messages[|messages| - 1].messageHash;
      } else {
        currentCursor := messages[0].messageHash;
      }
      if |messages| > MAX_PAGE_SIZE && |messages| < if q.limit != 0 then q.limit else DEFAULT_PAGE_SIZE {
        return yielded, false, requests, pages;
      }
    }
    assert false;
  }
}
