/** EIP-1459 client descent: a cached, randomised walk of a DNS tree that may contain cycles. */
module DnsSearch {
  import opened Wrappers

  type Label = string

  /** A parsed TXT record. None stands for content that is rejected while parsing or verifying. */
  datatype Entry =
    | Root(next: Option<Label>)
    | Branch(labels: seq<Label>)
    | Record(enr: Option<string>)
    | Unknown

  /** The resolver's answer to each query in turn, None for a failed one, and the random numbers in turn. */
  datatype Env = Env(resolve: (Label, nat) -> Option<Entry>, draw: nat -> nat)

  datatype Event = Visit(name: Label) | Choose(name: Label)

  /** The discovery's cache, the context's visits, how many queries and draws were made, and the history. */
  datatype State = State(cache: map<Label, Entry>, visits: set<Label>, queries: nat, draws: nat, log: seq<Event>)

  ghost predicate DrawnLater(env: Env, d: nat, n: nat, i: nat)
    requires n > 0
  {
    exists k: nat :: k >= d && env.draw(k) % n == i
  }

  /** Every remainder keeps being drawn, so the loop that draws until an index is viable ends. */
  ghost predicate Fair(env: Env) {
    forall d: nat, n: nat, i: nat | i < n :: DrawnLater(env, d, n, i)
  }

  predicate ViableDraw(env: Env, labels: seq<Label>, visits: set<Label>, d: nat)
    requires labels != []
  {
    labels[env.draw(d) % |labels|] !in visits
  }

  /** The first draw from `d` on, known to come by `w`, that selects a label not visited. */
  function FirstViable(env: Env, labels: seq<Label>, visits: set<Label>, d: nat, w: nat): (r: nat)
    requires labels != [] && d <= w && ViableDraw(env, labels, visits, w)
    ensures d <= r <= w && ViableDraw(env, labels, visits, r)
    ensures forall k | d <= k < r :: !ViableDraw(env, labels, visits, k)
    decreases w - d
  {
    if ViableDraw(env, labels, visits, d) then d else FirstViable(env, labels, visits, d + 1, w)
  }

  predicate AllVisited(labels: seq<Label>, visits: set<Label>) {
    forall i | 0 <= i < |labels| :: labels[i] in visits
  }

  lemma ViableComes(env: Env, labels: seq<Label>, visits: set<Label>, d: nat)
    requires Fair(env) && !AllVisited(labels, visits)
    ensures exists w: nat :: w >= d && ViableDraw(env, labels, visits, w)
  {
    var i :| 0 <= i < |labels| && labels[i] !in visits;
    assert DrawnLater(env, d, |labels|, i);
    var w: nat :| w >= d && env.draw(w) % |labels| == i;
    assert ViableDraw(env, labels, visits, w);
  }

  ghost function ViableFrom(env: Env, labels: seq<Label>, visits: set<Label>, d: nat): (r: nat)
    requires Fair(env) && !AllVisited(labels, visits)
    ensures d <= r && ViableDraw(env, labels, visits, r)
    ensures forall k | d <= k < r :: !ViableDraw(env, labels, visits, k)
  {
    ViableComes(env, labels, visits, d);
    var w: nat :| w >= d && ViableDraw(env, labels, visits, w);
    FirstViable(env, labels, visits, d, w)
  }

  /** How one call of `_search` ends: with a result, or with the call on the next label. */
  datatype Outcome = Done(state: State, enr: Option<string>) | Goto(state: State, next: Label)

  /** The state after `_getTXTRecord`, and the record if there is one. */
  function Fetched(env: Env, s: State, l: Label): (State, Option<Entry>) {
    if l in s.cache then (s, Some(s.cache[l]))
    else
      var s1 := s.(queries := s.queries + 1);
      match env.resolve(l, s.queries)
      case None => (s1, None)
      case Some(e) => (s1.(cache := s.cache[l := e]), Some(e))
  }

  function Visited(s: State, l: Label): State {
    s.(visits := s.visits + {l}, log := s.log + [Visit(l)])
  }

  ghost function Step(env: Env, s: State, l: Label): Outcome
    requires Fair(env)
  {
    var (s1, entry) := Fetched(env, s, l);
    if entry.None? then Done(s1, None)
    else
      var s2 := Visited(s1, l);
      match entry.value
      case Root(None) => Done(s2, None)
      case Root(Some(next)) => Goto(s2, next)
      case Branch(labels) =>
        if AllVisited(labels, s2.visits) then Done(s2, None)
        else
          var d := ViableFrom(env, labels, s2.visits, s2.draws);
          var next := labels[env.draw(d) % |labels|];
          Goto(s2.(draws := d + 1, log := s2.log + [Choose(next)]), next)
      case Record(enr) => Done(s2, enr)
      case Unknown => Done(s2, None)
  }

  /** Finitely many labels resolve, and `rank` decreases along root entries: no cycle consists of roots only. */
  datatype Universe = Universe(labels: set<Label>, rank: Label -> nat)

  ghost predicate Fits(u: Universe, l: Label, e: Entry) {
    l in u.labels && (e.Root? && e.next.Some? ==> u.rank(e.next.value) < u.rank(l))
  }

  ghost predicate Wellfounded(env: Env, u: Universe, s: State) {
    && Fair(env)
    && (forall l, q | env.resolve(l, q).Some? :: Fits(u, l, env.resolve(l, q).value))
    && (forall l | l in s.cache :: Fits(u, l, s.cache[l]))
  }

  function Unvisited(u: Universe, s: State): nat { |u.labels - s.visits| }

  function Rank(u: Universe, s: State, l: Label): nat { if l in s.visits then 1 + u.rank(l) else 0 }

  lemma FewerLeft(labels: set<Label>, visits: set<Label>, l: Label)
    ensures |labels - (visits + {l})| <= |labels - visits|
    ensures l in labels && l !in visits ==> |labels - (visits + {l})| < |labels - visits|
  {
    assert labels - (visits + {l}) == (labels - visits) - {l};
  }

  lemma FetchFits(env: Env, u: Universe, s: State, l: Label)
    requires Wellfounded(env, u, s)
    ensures Wellfounded(env, u, Fetched(env, s, l).0)
    ensures Fetched(env, s, l).1.Some? ==> Fits(u, l, Fetched(env, s, l).1.value)
  {
    hide Fair;
  }

  /** Each call that leads to another one visits a new label, or follows a root down in rank. */
  lemma StepDescends(env: Env, u: Universe, s: State, l: Label)
    requires Wellfounded(env, u, s)
    ensures Wellfounded(env, u, Step(env, s, l).state)
    ensures var o := Step(env, s, l);
            o.Goto? ==>
              || Unvisited(u, o.state) < Unvisited(u, s)
              || (Unvisited(u, o.state) == Unvisited(u, s) && Rank(u, o.state, o.next) < Rank(u, s, l))
  {
    hide Fair, AllVisited;
    FewerLeft(u.labels, s.visits, l);
    FetchFits(env, u, s, l);
    if l in s.visits {
      assert s.visits + {l} == s.visits;
    }
  }

  /** `_search` as a whole: it ends although branches may form cycles. */
  ghost function SearchFrom(env: Env, u: Universe, s: State, l: Label): (r: (State, Option<string>))
    requires Wellfounded(env, u, s)
    ensures Wellfounded(env, u, r.0)
    decreases Unvisited(u, s), Rank(u, s, l)
  {
    StepDescends(env, u, s, l);
    match Step(env, s, l)
    case Done(s', enr) => (s', enr)
    case Goto(s', next) => SearchFrom(env, u, s', next)
  }

  /** The per-traversal part of a search. */
  class SearchContext {
    var visits: set<Label>

    constructor ()
      ensures visits == {}
    {
      visits := {};
    }
  }

  /** The discovery object; `queries`, `draws` and `log` count and record what the model's environment is asked. */
  class DnsNodeDiscovery {
    const env: Env
    var cache: map<Label, Entry>
    var queries: nat
    var draws: nat
    ghost var log: seq<Event>

    constructor (env: Env)
      ensures this.env == env && cache == map[] && queries == 0 && draws == 0 && log == []
    {
      this.env := env;
      cache, queries, draws, log := map[], 0, 0, [];
    }

    ghost function Current(context: SearchContext): State
      reads this, context
    {
      State(cache, context.visits, queries, draws, log)
    }

    method GetTXTRecord(subdomain: Label, ghost context: SearchContext) returns (entry: Option<Entry>)
      modifies this
      ensures (Current(context), entry) == Fetched(env, old(Current(context)), subdomain)
    {
      if subdomain in cache {
        return Some(cache[subdomain]);
      }
      entry := env.resolve(subdomain, queries);
      queries := queries + 1;
      if entry.Some? {
        cache := cache[subdomain := entry.value];
      }
    }

    method CircularRefs(branches: seq<Label>, context: SearchContext) returns (circularRefs: set<nat>)
      ensures forall i: nat :: i in circularRefs <==> i < |branches| && branches[i] in context.visits
      ensures |circularRefs| == |branches| <==> AllVisited(branches, context.visits)
    {
      circularRefs := {};
      for idx := 0 to |branches|
        invariant forall i: nat :: i in circularRefs <==> i < idx && branches[i] in context.visits
        invariant |circularRefs| <= idx
        invariant |circularRefs| == idx <==> forall i | 0 <= i < idx :: branches[i] in context.visits
      {
        if branches[idx] in context.visits {
          circularRefs := circularRefs + {idx};
        }
      }
    }

    /** selectRandomPath; None is the thrown error. */
    method SelectRandomPath(branches: seq<Label>, context: SearchContext) returns (next: Option<Label>)
      requires Fair(env)
      modifies this`draws, this`log
      ensures AllVisited(branches, context.visits) ==> next.None? && Current(context) == old(Current(context))
      ensures !AllVisited(branches, context.visits) ==>
                var d := ViableFrom(env, branches, context.visits, old(draws));
                && next == Some(branches[env.draw(d) % |branches|])
                && Current(context) == old(Current(context)).(draws := d + 1, log := old(log) + [Choose(next.value)])
    {
      hide Fair, AllVisited;
      var circularRefs := CircularRefs(branches, context);
      if |circularRefs| == |branches| {
        return None;
      }
      ghost var last := ViableFrom(env, branches, context.visits, draws);
      var index := env.draw(draws) % |branches|;
      draws := draws + 1;
      while index in circularRefs
        invariant log == old(log) && old(draws) < draws <= last + 1 && index == env.draw(draws - 1) % |branches|
        decreases last + 1 - draws
      {
        index := env.draw(draws) % |branches|;
        draws := draws + 1;
      }
      assert ViableDraw(env, branches, context.visits, draws - 1) && draws - 1 == last;
      assert log == old(log);
      log := log + [Choose(branches[index])];
      next := Some(branches[index]);
    }

    method Search(subdomain: Label, context: SearchContext, ghost u: Universe) returns (enr: Option<string>)
      requires Wellfounded(env, u, Current(context))
      modifies this, context
      ensures (Current(context), enr) == SearchFrom(env, u, old(Current(context)), subdomain)
      decreases Unvisited(u, Current(context)), Rank(u, Current(context), subdomain)
    {
      hide Fair, Fits, Unvisited, Rank, AllVisited, ViableDraw;
      StepDescends(env, u, Current(context), subdomain);
      var entry := GetTXTRecord(subdomain, context);
      if entry.None? {
        return None;
      }
      context.visits := context.visits + {subdomain};
      log := log + [Visit(subdomain)];
      match entry.value {
        case Root(next) =>
          if next.None? {
            return None;
          }
          enr := Search(next.value, context, u);
        case Branch(branches) =>
          var next := SelectRandomPath(branches, context);
          if next.None? {
            return None;
          }
          enr := Search(next.value, context, u);
        case Record(content) => return content;
        case Unknown => return None;
      }
    }
  }
}
