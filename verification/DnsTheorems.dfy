/** What holds over all searches that share a context. */
module DnsTheorems {
  import opened DnsSearch
  import opened Wrappers

  /** A record that a branch could select again is one that has not been retrieved yet. */
  ghost predicate NeverRechosen(log: seq<Event>) {
    forall i, j | 0 <= i < j < |log| && log[i].Visit? && log[j].Choose? :: log[i].name != log[j].name
  }

  /** The context's visits are the labels retrieved so far, and none was chosen after it was retrieved. */
  ghost predicate Tracked(s: State) {
    && (forall l :: l in s.visits <==> Visit(l) in s.log)
    && NeverRechosen(s.log)
  }

  lemma VisitTracked(s: State, l: Label)
    requires Tracked(s)
    ensures Tracked(Visited(s, l))
  {}

  lemma ChooseTracked(s: State, l: Label, draws: nat)
    requires Tracked(s) && l !in s.visits
    ensures Tracked(s.(draws := draws, log := s.log + [Choose(l)]))
  {}

  lemma FetchTracked(env: Env, s: State, l: Label)
    requires Tracked(s)
    ensures Tracked(Fetched(env, s, l).0)
  {}

  lemma StepTracked(env: Env, s: State, l: Label)
    requires Fair(env) && Tracked(s)
    ensures Tracked(Step(env, s, l).state)
  {
    hide Tracked;
    var (s1, entry) := Fetched(env, s, l);
    FetchTracked(env, s, l);
    if entry.Some? {
      VisitTracked(s1, l);
      var s2 := Visited(s1, l);
      if entry.value.Branch? && !AllVisited(entry.value.labels, s2.visits) {
        var d := ViableFrom(env, entry.value.labels, s2.visits, s2.draws);
        ChooseTracked(s2, entry.value.labels[env.draw(d) % |entry.value.labels|], d + 1);
      }
    }
  }

  /** One unfolding of the search. */
  lemma SearchOnce(env: Env, u: Universe, s: State, l: Label)
    requires Wellfounded(env, u, s)
    ensures Fair(env) && Wellfounded(env, u, Step(env, s, l).state)
    ensures var o := Step(env, s, l);
            SearchFrom(env, u, s, l) == if o.Done? then (o.state, o.enr) else SearchFrom(env, u, o.state, o.next)
    ensures var o := Step(env, s, l);
            o.Goto? ==>
              || Unvisited(u, o.state) < Unvisited(u, s)
              || (Unvisited(u, o.state) == Unvisited(u, s) && Rank(u, o.state, o.next) < Rank(u, s, l))
  {
    StepDescends(env, u, s, l);
  }

  lemma {:induction false} SearchTracked(env: Env, u: Universe, s: State, l: Label)
    requires Wellfounded(env, u, s) && Tracked(s)
    ensures Tracked(SearchFrom(env, u, s, l).0)
    decreases Unvisited(u, s), Rank(u, s, l)
  {
    hide Tracked, Wellfounded, Step, Fair;
    SearchOnce(env, u, s, l);
    StepTracked(env, s, l);
    var o := Step(env, s, l);
    if o.Goto? {
      SearchTracked(env, u, o.state, o.next);
    }
  }

  /** The state after `n` searches from the domain in one context. */
  ghost function AfterSearches(env: Env, u: Universe, s: State, domain: Label, n: nat): (r: State)
    requires Wellfounded(env, u, s)
    ensures Wellfounded(env, u, r)
  {
    if n == 0 then s else SearchFrom(env, u, AfterSearches(env, u, s, domain, n - 1), domain).0
  }

  /**
   * Over any number of searches that share a context, whatever the cache holds from before, no branch chooses a
   * label that was retrieved successfully before.
   */
  lemma {:induction false} NoLabelChosenTwice(env: Env, u: Universe, cache: map<Label, Entry>, domain: Label, n: nat)
    requires Wellfounded(env, u, State(cache, {}, 0, 0, []))
    ensures Tracked(AfterSearches(env, u, State(cache, {}, 0, 0, []), domain, n))
  {
    if n > 0 {
      NoLabelChosenTwice(env, u, cache, domain, n - 1);
      SearchTracked(env, u, AfterSearches(env, u, State(cache, {}, 0, 0, []), domain, n - 1), domain);
    }
  }

  // ---- The cache ----

  /** Every label that a cached entry leads to is cached. */
  ghost predicate Closed(cache: map<Label, Entry>) {
    forall l | l in cache ::
      match cache[l]
      case Root(next) => next.Some? ==> next.value in cache
      case Branch(labels) => forall i | 0 <= i < |labels| :: labels[i] in cache
      case _ => true
  }

  lemma CachedStep(env: Env, s: State, l: Label)
    requires Fair(env) && Closed(s.cache) && l in s.cache
    ensures var o := Step(env, s, l);
            && o.state.queries == s.queries && o.state.cache == s.cache
            && (o.Goto? ==> o.next in s.cache)
            && (o.Done? ==> match s.cache[l]
                            case Record(enr) => o.enr == enr
                            case _ => o.enr == None)
  {
    hide Fair, ViableDraw;
    if s.cache[l].Branch? && !AllVisited(s.cache[l].labels, s.visits + {l}) {
      var labels := s.cache[l].labels;
      var d := ViableFrom(env, labels, s.visits + {l}, s.draws);
      assert labels[env.draw(d) % |labels|] in s.cache;
    }
  }

  /** A search from a cached label over a cache that leads nowhere else asks the resolver nothing. */
  lemma {:induction false} CachedSearchAsksNothing(env: Env, u: Universe, s: State, l: Label)
    requires Wellfounded(env, u, s) && Closed(s.cache) && l in s.cache
    ensures var s' := SearchFrom(env, u, s, l).0;
            s'.queries == s.queries && s'.cache == s.cache
    decreases Unvisited(u, s), Rank(u, s, l)
  {
    hide Wellfounded, Step, Fair, Closed;
    SearchOnce(env, u, s, l);
    CachedStep(env, s, l);
    var o := Step(env, s, l);
    if o.Goto? {
      CachedSearchAsksNothing(env, u, o.state, o.next);
    }
  }

  /** A label that is not cached is asked for once; the answer is kept if there is one, and ends the search if not. */
  lemma UncachedStep(env: Env, s: State, l: Label)
    requires Fair(env) && l !in s.cache
    ensures var o := Step(env, s, l);
            && o.state.queries == s.queries + 1
            && match env.resolve(l, s.queries)
               case Some(e) => o.state.cache == s.cache[l := e] && o.state.visits == s.visits + {l}
               case None => o.Done? && o.enr == None && o.state.cache == s.cache && o.state.visits == s.visits
  {
    hide Fair, AllVisited, ViableDraw;
  }

  // ---- Reachability ----

  ghost predicate Edge(cache: map<Label, Entry>, a: Label, b: Label) {
    a in cache && match cache[a]
                  case Root(next) => next == Some(b)
                  case Branch(labels) => b in labels
                  case _ => false
  }

  /** `path` leads along cached entries from `l` to the record `enr`. */
  ghost predicate Leads(cache: map<Label, Entry>, path: seq<Label>, l: Label, enr: string) {
    && path != [] && path[0] == l
    && (forall i | 0 <= i < |path| - 1 :: Edge(cache, path[i], path[i + 1]))
    && path[|path| - 1] in cache && cache[path[|path| - 1]] == Record(Some(enr))
  }

  ghost predicate Extends(a: map<Label, Entry>, b: map<Label, Entry>) {
    forall l | l in a :: l in b && b[l] == a[l]
  }

  lemma StepEdge(env: Env, s: State, l: Label)
    requires Fair(env)
    ensures var o := Step(env, s, l);
            && Extends(s.cache, o.state.cache)
            && (o.Goto? ==> Edge(o.state.cache, l, o.next))
            && (o.Done? && o.enr.Some? ==> l in o.state.cache && o.state.cache[l] == Record(o.enr))
  {}

  lemma EdgeKept(a: map<Label, Entry>, b: map<Label, Entry>, x: Label, y: Label)
    requires Extends(a, b) && Edge(a, x, y)
    ensures Edge(b, x, y)
  {}

  /** The cache only grows, and a returned record hangs below the label the search started from. */
  lemma {:induction false} ReturnedRecordReachable(env: Env, u: Universe, s: State, l: Label) returns (path: seq<Label>)
    requires Wellfounded(env, u, s)
    ensures var (s', enr) := SearchFrom(env, u, s, l);
            Extends(s.cache, s'.cache) && (enr.Some? ==> Leads(s'.cache, path, l, enr.value))
    decreases Unvisited(u, s), Rank(u, s, l)
  {
    hide Wellfounded, Step, Fair, Edge;
    SearchOnce(env, u, s, l);
    StepEdge(env, s, l);
    var o := Step(env, s, l);
    path := [l];
    if o.Goto? {
      var rest := ReturnedRecordReachable(env, u, o.state, o.next);
      path := [l] + rest;
      var (s', enr) := SearchFrom(env, u, o.state, o.next);
      if enr.Some? {
        forall i | 0 <= i < |path| - 1
          ensures Edge(s'.cache, path[i], path[i + 1])
        {
          if i == 0 {
            EdgeKept(o.state.cache, s'.cache, l, o.next);
          }
        }
      }
    }
  }

  // ---- When a search succeeds ----

  /** The entry is usable and leads, if anywhere, to known labels that lie lower. */
  ghost predicate Healthy(labels: set<Label>, height: Label -> nat, l: Label, e: Entry) {
    match e
    case Root(next) => next.Some? && next.value in labels && height(next.value) < height(l)
    case Branch(ls) => ls != [] && forall i | 0 <= i < |ls| :: ls[i] in labels && height(ls[i]) < height(l)
    case Record(enr) => enr.Some?
    case Unknown => false
  }

  /** Every known label resolves, always, to a healthy entry; so the tree has no cycle. */
  ghost predicate HealthyTree(env: Env, labels: set<Label>, height: Label -> nat, cache: map<Label, Entry>) {
    && (forall l, q | l in labels :: env.resolve(l, q).Some? && Healthy(labels, height, l, env.resolve(l, q).value))
    && (forall l | l in labels && l in cache :: Healthy(labels, height, l, cache[l]))
  }

  lemma HealthyStep(env: Env, labels: set<Label>, height: Label -> nat, s: State, l: Label)
    requires Fair(env) && HealthyTree(env, labels, height, s.cache) && l in labels
    requires forall v | v in s.visits :: height(v) > height(l)
    ensures var o := Step(env, s, l);
            && HealthyTree(env, labels, height, o.state.cache)
            && (o.Done? ==> o.enr.Some?)
            && (o.Goto? ==> o.next in labels && height(o.next) < height(l)
                            && forall v | v in o.state.visits :: height(v) > height(o.next))
  {
    hide Fair;
    var (s1, entry) := Fetched(env, s, l);
    assert entry.Some? && Healthy(labels, height, l, entry.value);
    if entry.value.Branch? {
      assert entry.value.labels[0] !in s.visits + {l};
    }
  }

  /** The first search in a context over a healthy tree returns a record, whatever it draws. */
  lemma {:induction false} FirstSearchSucceeds(
    env: Env, u: Universe, labels: set<Label>, height: Label -> nat, s: State, l: Label)
    requires Wellfounded(env, u, s) && HealthyTree(env, labels, height, s.cache) && l in labels
    requires forall v | v in s.visits :: height(v) > height(l)
    ensures SearchFrom(env, u, s, l).1.Some?
    decreases height(l)
  {
    hide Wellfounded, Step, Fair, HealthyTree;
    SearchOnce(env, u, s, l);
    HealthyStep(env, labels, height, s, l);
    var o := Step(env, s, l);
    if o.Goto? {
      FirstSearchSucceeds(env, u, labels, height, o.state, o.next);
    }
  }
}
