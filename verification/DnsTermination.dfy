/** When the descent ends: exactly on trees without a cycle of root entries. */
module DnsTermination {
  import opened DnsSearch
  import opened DnsTheorems
  import opened Wrappers

  /** `n` calls in a row from `l`. */
  ghost function Calls(env: Env, s: State, l: Label, n: nat): Outcome
    requires Fair(env)
  {
    if n == 0 then Goto(s, l)
    else
      match Calls(env, s, l, n - 1)
      case Done(s', enr) => Done(s', enr)
      case Goto(s', next) => Step(env, s', next)
  }

  ghost predicate Ends(env: Env, s: State, l: Label)
    requires Fair(env)
  {
    exists n: nat :: Calls(env, s, l, n).Done?
  }

  /** Fetching `l` gives `e`, now and ever after. */
  ghost predicate Answers(env: Env, cache: map<Label, Entry>, l: Label, e: Entry) {
    if l in cache then cache[l] == e else forall q :: env.resolve(l, q) == Some(e)
  }

  /** What the resolver and the cache say, if anything, is what the tree has. */
  ghost predicate Within(env: Env, cache: map<Label, Entry>, tree: map<Label, Entry>) {
    && (forall l | l in cache :: l in tree && tree[l] == cache[l])
    && (forall l, q | env.resolve(l, q).Some? :: l in tree && env.resolve(l, q).value == tree[l])
  }

  /** They say that of every label of the tree, whenever asked. */
  ghost predicate Serves(env: Env, cache: map<Label, Entry>, tree: map<Label, Entry>) {
    Within(env, cache, tree) && forall l | l in tree :: Answers(env, cache, l, tree[l])
  }

  /** The entry of `l` is a root that leads to a label of `s`. */
  predicate LeadsInto(tree: map<Label, Entry>, l: Label, s: set<Label>) {
    l in tree && tree[l].Root? && tree[l].next.Some? && tree[l].next.value in s
  }

  /** A non-empty set of labels whose entries are roots that lead back into the set. */
  predicate RootCycle(tree: map<Label, Entry>, s: set<Label>) {
    s != {} && forall l | l in s :: LeadsInto(tree, l, s)
  }

  ghost predicate HasRootCycle(tree: map<Label, Entry>) {
    exists s: set<Label> :: RootCycle(tree, s)
  }

  // ---- Without a cycle of roots every search ends ----

  /** Labels that hold no cycle of roots can be ranked so that roots lead downwards. */
  lemma {:induction false} RankRoots(tree: map<Label, Entry>, s: set<Label>) returns (rank: Label -> nat)
    requires !HasRootCycle(tree)
    ensures forall l | l !in s :: rank(l) == 0
    ensures forall l | l in s && l in tree && tree[l].Root? && tree[l].next.Some? ::
              rank(tree[l].next.value) < rank(l)
    decreases s
  {
    if s == {} {
      rank := (l: Label) => 0;
    } else {
      assert !RootCycle(tree, s);
      var top :| top in s && !LeadsInto(tree, top, s);
      var below := RankRoots(tree, s - {top});
      rank := (l: Label) => if l == top then 1 else if l in s then below(l) + 1 else 0;
    }
  }

  /** Queries may fail at any time: a tree without a cycle of roots is all the search needs. */
  lemma NoRootCycleRanked(env: Env, s: State, tree: map<Label, Entry>) returns (u: Universe)
    requires Fair(env) && Within(env, s.cache, tree) && !HasRootCycle(tree)
    ensures Wellfounded(env, u, s)
  {
    hide Fair, RootCycle;
    var rank := RankRoots(tree, tree.Keys);
    u := Universe(tree.Keys, rank);
  }

  /** The first of `n + 1` calls can be taken apart from the rest. */
  lemma {:induction false} CallsShift(env: Env, s: State, l: Label, n: nat)
    requires Fair(env)
    ensures var o := Step(env, s, l);
            Calls(env, s, l, n + 1) == if o.Done? then o else Calls(env, o.state, o.next, n)
  {
    hide Fair, Step;
    if n > 0 {
      CallsShift(env, s, l, n - 1);
    } else {
      assert Calls(env, s, l, 0) == Goto(s, l);
    }
  }

  /** The calls that follow one another are the search, and there are finitely many. */
  lemma {:induction false} SearchIsCalls(env: Env, u: Universe, s: State, l: Label) returns (n: nat)
    requires Wellfounded(env, u, s)
    ensures var (s', enr) := SearchFrom(env, u, s, l);
            Calls(env, s, l, n) == Done(s', enr)
    decreases Unvisited(u, s), Rank(u, s, l)
  {
    hide Wellfounded, Step, Fair, Calls;
    SearchOnce(env, u, s, l);
    var o := Step(env, s, l);
    n := 1;
    if o.Goto? {
      var rest := SearchIsCalls(env, u, o.state, o.next);
      n := rest + 1;
    }
    CallsShift(env, s, l, n - 1);
  }

  // ---- In a cycle of roots no search ends ----

  /** From a label of a cycle of roots that resolve, the calls stay in the cycle forever. */
  lemma {:induction false} RootCycleNeverEnds(
    env: Env, s: State, tree: map<Label, Entry>, cycle: set<Label>, l: Label, n: nat)
    requires Fair(env) && RootCycle(tree, cycle) && l in cycle
    requires forall r | r in cycle :: Answers(env, s.cache, r, tree[r])
    ensures var o := Calls(env, s, l, n);
            o.Goto? && o.next in cycle && forall r | r in cycle :: Answers(env, o.state.cache, r, tree[r])
  {
    hide Fair, AllVisited, ViableDraw;
    if n > 0 {
      RootCycleNeverEnds(env, s, tree, cycle, l, n - 1);
      var o := Calls(env, s, l, n - 1);
      assert LeadsInto(tree, o.next, cycle);
    }
  }

  /**
   * With a reliable resolver every search ends if and only if no set of root entries leads only to itself; then,
   * and only then, labels can be ranked the way the search needs it. Cycles through branches do no harm.
   */
  lemma EndsExactly(env: Env, s: State, tree: map<Label, Entry>)
    requires Fair(env) && Serves(env, s.cache, tree)
    ensures (forall l :: Ends(env, s, l)) <==> !HasRootCycle(tree)
    ensures (exists u :: Wellfounded(env, u, s)) <==> !HasRootCycle(tree)
  {
    hide Fair, Calls, Wellfounded;
    if HasRootCycle(tree) {
      var cycle :| RootCycle(tree, cycle);
      var l :| l in cycle;
      forall n: nat
        ensures Calls(env, s, l, n).Goto?
      {
        RootCycleNeverEnds(env, s, tree, cycle, l, n);
      }
      assert !Ends(env, s, l);
      if u :| Wellfounded(env, u, s) {
        var n := SearchIsCalls(env, u, s, l);
        assert false;
      }
    } else {
      var u := NoRootCycleRanked(env, s, tree);
      forall l
        ensures Ends(env, s, l)
      {
        var n := SearchIsCalls(env, u, s, l);
      }
    }
  }

  /** EIP-1459 puts a root entry only at the tree's domain; if it does not point back there, every search ends. */
  lemma RootAtDomainOnly(env: Env, labels: set<Label>, domain: Label)
    requires Fair(env)
    requires forall l, q | env.resolve(l, q).Some? :: l in labels
    requires forall l, q | env.resolve(l, q).Some? && env.resolve(l, q).value.Root? ::
               l == domain && env.resolve(l, q).value.next != Some(domain)
    ensures Wellfounded(env, Universe(labels, (l: Label) => if l == domain then 1 else 0), State(map[], {}, 0, 0, []))
  {}

  // ---- Concrete trees ----

  /** Two roots that lead to each other: no search from either ends. */
  const TWO_ROOTS: map<Label, Entry> := map["a" := Root(Some("b")), "b" := Root(Some("a"))]

  /** Two branches that lead to each other and to nothing else: every search ends. */
  const TWO_BRANCHES: map<Label, Entry> := map["a" := Branch(["b"]), "b" := Branch(["a"])]

  lemma CyclicTrees(env: Env, s: State, t: State)
    requires Fair(env) && s.cache == TWO_ROOTS && t.cache == TWO_BRANCHES
    ensures !Ends(env, s, "a")
    ensures (forall l, q :: env.resolve(l, q).None?) ==> Ends(env, t, "a")
  {
    hide Fair, Calls;
    assert RootCycle(TWO_ROOTS, {"a", "b"});
    forall n: nat
      ensures Calls(env, s, "a", n).Goto?
    {
      RootCycleNeverEnds(env, s, TWO_ROOTS, {"a", "b"}, "a", n);
    }
    if forall l, q :: env.resolve(l, q).None? {
      assert Serves(env, t.cache, TWO_BRANCHES);
      assert !HasRootCycle(TWO_BRANCHES);
      EndsExactly(env, t, TWO_BRANCHES);
    }
  }

  // ---- Fair draws exist ----

  /** The largest number whose square is at most `k`. */
  function SquareRoot(k: nat): (r: nat)
    ensures r * r <= k < (r + 1) * (r + 1)
  {
    if k == 0 then 0
    else
      var r := SquareRoot(k - 1);
      if (r + 1) * (r + 1) <= k then r + 1 else r
  }

  /** Draws 0, 0, 1, 2, 0, 1, 2, 3, 4, ...: how far each number lies above a square. */
  const SWEEP: nat -> nat := (k: nat) => k - SquareRoot(k) * SquareRoot(k)

  lemma SquaresGrow(a: nat, b: nat)
    ensures a <= b ==> a * a <= b * b
  {
    if a <= b {
      assert b * b == a * a + (b - a) * (b + a);
    }
  }

  lemma RootBetween(k: nat, m: nat)
    requires m * m <= k < (m + 1) * (m + 1)
    ensures SquareRoot(k) == m
  {
    var r := SquareRoot(k);
    SquaresGrow(r + 1, m);
    SquaresGrow(m + 1, r);
  }

  lemma SweepReaches(d: nat, i: nat) returns (k: nat)
    ensures k >= d && SWEEP(k) == i
  {
    var m := d + i;
    k := m * m + i;
    assert m <= m * m <= k < m * m + 2 * m + 1 == (m + 1) * (m + 1);
    RootBetween(k, m);
  }

  lemma SweepIsFair(resolve: (Label, nat) -> Option<Entry>)
    ensures Fair(Env(resolve, SWEEP))
  {
    var env := Env(resolve, SWEEP);
    forall d: nat, n: nat, i: nat | i < n
      ensures DrawnLater(env, d, n, i)
    {
      var k := SweepReaches(d, i);
      assert env.draw(k) % n == i;
    }
  }
}
