/** The static schedule of a program describes its runs. */
module ScheduleTheorem {
  import opened Qir
  import opened QirRun
  import opened AffineConstraints
  import opened ScheduleDomains
  import opened ScheduleRuns
  import opened StaticSchedule

  /** The point of `m` is in the domain of the statement at `path`. */
  ghost predicate InTree(tree: Tree, t: Tables, path: Path, m: Memory) {
    DomainAt(tree, path).Some? && AllContain(DomainAt(tree, path).value, t, m)
  }

  /** The statement is visited once for the point of `m`. */
  ghost predicate OnceInTree(tree: Tree, t: Tables, visits: seq<Event>, path: Path, m: Memory) {
    && (exists k :: 0 <= k < |visits| && visits[k].path == path && SameBands(tree, t, path, visits[k].mem, m))
    && (forall j, k :: 0 <= j < k < |visits| && visits[j].path == path && visits[k].path == path ==>
          !(SameBands(tree, t, path, visits[j].mem, m) && SameBands(tree, t, path, visits[k].mem, m)))
  }

  /** Bounds and conditions convert exactly wherever the loops and branches around them lead. */
  ghost predicate ConvertsEverywhere(e: Expr, mem: Memory, fixed: set<VarId>) {
    Accepted(e) && forall path, m :: IsStatementPath(e, path) && Agree(m, mem, fixed, {}) ==> ConvertsTo(e, path, m)
  }

  /** The visits are the points of the tree's domains, once each, in the tree's order. */
  ghost predicate FollowsTree(tree: Tree, t: Tables, visits: seq<Event>, mem: Memory, fixed: set<VarId>) {
    && (forall k :: 0 <= k < |visits| ==> InTree(tree, t, visits[k].path, visits[k].mem))
    && (forall path, m :: InTree(tree, t, path, m) && Agree(m, mem, fixed, {}) ==> OnceInTree(tree, t, visits, path, m))
    && (forall j, k :: 0 <= j < k < |visits| ==> VisitedBefore(tree, t, visits[j], visits[k]))
  }

  ghost predicate VisitedBefore(tree: Tree, t: Tables, a: Event, b: Event) {
    TreeBefore(tree, t, Instance(a.path, a.mem), Instance(b.path, b.mem))
  }

  /** All bounds and conditions have values wherever the loops and branches around them lead. */
  ghost predicate HasAllValues(e: Expr, mem: Memory, fixed: set<VarId>) {
    forall path, m :: Agree(m, mem, fixed, {}) ==> HasValues(e, path, m)
  }

  lemma DomainsAgree(e: Expr, path: Path, invariant_: Expr -> bool, m: Memory, mem: Memory, fixed: set<VarId>)
    requires ConstructSchedule(e, [], invariant_, EMPTY).0.Some? && Agree(m, mem, fixed, {})
    requires HasAllValues(e, mem, fixed) && ConvertsEverywhere(e, mem, fixed)
    ensures var (tree, t) := ConstructSchedule(e, [], invariant_, EMPTY);
            InTree(tree.value, t, path, m) <==> IsStatementPath(e, path) && InDomain(e, path, m)
  {
    var tree := ConstructSchedule(e, [], invariant_, EMPTY).0.value;
    if IsStatementPath(e, path) {
      AffineDomainIsExact(e, path, invariant_, m);
    } else if DomainAt(tree, path).Some? {
      DomainsAreOfStatements(e, path, [], invariant_, EMPTY);
    }
  }

  lemma {:induction false} DomainOfStatement(e: Expr, path: Path, m: Memory)
    requires InDomain(e, path, m)
    ensures IsStatementPath(e, path)
    decreases path
  {
    if path != [] {
      DomainOfStatement(Children(e)[path[0]], path[1..], m);
    }
  }

  lemma VisitedOnceInTree(e: Expr, invariant_: Expr -> bool, visits: seq<Event>, path: Path, m: Memory)
    requires ConstructSchedule(e, [], invariant_, EMPTY).0.Some? && VisitedOnce(e, visits, path, m)
    ensures var (tree, t) := ConstructSchedule(e, [], invariant_, EMPTY); OnceInTree(tree.value, t, visits, path, m)
  {
    var (tree, t) := ConstructSchedule(e, [], invariant_, EMPTY);
    forall k | 0 <= k < |visits|
      ensures SameBands(tree.value, t, path, visits[k].mem, m) <==> SameIteration(e, path, visits[k].mem, m)
    {
      TreeIteration(e, [], invariant_, EMPTY, t, path, visits[k].mem, m);
    }
  }

  lemma VisitsFollowTree(e: Expr, invariant_: Expr -> bool, visits: seq<Event>, mem: Memory, fixed: set<VarId>)
    requires ConstructSchedule(e, [], invariant_, EMPTY).0.Some? && HasAllValues(e, mem, fixed) && ConvertsEverywhere(e, mem, fixed)
    requires VisitsAreExact(e, visits, mem, fixed)
    ensures var (tree, t) := ConstructSchedule(e, [], invariant_, EMPTY); FollowsTree(tree.value, t, visits, mem, fixed)
  {
    var (tree, t) := ConstructSchedule(e, [], invariant_, EMPTY);
    hide ConstructSchedule, HasAllValues, ConvertsEverywhere, InDomain, Before, TreeBefore, Agree, InTree, OnceInTree, VisitedOnce;
    forall k | 0 <= k < |visits|
      ensures InTree(tree.value, t, visits[k].path, visits[k].mem)
    {
      assert VisitInDomain(e, visits[k], mem, fixed);
      DomainOfStatement(e, visits[k].path, visits[k].mem);
      DomainsAgree(e, visits[k].path, invariant_, visits[k].mem, mem, fixed);
    }
    forall path, m | InTree(tree.value, t, path, m) && Agree(m, mem, fixed, {})
      ensures OnceInTree(tree.value, t, visits, path, m)
    {
      DomainsAgree(e, path, invariant_, m, mem, fixed);
      VisitedOnceInTree(e, invariant_, visits, path, m);
    }
    forall j, k | 0 <= j < k < |visits|
      ensures VisitedBefore(tree.value, t, visits[j], visits[k])
    {
      var a, b := Instance(visits[j].path, visits[j].mem), Instance(visits[k].path, visits[k].mem);
      TreeOrder(e, [], invariant_, EMPTY, t, a, b);
      assert Before(e, a, b);
      assert VisitedBefore(tree.value, t, visits[j], visits[k]) <==> TreeBefore(tree.value, t, a, b);
    }
  }

  /** For a schedulable nest with static control, whose loops start at multiples of their increments
      and whose bounds and conditions convert exactly, there is a schedule tree, and a complete run
      starts each statement exactly at the points of the domain that the tree gives it, once each,
      and in the lexicographic order of the tree. */
  lemma TreeIsFollowed(e: Expr, invariant_: Expr -> bool, fuel: nat, mem: Memory, fixed: set<VarId>)
    requires Static(e, fixed, {}) && Aligned(e, mem) && Exec(fuel, e, [], mem).outcome.Done?
    requires Schedulable(e, invariant_) && ConvertsEverywhere(e, mem, fixed)
    ensures var (tree, t) := ConstructSchedule(e, [], invariant_, EMPTY);
            tree.Some? && FollowsTree(tree.value, t, Visits(e, [], Exec(fuel, e, [], mem).events), mem, fixed)
  {
    TreeExists(e, [], invariant_, EMPTY);
    ScheduleIsExact(e, fuel, mem, fixed);
    assert Agree(mem, mem, fixed, {}) by { SameAgrees(mem, fixed, {}); }
    forall path, m | Agree(m, mem, fixed, {})
      ensures HasValues(e, path, m)
    {
      RunHasValues(fuel, e, [], mem, mem, fixed, {}, path, m);
    }
    hide Schedulable, HasValues, ConvertsEverywhere, Static, Aligned, Exec, Visits, Agree;
    VisitsFollowTree(e, invariant_, Visits(e, [], Exec(fuel, e, [], mem).events), mem, fixed);
  }
}
