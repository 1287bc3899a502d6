/** Runs of a loop nest with static control visit the instances of the schedule, in its order. */
module ScheduleRuns {
  import opened Qir
  import opened QirRun
  import opened AxiomAnalysis
  import opened ScheduleDomains

  /** The event is the start of a statement of `e`, itself at `path`. */
  predicate IsVisit(e: Expr, path: Path, ev: Event) {
    path <= ev.path && IsStatementPath(e, ev.path[|path|..])
  }

  /** The statements started in a run, in order. */
  function Visits(e: Expr, path: Path, events: seq<Event>): seq<Event> {
    if events == [] then []
    else
      var before := Visits(e, path, events[..|events| - 1]);
      if IsVisit(e, path, events[|events| - 1]) then before + [events[|events| - 1]] else before
  }

  lemma {:induction false} VisitsConcat(e: Expr, path: Path, a: seq<Event>, b: seq<Event>)
    ensures Visits(e, path, a + b) == Visits(e, path, a) + Visits(e, path, b)
    decreases |b|
  {
    if b == [] {
      assert a + b == a;
    } else {
      VisitsConcat(e, path, a, b[..|b| - 1]);
      assert (a + b)[..|a + b| - 1] == a + b[..|b| - 1];
    }
  }

  ghost predicate AllBelow(path: Path, events: seq<Event>) {
    forall k :: 0 <= k < |events| ==> path <= events[k].path
  }

  lemma BelowChild(e: Expr, path: Path, k: nat, ev: Event)
    requires path + [k] <= ev.path
    ensures IsVisit(e, path, ev) <==> IsInner(e, k) && IsVisit(Children(e)[k], path + [k], ev)
  {
    var rest := ev.path[|path| + 1..];
    assert ev.path == path + [k] + rest;
    assert ev.path[|path|..] == [k] + rest && ([k] + rest)[1..] == rest;
  }

  /** Events below a child are visits of the parent if they are visits of the child. */
  lemma {:induction false} VisitsOfChild(e: Expr, path: Path, k: nat, events: seq<Event>)
    requires AllBelow(path + [k], events)
    ensures Visits(e, path, events) == if IsInner(e, k) then Visits(Children(e)[k], path + [k], events) else []
  {
    if events != [] {
      VisitsOfChild(e, path, k, events[..|events| - 1]);
      BelowChild(e, path, k, events[|events| - 1]);
    }
  }

  lemma {:induction false} StaticIsStable(e: Expr, fixed: set<VarId>, iters: set<VarId>)
    requires Static(e, fixed, iters)
    ensures Stable(e) && Writes(e) !! fixed + iters
    decreases e
  {
    match e
    case For(idx, lower, upper, increment, body) =>
      KnownIsPure(lower, fixed, iters);
      KnownIsPure(upper, fixed, iters);
      StaticIsStable(body, fixed, iters + {idx});
    case If(cond, t, f) =>
      KnownIsPure(cond, fixed, iters);
      StaticIsStable(t, fixed, iters);
      if f.Some? {
        StaticIsStable(f.value, fixed, iters);
      }
    case Compound(exprs) =>
      forall k | 0 <= k < |exprs|
        ensures Stable(exprs[k]) && Writes(exprs[k]) !! fixed + iters
      {
        StaticIsStable(exprs[k], fixed, iters);
      }
    case _ => PureWrites(e);
  }

  lemma PureWrites(e: Expr)
    ensures Pure(e) ==> Writes(e) == {}
  {
  }

  lemma {:induction false} KnownIsPure(e: Expr, fixed: set<VarId>, iters: set<VarId>)
    requires Known(e, fixed, iters)
    ensures Pure(e) && Reads(e) <= fixed + iters
    decreases e
  {
    match e
    case Access(_, indices) => AllKnownArePure(indices, fixed, iters);
    case Binary(_, a, b) => KnownIsPure(a, fixed, iters); KnownIsPure(b, fixed, iters);
    case Unary(_, a) => KnownIsPure(a, fixed, iters);
    case Delta(_, a, b) => KnownIsPure(a, fixed, iters); KnownIsPure(b, fixed, iters);
    case _ =>
  }

  lemma {:induction false} AllKnownArePure(es: seq<Expr>, fixed: set<VarId>, iters: set<VarId>)
    requires forall k :: 0 <= k < |es| ==> Known(es[k], fixed, iters)
    ensures (forall k :: 0 <= k < |es| ==> Pure(es[k])) && ReadsAll(es) <= fixed + iters
    decreases es
  {
    if es != [] {
      KnownIsPure(es[0], fixed, iters);
      AllKnownArePure(es[1..], fixed, iters);
    }
  }

  lemma EventsBelow(fuel: nat, e: Expr, path: Path, mem: Memory)
    requires Stable(e)
    ensures AllBelow(path, Exec(fuel, e, path, mem).events)
  {
    ExecValid(fuel, e, [], path, mem);
    hide Exec, Stable;
    var events := Exec(fuel, e, path, mem).events;
    forall k | 0 <= k < |events|
      ensures path <= events[k].path
    {
      assert Valid(e, [], path, events[k]);
    }
  }

  lemma EvaluationsBelow(e: Expr, path: Path, mem: Memory)
    requires Pure(e) || (e.Binary? && Pure(e.lhs) && Pure(e.rhs))
    ensures AllBelow(path, Evaluations(e, path, mem))
  {
    EvaluationsValid(e, [], path, mem);
    hide Evaluations, Pure;
    var events := Evaluations(e, path, mem);
    forall k | 0 <= k < |events|
      ensures path <= events[k].path
    {
      assert Valid(e, [], path, events[k]);
    }
  }

  lemma NoVisitOutside(e: Expr, path: Path, k: nat, x: Expr, mem: Memory)
    requires !IsInner(e, k) && Pure(x)
    ensures Visits(e, path, Evaluations(x, path + [k], mem)) == []
  {
    EvaluationsBelow(x, path + [k], mem);
    VisitsOfChild(e, path, k, Evaluations(x, path + [k], mem));
  }

  lemma HereIsVisit(e: Expr, path: Path, mem: Memory)
    ensures Visits(e, path, [Event(path, mem)]) == if IsStatement(e) then [Event(path, mem)] else []
  {
    assert path[|path|..] == [];
    assert [Event(path, mem)][..0] == [];
    assert Visits(e, path, []) == [];
  }

  /** The visits are the instances, one by one: same statement, same iteration. */
  ghost predicate Matches(e: Expr, path: Path, visits: seq<Event>, xs: seq<Instance>) {
    |visits| == |xs| &&
    forall k :: 0 <= k < |xs| ==> visits[k].path == path + xs[k].path && SameIteration(e, xs[k].path, visits[k].mem, xs[k].mem)
  }

  lemma MatchesConcat(e: Expr, path: Path, a: seq<Event>, b: seq<Event>, xs: seq<Instance>, ys: seq<Instance>)
    requires Matches(e, path, a, xs) && Matches(e, path, b, ys)
    ensures Matches(e, path, a + b, xs + ys)
  {
  }

  lemma MatchesUnder(e: Expr, path: Path, k: nat, visits: seq<Event>, xs: seq<Instance>)
    requires IsInner(e, k) && Matches(Children(e)[k], path + [k], visits, xs)
    requires e.For? ==> forall i :: 0 <= i < |xs| ==> Load(visits[i].mem, Scalar(e.idx)) == Load(xs[i].mem, Scalar(e.idx))
    ensures Matches(e, path, visits, Under(k, xs))
  {
    forall i | 0 <= i < |xs|
      ensures visits[i].path == path + Under(k, xs)[i].path
      ensures SameIteration(e, Under(k, xs)[i].path, visits[i].mem, Under(k, xs)[i].mem)
    {
      assert path + [k] + xs[i].path == path + ([k] + xs[i].path);
      assert ([k] + xs[i].path)[1..] == xs[i].path;
    }
  }

  /** A complete run that visits the instances `xs` and keeps what bounds and conditions depend on. */
  ghost predicate Follows(e: Expr, path: Path, run: Run, xs: seq<Instance>, mem: Memory, fixed: set<VarId>, iters: set<VarId>) {
    && run.outcome.Done? && Agree(run.outcome.mem, mem, fixed, iters)
    && Traces(e, path, Visits(e, path, run.events), xs, mem, fixed, iters)
  }

  ghost predicate Traces(e: Expr, path: Path, visits: seq<Event>, xs: seq<Instance>, mem: Memory, fixed: set<VarId>, iters: set<VarId>) {
    && Matches(e, path, visits, xs)
    && (forall k :: 0 <= k < |visits| ==> Agree(visits[k].mem, mem, fixed, iters))
    && (forall k :: 0 <= k < |xs| ==> Agree(xs[k].mem, mem, fixed, iters))
  }

  lemma TracesConcat(e: Expr, path: Path, a: seq<Event>, b: seq<Event>, xs: seq<Instance>, ys: seq<Instance>, mem: Memory, fixed: set<VarId>, iters: set<VarId>)
    requires Traces(e, path, a, xs, mem, fixed, iters) && Traces(e, path, b, ys, mem, fixed, iters)
    ensures Traces(e, path, a + b, xs + ys, mem, fixed, iters)
  {
    MatchesConcat(e, path, a, b, xs, ys);
  }

  lemma TracesUnder(e: Expr, path: Path, k: nat, visits: seq<Event>, xs: seq<Instance>, child: Memory, mem: Memory, fixed: set<VarId>, iters: set<VarId>, iters': set<VarId>)
    requires IsInner(e, k) && Traces(Children(e)[k], path + [k], visits, xs, child, fixed, iters')
    requires iters <= iters' && Agree(child, mem, fixed, iters) && (e.For? ==> e.idx in iters')
    ensures Traces(e, path, visits, Under(k, xs), mem, fixed, iters)
  {
    if e.For? {
      forall i | 0 <= i < |xs|
        ensures Load(visits[i].mem, Scalar(e.idx)) == Load(xs[i].mem, Scalar(e.idx))
      {
        assert Agree(visits[i].mem, child, fixed, iters') && Agree(xs[i].mem, child, fixed, iters');
      }
    }
    MatchesUnder(e, path, k, visits, xs);
  }

  /** What a child's run contributes to the parent's. */
  lemma ChildFollows(e: Expr, path: Path, k: nat, run: Run, xs: seq<Instance>, child: Memory, mem: Memory, fixed: set<VarId>, iters: set<VarId>, iters': set<VarId>)
    requires IsInner(e, k) && Follows(Children(e)[k], path + [k], run, xs, child, fixed, iters') && AllBelow(path + [k], run.events)
    requires iters <= iters' && Agree(child, mem, fixed, iters) && (e.For? ==> e.idx in iters')
    ensures Follows(e, path, run, Under(k, xs), mem, fixed, iters)
  {
    VisitsOfChild(e, path, k, run.events);
    TracesUnder(e, path, k, Visits(e, path, run.events), xs, child, mem, fixed, iters, iters');
  }

  lemma PrefixFollows(e: Expr, path: Path, head: seq<Event>, run: Run, xs: seq<Instance>, mem: Memory, fixed: set<VarId>, iters: set<VarId>)
    requires Visits(e, path, head) == [] && Follows(e, path, run, xs, mem, fixed, iters)
    ensures Follows(e, path, Prefixed(head, run), xs, mem, fixed, iters)
  {
    VisitsConcat(e, path, head, run.events);
    assert [] + Visits(e, path, run.events) == Visits(e, path, run.events);
  }

  /** One run after the other. */
  lemma JoinFollows(e: Expr, path: Path, a: Run, b: Run, xs: seq<Instance>, ys: seq<Instance>, mem: Memory, fixed: set<VarId>, iters: set<VarId>)
    requires Follows(e, path, a, xs, mem, fixed, iters) && Follows(e, path, b, ys, mem, fixed, iters)
    ensures Follows(e, path, Prefixed(a.events, b), xs + ys, mem, fixed, iters)
  {
    VisitsConcat(e, path, a.events, b.events);
    TracesConcat(e, path, Visits(e, path, a.events), Visits(e, path, b.events), xs, ys, mem, fixed, iters);
  }

  /** A complete run visits exactly the instances of the schedule, in their order. */
  lemma {:induction false} ExecFollows(fuel: nat, e: Expr, path: Path, now: Memory, mem: Memory, fixed: set<VarId>, iters: set<VarId>)
    requires Static(e, fixed, iters) && Agree(now, mem, fixed, iters) && Exec(fuel, e, path, now).outcome.Done?
    ensures Follows(e, path, Exec(fuel, e, path, now), Instances(e, mem), mem, fixed, iters)
    decreases e, fuel, 1
  {
    if e.For? {
      ForFollows(fuel, e, path, now, mem, fixed, iters);
    } else if e.If? {
      IfFollows(fuel, e, path, now, mem, fixed, iters);
    } else if e.Compound? {
      CompoundFollows(fuel, e, path, now, mem, fixed, iters);
    } else {
      StatementFollows(fuel, e, path, now, mem, fixed, iters);
    }
  }

  lemma StatementFollows(fuel: nat, e: Expr, path: Path, now: Memory, mem: Memory, fixed: set<VarId>, iters: set<VarId>)
    requires IsStatement(e) && Static(e, fixed, iters) && Agree(now, mem, fixed, iters) && Exec(fuel, e, path, now).outcome.Done?
    ensures Follows(e, path, Exec(fuel, e, path, now), Instances(e, mem), mem, fixed, iters)
  {
    hide Exec, Instances, Agree, ChildEvaluations, Evaluations;
    var run := Exec(fuel, e, path, now);
    StatementRun(fuel, e, path, now, mem, fixed, iters);
    OneVisit(e, path, now, run.events);
    SameAgrees(mem, fixed, iters);
    assert path + [] == path;
  }

  lemma StatementRun(fuel: nat, e: Expr, path: Path, now: Memory, mem: Memory, fixed: set<VarId>, iters: set<VarId>)
    requires IsStatement(e) && Static(e, fixed, iters) && Agree(now, mem, fixed, iters) && Exec(fuel, e, path, now).outcome.Done?
    ensures Exec(fuel, e, path, now).events == [Event(path, now)] + ChildEvaluations(e, |Children(e)|, path, now)
    ensures Agree(Exec(fuel, e, path, now).outcome.mem, mem, fixed, iters)
    ensures Instances(e, mem) == [Instance([], mem)]
    ensures Pure(e) || (e.Binary? && Pure(e.lhs) && Pure(e.rhs))
  {
    hide Eval, EvalIndices, ChildEvaluations, Pure;
  }

  lemma OneVisit(e: Expr, path: Path, now: Memory, events: seq<Event>)
    requires IsStatement(e) && (Pure(e) || (e.Binary? && Pure(e.lhs) && Pure(e.rhs)))
    requires events == [Event(path, now)] + ChildEvaluations(e, |Children(e)|, path, now)
    ensures Visits(e, path, events) == [Event(path, now)]
  {
    StatementVisits(e, path, now, |Children(e)|);
    HereIsVisit(e, path, now);
    VisitsConcat(e, path, [Event(path, now)], ChildEvaluations(e, |Children(e)|, path, now));
  }

  lemma {:induction false} StatementVisits(e: Expr, path: Path, mem: Memory, k: nat)
    requires IsStatement(e) && (Pure(e) || (e.Binary? && Pure(e.lhs) && Pure(e.rhs))) && k <= |Children(e)|
    ensures Visits(e, path, ChildEvaluations(e, k, path, mem)) == []
    decreases k
  {
    if k > 0 {
      StatementVisits(e, path, mem, k - 1);
      NoVisitOutside(e, path, k - 1, Children(e)[k - 1], mem);
      VisitsConcat(e, path, ChildEvaluations(e, k - 1, path, mem), Evaluations(Children(e)[k - 1], path + [k - 1], mem));
    }
  }

  lemma {:induction false} IfFollows(fuel: nat, e: Expr, path: Path, now: Memory, mem: Memory, fixed: set<VarId>, iters: set<VarId>)
    requires e.If? && Static(e, fixed, iters) && Agree(now, mem, fixed, iters) && Exec(fuel, e, path, now).outcome.Done?
    ensures Follows(e, path, Exec(fuel, e, path, now), Instances(e, mem), mem, fixed, iters)
    decreases e, fuel, 0
  {
    var k := if TrueAt(e.cond, mem) then 1 else 2;
    var head := [Event(path, now)] + Evaluations(e.cond, path + [0], now);
    IfUnfolds(fuel, e, path, now, mem, fixed, iters);
    IfHeadHasNoVisit(e, path, now, fixed, iters);
    if k < |Children(e)| {
      var child := Children(e)[k];
      hide Exec, Instances, Static, Visits, Follows, Agree, Evaluations;
      assert Agree(mem, mem, fixed, iters) by { SameAgrees(mem, fixed, iters); }
      ExecFollows(fuel, child, path + [k], now, mem, fixed, iters);
      StaticIsStable(child, fixed, iters);
      EventsBelow(fuel, child, path + [k], now);
      ChildFollows(e, path, k, Exec(fuel, child, path + [k], now), Instances(child, mem), mem, mem, fixed, iters, iters);
      PrefixFollows(e, path, head, Exec(fuel, child, path + [k], now), Under(k, Instances(child, mem)), mem, fixed, iters);
    }
  }

  lemma IfUnfolds(fuel: nat, e: Expr, path: Path, now: Memory, mem: Memory, fixed: set<VarId>, iters: set<VarId>)
    requires e.If? && Static(e, fixed, iters) && Agree(now, mem, fixed, iters) && Exec(fuel, e, path, now).outcome.Done?
    ensures var k := if TrueAt(e.cond, mem) then 1 else 2;
            var head := [Event(path, now)] + Evaluations(e.cond, path + [0], now);
            if k < |Children(e)| then
              && Exec(fuel, e, path, now) == Prefixed(head, Exec(fuel, Children(e)[k], path + [k], now))
              && Instances(e, mem) == Under(k, Instances(Children(e)[k], mem)) && Static(Children(e)[k], fixed, iters)
            else Exec(fuel, e, path, now) == Run(head, Done(now)) && Instances(e, mem) == []
  {
    EvalKnown(e.cond, now, mem, fixed, iters);
    hide Eval, Evaluations, Known, Agree;
  }

  lemma IfHeadHasNoVisit(e: Expr, path: Path, now: Memory, fixed: set<VarId>, iters: set<VarId>)
    requires e.If? && Static(e, fixed, iters)
    ensures Visits(e, path, [Event(path, now)] + Evaluations(e.cond, path + [0], now)) == []
  {
    KnownIsPure(e.cond, fixed, iters);
    HereIsVisit(e, path, now);
    NoVisitOutside(e, path, 0, e.cond, now);
    VisitsConcat(e, path, [Event(path, now)], Evaluations(e.cond, path + [0], now));
  }

  lemma HeadHasNoVisit(e: Expr, path: Path, mem: Memory, fixed: set<VarId>, iters: set<VarId>)
    requires e.For? && Static(e, fixed, iters)
    ensures Visits(e, path, [Event(path, mem)] + Evaluations(e.increment, path + [2], mem) +
                            Evaluations(e.lower, path + [0], mem) + Evaluations(e.upper, path + [1], mem)) == []
  {
    KnownIsPure(e.lower, fixed, iters);
    KnownIsPure(e.upper, fixed, iters);
    HereIsVisit(e, path, mem);
    NoVisitOutside(e, path, 2, e.increment, mem);
    NoVisitOutside(e, path, 0, e.lower, mem);
    NoVisitOutside(e, path, 1, e.upper, mem);
    hide Visits, Evaluations;
    var here, a, b, c := [Event(path, mem)], Evaluations(e.increment, path + [2], mem), Evaluations(e.lower, path + [0], mem), Evaluations(e.upper, path + [1], mem);
    VisitsConcat(e, path, here, a);
    VisitsConcat(e, path, here + a, b);
    VisitsConcat(e, path, here + a + b, c);
  }

  lemma {:induction false} ForFollows(fuel: nat, e: Expr, path: Path, now: Memory, mem: Memory, fixed: set<VarId>, iters: set<VarId>)
    requires e.For? && Static(e, fixed, iters) && Agree(now, mem, fixed, iters) && Exec(fuel, e, path, now).outcome.Done?
    ensures Follows(e, path, Exec(fuel, e, path, now), Instances(e, mem), mem, fixed, iters)
    decreases e, fuel, 0
  {
    BoundsKnown(e, now, mem, fixed, iters);
    HeadHasNoVisit(e, path, now, fixed, iters);
    var l, u, inc := IntAt(e.lower, mem), IntAt(e.upper, mem), e.increment.value;
    var head := [Event(path, now)] + Evaluations(e.increment, path + [2], now) +
                Evaluations(e.lower, path + [0], now) + Evaluations(e.upper, path + [1], now);
    var start := now[Scalar(e.idx) := l];
    var run := Loop(fuel, e.idx, u, inc, e.body, path + [3], start);
    assert Exec(fuel, e, path, now) == Prefixed(head, run);
    assert Agree(start, mem, fixed, iters);
    assert Instances(e, mem) == LoopInstances(e.idx, l, u, inc, e.body, mem);
    hide Exec, Loop, Instances, Visits, LoopInstances;
    LoopFollows(fuel, e, path, start, mem, l, u, fixed, iters);
    PrefixFollows(e, path, head, run, LoopInstances(e.idx, l, u, inc, e.body, mem), mem, fixed, iters);
  }

  lemma {:induction false} LoopFollows(fuel: nat, e: Expr, path: Path, now: Memory, mem: Memory, i: int, u: int, fixed: set<VarId>, iters: set<VarId>)
    requires e.For? && Static(e, fixed, iters) && Agree(now, mem, fixed, iters) && Load(now, Scalar(e.idx)) == i
    requires Loop(fuel, e.idx, u, e.increment.value, e.body, path + [3], now).outcome.Done?
    ensures Follows(e, path, Loop(fuel, e.idx, u, e.increment.value, e.body, path + [3], now),
                    LoopInstances(e.idx, i, u, e.increment.value, e.body, mem), mem, fixed, iters)
    decreases e.body, fuel, 2
  {
    hide Exec, Loop, Instances, LoopInstances, Visits, Follows, Agree, Static, Under, Prefixed, With;
    StaticIncrement(e, fixed, iters);
    if i < u {
      var once, next, rest, xs, ys := LoopUnfolds(fuel, e, path, now, mem, i, u);
      IterationFollows(fuel - 1, e, path, now, mem, i, fixed, iters);
      LoopFollows(fuel - 1, e, path, next, mem, i + e.increment.value, u, fixed, iters);
      JoinFollows(e, path, once, rest, Under(3, xs), ys, mem, fixed, iters);
    } else {
      LoopStops(fuel, e, path, now, mem, i, u, fixed, iters);
    }
  }

  lemma StaticIncrement(e: Expr, fixed: set<VarId>, iters: set<VarId>)
    requires e.For? && Static(e, fixed, iters)
    ensures e.increment.IntLit? && e.increment.value > 0
  {
  }

  lemma LoopStops(fuel: nat, e: Expr, path: Path, now: Memory, mem: Memory, i: int, u: int, fixed: set<VarId>, iters: set<VarId>)
    requires e.For? && e.increment.IntLit? && e.increment.value > 0
    requires Agree(now, mem, fixed, iters) && Load(now, Scalar(e.idx)) == i && i >= u
    ensures Follows(e, path, Loop(fuel, e.idx, u, e.increment.value, e.body, path + [3], now),
                    LoopInstances(e.idx, i, u, e.increment.value, e.body, mem), mem, fixed, iters)
  {
    assert Loop(fuel, e.idx, u, e.increment.value, e.body, path + [3], now) == Run([], Done(now));
    assert LoopInstances(e.idx, i, u, e.increment.value, e.body, mem) == [];
    assert Visits(e, path, []) == [];
  }

  lemma LoopUnfolds(fuel: nat, e: Expr, path: Path, now: Memory, mem: Memory, i: int, u: int)
    returns (once: Run, next: Memory, rest: Run, xs: seq<Instance>, ys: seq<Instance>)
    requires e.For? && e.increment.IntLit? && e.increment.value > 0 && Load(now, Scalar(e.idx)) == i && i < u
    requires Loop(fuel, e.idx, u, e.increment.value, e.body, path + [3], now).outcome.Done?
    ensures fuel > 0 && once == Exec(fuel - 1, e.body, path + [3], now) && once.outcome.Done?
    ensures Load(once.outcome.mem, Scalar(e.idx)) == i ==> next == once.outcome.mem[Scalar(e.idx) := i + e.increment.value]
    ensures rest == Loop(fuel - 1, e.idx, u, e.increment.value, e.body, path + [3], next) && rest.outcome.Done?
    ensures Loop(fuel, e.idx, u, e.increment.value, e.body, path + [3], now) == Prefixed(once.events, rest)
    ensures xs == Instances(e.body, With(mem, e.idx, i))
    ensures ys == LoopInstances(e.idx, i + e.increment.value, u, e.increment.value, e.body, mem)
    ensures LoopInstances(e.idx, i, u, e.increment.value, e.body, mem) == Under(3, xs) + ys
  {
    hide Exec, Instances, With;
    once := Exec(fuel - 1, e.body, path + [3], now);
    next := once.outcome.mem[Scalar(e.idx) := Load(once.outcome.mem, Scalar(e.idx)) + e.increment.value];
    rest := Loop(fuel - 1, e.idx, u, e.increment.value, e.body, path + [3], next);
    xs, ys := Instances(e.body, With(mem, e.idx, i)), LoopInstances(e.idx, i + e.increment.value, u, e.increment.value, e.body, mem);
  }

  lemma {:induction false} IterationFollows(fuel: nat, e: Expr, path: Path, now: Memory, mem: Memory, i: int, fixed: set<VarId>, iters: set<VarId>)
    requires e.For? && Static(e, fixed, iters) && Agree(now, mem, fixed, iters) && Load(now, Scalar(e.idx)) == i
    requires Exec(fuel, e.body, path + [3], now).outcome.Done?
    ensures var once := Exec(fuel, e.body, path + [3], now);
            && Follows(e, path, once, Under(3, Instances(e.body, With(mem, e.idx, i))), mem, fixed, iters)
            && Load(once.outcome.mem, Scalar(e.idx)) == i
            && Agree(once.outcome.mem[Scalar(e.idx) := i + e.increment.value], mem, fixed, iters)
    decreases e.body, fuel, 2
  {
    var inner, iters' := With(mem, e.idx, i), iters + {e.idx};
    InnerAgrees(e, i, mem, now, fixed, iters);
    ExecFollows(fuel, e.body, path + [3], now, inner, fixed, iters');
    StaticIsStable(e.body, fixed, iters');
    EventsBelow(fuel, e.body, path + [3], now);
    assert e.idx !in fixed && e.idx !in iters;
    hide Exec, Instances, Visits, Static;
    ChildFollows(e, path, 3, Exec(fuel, e.body, path + [3], now), Instances(e.body, inner), inner, mem, fixed, iters, iters');
  }

  lemma {:induction false} CompoundFollows(fuel: nat, e: Expr, path: Path, now: Memory, mem: Memory, fixed: set<VarId>, iters: set<VarId>)
    requires e.Compound? && Static(e, fixed, iters) && Agree(now, mem, fixed, iters) && Exec(fuel, e, path, now).outcome.Done?
    ensures Follows(e, path, Exec(fuel, e, path, now), Instances(e, mem), mem, fixed, iters)
    decreases e, fuel, 0
  {
    var run := ExecAll(fuel, e.exprs, 0, path, now);
    HereIsVisit(e, path, now);
    AllFollow(fuel, e, 0, path, now, mem, fixed, iters);
    assert Instances(e, mem) == AllInstances(e, |e.exprs|, mem);
    assert Exec(fuel, e, path, now) == Prefixed([Event(path, now)], run);
    NothingFrom(e, mem);
    hide Exec, ExecAll, Instances, Visits;
    PrefixFollows(e, path, [Event(path, now)], run, AllInstances(e, |e.exprs|, mem), mem, fixed, iters);
  }

  /** The instances of the children from number `k` on. */
  function InstancesFrom(e: Expr, k: nat, mem: Memory): seq<Instance>
    requires e.Compound? && k <= |e.exprs|
    decreases |e.exprs| - k
  {
    if k == |e.exprs| then [] else Under(k, Instances(e.exprs[k], mem)) + InstancesFrom(e, k + 1, mem)
  }

  lemma {:induction false} TwoParts(e: Expr, k: nat, mem: Memory)
    requires e.Compound? && k <= |e.exprs|
    ensures AllInstances(e, k, mem) + InstancesFrom(e, k, mem) == AllInstances(e, |e.exprs|, mem)
    decreases |e.exprs| - k
  {
    if k < |e.exprs| {
      TwoParts(e, k + 1, mem);
      var all, here, rest := AllInstances(e, k, mem), Under(k, Instances(e.exprs[k], mem)), InstancesFrom(e, k + 1, mem);
      assert all + (here + rest) == (all + here) + rest;
    }
  }

  lemma NothingFrom(e: Expr, mem: Memory)
    requires e.Compound?
    ensures InstancesFrom(e, 0, mem) == AllInstances(e, |e.exprs|, mem)
  {
    TwoParts(e, 0, mem);
  }

  lemma {:induction false} AllFollow(fuel: nat, e: Expr, k: nat, path: Path, now: Memory, mem: Memory, fixed: set<VarId>, iters: set<VarId>)
    requires e.Compound? && Static(e, fixed, iters) && Agree(now, mem, fixed, iters) && k <= |e.exprs|
    requires ExecAll(fuel, e.exprs, k, path, now).outcome.Done?
    ensures Follows(e, path, ExecAll(fuel, e.exprs, k, path, now), InstancesFrom(e, k, mem), mem, fixed, iters)
    decreases e, fuel, 0, |e.exprs| - k
  {
    if k < |e.exprs| {
      var child := e.exprs[k];
      var first := Exec(fuel, child, path + [k], now);
      var rest := ExecAll(fuel, e.exprs, k + 1, path, first.outcome.mem);
      var xs, ys := Under(k, Instances(child, mem)), InstancesFrom(e, k + 1, mem);
      assert ExecAll(fuel, e.exprs, k, path, now) == Prefixed(first.events, rest);
      assert Static(child, fixed, iters) && IsInner(e, k);
      hide Exec, ExecAll, Instances, Visits, Static, Traces, Agree;
      ExecFollows(fuel, child, path + [k], now, mem, fixed, iters);
      StaticIsStable(child, fixed, iters);
      EventsBelow(fuel, child, path + [k], now);
      assert Agree(mem, mem, fixed, iters) by { SameAgrees(mem, fixed, iters); }
      ChildFollows(e, path, k, first, Instances(child, mem), mem, mem, fixed, iters, iters);
      AllFollow(fuel, e, k + 1, path, first.outcome.mem, mem, fixed, iters);
      JoinFollows(e, path, first, rest, xs, ys, mem, fixed, iters);
    }
  }

  // What a complete run evaluates.

  /** Where the loops and branches around them lead, bounds and conditions were evaluated by the run. */
  lemma {:induction false} RunHasValues(fuel: nat, e: Expr, path: Path, now: Memory, mem: Memory, fixed: set<VarId>, iters: set<VarId>, p: Path, m: Memory)
    requires Static(e, fixed, iters) && Aligned(e, mem) && Agree(now, mem, fixed, iters) && Agree(m, mem, fixed, iters)
    requires Exec(fuel, e, path, now).outcome.Done?
    ensures HasValues(e, p, m)
    decreases e, fuel, 1
  {
    if p != [] && IsInner(e, p[0]) {
      if e.For? {
        ForHasValues(fuel, e, path, now, mem, fixed, iters, p, m);
      } else if e.If? {
        IfHasValues(fuel, e, path, now, mem, fixed, iters, p, m);
      } else {
        AllHaveValues(fuel, e, 0, path, now, mem, fixed, iters, p, m);
      }
    }
  }

  lemma {:induction false} IfHasValues(fuel: nat, e: Expr, path: Path, now: Memory, mem: Memory, fixed: set<VarId>, iters: set<VarId>, p: Path, m: Memory)
    requires e.If? && Static(e, fixed, iters) && Aligned(e, mem) && Agree(now, mem, fixed, iters) && Agree(m, mem, fixed, iters)
    requires Exec(fuel, e, path, now).outcome.Done? && p != [] && IsInner(e, p[0])
    ensures HasValues(e, p, m)
    decreases e, fuel, 0
  {
    EvalKnown(e.cond, now, mem, fixed, iters);
    EvalKnown(e.cond, m, mem, fixed, iters);
    hide Known, Agree, Evaluations, Instances, Eval;
    if InDomainHere(e, p[0], m) {
      IfUnfolds(fuel, e, path, now, mem, fixed, iters);
      RunHasValues(fuel, Children(e)[p[0]], path + [p[0]], now, mem, fixed, iters, p[1..], m);
    }
  }

  lemma {:induction false} ForHasValues(fuel: nat, e: Expr, path: Path, now: Memory, mem: Memory, fixed: set<VarId>, iters: set<VarId>, p: Path, m: Memory)
    requires e.For? && Static(e, fixed, iters) && Aligned(e, mem) && Agree(now, mem, fixed, iters) && Agree(m, mem, fixed, iters)
    requires Exec(fuel, e, path, now).outcome.Done? && p != [] && IsInner(e, p[0])
    ensures HasValues(e, p, m)
    decreases e, fuel, 0
  {
    EvalKnown(e.lower, now, mem, fixed, iters);
    EvalKnown(e.upper, now, mem, fixed, iters);
    EvalKnown(e.lower, m, mem, fixed, iters);
    EvalKnown(e.upper, m, mem, fixed, iters);
    if InDomainHere(e, 3, m) {
      var l, u, i := IntAt(e.lower, mem), IntAt(e.upper, mem), Load(m, Scalar(e.idx));
      var start := now[Scalar(e.idx) := l];
      assert Loop(fuel, e.idx, u, e.increment.value, e.body, path + [3], start).outcome.Done?;
      assert Agree(start, mem, fixed, iters);
      SameResidue(i, l, e.increment.value);
      assert InLoopDomain(i, l, u, e.increment.value);
      hide Exec, Loop, Agree, Known;
      LoopHasValues(fuel, e, path, start, mem, l, u, fixed, iters, p[1..], m);
    }
  }

  lemma {:induction false} LoopHasValues(fuel: nat, e: Expr, path: Path, now: Memory, mem: Memory, j: int, u: int, fixed: set<VarId>, iters: set<VarId>, p: Path, m: Memory)
    requires e.For? && Static(e, fixed, iters) && Agree(now, mem, fixed, iters) && Agree(m, mem, fixed, iters)
    requires e.increment.IntLit? && e.increment.value > 0 && Load(now, Scalar(e.idx)) == j
    requires j <= Load(m, Scalar(e.idx)) < u && (Load(m, Scalar(e.idx)) - j) % e.increment.value == 0
    requires Aligned(e.body, With(mem, e.idx, Load(m, Scalar(e.idx))))
    requires Loop(fuel, e.idx, u, e.increment.value, e.body, path + [3], now).outcome.Done?
    ensures HasValues(e.body, p, m)
    decreases e.body, fuel, 2
  {
    var i, inc := Load(m, Scalar(e.idx)), e.increment.value;
    hide Exec, Loop, Aligned, HasValues, Instances, LoopInstances, Agree, With, Follows;
    var once, next, rest, xs, ys := LoopUnfolds(fuel, e, path, now, mem, j, u);
    if j == i {
      InnerAgrees(e, i, mem, now, fixed, iters);
      InnerAgrees(e, i, mem, m, fixed, iters);
      RunHasValues(fuel - 1, e.body, path + [3], now, With(mem, e.idx, i), fixed, iters + {e.idx}, p, m);
    } else {
      IterationFollows(fuel - 1, e, path, now, mem, j, fixed, iters);
      NextMultiple(0, inc);
      SameResidue(i - j, inc, inc);
      assert i - (j + inc) == i - j - inc;
      LoopHasValues(fuel - 1, e, path, next, mem, j + inc, u, fixed, iters, p, m);
    }
  }

  lemma {:induction false} AllHaveValues(fuel: nat, e: Expr, k: nat, path: Path, now: Memory, mem: Memory, fixed: set<VarId>, iters: set<VarId>, p: Path, m: Memory)
    requires e.Compound? && Static(e, fixed, iters) && Aligned(e, mem) && Agree(now, mem, fixed, iters) && Agree(m, mem, fixed, iters)
    requires p != [] && k <= p[0] < |e.exprs| && ExecAll(fuel, e.exprs, k, path, now).outcome.Done?
    ensures HasValues(e.exprs[p[0]], p[1..], m) && HasValues(e, p, m)
    decreases e, fuel, 0, |e.exprs| - k
  {
    var first := Exec(fuel, e.exprs[k], path + [k], now);
    assert first.outcome.Done?;
    assert ExecAll(fuel, e.exprs, k, path, now) == Prefixed(first.events, ExecAll(fuel, e.exprs, k + 1, path, first.outcome.mem));
    if k == p[0] {
      RunHasValues(fuel, e.exprs[k], path + [k], now, mem, fixed, iters, p[1..], m);
    } else {
      hide Exec, Instances, Agree, Aligned, HasValues;
      ExecFollows(fuel, e.exprs[k], path + [k], now, mem, fixed, iters);
      AllHaveValues(fuel, e, k + 1, path, first.outcome.mem, mem, fixed, iters, p, m);
    }
  }

  // Main result.

  /** The visit is in the domain of its statement. */
  ghost predicate VisitInDomain(e: Expr, ev: Event, mem: Memory, fixed: set<VarId>) {
    InDomain(e, ev.path, ev.mem) && Agree(ev.mem, mem, fixed, {})
  }

  /** Domains depend on the parameters and the loop indices only. */
  lemma {:induction false} DomainMoves(e: Expr, path: Path, a: Memory, b: Memory, fixed: set<VarId>, iters: set<VarId>)
    requires Static(e, fixed, iters) && Agree(a, b, fixed, iters) && SameIteration(e, path, a, b) && InDomain(e, path, b)
    ensures InDomain(e, path, a)
    decreases path
  {
    if path != [] {
      match e
      case For(idx, lower, upper, _, body) =>
        EvalKnown(lower, a, b, fixed, iters);
        EvalKnown(upper, a, b, fixed, iters);
        DomainMoves(body, path[1..], a, b, fixed, iters + {idx});
      case If(cond, _, _) =>
        EvalKnown(cond, a, b, fixed, iters);
        DomainMoves(Children(e)[path[0]], path[1..], a, b, fixed, iters);
      case Compound(exprs) => DomainMoves(exprs[path[0]], path[1..], a, b, fixed, iters);
    }
  }

  /** Exactly one visit of the statement is in the same iteration as `m`. */
  ghost predicate VisitedOnce(e: Expr, visits: seq<Event>, path: Path, m: Memory) {
    && (exists k :: 0 <= k < |visits| && visits[k].path == path && SameIteration(e, path, visits[k].mem, m))
    && (forall j, k :: 0 <= j < k < |visits| && visits[j].path == path && visits[k].path == path ==>
          !(SameIteration(e, path, visits[j].mem, m) && SameIteration(e, path, visits[k].mem, m)))
  }

  /** The visits are the points of the domains, once each, in order. */
  ghost predicate VisitsAreExact(e: Expr, visits: seq<Event>, mem: Memory, fixed: set<VarId>) {
    && (forall k :: 0 <= k < |visits| ==> VisitInDomain(e, visits[k], mem, fixed))
    && (forall path, m :: InDomain(e, path, m) && Agree(m, mem, fixed, {}) ==> VisitedOnce(e, visits, path, m))
    && (forall j, k :: 0 <= j < k < |visits| ==>
          Before(e, Instance(visits[j].path, visits[j].mem), Instance(visits[k].path, visits[k].mem)))
  }

  /** No instance comes before another one in the same iteration. */
  lemma {:induction false} BeforeDiffers(e: Expr, path: Path, a: Memory, b: Memory)
    requires Before(e, Instance(path, a), Instance(path, b))
    ensures !SameIteration(e, path, a, b)
    decreases path
  {
    if path != [] && (e.For? ==> Load(a, Scalar(e.idx)) == Load(b, Scalar(e.idx))) {
      BeforeDiffers(Children(e)[path[0]], path[1..], a, b);
    }
  }

  lemma {:induction false} SameIterationJoins(e: Expr, path: Path, a: Memory, b: Memory, c: Memory)
    requires SameIteration(e, path, a, c) && SameIteration(e, path, b, c)
    ensures SameIteration(e, path, a, b) && SameIteration(e, path, b, a)
    decreases path
  {
    if path != [] && IsInner(e, path[0]) {
      SameIterationJoins(Children(e)[path[0]], path[1..], a, b, c);
    }
  }

  lemma {:induction false} BeforeMoves(e: Expr, p: Path, q: Path, a: Memory, b: Memory, a': Memory, b': Memory)
    requires Before(e, Instance(p, a), Instance(q, b)) && SameIteration(e, p, a', a) && SameIteration(e, q, b', b)
    ensures Before(e, Instance(p, a'), Instance(q, b'))
    decreases p
  {
    if p[0] == q[0] && Before(Children(e)[p[0]], Instance(p[1..], a), Instance(q[1..], b)) {
      BeforeMoves(Children(e)[p[0]], p[1..], q[1..], a, b, a', b');
    }
  }

  lemma MatchingVisitsAreExact(e: Expr, visits: seq<Event>, xs: seq<Instance>, mem: Memory, fixed: set<VarId>)
    requires Static(e, fixed, {}) && Traces(e, [], visits, xs, mem, fixed, {}) && Exact(e, mem, xs, fixed, {})
    ensures VisitsAreExact(e, visits, mem, fixed)
  {
    hide Static, Matches, Sound, Ordered, InDomain, Agree, VisitInDomain, VisitedOnce, Before;
    VisitsInDomain(e, visits, xs, mem, fixed);
    VisitsOrdered(e, visits, xs);
    forall path, m | InDomain(e, path, m) && Agree(m, mem, fixed, {})
      ensures VisitedOnce(e, visits, path, m)
    {
      OneVisitEach(e, visits, xs, path, m);
    }
  }

  /** For a nest with static control whose loops start at multiples of their increments: a complete
      run starts each statement in exactly the iterations of its domain, once each, and in the order
      in which loops count and sequences are listed. */
  lemma ScheduleIsExact(e: Expr, fuel: nat, mem: Memory, fixed: set<VarId>)
    requires Static(e, fixed, {}) && Aligned(e, mem) && Exec(fuel, e, [], mem).outcome.Done?
    ensures VisitsAreExact(e, Visits(e, [], Exec(fuel, e, [], mem).events), mem, fixed)
  {
    hide Exec, Visits, Instances, Static, Aligned, Exact, Traces, Agree, VisitsAreExact;
    assert Agree(mem, mem, fixed, {}) by { SameAgrees(mem, fixed, {}); }
    ExecFollows(fuel, e, [], mem, mem, fixed, {});
    InstancesAreExact(e, mem, fixed, {});
    MatchingVisitsAreExact(e, Visits(e, [], Exec(fuel, e, [], mem).events), Instances(e, mem), mem, fixed);
  }

  lemma VisitsInDomain(e: Expr, visits: seq<Event>, xs: seq<Instance>, mem: Memory, fixed: set<VarId>)
    requires Static(e, fixed, {}) && Matches(e, [], visits, xs) && Sound(e, mem, xs, fixed, {})
    requires forall k :: 0 <= k < |visits| ==> Agree(visits[k].mem, mem, fixed, {})
    ensures forall k :: 0 <= k < |visits| ==> VisitInDomain(e, visits[k], mem, fixed)
  {
    forall k | 0 <= k < |visits|
      ensures VisitInDomain(e, visits[k], mem, fixed)
    {
      assert [] + xs[k].path == xs[k].path;
      AgreeJoins(visits[k].mem, xs[k].mem, mem, fixed);
      DomainMoves(e, xs[k].path, visits[k].mem, xs[k].mem, fixed, {});
    }
  }

  lemma AgreeJoins(a: Memory, b: Memory, c: Memory, fixed: set<VarId>)
    requires Agree(a, c, fixed, {}) && Agree(b, c, fixed, {})
    ensures Agree(a, b, fixed, {})
  {
  }

  lemma VisitsOrdered(e: Expr, visits: seq<Event>, xs: seq<Instance>)
    requires Matches(e, [], visits, xs) && Ordered(e, xs)
    ensures forall j, k :: 0 <= j < k < |visits| ==>
              Before(e, Instance(visits[j].path, visits[j].mem), Instance(visits[k].path, visits[k].mem))
  {
    forall j, k | 0 <= j < k < |visits|
      ensures Before(e, Instance(visits[j].path, visits[j].mem), Instance(visits[k].path, visits[k].mem))
    {
      assert [] + xs[j].path == xs[j].path && [] + xs[k].path == xs[k].path;
      BeforeMoves(e, xs[j].path, xs[k].path, xs[j].mem, xs[k].mem, visits[j].mem, visits[k].mem);
    }
  }

  lemma OneVisitEach(e: Expr, visits: seq<Event>, xs: seq<Instance>, path: Path, m: Memory)
    requires Matches(e, [], visits, xs) && Occurs(e, xs, path, m)
    requires forall j, k :: 0 <= j < k < |visits| ==>
               Before(e, Instance(visits[j].path, visits[j].mem), Instance(visits[k].path, visits[k].mem))
    ensures VisitedOnce(e, visits, path, m)
  {
    var k :| 0 <= k < |xs| && xs[k].path == path && SameIteration(e, path, xs[k].mem, m);
    assert [] + xs[k].path == xs[k].path;
    SameIterationTrans(e, path, visits[k].mem, xs[k].mem, m);
    forall i, j | 0 <= i < j < |visits| && visits[i].path == path && visits[j].path == path
      ensures !(SameIteration(e, path, visits[i].mem, m) && SameIteration(e, path, visits[j].mem, m))
    {
      BeforeDiffers(e, path, visits[i].mem, visits[j].mem);
      if SameIteration(e, path, visits[i].mem, m) && SameIteration(e, path, visits[j].mem, m) {
        SameIterationJoins(e, path, visits[i].mem, visits[j].mem, m);
      }
    }
  }

  lemma {:induction false} SameIterationTrans(e: Expr, path: Path, a: Memory, b: Memory, c: Memory)
    requires SameIteration(e, path, a, b) && SameIteration(e, path, b, c)
    ensures SameIteration(e, path, a, c)
    decreases path
  {
    if path != [] && IsInner(e, path[0]) {
      SameIterationTrans(Children(e)[path[0]], path[1..], a, b, c);
    }
  }
}
