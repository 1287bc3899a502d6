/** Which statement instances a loop nest executes, and in which order. */
module ScheduleDomains {
  import opened Wrappers
  import opened Division
  import opened Qir
  import opened QirRun

  /** A statement, by its path, and a memory that shows the values of the loop indices. */
  datatype Instance = Instance(path: Path, mem: Memory)

  predicate IsStatement(e: Expr) { !e.For? && !e.If? && !e.Compound? }

  /** The child `k` is part of the control structure, not a bound or a condition. */
  predicate IsInner(e: Expr, k: nat) {
    k < |Children(e)| && (e.Compound? || (e.For? && k == 3) || (e.If? && k > 0))
  }

  predicate IsStatementPath(e: Expr, path: Path)
    decreases path
  {
    if path == [] then IsStatement(e)
    else IsInner(e, path[0]) && IsStatementPath(Children(e)[path[0]], path[1..])
  }

  /** An expression that reads variables `fixed` and the loop indices `iters` only. */
  predicate Known(e: Expr, fixed: set<VarId>, iters: set<VarId>) {
    match e
    case IntLit(_) => true
    case BoolLit(_) => true
    case Extent(_, _) => true
    case Access(b, indices) =>
      (indices == [] && b in iters) || (b in fixed && forall k :: 0 <= k < |indices| ==> Known(indices[k], fixed, iters))
    case Binary(op, a, b) => !op.Assign? && !op.PlusAssign? && Known(a, fixed, iters) && Known(b, fixed, iters)
    case Unary(_, a) => Known(a, fixed, iters)
    case Delta(_, a, b) => Known(a, fixed, iters) && Known(b, fixed, iters)
    case _ => false
  }

  /** Static control: bounds and conditions depend on enclosing indices and on variables that no
      statement stores to; increments are positive literals. */
  predicate Static(e: Expr, fixed: set<VarId>, iters: set<VarId>) {
    match e
    case For(idx, lower, upper, increment, body) =>
      && Known(lower, fixed, iters) && Known(upper, fixed, iters) && increment.IntLit? && increment.value > 0
      && idx !in fixed && idx !in iters && Static(body, fixed, iters + {idx})
    case If(cond, t, None) => Known(cond, fixed, iters) && Static(t, fixed, iters)
    case If(cond, t, Some(f)) => Known(cond, fixed, iters) && Static(t, fixed, iters) && Static(f, fixed, iters)
    case Compound(exprs) => forall k :: 0 <= k < |exprs| ==> Static(exprs[k], fixed, iters)
    case Binary(op, a, b) =>
      if op.Assign? || op.PlusAssign? then a.Access? && a.base !in fixed && a.base !in iters && Pure(a) && Pure(b) else Pure(e)
    case _ => Pure(e)
  }

  ghost predicate Agree(a: Memory, b: Memory, fixed: set<VarId>, iters: set<VarId>) {
    forall l: Location :: l.Dimension? || l.base in fixed || (l.indices == [] && l.base in iters) ==> Load(a, l) == Load(b, l)
  }

  lemma {:induction false} EvalKnown(e: Expr, a: Memory, b: Memory, fixed: set<VarId>, iters: set<VarId>)
    requires Known(e, fixed, iters) && Agree(a, b, fixed, iters)
    ensures Eval(e, a) == Eval(e, b)
    decreases e
  {
    match e
    case Access(_, indices) =>
      if indices == [] {
        assert EvalIndices([], a) == Some([]) && EvalIndices([], b) == Some([]);
      } else {
        EvalAllKnown(indices, a, b, fixed, iters);
      }
    case Binary(_, x, y) => EvalKnown(x, a, b, fixed, iters); EvalKnown(y, a, b, fixed, iters);
    case Unary(_, x) => EvalKnown(x, a, b, fixed, iters);
    case Delta(_, x, y) => EvalKnown(x, a, b, fixed, iters); EvalKnown(y, a, b, fixed, iters);
    case _ =>
  }

  lemma {:induction false} EvalAllKnown(es: seq<Expr>, a: Memory, b: Memory, fixed: set<VarId>, iters: set<VarId>)
    requires (forall k :: 0 <= k < |es| ==> Known(es[k], fixed, iters)) && Agree(a, b, fixed, iters)
    ensures EvalIndices(es, a) == EvalIndices(es, b)
    decreases es
  {
    if es != [] {
      EvalKnown(es[0], a, b, fixed, iters);
      EvalAllKnown(es[1..], a, b, fixed, iters);
    }
  }

  predicate TrueAt(e: Expr, mem: Memory) { Eval(e, mem) == Some(Bool(true)) }

  // The domain of a statement.

  /** The constraints that `construct_schedule` collects on the way to the statement: of a loop, the
      bounds and divisibility of the index by the increment; of a branch, the condition. */
  predicate InDomain(e: Expr, path: Path, mem: Memory)
    decreases path
  {
    if path == [] then IsStatement(e)
    else
      && IsInner(e, path[0])
      && (match e
          case For(idx, lower, upper, increment, _) =>
            var i := Load(mem, Scalar(idx));
            IntAt(lower, mem) <= i < IntAt(upper, mem) && increment.IntLit? && increment.value > 0 && i % increment.value == 0
          case If(cond, _, _) => TrueAt(cond, mem) == (path[0] == 1)
          case _ => true)
      && InDomain(Children(e)[path[0]], path[1..], mem)
  }

  /** The order of the schedule tree: bands by their iterator, sequences by position. */
  predicate Before(e: Expr, a: Instance, b: Instance)
    decreases a.path
  {
    && a.path != [] && b.path != [] && IsInner(e, a.path[0]) && IsInner(e, b.path[0])
    && (if e.For? then
          var i, j := Load(a.mem, Scalar(e.idx)), Load(b.mem, Scalar(e.idx));
          i < j || (i == j && Before(e.body, Inner(a), Inner(b)))
        else if e.Compound? then
          a.path[0] < b.path[0] || (a.path[0] == b.path[0] && Before(e.exprs[a.path[0]], Inner(a), Inner(b)))
        else a.path[0] == b.path[0] && Before(Children(e)[a.path[0]], Inner(a), Inner(b)))
  }

  function Inner(a: Instance): Instance
    requires a.path != []
  {
    Instance(a.path[1..], a.mem)
  }

  /** The same iteration of all loops around the statement. */
  predicate SameIteration(e: Expr, path: Path, a: Memory, b: Memory)
    decreases path
  {
    path == [] || !IsInner(e, path[0]) ||
    ((e.For? ==> Load(a, Scalar(e.idx)) == Load(b, Scalar(e.idx))) && SameIteration(Children(e)[path[0]], path[1..], a, b))
  }

  // The instances in the order of execution.

  function Under(k: nat, xs: seq<Instance>): (r: seq<Instance>)
    ensures |r| == |xs| && forall i :: 0 <= i < |xs| ==> r[i] == Instance([k] + xs[i].path, xs[i].mem)
  {
    seq(|xs|, i requires 0 <= i < |xs| => Instance([k] + xs[i].path, xs[i].mem))
  }

  /** What control flow reaches, if nothing but the loops changes the variables it depends on. */
  function Instances(e: Expr, mem: Memory): seq<Instance>
    decreases e, 0, 1
  {
    match e
    case For(idx, lower, upper, increment, body) =>
      if increment.IntLit? && increment.value > 0
      then LoopInstances(idx, IntAt(lower, mem), IntAt(upper, mem), increment.value, body, mem) else []
    case If(cond, t, f) =>
      if TrueAt(cond, mem) then Under(1, Instances(t, mem))
      else if f.Some? then Under(2, Instances(f.value, mem)) else []
    case Compound(exprs) => AllInstances(e, |exprs|, mem)
    case _ => [Instance([], mem)]
  }

  function LoopInstances(idx: VarId, i: int, u: int, inc: int, body: Expr, mem: Memory): seq<Instance>
    requires inc > 0
    decreases body, 1, u - i
  {
    if i >= u then []
    else Under(3, Instances(body, With(mem, idx, i))) + LoopInstances(idx, i + inc, u, inc, body, mem)
  }

  function AllInstances(e: Expr, k: nat, mem: Memory): seq<Instance>
    requires e.Compound? && k <= |e.exprs|
    decreases e, 0, 0, k
  {
    if k == 0 then [] else AllInstances(e, k - 1, mem) + Under(k - 1, Instances(e.exprs[k - 1], mem))
  }

  /** A loop executes the values of its index that satisfy the constraints exactly if it is empty or
      its lower bound is divisible by the increment. */
  lemma LoopDomainIsExact(l: int, u: int, inc: int)
    requires inc > 0
    ensures (forall i :: InLoop(i, l, u, inc) <==> InLoopDomain(i, l, u, inc)) <==> (u <= l || l % inc == 0)
  {
    if l < u {
      assert InLoop(l, l, u, inc) by { assert l - l == 0; }
      assert InLoopDomain(l, l, u, inc) <==> l % inc == 0;
      if l % inc == 0 {
        forall i
          ensures InLoop(i, l, u, inc) <==> InLoopDomain(i, l, u, inc)
        {
          SameResidue(i, l, inc);
        }
      }
    } else {
      assert forall i :: !InLoop(i, l, u, inc) && !InLoopDomain(i, l, u, inc);
    }
  }

  /** The loop index takes the value `i`. */
  predicate InLoop(i: int, l: int, u: int, inc: int)
    requires inc > 0
  {
    l <= i < u && (i - l) % inc == 0
  }

  predicate InLoopDomain(i: int, l: int, u: int, inc: int)
    requires inc > 0
  {
    l <= i < u && i % inc == 0
  }

  lemma SameResidue(i: int, l: int, inc: int)
    requires inc > 0 && l % inc == 0
    ensures (i - l) % inc == 0 <==> i % inc == 0
  {
    var q := l / inc;
    assert l == q * inc;
    if i % inc == 0 {
      assert i == i / inc * inc;
      DivisionIsUnique(i - l, inc, i / inc - q, 0) by { assert (i / inc - q) * inc == i - l; }
    }
    if (i - l) % inc == 0 {
      assert i - l == (i - l) / inc * inc;
      DivisionIsUnique(i, inc, (i - l) / inc + q, 0) by { assert ((i - l) / inc + q) * inc == i; }
    }
  }

  // Exactness.

  /** Whenever a loop is entered, it is empty or its lower bound is divisible by its increment. */
  ghost predicate Aligned(e: Expr, mem: Memory)
    decreases e
  {
    match e
    case For(idx, lower, upper, increment, body) =>
      && increment.IntLit? && increment.value > 0
      && (IntAt(upper, mem) <= IntAt(lower, mem) || IntAt(lower, mem) % increment.value == 0)
      && forall i :: InLoopDomain(i, IntAt(lower, mem), IntAt(upper, mem), increment.value) ==> Aligned(body, With(mem, idx, i))
    case If(cond, t, f) => if TrueAt(cond, mem) then Aligned(t, mem) else f.Some? ==> Aligned(f.value, mem)
    case Compound(exprs) => forall k :: 0 <= k < |exprs| ==> Aligned(exprs[k], mem)
    case _ => true
  }

  /** All instances are in their domains. */
  ghost predicate Sound(e: Expr, mem: Memory, xs: seq<Instance>, fixed: set<VarId>, iters: set<VarId>) {
    forall k :: 0 <= k < |xs| ==> InDomain(e, xs[k].path, xs[k].mem) && Agree(xs[k].mem, mem, fixed, iters)
  }

  ghost predicate Occurs(e: Expr, xs: seq<Instance>, path: Path, m: Memory) {
    exists k :: 0 <= k < |xs| && xs[k].path == path && SameIteration(e, path, xs[k].mem, m)
  }

  /** Every point of a domain occurs. */
  ghost predicate Complete(e: Expr, mem: Memory, xs: seq<Instance>, fixed: set<VarId>, iters: set<VarId>) {
    forall path, m :: InDomain(e, path, m) && Agree(m, mem, fixed, iters) ==> Occurs(e, xs, path, m)
  }

  /** The order of execution is that of the schedule tree. */
  ghost predicate Ordered(e: Expr, xs: seq<Instance>) {
    forall i, j :: 0 <= i < j < |xs| ==> Before(e, xs[i], xs[j])
  }

  lemma SoundUnder(e: Expr, k: nat, mem: Memory, child: Memory, xs: seq<Instance>, fixed: set<VarId>, iters: set<VarId>, iters': set<VarId>)
    requires IsInner(e, k) && Sound(Children(e)[k], child, xs, fixed, iters') && iters <= iters' && Agree(child, mem, fixed, iters)
    requires forall x :: x in xs ==> InDomainHere(e, k, x.mem)
    ensures Sound(e, mem, Under(k, xs), fixed, iters)
  {
    forall i | 0 <= i < |xs|
      ensures InDomain(e, Under(k, xs)[i].path, xs[i].mem) && Agree(xs[i].mem, mem, fixed, iters)
    {
      assert ([k] + xs[i].path)[1..] == xs[i].path;
      assert xs[i] in xs;
    }
  }

  /** The constraint that `e` adds for its child `k`. */
  predicate InDomainHere(e: Expr, k: nat, mem: Memory) {
    match e
    case For(idx, lower, upper, increment, _) =>
      var i := Load(mem, Scalar(idx));
      IntAt(lower, mem) <= i < IntAt(upper, mem) && increment.IntLit? && increment.value > 0 && i % increment.value == 0
    case If(cond, _, _) => TrueAt(cond, mem) == (k == 1)
    case _ => true
  }

  /** As far as the loops and branches on the way to the statement admit `m`, the next bounds and
      conditions have values there. */
  predicate HasValues(e: Expr, path: Path, m: Memory)
    decreases path
  {
    path == [] || !IsInner(e, path[0]) ||
    (HasValuesHere(e, m) && (InDomainHere(e, path[0], m) ==> HasValues(Children(e)[path[0]], path[1..], m)))
  }

  predicate HasValuesHere(e: Expr, m: Memory) {
    match e
    case For(_, lower, upper, _, _) => Eval(lower, m) == Some(Int(IntAt(lower, m))) && Eval(upper, m) == Some(Int(IntAt(upper, m)))
    case If(cond, _, _) => Eval(cond, m) == Some(Bool(TrueAt(cond, m)))
    case _ => true
  }

  lemma DomainUnder(e: Expr, path: Path, m: Memory)
    requires path != []
    ensures InDomain(e, path, m) <==> IsInner(e, path[0]) && InDomainHere(e, path[0], m) && InDomain(Children(e)[path[0]], path[1..], m)
  {
  }

  lemma OccursUnder(e: Expr, k: nat, xs: seq<Instance>, path: Path, m: Memory)
    requires IsInner(e, k) && Occurs(Children(e)[k], xs, path, m)
    requires e.For? ==> forall x :: x in xs ==> Load(x.mem, Scalar(e.idx)) == Load(m, Scalar(e.idx))
    ensures Occurs(e, Under(k, xs), [k] + path, m)
  {
    var i :| 0 <= i < |xs| && xs[i].path == path && SameIteration(Children(e)[k], path, xs[i].mem, m);
    assert ([k] + path)[1..] == path && xs[i] in xs;
    assert Under(k, xs)[i].path == [k] + path && SameIteration(e, [k] + path, Under(k, xs)[i].mem, m);
  }

  lemma OccursLeft(e: Expr, xs: seq<Instance>, ys: seq<Instance>, path: Path, m: Memory)
    requires Occurs(e, xs, path, m) || Occurs(e, ys, path, m)
    ensures Occurs(e, xs + ys, path, m)
  {
    if Occurs(e, xs, path, m) {
      var k :| 0 <= k < |xs| && xs[k].path == path && SameIteration(e, path, xs[k].mem, m);
      assert (xs + ys)[k] == xs[k];
    } else {
      var k :| 0 <= k < |ys| && ys[k].path == path && SameIteration(e, path, ys[k].mem, m);
      assert (xs + ys)[|xs| + k] == ys[k];
    }
  }

  lemma OrderedUnder(e: Expr, k: nat, xs: seq<Instance>)
    requires IsInner(e, k) && Ordered(Children(e)[k], xs)
    requires e.For? ==> forall i, j :: 0 <= i < |xs| && 0 <= j < |xs| ==> Load(xs[i].mem, Scalar(e.idx)) == Load(xs[j].mem, Scalar(e.idx))
    ensures Ordered(e, Under(k, xs))
  {
    var ys := Under(k, xs);
    forall i, j | 0 <= i < j < |ys|
      ensures Before(e, ys[i], ys[j])
    {
      assert ys[i].path[1..] == xs[i].path && ys[j].path[1..] == xs[j].path;
      assert Before(Children(e)[k], xs[i], xs[j]);
      assert Inner(ys[i]) == xs[i] && Inner(ys[j]) == xs[j];
    }
  }

  lemma OrderedConcat(e: Expr, xs: seq<Instance>, ys: seq<Instance>)
    requires Ordered(e, xs) && Ordered(e, ys)
    requires forall i, j :: 0 <= i < |xs| && 0 <= j < |ys| ==> Before(e, xs[i], ys[j])
    ensures Ordered(e, xs + ys)
  {
  }

  ghost predicate Exact(e: Expr, mem: Memory, xs: seq<Instance>, fixed: set<VarId>, iters: set<VarId>) {
    Sound(e, mem, xs, fixed, iters) && Complete(e, mem, xs, fixed, iters) && Ordered(e, xs)
  }

  /** The executed instances of every statement are exactly the points of its domain, in the order of
      the schedule tree. */
  lemma {:induction false} InstancesAreExact(e: Expr, mem: Memory, fixed: set<VarId>, iters: set<VarId>)
    requires Static(e, fixed, iters) && Aligned(e, mem)
    ensures Exact(e, mem, Instances(e, mem), fixed, iters)
    decreases e, 1
  {
    match e
    case For(idx, lower, upper, increment, body) =>
      var l := IntAt(lower, mem);
      LoopIsExact(e, l, mem, fixed, iters);
      assert Complete(e, mem, LoopFrom(e, l, mem), fixed, iters) by { AllFromStart(e, mem, fixed, iters); }
    case If(_, _, _) => IfIsExact(e, mem, fixed, iters);
    case Compound(exprs) => CompoundIsExact(e, |exprs|, mem, fixed, iters);
    case _ => StatementIsExact(e, mem, fixed, iters);
  }

  lemma StatementIsExact(e: Expr, mem: Memory, fixed: set<VarId>, iters: set<VarId>)
    requires IsStatement(e)
    ensures Exact(e, mem, [Instance([], mem)], fixed, iters)
  {
    var xs := [Instance([], mem)];
    forall path, m | InDomain(e, path, m)
      ensures Occurs(e, xs, path, m)
    {
      assert path == [];
      assert xs[0].path == path && SameIteration(e, path, xs[0].mem, m);
    }
  }

  lemma {:induction false} IfIsExact(e: Expr, mem: Memory, fixed: set<VarId>, iters: set<VarId>)
    requires e.If? && Static(e, fixed, iters) && Aligned(e, mem)
    ensures Exact(e, mem, Instances(e, mem), fixed, iters)
    decreases e, 0
  {
    var k := if TrueAt(e.cond, mem) then 1 else 2;
    if k < |Children(e)| {
      var child := Children(e)[k];
      var xs := Instances(child, mem);
      InstancesAreExact(child, mem, fixed, iters);
      forall x | x in xs
        ensures InDomainHere(e, k, x.mem)
      {
        EvalKnown(e.cond, x.mem, mem, fixed, iters);
      }
      SoundUnder(e, k, mem, mem, xs, fixed, iters, iters);
      OrderedUnder(e, k, xs);
      forall path, m | InDomain(e, path, m) && Agree(m, mem, fixed, iters)
        ensures Occurs(e, Under(k, xs), path, m)
      {
        EvalKnown(e.cond, m, mem, fixed, iters);
        DomainUnder(e, path, m);
        assert path == [k] + path[1..];
        OccursUnder(e, k, xs, path[1..], m);
      }
    } else {
      forall path, m | Agree(m, mem, fixed, iters)
        ensures !InDomain(e, path, m)
      {
        EvalKnown(e.cond, m, mem, fixed, iters);
      }
    }
  }

  // Loops.

  function LoopFrom(e: Expr, i: int, mem: Memory): seq<Instance>
    requires e.For? && e.increment.IntLit? && e.increment.value > 0
  {
    LoopInstances(e.idx, i, IntAt(e.upper, mem), e.increment.value, e.body, mem)
  }

  /** The loop `e`, before the iteration with index `i`. */
  ghost predicate AtIteration(e: Expr, i: int, mem: Memory, fixed: set<VarId>, iters: set<VarId>) {
    && e.For? && Static(e, fixed, iters) && Aligned(e, mem)
    && IntAt(e.lower, mem) <= i && (i < IntAt(e.upper, mem) ==> i % e.increment.value == 0)
  }

  ghost predicate CompleteFrom(e: Expr, i: int, mem: Memory, xs: seq<Instance>, fixed: set<VarId>, iters: set<VarId>)
    requires e.For?
  {
    forall path, m :: InDomain(e, path, m) && Agree(m, mem, fixed, iters) && Load(m, Scalar(e.idx)) >= i ==> Occurs(e, xs, path, m)
  }

  ghost predicate IndexFrom(e: Expr, i: int, xs: seq<Instance>)
    requires e.For?
  {
    forall k :: 0 <= k < |xs| ==> Load(xs[k].mem, Scalar(e.idx)) >= i
  }

  lemma BoundsKnown(e: Expr, a: Memory, b: Memory, fixed: set<VarId>, iters: set<VarId>)
    requires e.For? && Static(e, fixed, iters) && Agree(a, b, fixed, iters)
    ensures IntAt(e.lower, a) == IntAt(e.lower, b) && IntAt(e.upper, a) == IntAt(e.upper, b)
  {
    EvalKnown(e.lower, a, b, fixed, iters);
    EvalKnown(e.upper, a, b, fixed, iters);
  }

  lemma AllFromStart(e: Expr, mem: Memory, fixed: set<VarId>, iters: set<VarId>)
    requires e.For? && Static(e, fixed, iters)
    requires CompleteFrom(e, IntAt(e.lower, mem), mem, LoopFrom(e, IntAt(e.lower, mem), mem), fixed, iters)
    ensures Complete(e, mem, LoopFrom(e, IntAt(e.lower, mem), mem), fixed, iters)
  {
    forall path, m | InDomain(e, path, m) && Agree(m, mem, fixed, iters)
      ensures Occurs(e, LoopFrom(e, IntAt(e.lower, mem), mem), path, m)
    {
      BoundsKnown(e, m, mem, fixed, iters);
    }
  }

  lemma {:induction false} LoopIsExact(e: Expr, i: int, mem: Memory, fixed: set<VarId>, iters: set<VarId>)
    requires AtIteration(e, i, mem, fixed, iters)
    ensures Sound(e, mem, LoopFrom(e, i, mem), fixed, iters) && CompleteFrom(e, i, mem, LoopFrom(e, i, mem), fixed, iters)
    ensures Ordered(e, LoopFrom(e, i, mem)) && IndexFrom(e, i, LoopFrom(e, i, mem))
    decreases e, 0, IntAt(e.upper, mem) - i
  {
    if i < IntAt(e.upper, mem) {
      var inc, inner := e.increment.value, With(mem, e.idx, i);
      var xs, rest := Instances(e.body, inner), LoopFrom(e, i + inc, mem);
      NextMultiple(i, inc);
      assert LoopFrom(e, i, mem) == Under(3, xs) + rest;
      hide Sound, Complete, CompleteFrom, Ordered, IndexFrom, Instances, LoopFrom, Agree, Known;
      InstancesAreExact(e.body, inner, fixed, iters + {e.idx});
      LoopIsExact(e, i + inc, mem, fixed, iters);
      IterationSound(e, i, mem, fixed, iters, xs);
      SoundConcat(e, mem, Under(3, xs), rest, fixed, iters);
      IterationComplete(e, i, mem, fixed, iters, xs, rest);
      IterationOrdered(e, i, mem, fixed, iters, xs, rest);
    } else {
      LoopEnds(e, i, mem, fixed, iters);
    }
  }

  lemma SoundConcat(e: Expr, mem: Memory, xs: seq<Instance>, ys: seq<Instance>, fixed: set<VarId>, iters: set<VarId>)
    requires Sound(e, mem, xs, fixed, iters) && Sound(e, mem, ys, fixed, iters)
    ensures Sound(e, mem, xs + ys, fixed, iters)
  {
  }

  lemma LoopEnds(e: Expr, i: int, mem: Memory, fixed: set<VarId>, iters: set<VarId>)
    requires AtIteration(e, i, mem, fixed, iters) && i >= IntAt(e.upper, mem)
    ensures LoopFrom(e, i, mem) == [] && CompleteFrom(e, i, mem, [], fixed, iters)
  {
    forall path, m | InDomain(e, path, m) && Agree(m, mem, fixed, iters)
      ensures Load(m, Scalar(e.idx)) < i
    {
      BoundsKnown(e, m, mem, fixed, iters);
    }
  }

  lemma NextMultiple(i: int, inc: int)
    requires inc > 0 && i % inc == 0
    ensures (i + inc) % inc == 0
    ensures forall v :: v > i && v % inc == 0 ==> v >= i + inc
  {
    assert i == i / inc * inc;
    DivisionIsUnique(i + inc, inc, i / inc + 1, 0);
    forall v | v > i && v % inc == 0
      ensures v >= i + inc
    {
      assert v == v / inc * inc;
      var d := v / inc - i / inc;
      assert d * inc == v - i;
      assert d >= 1 ==> d * inc >= inc;
      assert d <= 0 ==> d * inc <= 0;
    }
  }

  /** In the instances of iteration `i` the index has that value. */
  lemma IndexIs(e: Expr, i: int, mem: Memory, fixed: set<VarId>, iters: set<VarId>, xs: seq<Instance>)
    requires e.For? && Sound(e.body, With(mem, e.idx, i), xs, fixed, iters + {e.idx})
    ensures forall k :: 0 <= k < |xs| ==> Load(xs[k].mem, Scalar(e.idx)) == i
  {
  }

  lemma InnerAgrees(e: Expr, i: int, mem: Memory, m: Memory, fixed: set<VarId>, iters: set<VarId>)
    requires e.For? && Static(e, fixed, iters)
    ensures Agree(With(mem, e.idx, i), mem, fixed, iters)
    ensures Agree(m, mem, fixed, iters) && Load(m, Scalar(e.idx)) == i ==> Agree(m, With(mem, e.idx, i), fixed, iters + {e.idx})
  {
  }

  lemma IterationSound(e: Expr, i: int, mem: Memory, fixed: set<VarId>, iters: set<VarId>, xs: seq<Instance>)
    requires AtIteration(e, i, mem, fixed, iters) && i < IntAt(e.upper, mem)
    requires Sound(e.body, With(mem, e.idx, i), xs, fixed, iters + {e.idx})
    ensures Sound(e, mem, Under(3, xs), fixed, iters)
  {
    IndexIs(e, i, mem, fixed, iters, xs);
    InnerAgrees(e, i, mem, mem, fixed, iters);
    forall x | x in xs
      ensures InDomainHere(e, 3, x.mem)
    {
      BoundsKnown(e, x.mem, mem, fixed, iters);
    }
    SoundUnder(e, 3, mem, With(mem, e.idx, i), xs, fixed, iters, iters + {e.idx});
  }

  lemma IterationComplete(e: Expr, i: int, mem: Memory, fixed: set<VarId>, iters: set<VarId>, xs: seq<Instance>, rest: seq<Instance>)
    requires AtIteration(e, i, mem, fixed, iters) && i < IntAt(e.upper, mem)
    requires Sound(e.body, With(mem, e.idx, i), xs, fixed, iters + {e.idx})
    requires Complete(e.body, With(mem, e.idx, i), xs, fixed, iters + {e.idx})
    requires CompleteFrom(e, i + e.increment.value, mem, rest, fixed, iters)
    ensures CompleteFrom(e, i, mem, Under(3, xs) + rest, fixed, iters)
  {
    IndexIs(e, i, mem, fixed, iters, xs);
    NextMultiple(i, e.increment.value);
    forall path, m | InDomain(e, path, m) && Agree(m, mem, fixed, iters) && Load(m, Scalar(e.idx)) >= i
      ensures Occurs(e, Under(3, xs) + rest, path, m)
    {
      DomainUnder(e, path, m);
      if Load(m, Scalar(e.idx)) == i {
        InnerAgrees(e, i, mem, m, fixed, iters);
        assert path == [3] + path[1..];
        OccursUnder(e, 3, xs, path[1..], m);
      }
      OccursLeft(e, Under(3, xs), rest, path, m);
    }
  }

  lemma IterationOrdered(e: Expr, i: int, mem: Memory, fixed: set<VarId>, iters: set<VarId>, xs: seq<Instance>, rest: seq<Instance>)
    requires AtIteration(e, i, mem, fixed, iters) && i < IntAt(e.upper, mem)
    requires Sound(e.body, With(mem, e.idx, i), xs, fixed, iters + {e.idx}) && Ordered(e.body, xs)
    requires Sound(e, mem, rest, fixed, iters) && Ordered(e, rest) && IndexFrom(e, i + e.increment.value, rest)
    ensures Ordered(e, Under(3, xs) + rest) && IndexFrom(e, i, Under(3, xs) + rest)
  {
    IndexIs(e, i, mem, fixed, iters, xs);
    OrderedUnder(e, 3, xs);
    forall k, l | 0 <= k < |xs| && 0 <= l < |rest|
      ensures Before(e, Under(3, xs)[k], rest[l])
    {
      assert InDomain(e, rest[l].path, rest[l].mem);
    }
    OrderedConcat(e, Under(3, xs), rest);
  }

  // Sequences.

  ghost predicate CompleteBelow(e: Expr, n: nat, mem: Memory, xs: seq<Instance>, fixed: set<VarId>, iters: set<VarId>) {
    forall path, m :: path != [] && path[0] < n && InDomain(e, path, m) && Agree(m, mem, fixed, iters) ==> Occurs(e, xs, path, m)
  }

  ghost predicate PathsBelow(n: nat, xs: seq<Instance>) {
    forall k :: 0 <= k < |xs| ==> xs[k].path != [] && xs[k].path[0] < n
  }

  lemma {:induction false} CompoundIsExact(e: Expr, n: nat, mem: Memory, fixed: set<VarId>, iters: set<VarId>)
    requires e.Compound? && Static(e, fixed, iters) && Aligned(e, mem) && n <= |e.exprs|
    ensures var xs := AllInstances(e, n, mem);
            Sound(e, mem, xs, fixed, iters) && Ordered(e, xs) && CompleteBelow(e, n, mem, xs, fixed, iters) && PathsBelow(n, xs)
    ensures n == |e.exprs| ==> Exact(e, mem, AllInstances(e, n, mem), fixed, iters)
    decreases e, 0, n, 1
  {
    hide Sound, Complete, CompleteBelow, Ordered, PathsBelow, Agree;
    if n == 0 {
      NothingBelow(e, mem, fixed, iters);
    } else {
      CompoundStep(e, n, mem, fixed, iters);
    }
    if n == |e.exprs| {
      WholeCompound(e, mem, AllInstances(e, n, mem), fixed, iters);
    }
  }

  lemma {:induction false} CompoundStep(e: Expr, n: nat, mem: Memory, fixed: set<VarId>, iters: set<VarId>)
    requires e.Compound? && Static(e, fixed, iters) && Aligned(e, mem) && 0 < n <= |e.exprs|
    ensures var xs := AllInstances(e, n, mem);
            Sound(e, mem, xs, fixed, iters) && Ordered(e, xs) && CompleteBelow(e, n, mem, xs, fixed, iters) && PathsBelow(n, xs)
    decreases e, 0, n, 0
  {
    hide Sound, Complete, CompleteBelow, Ordered, PathsBelow, Agree;
    var child := e.exprs[n - 1];
    var before, xs := AllInstances(e, n - 1, mem), Instances(child, mem);
    assert AllInstances(e, n, mem) == before + Under(n - 1, xs);
    assert forall x :: x in xs ==> InDomainHere(e, n - 1, x.mem);
    assert IsInner(e, n - 1) && Static(child, fixed, iters) && Aligned(child, mem);
    hide Instances, AllInstances, Static, Aligned, InDomainHere, IsInner, Under;
    CompoundIsExact(e, n - 1, mem, fixed, iters);
    InstancesAreExact(child, mem, fixed, iters);
    assert Agree(mem, mem, fixed, iters) by { SameAgrees(mem, fixed, iters); }
    SoundUnder(e, n - 1, mem, mem, xs, fixed, iters, iters);
    SoundConcat(e, mem, before, Under(n - 1, xs), fixed, iters);
    OrderedUnder(e, n - 1, xs);
    ChildrenOrdered(e, n, before, xs);
    ChildComplete(e, n, mem, fixed, iters, before, xs);
  }

  lemma NothingBelow(e: Expr, mem: Memory, fixed: set<VarId>, iters: set<VarId>)
    requires e.Compound?
    ensures var xs := AllInstances(e, 0, mem);
            Sound(e, mem, xs, fixed, iters) && Ordered(e, xs) && CompleteBelow(e, 0, mem, xs, fixed, iters) && PathsBelow(0, xs)
  {
  }

  lemma SameAgrees(mem: Memory, fixed: set<VarId>, iters: set<VarId>)
    ensures Agree(mem, mem, fixed, iters)
  {
  }

  lemma WholeCompound(e: Expr, mem: Memory, xs: seq<Instance>, fixed: set<VarId>, iters: set<VarId>)
    requires e.Compound? && CompleteBelow(e, |e.exprs|, mem, xs, fixed, iters)
    ensures Complete(e, mem, xs, fixed, iters)
  {
  }

  lemma ChildrenOrdered(e: Expr, n: nat, before: seq<Instance>, xs: seq<Instance>)
    requires e.Compound? && 0 < n <= |e.exprs| && Ordered(e, before) && Ordered(e, Under(n - 1, xs)) && PathsBelow(n - 1, before)
    ensures Ordered(e, before + Under(n - 1, xs)) && PathsBelow(n, before + Under(n - 1, xs))
  {
    OrderedConcat(e, before, Under(n - 1, xs));
  }

  lemma ChildComplete(e: Expr, n: nat, mem: Memory, fixed: set<VarId>, iters: set<VarId>, before: seq<Instance>, xs: seq<Instance>)
    requires e.Compound? && 0 < n <= |e.exprs|
    requires CompleteBelow(e, n - 1, mem, before, fixed, iters) && Complete(e.exprs[n - 1], mem, xs, fixed, iters)
    ensures CompleteBelow(e, n, mem, before + Under(n - 1, xs), fixed, iters)
  {
    forall path, m | path != [] && path[0] < n && InDomain(e, path, m) && Agree(m, mem, fixed, iters)
      ensures Occurs(e, before + Under(n - 1, xs), path, m)
    {
      DomainUnder(e, path, m);
      if path[0] == n - 1 {
        assert path == [n - 1] + path[1..];
        OccursUnder(e, n - 1, xs, path[1..], m);
      }
      OccursLeft(e, before, Under(n - 1, xs), path, m);
    }
  }

  // Alignment cannot be dropped.

  /** Every iteration of every loop that is entered executes some statement. */
  ghost predicate Busy(e: Expr, mem: Memory)
    decreases e
  {
    match e
    case For(idx, lower, upper, increment, body) =>
      && increment.IntLit? && increment.value > 0
      && forall i :: InLoop(i, IntAt(lower, mem), IntAt(upper, mem), increment.value) ==>
           Instances(body, With(mem, idx, i)) != [] && Busy(body, With(mem, idx, i))
    case If(cond, t, f) => if TrueAt(cond, mem) then Busy(t, mem) else f.Some? ==> Busy(f.value, mem)
    case Compound(exprs) => forall k :: 0 <= k < |exprs| ==> Busy(exprs[k], mem)
    case _ => true
  }

  ghost predicate AllAgree(xs: seq<Instance>, mem: Memory, fixed: set<VarId>, iters: set<VarId>) {
    forall k :: 0 <= k < |xs| ==> Agree(xs[k].mem, mem, fixed, iters)
  }

  lemma {:induction false} InstancesAgree(e: Expr, mem: Memory, fixed: set<VarId>, iters: set<VarId>)
    requires Static(e, fixed, iters)
    ensures AllAgree(Instances(e, mem), mem, fixed, iters)
    decreases e, 1
  {
    match e
    case For(_, lower, _, _, _) => LoopAgrees(e, IntAt(lower, mem), mem, fixed, iters);
    case If(_, t, f) =>
      InstancesAgree(t, mem, fixed, iters);
      if f.Some? {
        InstancesAgree(f.value, mem, fixed, iters);
      }
    case Compound(exprs) => ChildrenAgree(e, |exprs|, mem, fixed, iters);
    case _ =>
  }

  lemma {:induction false} LoopAgrees(e: Expr, i: int, mem: Memory, fixed: set<VarId>, iters: set<VarId>)
    requires e.For? && Static(e, fixed, iters)
    ensures AllAgree(LoopFrom(e, i, mem), mem, fixed, iters)
    decreases e, 0, IntAt(e.upper, mem) - i
  {
    if i < IntAt(e.upper, mem) {
      InstancesAgree(e.body, With(mem, e.idx, i), fixed, iters + {e.idx});
      LoopAgrees(e, i + e.increment.value, mem, fixed, iters);
    }
  }

  lemma {:induction false} ChildrenAgree(e: Expr, n: nat, mem: Memory, fixed: set<VarId>, iters: set<VarId>)
    requires e.Compound? && n <= |e.exprs| && Static(e, fixed, iters)
    ensures AllAgree(AllInstances(e, n, mem), mem, fixed, iters)
    decreases e, 0, n
  {
    if n > 0 {
      ChildrenAgree(e, n - 1, mem, fixed, iters);
      InstancesAgree(e.exprs[n - 1], mem, fixed, iters);
    }
  }

  ghost predicate Includes(xs: seq<Instance>, ys: seq<Instance>) { forall k :: 0 <= k < |ys| ==> ys[k] in xs }

  /** The loop runs through all its iterations. */
  lemma {:induction false} LoopIncludes(e: Expr, j: int, i: int, mem: Memory)
    requires e.For? && e.increment.IntLit? && e.increment.value > 0 && j <= i < IntAt(e.upper, mem) && (i - j) % e.increment.value == 0
    ensures Includes(LoopFrom(e, j, mem), Under(3, Instances(e.body, With(mem, e.idx, i))))
    decreases i - j
  {
    var inc := e.increment.value;
    if j < i {
      NextMultiple(0, inc);
      SameResidue(i - j, inc, inc);
      LoopIncludes(e, j + inc, i, mem);
    }
  }

  lemma {:induction false} ChildrenInclude(e: Expr, k: nat, n: nat, mem: Memory)
    requires e.Compound? && k < n <= |e.exprs|
    ensures Includes(AllInstances(e, n, mem), Under(k, Instances(e.exprs[k], mem)))
  {
    if k < n - 1 {
      ChildrenInclude(e, k, n - 1, mem);
    }
  }

  /** What is sound for `e` is sound for its child. */
  lemma SoundInside(e: Expr, k: nat, mem: Memory, child: Memory, xs: seq<Instance>, ys: seq<Instance>, fixed: set<VarId>, iters: set<VarId>, iters': set<VarId>)
    requires Sound(e, mem, xs, fixed, iters) && Includes(xs, Under(k, ys)) && AllAgree(ys, child, fixed, iters') && k < |Children(e)|
    ensures Sound(Children(e)[k], child, ys, fixed, iters')
    ensures forall i :: 0 <= i < |ys| ==> InDomainHere(e, k, ys[i].mem)
  {
    forall i | 0 <= i < |ys|
      ensures InDomain(Children(e)[k], ys[i].path, ys[i].mem) && InDomainHere(e, k, ys[i].mem)
    {
      var x := Under(k, ys)[i];
      assert x in xs && x.path[1..] == ys[i].path;
      DomainUnder(e, x.path, x.mem);
    }
  }

  lemma {:induction false} SoundNeedsAligned(e: Expr, mem: Memory, fixed: set<VarId>, iters: set<VarId>)
    requires Static(e, fixed, iters) && Busy(e, mem) && Sound(e, mem, Instances(e, mem), fixed, iters)
    ensures Aligned(e, mem)
    decreases e
  {
    match e
    case For(_, lower, upper, increment, body) =>
      var l, u, inc := IntAt(lower, mem), IntAt(upper, mem), increment.value;
      if l < u {
        IterationIsSound(e, l, mem, fixed, iters);
      }
      forall i | InLoopDomain(i, l, u, inc)
        ensures Aligned(body, With(mem, e.idx, i))
      {
        SameResidue(i, l, inc);
        assert InLoop(i, l, u, inc);
        IterationIsSound(e, i, mem, fixed, iters);
        SoundNeedsAligned(body, With(mem, e.idx, i), fixed, iters + {e.idx});
      }
    case If(cond, t, f) =>
      var k := if TrueAt(cond, mem) then 1 else 2;
      if k < |Children(e)| {
        var ys := Instances(Children(e)[k], mem);
        InstancesAgree(Children(e)[k], mem, fixed, iters);
        SoundInside(e, k, mem, mem, Under(k, ys), ys, fixed, iters, iters);
        SoundNeedsAligned(Children(e)[k], mem, fixed, iters);
      }
    case Compound(exprs) =>
      forall k | 0 <= k < |exprs|
        ensures Aligned(exprs[k], mem)
      {
        ChildrenInclude(e, k, |exprs|, mem);
        InstancesAgree(exprs[k], mem, fixed, iters);
        SoundInside(e, k, mem, mem, Instances(e, mem), Instances(exprs[k], mem), fixed, iters, iters);
        SoundNeedsAligned(exprs[k], mem, fixed, iters);
      }
    case _ =>
  }

  /** An iteration whose instances are in their domains has an index divisible by the increment. */
  lemma IterationIsSound(e: Expr, i: int, mem: Memory, fixed: set<VarId>, iters: set<VarId>)
    requires e.For? && Static(e, fixed, iters) && Busy(e, mem) && Sound(e, mem, Instances(e, mem), fixed, iters)
    requires InLoop(i, IntAt(e.lower, mem), IntAt(e.upper, mem), e.increment.value)
    ensures i % e.increment.value == 0
    ensures Sound(e.body, With(mem, e.idx, i), Instances(e.body, With(mem, e.idx, i)), fixed, iters + {e.idx})
    ensures Busy(e.body, With(mem, e.idx, i))
  {
    var inner := With(mem, e.idx, i);
    var ys := Instances(e.body, inner);
    LoopIncludes(e, IntAt(e.lower, mem), i, mem);
    InstancesAgree(e.body, inner, fixed, iters + {e.idx});
    SoundInside(e, 3, mem, inner, Instances(e, mem), ys, fixed, iters, iters + {e.idx});
    assert Agree(ys[0].mem, inner, fixed, iters + {e.idx}) && InDomainHere(e, 3, ys[0].mem);
    assert Load(ys[0].mem, Scalar(e.idx)) == Load(inner, Scalar(e.idx)) == i;
  }

  /** For a nest in which every iteration does something, the domains describe what is executed
      exactly if all loops that are entered start at multiples of their increments. */
  lemma AlignmentIsNeeded(e: Expr, mem: Memory, fixed: set<VarId>, iters: set<VarId>)
    requires Static(e, fixed, iters) && Busy(e, mem)
    ensures Exact(e, mem, Instances(e, mem), fixed, iters) <==> Aligned(e, mem)
  {
    if Aligned(e, mem) {
      InstancesAreExact(e, mem, fixed, iters);
    } else if Sound(e, mem, Instances(e, mem), fixed, iters) {
      SoundNeedsAligned(e, mem, fixed, iters);
    }
  }
}
