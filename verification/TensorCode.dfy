/** Loop nests that store to one tensor only: what a run leaves in each of its elements. */
module TensorCode {
  import opened Wrappers
  import opened Qir
  import opened QirRun

  function LoopVars(e: Expr): set<VarId> {
    match e
    case For(idx, _, _, _, body) => {idx} + LoopVars(body)
    case Compound(exprs) => set k, v | 0 <= k < |exprs| && v in LoopVars(exprs[k]) :: v
    case _ => {}
  }

  function AllReads(e: Expr): set<VarId> {
    match e
    case For(_, lower, upper, _, body) => Reads(lower) + Reads(upper) + AllReads(body)
    case Compound(exprs) => set k, v | 0 <= k < |exprs| && v in AllReads(exprs[k]) :: v
    case Binary(_, Access(_, indices), rhs) => ReadsAll(indices) + Reads(rhs)
    case _ => {}
  }

  /** `e` assigns only to elements of `c`, reads none of them, and uses a loop variable only inside
      its loop; increments are positive literals. */
  predicate IsTensorCode(e: Expr, c: VarId) {
    match e
    case For(idx, lower, upper, increment, body) =>
      && increment.IntLit? && increment.value > 0
      && idx != c && idx !in LoopVars(body)
      && c !in Reads(lower) + Reads(upper) && (Reads(lower) + Reads(upper)) !! LoopVars(e)
      && IsTensorCode(body, c)
    case Compound(exprs) =>
      forall k :: 0 <= k < |exprs| ==>
        IsTensorCode(exprs[k], c) && AllReads(exprs[k]) * LoopVars(e) <= LoopVars(exprs[k])
    case Binary(op, Access(base, indices), rhs) =>
      (op.Assign? || op.PlusAssign?) && base == c && c !in ReadsAll(indices) && c !in Reads(rhs)
    case _ => false
  }

  predicate IsInt(v: Option<Value>) { v.Some? && v.value.Int? }

  /** All expressions met by a run from `mem` have values; `mem` supplies everything but the
      elements of the assigned tensor. */
  predicate Defined(e: Expr, mem: Memory)
    decreases e, 0, 1
  {
    match e
    case For(idx, lower, upper, increment, body) =>
      && IsInt(Eval(lower, mem)) && IsInt(Eval(upper, mem)) && increment.IntLit? && increment.value > 0
      && LoopDefined(idx, IntOf(Eval(lower, mem)), IntOf(Eval(upper, mem)), increment.value, body, mem)
    case Compound(exprs) => forall k :: 0 <= k < |exprs| ==> Defined(exprs[k], mem)
    case Binary(_, Access(_, indices), rhs) => EvalIndices(indices, mem).Some? && IsInt(Eval(rhs, mem))
    case _ => false
  }

  predicate LoopDefined(idx: VarId, i: int, u: int, inc: int, body: Expr, mem: Memory)
    requires inc > 0
    decreases body, 1, u - i
  {
    i < u ==> Defined(body, mem[Scalar(idx) := i]) && LoopDefined(idx, i + inc, u, inc, body, mem)
  }

  /** Value of element `t` after a run of `e` that starts with `cur` in it. */
  function Final(e: Expr, t: seq<int>, mem: Memory, cur: int): int
    decreases e, 0, 1
  {
    match e
    case For(idx, lower, upper, increment, body) =>
      if increment.IntLit? && increment.value > 0 then
        LoopFinal(idx, IntOf(Eval(lower, mem)), IntOf(Eval(upper, mem)), increment.value, body, t, mem, cur)
      else cur
    case Compound(exprs) => FinalAll(e, |exprs|, t, mem, cur)
    case Binary(op, Access(_, indices), rhs) =>
      if EvalIndices(indices, mem) != Some(t) then cur
      else if op.Assign? then IntOf(Eval(rhs, mem))
      else cur + IntOf(Eval(rhs, mem))
    case _ => cur
  }

  function LoopFinal(idx: VarId, i: int, u: int, inc: int, body: Expr, t: seq<int>, mem: Memory, cur: int): int
    requires inc > 0
    decreases body, 1, u - i
  {
    if i >= u then cur
    else LoopFinal(idx, i + inc, u, inc, body, t, mem, Final(body, t, mem[Scalar(idx) := i], cur))
  }

  function FinalAll(e: Expr, k: nat, t: seq<int>, mem: Memory, cur: int): int
    requires e.Compound? && k <= |e.exprs|
    decreases e, 0, 0, k
  {
    if k == 0 then cur else Final(e.exprs[k - 1], t, mem, FinalAll(e, k - 1, t, mem, cur))
  }

  /** Enough fuel for a complete run. */
  function FuelFor(e: Expr, mem: Memory): nat
    decreases e, 0, 1
  {
    match e
    case For(idx, lower, upper, increment, body) =>
      if increment.IntLit? && increment.value > 0 then
        LoopFuel(idx, IntOf(Eval(lower, mem)), IntOf(Eval(upper, mem)), increment.value, body, mem)
      else 0
    case Compound(exprs) => FuelForAll(e, |exprs|, mem)
    case _ => 0
  }

  function LoopFuel(idx: VarId, i: int, u: int, inc: int, body: Expr, mem: Memory): nat
    requires inc > 0
    decreases body, 1, u - i
  {
    if i >= u then 0
    else 1 + FuelFor(body, mem[Scalar(idx) := i]) + LoopFuel(idx, i + inc, u, inc, body, mem)
  }

  function FuelForAll(e: Expr, k: nat, mem: Memory): nat
    requires e.Compound? && k <= |e.exprs|
    decreases e, 0, 0, k
  {
    if k == 0 then 0 else FuelFor(e.exprs[k - 1], mem) + FuelForAll(e, k - 1, mem)
  }

  // Runs compute `Final`.

  predicate IsScalarOf(l: Location, vs: set<VarId>) {
    l.Location? && l.indices == [] && l.base in vs
  }

  predicate IsElementOf(l: Location, c: VarId) {
    l.Location? && l.base == c
  }

  /** The real memory agrees with the reference memory on everything `e` reads from outside. */
  ghost predicate Agrees(now: Memory, mem: Memory, e: Expr) {
    forall l: Location :: l.Dimension? || (l.base in AllReads(e) && !IsScalarOf(l, LoopVars(e))) ==> Load(now, l) == Load(mem, l)
  }

  /** From `now` to `after`, elements of `c` change as `value` says, and apart from them only the
      loop variables `vs` do. */
  ghost predicate Stores(c: VarId, vs: set<VarId>, now: Memory, after: Memory, value: seq<int> -> int) {
    && (forall t :: Load(after, Location(c, t)) == value(t))
    && (forall l: Location :: !IsElementOf(l, c) && !IsScalarOf(l, vs) ==> Load(after, l) == Load(now, l))
  }

  ghost predicate Computes(run: Run, e: Expr, c: VarId, now: Memory, mem: Memory) {
    && run.outcome.Done?
    && Stores(c, LoopVars(e), now, run.outcome.mem, t => Final(e, t, mem, Load(now, Location(c, t))))
  }

  lemma {:induction false} ExecComputes(fuel: nat, e: Expr, c: VarId, path: Path, now: Memory, mem: Memory)
    requires IsTensorCode(e, c) && Defined(e, mem) && Agrees(now, mem, e) && fuel >= FuelFor(e, mem)
    ensures Computes(Exec(fuel, e, path, now), e, c, now, mem)
    decreases e, fuel, 1
  {
    match e
    case For(_, _, _, _, _) => ForComputes(fuel, e, c, path, now, mem);
    case Compound(_) => CompoundComputes(fuel, e, c, 0, path, now, now, mem);
    case _ => AssignComputes(fuel, e, c, path, now, mem);
  }

  lemma AssignComputes(fuel: nat, e: Expr, c: VarId, path: Path, now: Memory, mem: Memory)
    requires e.Binary? && IsTensorCode(e, c) && Defined(e, mem) && Agrees(now, mem, e)
    ensures Computes(Exec(fuel, e, path, now), e, c, now, mem)
  {
    EvalIndicesSame(e.lhs.indices, now, mem);
    EvalSame(e.rhs, now, mem);
  }

  lemma {:induction false} ForComputes(fuel: nat, e: Expr, c: VarId, path: Path, now: Memory, mem: Memory)
    requires e.For? && IsTensorCode(e, c) && Defined(e, mem) && Agrees(now, mem, e) && fuel >= FuelFor(e, mem)
    ensures Computes(Exec(fuel, e, path, now), e, c, now, mem)
    decreases e, fuel, 0
  {
    EvalAgrees(e.lower, now, mem, e);
    EvalAgrees(e.upper, now, mem, e);
    var l, u := IntOf(Eval(e.lower, mem)), IntOf(Eval(e.upper, mem));
    LoopComputes(fuel, e, c, path + [3], now[Scalar(e.idx) := l], mem, l, u);
  }

  lemma EvalAgrees(x: Expr, now: Memory, mem: Memory, e: Expr)
    requires Agrees(now, mem, e) && Reads(x) <= AllReads(e) && Reads(x) !! LoopVars(e)
    ensures Eval(x, now) == Eval(x, mem)
  {
    EvalSame(x, now, mem);
  }

  lemma {:induction false} LoopComputes(fuel: nat, e: Expr, c: VarId, path: Path, now: Memory, mem: Memory, i: int, u: int)
    requires e.For? && IsTensorCode(e, c)
    requires LoopDefined(e.idx, i, u, e.increment.value, e.body, mem)
    requires Agrees(now, mem, e) && Load(now, Scalar(e.idx)) == i
    requires fuel >= LoopFuel(e.idx, i, u, e.increment.value, e.body, mem)
    ensures var run := Loop(fuel, e.idx, u, e.increment.value, e.body, path, now);
            && run.outcome.Done?
            && Stores(c, LoopVars(e), now, run.outcome.mem,
                      t => LoopFinal(e.idx, i, u, e.increment.value, e.body, t, mem, Load(now, Location(c, t))))
    decreases e.body, fuel, 2
  {
    if i < u {
      IterationComputes(fuel - 1, e, c, path, now, mem, i);
      var after := Exec(fuel - 1, e.body, path, now).outcome.mem;
      var next := after[Scalar(e.idx) := Load(after, Scalar(e.idx)) + e.increment.value];
      LoopComputes(fuel - 1, e, c, path, next, mem, i + e.increment.value, u);
    }
  }

  lemma {:induction false} IterationComputes(fuel: nat, e: Expr, c: VarId, path: Path, now: Memory, mem: Memory, i: int)
    requires e.For? && IsTensorCode(e, c) && Defined(e.body, mem[Scalar(e.idx) := i])
    requires Agrees(now, mem, e) && Load(now, Scalar(e.idx)) == i
    requires fuel >= FuelFor(e.body, mem[Scalar(e.idx) := i])
    ensures var once := Exec(fuel, e.body, path, now);
            && once.outcome.Done?
            && Load(once.outcome.mem, Scalar(e.idx)) == i
            && var next := once.outcome.mem[Scalar(e.idx) := i + e.increment.value];
               && Agrees(next, mem, e)
               && Stores(c, LoopVars(e), now, next, t => Final(e.body, t, mem[Scalar(e.idx) := i], Load(now, Location(c, t))))
    decreases e.body, fuel, 2
  {
    var inner := mem[Scalar(e.idx) := i];
    assert Agrees(now, inner, e.body);
    ExecComputes(fuel, e.body, c, path, now, inner);
    NeverReads(e, c);
  }

  lemma {:induction false} CompoundComputes(fuel: nat, e: Expr, c: VarId, k: nat, path: Path, start: Memory, now: Memory, mem: Memory)
    requires e.Compound? && IsTensorCode(e, c) && Defined(e, mem) && k <= |e.exprs|
    requires Agrees(start, mem, e) && fuel >= FuelFor(e, mem)
    requires Stores(c, LoopVars(e), start, now, t => FinalAll(e, k, t, mem, Load(start, Location(c, t))))
    ensures var run := ExecAll(fuel, e.exprs, k, path, now);
            && run.outcome.Done?
            && Stores(c, LoopVars(e), start, run.outcome.mem,
                      t => FinalAll(e, |e.exprs|, t, mem, Load(start, Location(c, t))))
    decreases e, fuel, 0, |e.exprs| - k
  {
    if k < |e.exprs| {
      var child := e.exprs[k];
      FuelOfChild(e, |e.exprs|, k, mem);
      assert AllReads(child) <= AllReads(e) && LoopVars(child) <= LoopVars(e);
      assert c !in AllReads(e) by { NeverReads(e, c); }
      assert Agrees(now, mem, child);
      ExecComputes(fuel, child, c, path + [k], now, mem);
      var after := Exec(fuel, child, path + [k], now).outcome.mem;
      CompoundComputes(fuel, e, c, k + 1, path, start, after, mem);
    }
  }

  lemma {:induction false} NeverReads(e: Expr, c: VarId)
    requires IsTensorCode(e, c)
    ensures c !in AllReads(e)
  {
    match e
    case For(_, _, _, _, body) => NeverReads(body, c);
    case Compound(exprs) =>
      forall k | 0 <= k < |exprs|
        ensures c !in AllReads(exprs[k])
      {
        NeverReads(exprs[k], c);
      }
    case _ =>
  }

  lemma {:induction false} FuelOfChild(e: Expr, n: nat, k: nat, mem: Memory)
    requires e.Compound? && k < n <= |e.exprs|
    ensures FuelFor(e.exprs[k], mem) <= FuelForAll(e, n, mem)
  {
    if k < n - 1 {
      FuelOfChild(e, n - 1, k, mem);
    }
  }
}
