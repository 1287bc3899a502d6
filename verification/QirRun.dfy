/** Running QIR code, with a record of every evaluation.

    Expressions are identified by their path from the root.  `fuel` bounds the number of loop
    iterations; what holds for all fuel holds for every prefix of every run, endless or not. */
module QirRun {
  import opened Wrappers
  import opened Qir

  type Path = seq<nat>

  predicate IsSubexpression(e: Expr, path: Path) {
    path == [] || (path[0] < |Children(e)| && IsSubexpression(Children(e)[path[0]], path[1..]))
  }

  function Subexpression(e: Expr, path: Path): Expr
    requires IsSubexpression(e, path)
  {
    if path == [] then e else Subexpression(Children(e)[path[0]], path[1..])
  }

  /** The expression at `path` was reached with memory `mem`. */
  datatype Event = Event(path: Path, mem: Memory)

  /** A run ends, gets stuck in an undefined operation, or is cut off. */
  datatype Outcome = Done(mem: Memory) | Stuck | CutOff

  datatype Run = Run(events: seq<Event>, outcome: Outcome)

  /** An expression without statements in it. */
  predicate Pure(e: Expr) {
    match e
    case IntLit(_) => true
    case BoolLit(_) => true
    case Access(_, indices) => forall k :: 0 <= k < |indices| ==> Pure(indices[k])
    case Binary(op, a, b) => !op.Assign? && !op.PlusAssign? && Pure(a) && Pure(b)
    case Unary(_, a) => Pure(a)
    case Extent(_, _) => true
    case Delta(_, a, b) => Pure(a) && Pure(b)
    case _ => false
  }

  /** Evaluating `e` reaches all its subexpressions with the same memory. */
  function Evaluations(e: Expr, path: Path, mem: Memory): seq<Event>
    decreases e, 1, 0
  {
    [Event(path, mem)] + ChildEvaluations(e, |Children(e)|, path, mem)
  }

  function ChildEvaluations(e: Expr, k: nat, path: Path, mem: Memory): seq<Event>
    requires k <= |Children(e)|
    decreases e, 0, k
  {
    if k == 0 then []
    else ChildEvaluations(e, k - 1, path, mem) + Evaluations(Children(e)[k - 1], path + [k - 1], mem)
  }

  function Prefixed(events: seq<Event>, run: Run): Run {
    Run(events + run.events, run.outcome)
  }

  function Scalar(v: VarId): Location { Location(v, []) }

  function With(mem: Memory, v: VarId, value: int): Memory { mem[Scalar(v) := value] }

  lemma RefValue(v: VarId, mem: Memory)
    ensures Eval(Ref(v), mem) == Some(Int(Load(mem, Scalar(v))))
  {
    assert EvalIndices([], mem) == Some([]);
  }

  function Exec(fuel: nat, e: Expr, path: Path, mem: Memory): Run
    decreases e, fuel, 1
  {
    match e
    case For(idx, lower, upper, increment, body) =>
      var head := [Event(path, mem)] + Evaluations(increment, path + [2], mem) +
                  Evaluations(lower, path + [0], mem) + Evaluations(upper, path + [1], mem);
      (match (Eval(lower, mem), Eval(upper, mem), Eval(increment, mem))
       case (Some(Int(l)), Some(Int(u)), Some(Int(inc))) =>
         Prefixed(head, Loop(fuel, idx, u, inc, body, path + [3], mem[Scalar(idx) := l]))
       case _ => Run(head, Stuck))
    case If(cond, t, f) =>
      var head := [Event(path, mem)] + Evaluations(cond, path + [0], mem);
      (match Eval(cond, mem)
       case Some(Bool(true)) => Prefixed(head, Exec(fuel, t, path + [1], mem))
       case Some(Bool(false)) =>
         if f.Some? then Prefixed(head, Exec(fuel, f.value, path + [2], mem)) else Run(head, Done(mem))
       case _ => Run(head, Stuck))
    case Compound(exprs) => Prefixed([Event(path, mem)], ExecAll(fuel, exprs, 0, path, mem))
    case Binary(Assign, Access(base, indices), rhs) =>
      Run(Evaluations(e, path, mem),
          match (EvalIndices(indices, mem), Eval(rhs, mem))
          case (Some(vs), Some(Int(v))) => Done(mem[Location(base, vs) := v])
          case _ => Stuck)
    case Binary(PlusAssign, Access(base, indices), rhs) =>
      Run(Evaluations(e, path, mem),
          match (EvalIndices(indices, mem), Eval(rhs, mem))
          case (Some(vs), Some(Int(v))) => Done(mem[Location(base, vs) := Load(mem, Location(base, vs)) + v])
          case _ => Stuck)
    case _ => Run(Evaluations(e, path, mem), if Eval(e, mem).Some? then Done(mem) else Stuck)
  }

  /** The emitted loop: the header reads the induction variable and compares it with the bound
      computed before the loop; after the body the variable is read again and incremented. */
  function Loop(fuel: nat, idx: VarId, upper: int, inc: int, body: Expr, path: Path, mem: Memory): Run
    decreases body, fuel, 2
  {
    if Load(mem, Scalar(idx)) >= upper then Run([], Done(mem))
    else if fuel == 0 then Run([], CutOff)
    else
      var once := Exec(fuel - 1, body, path, mem);
      if once.outcome.Done? then
        var mem' := once.outcome.mem;
        Prefixed(once.events,
                 Loop(fuel - 1, idx, upper, inc, body, path, mem'[Scalar(idx) := Load(mem', Scalar(idx)) + inc]))
      else once
  }

  function ExecAll(fuel: nat, exprs: seq<Expr>, k: nat, path: Path, mem: Memory): Run
    requires k <= |exprs|
    decreases exprs, fuel, |exprs| - k
  {
    if k == |exprs| then Run([], Done(mem))
    else
      var first := Exec(fuel, exprs[k], path + [k], mem);
      if first.outcome.Done? then Prefixed(first.events, ExecAll(fuel, exprs, k + 1, path, first.outcome.mem))
      else first
  }

  /** Variables that running `e` may store to. */
  function Writes(e: Expr): set<VarId> {
    match e
    case For(idx, _, _, _, body) => {idx} + Writes(body)
    case If(_, t, None) => Writes(t)
    case If(_, t, Some(f)) => Writes(t) + Writes(f)
    case Compound(exprs) => set k, v | 0 <= k < |exprs| && v in Writes(exprs[k]) :: v
    case Binary(op, Access(base, _), _) => if op.Assign? || op.PlusAssign? then {base} else {}
    case _ => {}
  }
}
