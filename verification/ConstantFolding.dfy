/** Folding of constant integer expressions. */
module ConstantFolding {
  import opened Wrappers
  import opened Division
  import opened Qir
  import opened QirRun

  /** The formula `fold_impl` uses for `div_floor`. */
  function FoldedDivFloor(i1: int, i2: int): int
    requires i2 != 0
  {
    var quotient, remainder := Quotient(i1, i2), Remainder(i1, i2);
    var isExactOrPositive := remainder == 0 || ((remainder < 0) == (quotient < 0));
    if isExactOrPositive then quotient else quotient - 1
  }

  /** One node whose children are already folded.  Dividing a literal by the literal zero is
      undefined in the program; here such a node is left alone. */
  function FoldImpl(e: Expr): Expr {
    match e
    case Binary(op, IntLit(i1), IntLit(i2)) =>
      (match op
       case Plus => IntLit(i1 + i2)
       case Minus => IntLit(i1 - i2)
       case Multiplies => IntLit(i1 * i2)
       case Divides => if i2 == 0 then e else IntLit(Quotient(i1, i2))
       case Modulus => if i2 == 0 then e else IntLit(Remainder(i1, i2))
       case DivFloor => if i2 == 0 then e else IntLit(FoldedDivFloor(i1, i2))
       case _ => e)
    case Unary(op, IntLit(i)) =>
      (match op
       case Identity => IntLit(i)
       case Negate => IntLit(-i)
       case _ => e)
    case _ => e
  }

  function FoldConstants(e: Expr): Expr {
    FoldImpl(
      match e
      case IntLit(_) => e
      case BoolLit(_) => e
      case Access(base, indices) => Access(base, FoldAll(indices))
      case Binary(op, a, b) => Binary(op, FoldConstants(a), FoldConstants(b))
      case Unary(op, a) => Unary(op, FoldConstants(a))
      case For(idx, lower, upper, increment, body) =>
        For(idx, FoldConstants(lower), FoldConstants(upper), FoldConstants(increment), FoldConstants(body))
      case If(cond, t, None) => If(FoldConstants(cond), FoldConstants(t), None)
      case If(cond, t, Some(f)) => If(FoldConstants(cond), FoldConstants(t), Some(FoldConstants(f)))
      case Compound(exprs) => Compound(FoldAll(exprs))
      case Extent(_, _) => e
      case Delta(n, a, b) => Delta(n, FoldConstants(a), FoldConstants(b)))
  }

  function FoldAll(es: seq<Expr>): (r: seq<Expr>)
    ensures |r| == |es| && forall k :: 0 <= k < |es| ==> r[k] == FoldConstants(es[k])
  {
    if es == [] then [] else [FoldConstants(es[0])] + FoldAll(es[1..])
  }

  /** `fold_constant_expressions`, which collects the folded children in a loop. */
  method FoldConstantExpressions(e: Expr) returns (r: Expr)
    ensures r == FoldConstants(e)
    decreases e
  {
    var children := Children(e);
    var simplified: seq<Expr> := [];
    for k := 0 to |children|
      invariant |simplified| == k
      invariant forall j :: 0 <= j < k ==> simplified[j] == FoldConstants(children[j])
    {
      var child := FoldConstantExpressions(children[k]);
      simplified := simplified + [child];
    }
    var newExpr := SubstituteSubexpressions(e, simplified);
    r := FoldImpl(newExpr);
  }

  function SubstituteSubexpressions(e: Expr, cs: seq<Expr>): (r: Expr)
    requires |cs| == |Children(e)|
    ensures Children(r) == cs
  {
    match e
    case IntLit(_) => e
    case BoolLit(_) => e
    case Access(base, _) => Access(base, cs)
    case Binary(op, _, _) => Binary(op, cs[0], cs[1])
    case Unary(op, _) => Unary(op, cs[0])
    case For(idx, _, _, _, _) => For(idx, cs[0], cs[1], cs[2], cs[3])
    case If(_, _, None) => If(cs[0], cs[1], None)
    case If(_, _, Some(_)) => If(cs[0], cs[1], Some(cs[2]))
    case Compound(_) => Compound(cs)
    case Extent(_, _) => e
    case Delta(n, _, _) => Delta(n, cs[0], cs[1])
  }

  // Folding keeps the value.

  lemma FoldImplPreserves(e: Expr, mem: Memory)
    requires Eval(e, mem).Some?
    ensures Eval(FoldImpl(e), mem) == Eval(e, mem)
  {
  }

  lemma {:induction false} FoldPreserves(e: Expr, mem: Memory)
    requires Eval(e, mem).Some?
    ensures Eval(FoldConstants(e), mem) == Eval(e, mem)
    decreases e
  {
    match e
    case Access(base, indices) => FoldAllPreserves(indices, mem);
    case Binary(op, a, b) =>
      FoldPreserves(a, mem);
      FoldPreserves(b, mem);
      FoldImplPreserves(Binary(op, FoldConstants(a), FoldConstants(b)), mem);
    case Unary(op, a) =>
      FoldPreserves(a, mem);
      FoldImplPreserves(Unary(op, FoldConstants(a)), mem);
    case Delta(_, a, b) => FoldPreserves(a, mem); FoldPreserves(b, mem);
    case _ =>
  }

  lemma {:induction false} FoldAllPreserves(es: seq<Expr>, mem: Memory)
    requires EvalIndices(es, mem).Some?
    ensures EvalIndices(FoldAll(es), mem) == EvalIndices(es, mem)
    decreases es
  {
    if es != [] {
      FoldPreserves(es[0], mem);
      FoldAllPreserves(es[1..], mem);
      assert FoldAll(es)[1..] == FoldAll(es[1..]);
    }
  }

  // Folding keeps what a program does.

  /** Wherever a run of the program is not stuck, the folded program ends in the same way. */
  lemma {:induction false} FoldKeepsOutcome(fuel: nat, e: Expr, path: Path, mem: Memory)
    requires Exec(fuel, e, path, mem).outcome != Stuck
    ensures Exec(fuel, FoldConstants(e), path, mem).outcome == Exec(fuel, e, path, mem).outcome
    decreases e, fuel, 1
  {
    hide Eval, Loop, ExecAll, Evaluations;
    match e
    case For(idx, lower, upper, increment, body) =>
      FoldPreserves(lower, mem);
      FoldPreserves(upper, mem);
      FoldPreserves(increment, mem);
      var l, u, inc := IntAt(lower, mem), IntAt(upper, mem), IntAt(increment, mem);
      FoldKeepsLoop(fuel, idx, u, inc, body, path + [3], mem[Scalar(idx) := l]);
    case If(cond, t, f) =>
      FoldPreserves(cond, mem);
      if Eval(cond, mem) == Some(Bool(true)) {
        FoldKeepsOutcome(fuel, t, path + [1], mem);
      } else if f.Some? {
        FoldKeepsOutcome(fuel, f.value, path + [2], mem);
      }
    case Compound(exprs) => FoldKeepsAll(fuel, exprs, 0, path, mem);
    case _ => FoldKeepsStatement(fuel, e, path, mem);
  }

  lemma FoldKeepsStatement(fuel: nat, e: Expr, path: Path, mem: Memory)
    requires !e.For? && !e.If? && !e.Compound? && Exec(fuel, e, path, mem).outcome != Stuck
    ensures Exec(fuel, FoldConstants(e), path, mem).outcome == Exec(fuel, e, path, mem).outcome
  {
    if e.Binary? && (e.op.Assign? || e.op.PlusAssign?) {
      hide Eval, EvalIndices;
      var Access(base, indices) := e.lhs;
      assert FoldConstants(e) == Binary(e.op, Access(base, FoldAll(indices)), FoldConstants(e.rhs));
      hide FoldConstants, FoldAll;
      FoldAllPreserves(indices, mem);
      FoldPreserves(e.rhs, mem);
    } else {
      FoldKeepsValue(fuel, e, path, mem);
    }
  }

  lemma FoldKeepsValue(fuel: nat, e: Expr, path: Path, mem: Memory)
    requires !e.For? && !e.If? && !e.Compound? && !(e.Binary? && (e.op.Assign? || e.op.PlusAssign?))
    requires Eval(e, mem).Some?
    ensures Exec(fuel, FoldConstants(e), path, mem).outcome == Done(mem)
  {
    FoldPreserves(e, mem);
    var folded := FoldConstants(e);
    assert !folded.For? && !folded.If? && !folded.Compound? && !(folded.Binary? && (folded.op.Assign? || folded.op.PlusAssign?));
    hide FoldConstants, Eval;
  }

  lemma {:induction false} FoldKeepsLoop(fuel: nat, idx: VarId, u: int, inc: int, body: Expr, path: Path, mem: Memory)
    requires Loop(fuel, idx, u, inc, body, path, mem).outcome != Stuck
    ensures Loop(fuel, idx, u, inc, FoldConstants(body), path, mem).outcome == Loop(fuel, idx, u, inc, body, path, mem).outcome
    decreases body, fuel, 2
  {
    hide Exec, FoldConstants;
    if Load(mem, Scalar(idx)) < u && fuel > 0 {
      var once := Exec(fuel - 1, body, path, mem);
      FoldKeepsOutcome(fuel - 1, body, path, mem);
      if once.outcome.Done? {
        var mem' := once.outcome.mem;
        FoldKeepsLoop(fuel - 1, idx, u, inc, body, path, mem'[Scalar(idx) := Load(mem', Scalar(idx)) + inc]);
      }
    }
  }

  lemma {:induction false} FoldKeepsAll(fuel: nat, exprs: seq<Expr>, k: nat, path: Path, mem: Memory)
    requires k <= |exprs| && ExecAll(fuel, exprs, k, path, mem).outcome != Stuck
    ensures ExecAll(fuel, FoldAll(exprs), k, path, mem).outcome == ExecAll(fuel, exprs, k, path, mem).outcome
    decreases exprs, fuel, |exprs| - k
  {
    if k < |exprs| {
      var first := Exec(fuel, exprs[k], path + [k], mem);
      FoldKeepsOutcome(fuel, exprs[k], path + [k], mem);
      if first.outcome.Done? {
        FoldKeepsAll(fuel, exprs, k + 1, path, first.outcome.mem);
      }
    }
  }

  // Literals.

  /** An expression over literals alone folds to its value. */
  predicate Constant(e: Expr) {
    match e
    case IntLit(_) => true
    case Binary(op, a, b) => (op.Plus? || op.Minus? || op.Multiplies? || op.Divides? || op.Modulus? || op.DivFloor?) && Constant(a) && Constant(b)
    case Unary(op, a) => !op.LogicalNot? && Constant(a)
    case _ => false
  }

  lemma {:induction false} ConstantFoldsToValue(e: Expr, mem: Memory)
    requires Constant(e) && Eval(e, mem).Some?
    ensures Eval(e, mem).value.Int? && FoldConstants(e) == IntLit(Eval(e, mem).value.i)
  {
    match e
    case IntLit(_) =>
    case Binary(_, a, b) => ConstantFoldsToValue(a, mem); ConstantFoldsToValue(b, mem);
    case Unary(_, a) => ConstantFoldsToValue(a, mem);
  }

  // Nothing is left to fold.

  /** An operation on literals that has a value. */
  predicate IsFoldable(e: Expr) {
    match e
    case Binary(op, IntLit(_), IntLit(i2)) =>
      op.Plus? || op.Minus? || op.Multiplies? || (i2 != 0 && (op.Divides? || op.Modulus? || op.DivFloor?))
    case Unary(op, IntLit(_)) => !op.LogicalNot?
    case _ => false
  }

  /** No expression in `e`, on whatever level, is foldable. */
  predicate IsFolded(e: Expr) {
    !IsFoldable(e) && forall k :: 0 <= k < |Children(e)| ==> IsFolded(Children(e)[k])
  }

  lemma {:induction false} NothingIsLeftToFold(e: Expr)
    ensures IsFolded(FoldConstants(e))
  {
    var children := Children(e);
    var simplified := seq(|children|, k requires 0 <= k < |children| => FoldConstants(children[k]));
    forall k | 0 <= k < |children|
      ensures IsFolded(simplified[k])
    {
      NothingIsLeftToFold(children[k]);
    }
    SubstituteIsFolded(e, simplified);
    ChildrenAreFolded(e, simplified);
  }

  lemma ChildrenAreFolded(e: Expr, simplified: seq<Expr>)
    requires |simplified| == |Children(e)| && forall k :: 0 <= k < |simplified| ==> simplified[k] == FoldConstants(Children(e)[k])
    ensures FoldConstants(e) == FoldImpl(SubstituteSubexpressions(e, simplified))
  {
    match e
    case Access(_, indices) => assert FoldAll(indices) == simplified;
    case Compound(exprs) => assert FoldAll(exprs) == simplified;
    case _ =>
  }

  lemma SubstituteIsFolded(e: Expr, simplified: seq<Expr>)
    requires |simplified| == |Children(e)| && forall k :: 0 <= k < |simplified| ==> IsFolded(simplified[k])
    ensures IsFolded(FoldImpl(SubstituteSubexpressions(e, simplified)))
  {
    var r := SubstituteSubexpressions(e, simplified);
    if IsFoldable(r) {
      assert FoldImpl(r).IntLit?;
    } else {
      assert FoldImpl(r) == r;
    }
  }

  /** Where nothing is foldable, folding changes nothing; so folding twice is folding once. */
  lemma {:induction false} FoldedStays(e: Expr)
    requires IsFolded(e)
    ensures FoldConstants(e) == e
  {
    var children := Children(e);
    forall k | 0 <= k < |children|
      ensures FoldConstants(children[k]) == children[k]
    {
      FoldedStays(children[k]);
    }
    ChildrenAreFolded(e, children);
    assert SubstituteSubexpressions(e, children) == e;
  }

  // What `div_floor` computes.

  /** The greatest integer not above the exact quotient. */
  function Floor(a: int, b: int): (q: int)
    requires b != 0
    ensures b > 0 ==> q * b <= a < q * b + b
    ensures b < 0 ==> q * b >= a > q * b + b
  {
    if b > 0 then a / b else -a / -b
  }

  /** Dividing the negation rounds the other way. */
  lemma NegatedDivision(n: int, d: int)
    requires n >= 0 && d > 0
    ensures -n / d == if n % d == 0 then -(n / d) else -(n / d) - 1
  {
    var q, r := n / d, n % d;
    assert n == q * d + r;
    if r == 0 {
      assert -n == (-q) * d + 0;
      DivisionIsUnique(-n, d, -q, 0);
    } else {
      assert (-q - 1) * d == -(q * d) - d;
      DivisionIsUnique(-n, d, -q - 1, d - r);
    }
  }

  /** A quotient of naturals is zero exactly if the dividend is the smaller one. */
  lemma QuotientSize(n: int, d: int)
    requires n >= 0 && d > 0
    ensures n / d >= 0 && (n / d == 0 <==> n < d)
    ensures n - d * (n / d) == n % d && 0 <= n % d < d
  {
    if n < d {
      DivisionIsUnique(n, d, 0, n);
    }
  }

  /** Operands for which `div_floor` is not the floor, always with an inexact quotient: two
      negative ones, a negative dividend larger in magnitude than a positive divisor, or a
      positive dividend smaller in magnitude than a negative divisor. */
  predicate MissesFloor(a: int, b: int)
    requires b != 0
  {
    && a % b != 0
    && ((a < 0 && b < 0) || (a < 0 && b > 0 && -a > b) || (a > 0 && b < 0 && a < -b))
  }

  function Magnitude(a: int): int { if a >= 0 then a else -a }

  /** The truncated remainder is that of the magnitudes, with the sign of the dividend. */
  lemma RemainderOfMagnitudes(a: int, b: int)
    requires b != 0
    ensures Remainder(a, b) == if a >= 0 then Magnitude(a) % Magnitude(b) else -(Magnitude(a) % Magnitude(b))
  {
    var n, d := Magnitude(a), Magnitude(b);
    QuotientSize(n, d);
    var k := n / d;
    assert b * -k == -(b * k);
    assert d * k == b * k || d * k == -(b * k);
  }

  lemma ExactnessOfMagnitudes(a: int, b: int)
    requires b != 0
    ensures a % b == 0 <==> Magnitude(a) % Magnitude(b) == 0
  {
    var n, d := Magnitude(a), Magnitude(b);
    if n % d == 0 {
      var k := n / d;
      assert n == d * k;
      var q := if (a >= 0) == (b > 0) then k else -k;
      assert a == b * q;
      ExactDivision(a, b, q);
    }
    if a % b == 0 {
      assert a == b * (a / b);
      ExactMagnitude(a, b, a / b);
    }
  }

  lemma ExactDivision(a: int, b: int, q: int)
    requires b != 0 && a == b * q
    ensures a % b == 0
  {
    var q', r' := a / b, a % b;
    assert a == b * q' + r';
    assert r' == b * (q - q');
    if q - q' != 0 {
      var k, d := if q > q' then q - q' else q' - q, if b > 0 then b else -b;
      assert k * d == r' || k * d == -r';
      AtLeastOnce(k, d);
    }
  }

  lemma ExactMagnitude(a: int, b: int, q: int)
    requires b != 0 && a == b * q
    ensures Magnitude(a) % Magnitude(b) == 0
  {
    var n, d := Magnitude(a), Magnitude(b);
    var k := if (a >= 0) == (b > 0) then q else -q;
    assert n == d * k;
    ExactDivision(n, d, k);
  }

  /** `q` and `r` stand for the truncated quotient and remainder, `f` for the floor. */
  lemma FloorFromTruncation(a: int, b: int, q: int, r: int, f: int, exact: bool)
    requires (a == 0 || -a == b ==> exact) && b != 0 && (r == 0 <==> exact) && (!exact ==> (r < 0) == (a < 0))
    requires (a >= 0) == (b > 0) ==> q >= 0 && f == q && (q == 0 <==> (if a >= 0 then a < b else -a < -b))
    requires (a >= 0) != (b > 0) ==> q <= 0 && f == (if exact then q else q - 1) && (q == 0 <==> (if a >= 0 then a < -b else -a < b))
    ensures var folded := if r == 0 || ((r < 0) == (q < 0)) then q else q - 1;
            && (folded == f <==> exact || !((a < 0 && b < 0) || (a < 0 && b > 0 && -a > b) || (a > 0 && b < 0 && a < -b)))
            && f - 1 <= folded <= f + 1
  {
  }

  lemma DivFloorIsFloor(a: int, b: int)
    requires b != 0
    ensures FoldedDivFloor(a, b) == EmittedDivFloor(a, b)
    ensures FoldedDivFloor(a, b) == Floor(a, b) <==> !MissesFloor(a, b)
    ensures Floor(a, b) - 1 <= FoldedDivFloor(a, b) <= Floor(a, b) + 1
  {
    var n, d := Magnitude(a), Magnitude(b);
    QuotientSize(n, d);
    RemainderOfMagnitudes(a, b);
    ExactnessOfMagnitudes(a, b);
    NegatedDivision(n, d);
    if n == d || a == 0 {
      ExactDivision(a, b, if a == 0 then 0 else if a == b then 1 else -1);
    }
    FloorFromTruncation(a, b, Quotient(a, b), Remainder(a, b), Floor(a, b), a % b == 0);
  }

  lemma DivFloorExamples()
    ensures FoldedDivFloor(-7, 2) == -3 && Floor(-7, 2) == -4
    ensures FoldedDivFloor(-7, -2) == 2 && Floor(-7, -2) == 3
    ensures FoldedDivFloor(1, -2) == 0 && Floor(1, -2) == -1
  {
  }
}
