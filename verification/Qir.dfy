/** The loop language QIR and its meaning, taken from the code the JIT emits for it. */
module Qir {
  import opened Wrappers

  type VarId = nat

  datatype BinaryOp =
    | Plus | Minus | Multiplies | Divides | Modulus | DivFloor
    | EqualTo | NotEqualTo | Less | Greater | LessEqual | GreaterEqual
    | LogicalAnd | LogicalOr
    | Assign | PlusAssign

  datatype UnaryOp = Identity | Negate | LogicalNot

  /** Variables and array elements are both `Access`es; a variable has no indices. */
  datatype Expr =
    | IntLit(value: int)
    | BoolLit(truth: bool)
    | Access(base: VarId, indices: seq<Expr>)
    | Binary(op: BinaryOp, lhs: Expr, rhs: Expr)
    | Unary(uop: UnaryOp, arg: Expr)
    | For(idx: VarId, lower: Expr, upper: Expr, increment: Expr, body: Expr)
    | If(cond: Expr, thenBranch: Expr, elseBranch: Option<Expr>)
    | Compound(exprs: seq<Expr>)
    | Extent(tensor: VarId, dim: nat)
    | Delta(extent: nat, first: Expr, second: Expr)

  function Ref(v: VarId): Expr { Access(v, []) }

  function Children(e: Expr): (cs: seq<Expr>)
    ensures forall k :: 0 <= k < |cs| ==> cs[k] < e
  {
    match e
    case IntLit(_) => []
    case BoolLit(_) => []
    case Access(_, indices) => indices
    case Binary(_, a, b) => [a, b]
    case Unary(_, a) => [a]
    case For(_, lower, upper, increment, body) => [lower, upper, increment, body]
    case If(cond, t, None) => [cond, t]
    case If(cond, t, Some(f)) => [cond, t, f]
    case Compound(exprs) => exprs
    case Extent(_, _) => []
    case Delta(_, a, b) => [a, b]
  }

  /** A scalar is the location without indices; an array also stores its extents. */
  datatype Location = Location(base: VarId, indices: seq<int>) | Dimension(base: VarId, dim: nat)

  type Memory = map<Location, int>

  function Load(mem: Memory, l: Location): int {
    if l in mem then mem[l] else 0
  }

  datatype Value = Int(i: int) | Bool(b: bool)

  /** Division that truncates toward zero, as in C++ and in the `sdiv` instruction. */
  function Quotient(a: int, b: int): int
    requires b != 0
  {
    if a >= 0 then (if b > 0 then a / b else -(a / -b))
    else (if b > 0 then -(-a / b) else -a / -b)
  }

  /** The remainder has the sign of the dividend. */
  function Remainder(a: int, b: int): int
    requires b != 0
  {
    a - b * Quotient(a, b)
  }

  /** The code emitted for `div_floor`. */
  function EmittedDivFloor(a: int, b: int): int
    requires b != 0
  {
    var quotient, remainder := Quotient(a, b), Remainder(a, b);
    var isExact := remainder == 0;
    var isPositive := (remainder < 0) == (quotient < 0);
    if isExact || isPositive then quotient else quotient - 1
  }

  /** None if an operand is missing, of the wrong type, or a zero divisor. */
  function ApplyBinary(op: BinaryOp, x: Option<Value>, y: Option<Value>): Option<Value> {
    match (x, y)
    case (Some(Int(a)), Some(Int(b))) =>
      (match op
       case Plus => Some(Int(a + b))
       case Minus => Some(Int(a - b))
       case Multiplies => Some(Int(a * b))
       case Divides => if b == 0 then None else Some(Int(Quotient(a, b)))
       case Modulus => if b == 0 then None else Some(Int(Remainder(a, b)))
       case DivFloor => if b == 0 then None else Some(Int(EmittedDivFloor(a, b)))
       case EqualTo => Some(Bool(a == b))
       case NotEqualTo => Some(Bool(a != b))
       case Less => Some(Bool(a < b))
       case Greater => Some(Bool(a > b))
       case LessEqual => Some(Bool(a <= b))
       case GreaterEqual => Some(Bool(a >= b))
       case _ => None)
    case (Some(Bool(a)), Some(Bool(b))) =>
      (match op
       case LogicalAnd => Some(Bool(a && b))
       case LogicalOr => Some(Bool(a || b))
       case EqualTo => Some(Bool(a == b))
       case _ => None)
    case _ => None
  }

  function ApplyUnary(op: UnaryOp, x: Option<Value>): Option<Value> {
    match (op, x)
    case (Identity, Some(Int(a))) => Some(Int(a))
    case (Negate, Some(Int(a))) => Some(Int(-a))
    case (LogicalNot, Some(Bool(a))) => Some(Bool(!a))
    case _ => None
  }

  /** Value of an expression that is not a statement. */
  function Eval(e: Expr, mem: Memory): Option<Value> {
    match e
    case IntLit(v) => Some(Int(v))
    case BoolLit(b) => Some(Bool(b))
    case Access(base, indices) =>
      (match EvalIndices(indices, mem)
       case Some(vs) => Some(Int(Load(mem, Location(base, vs))))
       case None => None)
    case Binary(op, a, b) => ApplyBinary(op, Eval(a, mem), Eval(b, mem))
    case Unary(op, a) => ApplyUnary(op, Eval(a, mem))
    case Extent(a, dim) => Some(Int(Load(mem, Dimension(a, dim))))
    case Delta(_, a, b) => ApplyDelta(Eval(a, mem), Eval(b, mem))
    case _ => None
  }

  function ApplyDelta(x: Option<Value>, y: Option<Value>): Option<Value> {
    match (x, y)
    case (Some(Int(a)), Some(Int(b))) => Some(Int(if a == b then 1 else 0))
    case _ => None
  }

  function EvalIndices(es: seq<Expr>, mem: Memory): (r: Option<seq<int>>)
    ensures r.Some? ==> |r.value| == |es|
  {
    if es == [] then Some([])
    else
      match (Eval(es[0], mem), EvalIndices(es[1..], mem))
      case (Some(Int(i)), Some(vs)) => Some([i] + vs)
      case _ => None
  }

  /** The integer, or 0 if there is none. */
  function IntOf(v: Option<Value>): int {
    match v
    case Some(Int(i)) => i
    case _ => 0
  }

  function IntAt(e: Expr, mem: Memory): int { IntOf(Eval(e, mem)) }

  /** Variables whose values or elements `e` depends on. */
  function Reads(e: Expr): set<VarId> {
    match e
    case IntLit(_) => {}
    case BoolLit(_) => {}
    case Access(base, indices) => {base} + ReadsAll(indices)
    case Binary(_, a, b) => Reads(a) + Reads(b)
    case Unary(_, a) => Reads(a)
    case Delta(_, a, b) => Reads(a) + Reads(b)
    case _ => {}
  }

  function ReadsAll(es: seq<Expr>): set<VarId> {
    if es == [] then {} else Reads(es[0]) + ReadsAll(es[1..])
  }

  lemma {:induction false} ReadsOfElement(es: seq<Expr>, k: nat)
    requires k < |es|
    ensures Reads(es[k]) <= ReadsAll(es)
  {
    if k > 0 {
      ReadsOfElement(es[1..], k - 1);
    }
  }

  /** `a` and `b` hold the same values in every location of the variables in `on`, and the same
      extents of all arrays, which no program changes. */
  ghost predicate SameOn(a: Memory, b: Memory, on: set<VarId>) {
    forall l: Location :: l.Dimension? || l.base in on ==> Load(a, l) == Load(b, l)
  }

  lemma {:induction false} EvalSame(e: Expr, a: Memory, b: Memory)
    requires SameOn(a, b, Reads(e))
    ensures Eval(e, a) == Eval(e, b)
    decreases e
  {
    match e
    case Access(base, indices) => EvalIndicesSame(indices, a, b);
    case Binary(_, x, y) => EvalSame(x, a, b); EvalSame(y, a, b);
    case Unary(_, x) => EvalSame(x, a, b);
    case Delta(_, x, y) => EvalSame(x, a, b); EvalSame(y, a, b);
    case _ =>
  }

  lemma {:induction false} EvalIndicesSame(es: seq<Expr>, a: Memory, b: Memory)
    requires SameOn(a, b, ReadsAll(es))
    ensures EvalIndices(es, a) == EvalIndices(es, b)
    decreases es
  {
    if es != [] {
      EvalSame(es[0], a, b);
      EvalIndicesSame(es[1..], a, b);
    }
  }
}
