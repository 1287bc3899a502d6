/** Affine expressions and constraints extracted from QIR, and the integer sets they stand for. */
module AffineConstraints {
  import opened Wrappers
  import opened Division
  import opened Qir
  import opened QirRun

  /** Variables and constants are named by their position in the tables of the context. */
  datatype Affine =
    | Variable(id: nat)
    | Constant(id: nat)
    | Literal(value: int)
    | Sum(lhs: Affine, rhs: Affine)
    | Difference(lhs: Affine, rhs: Affine)
    | Product(lhs: Affine, rhs: Affine)
    | Ratio(lhs: Affine, rhs: Affine)
    | Modulo(lhs: Affine, rhs: Affine)
    | Negation(arg: Affine)

  datatype Relation = IsEqual | IsNotEqual | IsLess | IsGreater | IsLessEqual | IsGreaterEqual

  datatype Constraint =
    | Compare(relation: Relation, left: Affine, right: Affine)
    | Both(first: Constraint, second: Constraint)
    | Either(first: Constraint, second: Constraint)
    | Not(negated: Constraint)

  predicate IsConst(a: Affine) { a.Constant? || a.Literal? }

  datatype Tables = Tables(variables: seq<VarId>, constants: seq<Expr>)

  const EMPTY: Tables := Tables([], [])

  function Position<T(==)>(s: seq<T>, x: T): (r: Option<nat>)
    ensures r.Some? ==> r.value < |s| && s[r.value] == x
    ensures r == None ==> x !in s
  {
    if s == [] then None
    else if s[0] == x then Some(0)
    else
      match Position(s[1..], x)
      case Some(k) => Some(k + 1)
      case None => None
  }

  ghost predicate NoEntryTwice<T>(s: seq<T>) { forall i, j :: 0 <= i < j < |s| ==> s[i] != s[j] }

  function Declared(t: Tables, v: VarId): (Affine, Tables) {
    match Position(t.variables, v)
    case Some(k) => (Variable(k), t)
    case None => (Variable(|t.variables|), t.(variables := t.variables + [v]))
  }

  function Defined(t: Tables, e: Expr): (Affine, Tables) {
    match Position(t.constants, e)
    case Some(k) => (Constant(k), t)
    case None => (Constant(|t.constants|), t.(constants := t.constants + [e]))
  }

  // try_construct_affine_expr

  predicate IsVariable(e: Expr) { e.Access? && e.indices == [] }

  function Combined(op: BinaryOp, a: Affine, b: Affine): Option<Affine> {
    match op
    case Plus => Some(Sum(a, b))
    case Minus => Some(Difference(a, b))
    case Multiplies => if !IsConst(a) && !IsConst(b) then None else Some(Product(a, b))
    case Divides => if !IsConst(b) then None else Some(Ratio(a, b))
    case Modulus => if !IsConst(b) then None else Some(Modulo(a, b))
    case _ => None
  }

  /** Operators are always taken apart; what remains is a literal, a variable, or an invariant. */
  function ConstructAffine(e: Expr, invariant_: Expr -> bool, t: Tables): (Option<Affine>, Tables) {
    match e
    case Binary(op, a, b) =>
      var (x, t1) := ConstructAffine(a, invariant_, t);
      var (y, t2) := ConstructAffine(b, invariant_, t1);
      (if x.Some? && y.Some? then Combined(op, x.value, y.value) else None, t2)
    case Unary(op, a) =>
      var (x, t1) := ConstructAffine(a, invariant_, t);
      (if x == None || op.LogicalNot? then None else if op.Identity? then x else Some(Negation(x.value)), t1)
    case IntLit(v) => (Some(Literal(v)), t)
    case _ =>
      if IsVariable(e) && !invariant_(e) then
        var (a, t1) := Declared(t, e.base);
        (Some(a), t1)
      else if invariant_(e) then
        var (a, t1) := Defined(t, e);
        (Some(a), t1)
      else (None, t)
  }

  function RelationOf(op: BinaryOp): Option<Relation> {
    match op
    case EqualTo => Some(IsEqual)
    case NotEqualTo => Some(IsNotEqual)
    case Less => Some(IsLess)
    case Greater => Some(IsGreater)
    case LessEqual => Some(IsLessEqual)
    case GreaterEqual => Some(IsGreaterEqual)
    case _ => None
  }

  /** `try_extract_affine_constraint` */
  function ExtractConstraint(e: Expr, invariant_: Expr -> bool, t: Tables): (Option<Constraint>, Tables) {
    match e
    case Binary(op, a, b) =>
      if RelationOf(op).Some? then
        var (x, t1) := ConstructAffine(a, invariant_, t);
        var (y, t2) := ConstructAffine(b, invariant_, t1);
        (if x.Some? && y.Some? then Some(Compare(RelationOf(op).value, x.value, y.value)) else None, t2)
      else if op.LogicalAnd? || op.LogicalOr? then
        var (x, t1) := ExtractConstraint(a, invariant_, t);
        var (y, t2) := ExtractConstraint(b, invariant_, t1);
        (if x == None || y == None then None
         else if op.LogicalAnd? then Some(Both(x.value, y.value)) else Some(Either(x.value, y.value)), t2)
      else (None, t)
    case Unary(LogicalNot, a) =>
      var (x, t1) := ExtractConstraint(a, invariant_, t);
      (if x.Some? then Some(Not(x.value)) else None, t1)
    case _ => (None, t)
  }

  class AffineExprContext {
    var variableTable: seq<VarId>
    var constantTable: seq<Expr>
    const invariantChecker: Expr -> bool

    constructor (invariantChecker: Expr -> bool)
      ensures Valid() && State() == EMPTY && this.invariantChecker == invariantChecker
    {
      variableTable, constantTable := [], [];
      this.invariantChecker := invariantChecker;
    }

    function State(): Tables
      reads this
    {
      Tables(variableTable, constantTable)
    }

    /** No entry occurs twice. */
    ghost predicate Valid()
      reads this
    {
      NoEntryTwice(variableTable) && NoEntryTwice(constantTable)
    }

    /** The variable has one dimension for good: the first one it was given. */
    method DeclareVariable(v: VarId) returns (r: Affine)
      modifies `variableTable
      ensures (r, State()) == Declared(old(State()), v)
      ensures r.Variable? && r.id < |variableTable| && variableTable[r.id] == v
      ensures old(variableTable) <= variableTable && (v in old(variableTable) ==> variableTable == old(variableTable))
      ensures old(Valid()) ==> Valid() && forall k :: 0 <= k < |variableTable| && variableTable[k] == v ==> k == r.id
    {
      var found := Position(variableTable, v);
      if found.Some? {
        r := Variable(found.value);
      } else {
        r := Variable(|variableTable|);
        variableTable := variableTable + [v];
      }
    }

    /** Likewise, the expression has one parameter. */
    method DefineConstant(e: Expr) returns (r: Affine)
      modifies `constantTable
      ensures (r, State()) == Defined(old(State()), e)
      ensures r.Constant? && r.id < |constantTable| && constantTable[r.id] == e
      ensures old(constantTable) <= constantTable && (e in old(constantTable) ==> constantTable == old(constantTable))
      ensures old(Valid()) ==> Valid() && forall k :: 0 <= k < |constantTable| && constantTable[k] == e ==> k == r.id
    {
      var found := Position(constantTable, e);
      if found.Some? {
        r := Constant(found.value);
      } else {
        r := Constant(|constantTable|);
        constantTable := constantTable + [e];
      }
    }

    method TryConstructAffineExpr(e: Expr) returns (r: Option<Affine>)
      modifies `variableTable, `constantTable
      ensures (r, State()) == ConstructAffine(e, invariantChecker, old(State()))
      ensures old(Valid()) ==> Valid()
      decreases e
    {
      if e.Binary? {
        var x := TryConstructAffineExpr(e.lhs);
        var y := TryConstructAffineExpr(e.rhs);
        r := if x.Some? && y.Some? then Combined(e.op, x.value, y.value) else None;
      } else if e.Unary? {
        var x := TryConstructAffineExpr(e.arg);
        r := if x == None || e.uop.LogicalNot? then None else if e.uop.Identity? then x else Some(Negation(x.value));
      } else if e.IntLit? {
        r := Some(Literal(e.value));
      } else if IsVariable(e) && !invariantChecker(e) {
        var a := DeclareVariable(e.base);
        r := Some(a);
      } else if invariantChecker(e) {
        var a := DefineConstant(e);
        r := Some(a);
      } else {
        r := None;
      }
    }

    method TryExtractAffineConstraint(e: Expr) returns (r: Option<Constraint>)
      modifies `variableTable, `constantTable
      ensures (r, State()) == ExtractConstraint(e, invariantChecker, old(State()))
      ensures old(Valid()) ==> Valid()
      decreases e
    {
      r := None;
      if e.Binary? && RelationOf(e.op).Some? {
        var x := TryConstructAffineExpr(e.lhs);
        var y := TryConstructAffineExpr(e.rhs);
        if x.Some? && y.Some? {
          r := Some(Compare(RelationOf(e.op).value, x.value, y.value));
        }
      } else if e.Binary? && (e.op.LogicalAnd? || e.op.LogicalOr?) {
        var x := TryExtractAffineConstraint(e.lhs);
        var y := TryExtractAffineConstraint(e.rhs);
        if x.Some? && y.Some? {
          r := if e.op.LogicalAnd? then Some(Both(x.value, y.value)) else Some(Either(x.value, y.value));
        }
      } else if e.Unary? && e.uop.LogicalNot? {
        var x := TryExtractAffineConstraint(e.arg);
        if x.Some? {
          r := Some(Not(x.value));
        }
      }
    }
  }

  // Integer sets.

  /** Values of the set dimensions and of the parameters. */
  datatype Point = Point(variables: nat -> int, constants: nat -> int)

  /** `convert_to_isl_aff_expr`: division is exact, the remainder is that of division with floor.
      Defined where the library accepts the operands: literal moduli that are positive, literal
      divisors that are not 0. */
  predicate Convertible(a: Affine) {
    match a
    case Variable(_) => true
    case Constant(_) => true
    case Literal(_) => true
    case Sum(x, y) => Convertible(x) && Convertible(y)
    case Difference(x, y) => Convertible(x) && Convertible(y)
    case Product(x, y) => Convertible(x) && Convertible(y) && (x.Literal? || y.Literal?)
    case Ratio(x, y) => Convertible(x) && y.Literal? && y.value != 0
    case Modulo(x, y) => Convertible(x) && y.Literal? && y.value > 0
    case Negation(x) => Convertible(x)
  }

  /** The operation of `a` on the values of its operands. */
  function Operate(a: Affine, x: real, y: real): real
    requires Convertible(a)
  {
    match a
    case Sum(_, _) => x + y
    case Difference(_, _) => x - y
    case Product(_, _) => x * y
    case Ratio(_, d) => x / (d.value as real)
    case Modulo(_, m) => x - ((x / (m.value as real)).Floor * m.value) as real
    case _ => -x
  }

  function Meaning(a: Affine, p: Point): real
    requires Convertible(a)
  {
    match a
    case Variable(k) => p.variables(k) as real
    case Constant(k) => p.constants(k) as real
    case Literal(v) => v as real
    case Negation(x) => Operate(a, Meaning(x, p), 0.0)
    case _ => Operate(a, Meaning(a.lhs, p), Meaning(a.rhs, p))
  }

  predicate ConvertibleConstraint(c: Constraint) {
    match c
    case Compare(_, x, y) => Convertible(x) && Convertible(y)
    case Both(x, y) => ConvertibleConstraint(x) && ConvertibleConstraint(y)
    case Either(x, y) => ConvertibleConstraint(x) && ConvertibleConstraint(y)
    case Not(x) => ConvertibleConstraint(x)
  }

  /** `convert_to_isl_set`: is the point in the set of the constraint? */
  predicate Contains(c: Constraint, p: Point)
    requires ConvertibleConstraint(c)
  {
    match c
    case Compare(relation, x, y) =>
      var d := Meaning(x, p) - Meaning(y, p);
      (match relation
       case IsEqual => d == 0.0
       case IsNotEqual => d != 0.0
       case IsLess => -(d + 1.0) >= 0.0
       case IsGreater => d + 1.0 >= 0.0
       case IsLessEqual => -d >= 0.0
       case IsGreaterEqual => d >= 0.0)
    case Both(x, y) => Contains(x, p) && Contains(y, p)
    case Either(x, y) => Contains(x, p) || Contains(y, p)
    case Not(x) => !Contains(x, p)
  }

  // What was extracted means what the expression evaluates to.

  /** The point of a memory: what the tables name has its value there. */
  function PointOf(t: Tables, mem: Memory): Point {
    Point((k: nat) => if k < |t.variables| then Load(mem, Scalar(t.variables[k])) else 0,
          (k: nat) => if k < |t.constants| then IntAt(t.constants[k], mem) else 0)
  }

  predicate Extends(t: Tables, u: Tables) { t.variables <= u.variables && t.constants <= u.constants }

  predicate Within(a: Affine, t: Tables) {
    match a
    case Variable(k) => k < |t.variables|
    case Constant(k) => k < |t.constants|
    case Literal(_) => true
    case Negation(x) => Within(x, t)
    case _ => Within(a.lhs, t) && Within(a.rhs, t)
  }

  lemma {:induction false} MeaningStays(a: Affine, t: Tables, u: Tables, mem: Memory)
    requires Within(a, t) && Extends(t, u) && Convertible(a)
    ensures Within(a, u) && Meaning(a, PointOf(u, mem)) == Meaning(a, PointOf(t, mem))
  {
    hide Operate;
    match a
    case Variable(_) =>
    case Constant(_) =>
    case Literal(_) =>
    case Negation(x) => MeaningStays(x, t, u, mem);
    case _ => MeaningStays(a.lhs, t, u, mem); MeaningStays(a.rhs, t, u, mem);
  }

  /** What the library accepts: literal factors, divisors that are not 0, positive moduli. */
  predicate Plain(e: Expr) {
    match e
    case Binary(op, a, b) =>
      && Plain(a) && Plain(b)
      && (op.Multiplies? ==> a.IntLit? || b.IntLit?)
      && (op.Divides? ==> b.IntLit? && b.value != 0)
      && (op.Modulus? ==> b.IntLit? && b.value > 0)
    case Unary(_, a) => Plain(a)
    case BoolLit(_) => false
    case _ => true
  }

  /** The operands for which the fraction is the truncated quotient, and division with floor leaves
      the same remainder as division with truncation. */
  predicate OperandFits(op: BinaryOp, x: int, y: int)
    requires op.Divides? || op.Modulus? ==> y != 0
  {
    (op.Divides? ==> x % y == 0) && (op.Modulus? ==> x >= 0 || x % y == 0)
  }

  /** All quotients and remainders are taken of such operands. */
  predicate Converts(e: Expr, mem: Memory) {
    match e
    case Binary(op, a, b) =>
      Converts(a, mem) && Converts(b, mem) && (b.IntLit? && b.value != 0 ==> OperandFits(op, IntAt(a, mem), b.value))
    case Unary(_, a) => Converts(a, mem)
    case _ => true
  }

  lemma FloorOfQuotient(x: int, m: int)
    requires m > 0
    ensures (x as real / m as real).Floor == x / m
  {
    var q := x / m;
    assert x == q * m + x % m;
    assert (q as real) * (m as real) == (q * m) as real;
    assert x as real / m as real == q as real + (x % m) as real / m as real;
    assert 0.0 <= (x % m) as real / m as real < 1.0;
  }

  /** The truncated remainder is the one of division with floor, or that less the modulus. */
  lemma RemainderOfNegative(x: int, m: int)
    requires m > 0
    ensures Remainder(x, m) == if x >= 0 || x % m == 0 then x % m else x % m - m
  {
    assert x == x / m * m + x % m;
    if x < 0 {
      assert -x == (-x / m) * m + (-x) % m;
      if x % m == 0 {
        DivisionIsUnique(-x, m, -(x / m), 0);
      } else {
        assert -x == (-(x / m) - 1) * m + (m - x % m);
        DivisionIsUnique(-x, m, -(x / m) - 1, m - x % m);
      }
    }
  }

  /** The set's remainder is that of the program exactly for dividends that are not negative or are
      divisible by the modulus. */
  lemma RemainderIsExact(x: int, m: int)
    requires m > 0
    ensures Operate(Modulo(Literal(x), Literal(m)), x as real, m as real) == Remainder(x, m) as real <==> OperandFits(Modulus, x, m)
  {
    FloorOfQuotient(x, m);
    RemainderOfNegative(x, m);
    assert x == x / m * m + x % m;
  }

  lemma QuotientOfMultiple(x: int, d: int)
    requires d != 0 && x % d == 0
    ensures Quotient(x, d) * d == x
  {
    assert x == x / d * d;
    if d > 0 && x < 0 {
      DivisionIsUnique(-x, d, -(x / d), 0);
    } else if d < 0 && x >= 0 {
      DivisionIsUnique(x, -d, -(x / d), 0);
    } else if d < 0 {
      DivisionIsUnique(-x, -d, x / d, 0);
    }
  }

  lemma FractionIsInteger(x: int, d: int, q: int)
    requires d != 0
    ensures x as real / d as real == q as real <==> x == q * d
  {
    var f := x as real / d as real;
    assert f * d as real == x as real;
    assert q as real * d as real == (q * d) as real;
    if x == q * d {
      assert (f - q as real) * d as real == 0.0;
    }
  }

  /** The set's quotient is that of the program exactly for dividends divisible by the divisor. */
  lemma QuotientIsExact(x: int, d: int)
    requires d != 0
    ensures Operate(Ratio(Literal(x), Literal(d)), x as real, d as real) == Quotient(x, d) as real <==> OperandFits(Divides, x, d)
  {
    var q := Quotient(x, d);
    FractionIsInteger(x, d, q);
    hide Quotient;
    if x % d == 0 {
      QuotientOfMultiple(x, d);
    } else if x == q * d {
      DivisionLeaves(x, d, q);
    }
  }

  lemma DivisionLeaves(x: int, d: int, q: int)
    requires d != 0 && x == q * d
    ensures x % d == 0
  {
    if d > 0 {
      DivisionIsUnique(x, d, q, 0);
    } else {
      DivisionIsUnique(x, -d, -q, 0);
      assert x % d == x % -d;
    }
  }

  lemma {:induction false} TablesGrow(e: Expr, invariant_: Expr -> bool, t: Tables)
    ensures Extends(t, ConstructAffine(e, invariant_, t).1)
  {
    match e
    case Binary(_, a, b) =>
      TablesGrow(a, invariant_, t);
      TablesGrow(b, invariant_, ConstructAffine(a, invariant_, t).1);
    case Unary(_, a) => TablesGrow(a, invariant_, t);
    case _ =>
  }

  /** `a` is within the tables and has the value `v` at the point of `mem`. */
  ghost predicate Denotes(a: Affine, t: Tables, mem: Memory, v: int) {
    Within(a, t) && Convertible(a) && Meaning(a, PointOf(t, mem)) == v as real
  }

  lemma OperationIsExact(op: BinaryOp, a: Affine, b: Affine, x: int, y: int)
    requires op.Plus? || op.Minus? || op.Multiplies? || op.Divides? || op.Modulus?
    requires op.Multiplies? ==> a.Literal? || b.Literal?
    requires op.Divides? ==> b == Literal(y) && y != 0
    requires op.Modulus? ==> b == Literal(y) && y > 0
    requires OperandFits(op, x, y)
    requires Convertible(a) && Convertible(b)
    ensures Combined(op, a, b).Some? && Convertible(Combined(op, a, b).value)
    ensures ApplyBinary(op, Some(Int(x)), Some(Int(y))).Some?
    ensures Operate(Combined(op, a, b).value, x as real, y as real) ==
            ApplyBinary(op, Some(Int(x)), Some(Int(y))).value.i as real
  {
    if op.Divides? {
      QuotientIsExact(x, y);
      hide Quotient;
    } else if op.Modulus? {
      RemainderIsExact(x, y);
      hide Remainder;
    } else if op.Multiplies? {
      assert x as real * y as real == (x * y) as real;
    }
  }

  /** An affine expression has, at every memory, the value of the expression it was made from. */
  lemma {:induction false} AffineIsExact(e: Expr, invariant_: Expr -> bool, t: Tables, mem: Memory, v: int)
    requires ConstructAffine(e, invariant_, t).0.Some? && Eval(e, mem) == Some(Int(v))
    requires Plain(e) && Converts(e, mem)
    ensures Denotes(ConstructAffine(e, invariant_, t).0.value, ConstructAffine(e, invariant_, t).1, mem, v)
  {
    assert EvalIndices([], mem) == Some([]);
    match e
    case Binary(op, a, b) =>
      var (x, t1) := ConstructAffine(a, invariant_, t);
      var (y, t2) := ConstructAffine(b, invariant_, t1);
      var i, j := IntAt(a, mem), IntAt(b, mem);
      AffineIsExact(a, invariant_, t, mem, i);
      AffineIsExact(b, invariant_, t1, mem, j);
      TablesGrow(b, invariant_, t1);
      MeaningStays(x.value, t1, t2, mem);
      OperationIsExact(op, x.value, y.value, i, j);
    case Unary(op, a) =>
      AffineIsExact(a, invariant_, t, mem, IntAt(a, mem));
    case _ =>
  }

  /** For a quotient or remainder the condition on the operands is also necessary. */
  lemma DivisionConvertsExactly(e: Expr, invariant_: Expr -> bool, t: Tables, mem: Memory, v: int)
    requires e.Binary? && (e.op.Divides? || e.op.Modulus?) && Plain(e) && Converts(e.lhs, mem)
    requires ConstructAffine(e, invariant_, t).0.Some? && Eval(e, mem) == Some(Int(v))
    ensures Denotes(ConstructAffine(e, invariant_, t).0.value, ConstructAffine(e, invariant_, t).1, mem, v) <==>
            OperandFits(e.op, IntAt(e.lhs, mem), e.rhs.value)
  {
    var (x, t1) := ConstructAffine(e.lhs, invariant_, t);
    var i, d := IntAt(e.lhs, mem), e.rhs.value;
    assert Eval(e.rhs, mem) == Some(Int(d)) && ConstructAffine(e.rhs, invariant_, t1) == (Some(Literal(d)), t1);
    AffineIsExact(e.lhs, invariant_, t, mem, i);
    var r := if e.op.Divides? then Ratio(x.value, Literal(d)) else Modulo(x.value, Literal(d));
    assert ConstructAffine(e, invariant_, t) == (Some(r), t1);
    assert v == if e.op.Divides? then Quotient(i, d) else Remainder(i, d);
    assert Within(Literal(d), t1) && Within(r, t1) && Convertible(r);
    hide Quotient, Remainder, Eval, ConstructAffine;
    if e.op.Divides? {
      QuotientIsExact(i, d);
    } else {
      RemainderIsExact(i, d);
    }
    assert Meaning(r, PointOf(t1, mem)) == Operate(r, i as real, d as real);
  }

  // Which expressions and conditions have an affine form.

  /** A literal or an invariant, whatever signs `+` stand before it. */
  predicate HasConstantForm(e: Expr, invariant_: Expr -> bool) {
    match e
    case Unary(op, a) => op.Identity? && HasConstantForm(a, invariant_)
    case Binary(_, _, _) => false
    case IntLit(_) => true
    case _ => invariant_(e)
  }

  /** Sums, differences and negations of variables and constants, their products with constants, and
      their quotients and remainders by constants. */
  predicate HasAffineForm(e: Expr, invariant_: Expr -> bool) {
    match e
    case Binary(op, a, b) =>
      && HasAffineForm(a, invariant_) && HasAffineForm(b, invariant_)
      && (op.Plus? || op.Minus? ||
          (op.Multiplies? && (HasConstantForm(a, invariant_) || HasConstantForm(b, invariant_))) ||
          ((op.Divides? || op.Modulus?) && HasConstantForm(b, invariant_)))
    case Unary(op, a) => (op.Identity? || op.Negate?) && HasAffineForm(a, invariant_)
    case IntLit(_) => true
    case _ => IsVariable(e) || invariant_(e)
  }

  /** Comparisons of affine expressions under conjunction, disjunction and negation. */
  predicate HasConstraintForm(e: Expr, invariant_: Expr -> bool) {
    match e
    case Binary(op, a, b) =>
      if op.LogicalAnd? || op.LogicalOr? then HasConstraintForm(a, invariant_) && HasConstraintForm(b, invariant_)
      else
        && (op.EqualTo? || op.NotEqualTo? || op.Less? || op.Greater? || op.LessEqual? || op.GreaterEqual?)
        && HasAffineForm(a, invariant_) && HasAffineForm(b, invariant_)
    case Unary(op, a) => op.LogicalNot? && HasConstraintForm(a, invariant_)
    case _ => false
  }

  /** An affine expression is found exactly if there is one, whatever the tables hold already. */
  lemma {:induction false} AffineFormIsFound(e: Expr, invariant_: Expr -> bool, t: Tables)
    ensures var a := ConstructAffine(e, invariant_, t).0;
            && (a.Some? <==> HasAffineForm(e, invariant_))
            && (a.Some? ==> (IsConst(a.value) <==> HasConstantForm(e, invariant_)))
  {
    match e
    case Binary(_, a, b) =>
      AffineFormIsFound(a, invariant_, t);
      AffineFormIsFound(b, invariant_, ConstructAffine(a, invariant_, t).1);
    case Unary(_, a) => AffineFormIsFound(a, invariant_, t);
    case _ =>
  }

  /** Likewise for conditions. */
  lemma {:induction false} ConstraintFormIsFound(e: Expr, invariant_: Expr -> bool, t: Tables)
    ensures ExtractConstraint(e, invariant_, t).0.Some? <==> HasConstraintForm(e, invariant_)
  {
    if e.Binary? && RelationOf(e.op).Some? {
      AffineFormIsFound(e.lhs, invariant_, t);
      AffineFormIsFound(e.rhs, invariant_, ConstructAffine(e.lhs, invariant_, t).1);
    } else if e.Binary? && (e.op.LogicalAnd? || e.op.LogicalOr?) {
      ConstraintFormIsFound(e.lhs, invariant_, t);
      ConstraintFormIsFound(e.rhs, invariant_, ExtractConstraint(e.lhs, invariant_, t).1);
    } else if e.Unary? && e.uop.LogicalNot? {
      ConstraintFormIsFound(e.arg, invariant_, t);
    }
  }

  // Conditions.

  /** A divisibility test, for which the sign of the dividend makes no difference. */
  predicate IsZeroTest(e: Expr) {
    && e.Binary? && (e.op.EqualTo? || e.op.NotEqualTo?) && e.rhs == IntLit(0)
    && e.lhs.Binary? && e.lhs.op.Modulus? && e.lhs.rhs.IntLit? && e.lhs.rhs.value > 0
  }

  predicate PlainCondition(e: Expr) {
    if e.Binary? && RelationOf(e.op).Some? then Plain(e.lhs) && Plain(e.rhs)
    else if e.Binary? then PlainCondition(e.lhs) && PlainCondition(e.rhs)
    else e.Unary? ==> PlainCondition(e.arg)
  }

  predicate ConditionConverts(e: Expr, mem: Memory) {
    if IsZeroTest(e) then Converts(e.lhs.lhs, mem)
    else if e.Binary? && RelationOf(e.op).Some? then Converts(e.lhs, mem) && Converts(e.rhs, mem)
    else if e.Binary? then ConditionConverts(e.lhs, mem) && ConditionConverts(e.rhs, mem)
    else e.Unary? ==> ConditionConverts(e.arg, mem)
  }

  /** `>` occurs where it has to be true for the whole to be `truth`, or its sides are neither equal
      nor one apart. */
  predicate GreaterFits(e: Expr, mem: Memory, truth: bool) {
    if e.Binary? && RelationOf(e.op).Some? then
      e.op.Greater? && !truth ==> IntAt(e.lhs, mem) != IntAt(e.rhs, mem) && IntAt(e.lhs, mem) != IntAt(e.rhs, mem) - 1
    else if e.Binary? then GreaterFits(e.lhs, mem, truth) && GreaterFits(e.rhs, mem, truth)
    else e.Unary? ==> GreaterFits(e.arg, mem, !truth)
  }

  predicate WithinConstraint(c: Constraint, t: Tables) {
    match c
    case Compare(_, x, y) => Within(x, t) && Within(y, t)
    case Both(x, y) => WithinConstraint(x, t) && WithinConstraint(y, t)
    case Either(x, y) => WithinConstraint(x, t) && WithinConstraint(y, t)
    case Not(x) => WithinConstraint(x, t)
  }

  lemma {:induction false} ContainsStays(c: Constraint, t: Tables, u: Tables, mem: Memory)
    requires WithinConstraint(c, t) && Extends(t, u) && ConvertibleConstraint(c)
    ensures WithinConstraint(c, u) && Contains(c, PointOf(u, mem)) == Contains(c, PointOf(t, mem))
  {
    match c
    case Compare(_, x, y) => MeaningStays(x, t, u, mem); MeaningStays(y, t, u, mem);
    case Both(x, y) => ContainsStays(x, t, u, mem); ContainsStays(y, t, u, mem);
    case Either(x, y) => ContainsStays(x, t, u, mem); ContainsStays(y, t, u, mem);
    case Not(x) => ContainsStays(x, t, u, mem);
  }

  /** All comparisons but `>` are encoded exactly; `>` also admits equality and one less. */
  lemma ComparisonIsExact(relation: Relation, a: Affine, b: Affine, p: Point, x: int, y: int)
    requires Convertible(a) && Convertible(b) && Meaning(a, p) == x as real && Meaning(b, p) == y as real
    ensures Contains(Compare(relation, a, b), p) <==>
            match relation
            case IsEqual => x == y
            case IsNotEqual => x != y
            case IsLess => x < y
            case IsGreater => x >= y - 1
            case IsLessEqual => x <= y
            case IsGreaterEqual => x >= y
  {
  }

  /** The set of `a > b` agrees with the comparison exactly where `a` is neither `b` nor `b - 1`. */
  lemma GreaterIsTooWide(a: Affine, b: Affine, p: Point, x: int, y: int)
    requires Convertible(a) && Convertible(b) && Meaning(a, p) == x as real && Meaning(b, p) == y as real
    ensures (Contains(Compare(IsGreater, a, b), p) <==> x > y) <==> x != y && x != y - 1
  {
    ComparisonIsExact(IsGreater, a, b, p, x, y);
  }

  lemma {:induction false} ConstraintTablesGrow(e: Expr, invariant_: Expr -> bool, t: Tables)
    ensures Extends(t, ExtractConstraint(e, invariant_, t).1)
  {
    if e.Binary? && RelationOf(e.op).Some? {
      TablesGrow(e.lhs, invariant_, t);
      TablesGrow(e.rhs, invariant_, ConstructAffine(e.lhs, invariant_, t).1);
    } else if e.Binary? && (e.op.LogicalAnd? || e.op.LogicalOr?) {
      ConstraintTablesGrow(e.lhs, invariant_, t);
      ConstraintTablesGrow(e.rhs, invariant_, ExtractConstraint(e.lhs, invariant_, t).1);
    } else if e.Unary? && e.uop.LogicalNot? {
      ConstraintTablesGrow(e.arg, invariant_, t);
    }
  }

  /** What extracting from a condition whose value is `truth` has to deliver. */
  ghost predicate Decides(c: Constraint, t: Tables, mem: Memory, truth: bool) {
    WithinConstraint(c, t) && ConvertibleConstraint(c) && Contains(c, PointOf(t, mem)) == truth
  }

  lemma PlainIsInt(e: Expr, invariant_: Expr -> bool, t: Tables, mem: Memory)
    requires Plain(e) && ConstructAffine(e, invariant_, t).0.Some? && Eval(e, mem).Some?
    ensures Eval(e, mem).value.Int?
  {
  }

  lemma ComparisonDecides(e: Expr, invariant_: Expr -> bool, t: Tables, mem: Memory, truth: bool)
    requires e.Binary? && RelationOf(e.op).Some? && !IsZeroTest(e)
    requires ExtractConstraint(e, invariant_, t).0.Some? && Eval(e, mem) == Some(Bool(truth))
    requires PlainCondition(e) && ConditionConverts(e, mem) && GreaterFits(e, mem, truth)
    ensures Decides(ExtractConstraint(e, invariant_, t).0.value, ExtractConstraint(e, invariant_, t).1, mem, truth)
  {
    var (x, t1) := ConstructAffine(e.lhs, invariant_, t);
    var (y, t2) := ConstructAffine(e.rhs, invariant_, t1);
    var i, j := IntAt(e.lhs, mem), IntAt(e.rhs, mem);
    PlainIsInt(e.lhs, invariant_, t, mem);
    AffineIsExact(e.lhs, invariant_, t, mem, i);
    AffineIsExact(e.rhs, invariant_, t1, mem, j);
    TablesGrow(e.rhs, invariant_, t1);
    MeaningStays(x.value, t1, t2, mem);
    ComparisonIsExact(RelationOf(e.op).value, x.value, y.value, PointOf(t2, mem), i, j);
  }

  lemma ZeroTestDecides(e: Expr, invariant_: Expr -> bool, t: Tables, mem: Memory, truth: bool)
    requires IsZeroTest(e) && ExtractConstraint(e, invariant_, t).0.Some? && Eval(e, mem) == Some(Bool(truth))
    requires PlainCondition(e) && ConditionConverts(e, mem)
    ensures Decides(ExtractConstraint(e, invariant_, t).0.value, ExtractConstraint(e, invariant_, t).1, mem, truth)
  {
    hide Operate, Remainder, Eval, Converts, PointOf;
    var a, m := e.lhs.lhs, e.lhs.rhs.value;
    var i := IntAt(a, mem);
    ZeroTestValue(e, mem);
    var x, t1 := ZeroTestExtracts(e, invariant_, t);
    hide ConstructAffine, ExtractConstraint;
    PlainIsInt(a, invariant_, t, mem);
    AffineIsExact(a, invariant_, t, mem, i);
    ModuloMeaning(x, m, PointOf(t1, mem), i);
    ComparisonIsExact(RelationOf(e.op).value, Modulo(x, Literal(m)), Literal(0), PointOf(t1, mem), i % m, 0);
    SameZero(i, m);
    assert Within(Literal(m), t1) && Within(Modulo(x, Literal(m)), t1);
  }

  lemma ZeroTestExtracts(e: Expr, invariant_: Expr -> bool, t: Tables) returns (x: Affine, t1: Tables)
    requires IsZeroTest(e) && ExtractConstraint(e, invariant_, t).0.Some?
    ensures ConstructAffine(e.lhs.lhs, invariant_, t) == (Some(x), t1)
    ensures ExtractConstraint(e, invariant_, t) ==
            (Some(Compare(RelationOf(e.op).value, Modulo(x, Literal(e.lhs.rhs.value)), Literal(0))), t1)
  {
    var m := e.lhs.rhs.value;
    x, t1 := ConstructAffine(e.lhs.lhs, invariant_, t).0.value, ConstructAffine(e.lhs.lhs, invariant_, t).1;
    assert ConstructAffine(IntLit(m), invariant_, t1) == (Some(Literal(m)), t1);
    assert ConstructAffine(e.lhs, invariant_, t) == (Some(Modulo(x, Literal(m))), t1);
    assert ConstructAffine(IntLit(0), invariant_, t1) == (Some(Literal(0)), t1);
  }

  lemma ZeroTestValue(e: Expr, mem: Memory)
    requires IsZeroTest(e) && Eval(e, mem).Some?
    ensures Eval(e.lhs.lhs, mem).Some?
    ensures Eval(e.lhs.lhs, mem).value.Int? ==>
              Eval(e, mem) == Some(Bool((Remainder(IntAt(e.lhs.lhs, mem), e.lhs.rhs.value) == 0) == e.op.EqualTo?))
  {
    assert Eval(e.lhs.rhs, mem) == Some(Int(e.lhs.rhs.value)) && Eval(IntLit(0), mem) == Some(Int(0));
    assert Eval(e.lhs, mem) == ApplyBinary(Modulus, Eval(e.lhs.lhs, mem), Eval(e.lhs.rhs, mem));
  }

  lemma ModuloMeaning(x: Affine, m: int, p: Point, i: int)
    requires Convertible(x) && Meaning(x, p) == i as real && m > 0
    ensures Meaning(Modulo(x, Literal(m)), p) == (i % m) as real
  {
    FloorOfQuotient(i, m);
    assert i == i / m * m + i % m;
    assert Meaning(Modulo(x, Literal(m)), p) == Operate(Modulo(x, Literal(m)), i as real, m as real);
  }

  lemma SameZero(x: int, m: int)
    requires m > 0
    ensures Remainder(x, m) == 0 <==> x % m == 0
  {
    RemainderOfNegative(x, m);
  }

  /** A constraint extracted from a condition contains the point of every memory where the condition
      is true, and none where it is false, unless `>` stands where its width matters. */
  lemma {:induction false} ConstraintDecides(e: Expr, invariant_: Expr -> bool, t: Tables, mem: Memory, truth: bool)
    requires ExtractConstraint(e, invariant_, t).0.Some? && Eval(e, mem) == Some(Bool(truth))
    requires PlainCondition(e) && ConditionConverts(e, mem) && GreaterFits(e, mem, truth)
    ensures Decides(ExtractConstraint(e, invariant_, t).0.value, ExtractConstraint(e, invariant_, t).1, mem, truth)
    decreases e, 1
  {
    if IsZeroTest(e) {
      ZeroTestDecides(e, invariant_, t, mem, truth);
    } else if e.Binary? && RelationOf(e.op).Some? {
      ComparisonDecides(e, invariant_, t, mem, truth);
    } else if e.Binary? {
      JunctionDecides(e, invariant_, t, mem, truth);
    } else {
      ConstraintDecides(e.arg, invariant_, t, mem, !truth);
    }
  }

  lemma {:induction false} JunctionDecides(e: Expr, invariant_: Expr -> bool, t: Tables, mem: Memory, truth: bool)
    requires e.Binary? && (e.op.LogicalAnd? || e.op.LogicalOr?)
    requires ExtractConstraint(e, invariant_, t).0.Some? && Eval(e, mem) == Some(Bool(truth))
    requires PlainCondition(e) && ConditionConverts(e, mem) && GreaterFits(e, mem, truth)
    ensures Decides(ExtractConstraint(e, invariant_, t).0.value, ExtractConstraint(e, invariant_, t).1, mem, truth)
    decreases e, 0
  {
    var (x, t1) := ExtractConstraint(e.lhs, invariant_, t);
    var (y, t2) := ExtractConstraint(e.rhs, invariant_, t1);
    var left, right := Eval(e.lhs, mem).value.b, Eval(e.rhs, mem).value.b;
    ConstraintIsWithin(e.lhs, invariant_, t);
    ConstraintIsWithin(e.rhs, invariant_, t1);
    ConstraintTablesGrow(e.rhs, invariant_, t1);
    ContainsStays(x.value, t1, t2, mem);
    if left == truth {
      ConstraintDecides(e.lhs, invariant_, t, mem, truth);
    }
    if right == truth {
      ConstraintDecides(e.rhs, invariant_, t1, mem, truth);
    }
  }

  lemma {:induction false} AffineIsWithin(e: Expr, invariant_: Expr -> bool, t: Tables)
    requires ConstructAffine(e, invariant_, t).0.Some? && Plain(e)
    ensures Within(ConstructAffine(e, invariant_, t).0.value, ConstructAffine(e, invariant_, t).1)
    ensures Convertible(ConstructAffine(e, invariant_, t).0.value)
  {
    match e
    case Binary(op, a, b) =>
      var (x, t1) := ConstructAffine(a, invariant_, t);
      AffineIsWithin(a, invariant_, t);
      AffineIsWithin(b, invariant_, t1);
      TablesGrow(b, invariant_, t1);
      WithinStays(x.value, t1, ConstructAffine(b, invariant_, t1).1);
    case Unary(_, a) => AffineIsWithin(a, invariant_, t);
    case _ =>
  }

  lemma {:induction false} WithinStays(a: Affine, t: Tables, u: Tables)
    requires Within(a, t) && Extends(t, u)
    ensures Within(a, u)
  {
    match a
    case Variable(_) =>
    case Constant(_) =>
    case Literal(_) =>
    case Negation(x) => WithinStays(x, t, u);
    case _ => WithinStays(a.lhs, t, u); WithinStays(a.rhs, t, u);
  }

  lemma {:induction false} WithinConstraintStays(c: Constraint, t: Tables, u: Tables)
    requires WithinConstraint(c, t) && Extends(t, u)
    ensures WithinConstraint(c, u)
  {
    match c
    case Compare(_, x, y) => WithinStays(x, t, u); WithinStays(y, t, u);
    case Both(x, y) => WithinConstraintStays(x, t, u); WithinConstraintStays(y, t, u);
    case Either(x, y) => WithinConstraintStays(x, t, u); WithinConstraintStays(y, t, u);
    case Not(x) => WithinConstraintStays(x, t, u);
  }

  lemma {:induction false} ConstraintIsWithin(e: Expr, invariant_: Expr -> bool, t: Tables)
    requires ExtractConstraint(e, invariant_, t).0.Some? && PlainCondition(e)
    ensures WithinConstraint(ExtractConstraint(e, invariant_, t).0.value, ExtractConstraint(e, invariant_, t).1)
    ensures ConvertibleConstraint(ExtractConstraint(e, invariant_, t).0.value)
  {
    if e.Binary? && RelationOf(e.op).Some? {
      var (x, t1) := ConstructAffine(e.lhs, invariant_, t);
      AffineIsWithin(e.lhs, invariant_, t);
      AffineIsWithin(e.rhs, invariant_, t1);
      TablesGrow(e.rhs, invariant_, t1);
      WithinStays(x.value, t1, ConstructAffine(e.rhs, invariant_, t1).1);
    } else if e.Binary? {
      var (x, t1) := ExtractConstraint(e.lhs, invariant_, t);
      ConstraintIsWithin(e.lhs, invariant_, t);
      ConstraintIsWithin(e.rhs, invariant_, t1);
      ConstraintTablesGrow(e.rhs, invariant_, t1);
      WithinConstraintStays(x.value, t1, ExtractConstraint(e.rhs, invariant_, t1).1);
    } else {
      ConstraintIsWithin(e.arg, invariant_, t);
    }
  }
}
