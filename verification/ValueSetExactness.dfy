/** Value sets hold nothing but what the axioms allow: every value in a set is taken somewhere. */
module ValueSetExactness {
  import opened Wrappers
  import opened Qir
  import opened QirRun
  import ConstantFolding
  import opened AxiomAnalysis
  import opened AffineConstraints
  import opened ValueSets

  // Affine expressions and conditions without tables: their values for given values of the
  // variables and the invariants.

  datatype Valuation = Valuation(variable: VarId -> int, constant: Expr -> int)

  /** Quotients are exact and remainders those of division with floor. */
  function OperationValue(op: BinaryOp, x: real, y: real, divisor: int): real
    requires op.Divides? || op.Modulus? ==> divisor != 0
  {
    match op
    case Plus => x + y
    case Minus => x - y
    case Multiplies => x * y
    case Divides => x / (divisor as real)
    case Modulus => x - ((x / (divisor as real)).Floor * divisor) as real
    case _ => x
  }

  function AffineValue(e: Expr, invariant_: Expr -> bool, s: Valuation): real
    requires Plain(e) && HasAffineForm(e, invariant_)
  {
    match e
    case Binary(op, a, b) =>
      OperationValue(op, AffineValue(a, invariant_, s), AffineValue(b, invariant_, s), if b.IntLit? then b.value else 1)
    case Unary(op, a) => if op.Identity? then AffineValue(a, invariant_, s) else -AffineValue(a, invariant_, s)
    case IntLit(v) => v as real
    case Access(base, _) => (if invariant_(e) then s.constant(e) else s.variable(base)) as real
    case _ => s.constant(e) as real
  }

  /** Comparisons as they are encoded, `>` one too wide. */
  function ComparisonHolds(op: BinaryOp, x: real, y: real): bool {
    match op
    case EqualTo => x == y
    case NotEqualTo => x != y
    case Less => x + 1.0 <= y
    case Greater => x + 1.0 >= y
    case LessEqual => x <= y
    case _ => x >= y
  }

  predicate ConditionHolds(e: Expr, invariant_: Expr -> bool, s: Valuation)
    requires PlainCondition(e) && HasConstraintForm(e, invariant_)
  {
    if e.Unary? then !ConditionHolds(e.arg, invariant_, s)
    else if e.op.LogicalAnd? then ConditionHolds(e.lhs, invariant_, s) && ConditionHolds(e.rhs, invariant_, s)
    else if e.op.LogicalOr? then ConditionHolds(e.lhs, invariant_, s) || ConditionHolds(e.rhs, invariant_, s)
    else ComparisonHolds(e.op, AffineValue(e.lhs, invariant_, s), AffineValue(e.rhs, invariant_, s))
  }

  /** All axioms that have an affine form hold. */
  ghost predicate AxiomsHold(axioms: seq<Expr>, invariant_: Expr -> bool, s: Valuation)
    requires AllPlain(axioms, invariant_)
  {
    forall k :: 0 <= k < |axioms| && HasConstraintForm(axioms[k], invariant_) ==> ConditionHolds(axioms[k], invariant_, s)
  }

  /** The library accepts those axioms. */
  ghost predicate AllPlain(axioms: seq<Expr>, invariant_: Expr -> bool) {
    forall k :: 0 <= k < |axioms| && HasConstraintForm(axioms[k], invariant_) ==> PlainCondition(axioms[k])
  }

  // The tables only give names.

  /** What the tables name has the same value in the point. */
  ghost predicate Names(t: Tables, s: Valuation, p: Point) {
    && (forall v :: v in t.variables ==> s.variable(v) == p.variables(PositionIn(t.variables, v)))
    && (forall e :: e in t.constants ==> s.constant(e) == p.constants(PositionIn(t.constants, e)))
  }

  function PositionIn<T(==)>(s: seq<T>, x: T): (r: nat)
    requires x in s
    ensures r < |s| && s[r] == x
  {
    Position(s, x).value
  }

  lemma {:induction false} PositionStays<T>(s: seq<T>, u: seq<T>, x: T)
    requires s <= u && x in s
    ensures x in u && PositionIn(u, x) == PositionIn(s, x)
  {
    if s[0] != x {
      assert s == [s[0]] + s[1..];
      PositionStays(s[1..], u[1..], x);
    }
  }

  lemma NamesBefore(t: Tables, u: Tables, s: Valuation, p: Point)
    requires Extends(t, u) && Names(u, s, p)
    ensures Names(t, s, p)
  {
    forall v | v in t.variables
      ensures s.variable(v) == p.variables(PositionIn(t.variables, v))
    {
      PositionStays(t.variables, u.variables, v);
    }
    forall e | e in t.constants
      ensures s.constant(e) == p.constants(PositionIn(t.constants, e))
    {
      PositionStays(t.constants, u.constants, e);
    }
  }

  lemma {:induction false} MeaningIsValue(e: Expr, invariant_: Expr -> bool, t: Tables, s: Valuation, p: Point)
    requires Plain(e) && HasAffineForm(e, invariant_) && Names(ConstructAffine(e, invariant_, t).1, s, p)
    ensures var a := ConstructAffine(e, invariant_, t).0;
            a.Some? && Convertible(a.value) && Meaning(a.value, p) == AffineValue(e, invariant_, s)
    decreases e
  {
    AffineFormIsFound(e, invariant_, t);
    AffineIsWithin(e, invariant_, t);
    hide Names, Convertible;
    if e.Binary? {
      var t1 := ConstructAffine(e.lhs, invariant_, t).1;
      var t2 := ConstructAffine(e.rhs, invariant_, t1).1;
      TablesGrow(e.rhs, invariant_, t1);
      NamesBefore(t1, t2, s, p);
      MeaningIsValue(e.lhs, invariant_, t, s, p);
      MeaningIsValue(e.rhs, invariant_, t1, s, p);
      BinaryIsValue(e, invariant_, t, s, p);
    } else if e.Unary? {
      MeaningIsValue(e.arg, invariant_, t, s, p);
      assert Convertible(ConstructAffine(e, invariant_, t).0.value);
      NegationIsValue(e, invariant_, t, s, p);
    } else if !e.IntLit? {
      EntryIsValue(e, invariant_, t, s, p);
    }
  }

  lemma NegationIsValue(e: Expr, invariant_: Expr -> bool, t: Tables, s: Valuation, p: Point)
    requires e.Unary? && Plain(e) && HasAffineForm(e, invariant_)
    requires var (x, t1) := ConstructAffine(e.arg, invariant_, t);
             x.Some? && Convertible(x.value) && Meaning(x.value, p) == AffineValue(e.arg, invariant_, s)
    ensures var a := ConstructAffine(e, invariant_, t).0;
            a.Some? && Convertible(a.value) && Meaning(a.value, p) == AffineValue(e, invariant_, s)
  {
  }

  lemma BinaryIsValue(e: Expr, invariant_: Expr -> bool, t: Tables, s: Valuation, p: Point)
    requires e.Binary? && Plain(e) && HasAffineForm(e, invariant_)
    requires ConstructAffine(e, invariant_, t).0.Some? && Convertible(ConstructAffine(e, invariant_, t).0.value)
    requires var (x, t1) := ConstructAffine(e.lhs, invariant_, t);
             var y := ConstructAffine(e.rhs, invariant_, t1).0;
             && x.Some? && Convertible(x.value) && Meaning(x.value, p) == AffineValue(e.lhs, invariant_, s)
             && y.Some? && Convertible(y.value) && Meaning(y.value, p) == AffineValue(e.rhs, invariant_, s)
    ensures Meaning(ConstructAffine(e, invariant_, t).0.value, p) == AffineValue(e, invariant_, s)
  {
    var (x, t1) := ConstructAffine(e.lhs, invariant_, t);
    var y := ConstructAffine(e.rhs, invariant_, t1).0;
    assert e.rhs.IntLit? ==> y == Some(Literal(e.rhs.value));
    assert ConstructAffine(e, invariant_, t).0 == Combined(e.op, x.value, y.value);
    var v, w := AffineValue(e.lhs, invariant_, s), AffineValue(e.rhs, invariant_, s);
    hide ConstructAffine, HasAffineForm;
    var a := Combined(e.op, x.value, y.value).value;
    assert Meaning(a, p) == Operate(a, v, w);
  }

  lemma EntryIsValue(e: Expr, invariant_: Expr -> bool, t: Tables, s: Valuation, p: Point)
    requires !e.Binary? && !e.Unary? && !e.IntLit? && Plain(e) && HasAffineForm(e, invariant_)
    requires Names(ConstructAffine(e, invariant_, t).1, s, p)
    ensures var a := ConstructAffine(e, invariant_, t).0;
            a.Some? && Convertible(a.value) && Meaning(a.value, p) == AffineValue(e, invariant_, s)
  {
    var (a, u) := ConstructAffine(e, invariant_, t);
    if invariant_(e) {
      assert a.value.Constant? && e in u.constants && a.value.id == PositionIn(u.constants, e);
    } else {
      assert a.value.Variable? && e.base in u.variables && a.value.id == PositionIn(u.variables, e.base);
    }
  }

  lemma ComparisonIsValue(e: Expr, invariant_: Expr -> bool, t: Tables, s: Valuation, p: Point)
    requires e.Binary? && RelationOf(e.op).Some? && PlainCondition(e) && HasConstraintForm(e, invariant_)
    requires Names(ExtractConstraint(e, invariant_, t).1, s, p)
    ensures var c := ExtractConstraint(e, invariant_, t).0;
            c.Some? && ConvertibleConstraint(c.value) && (Contains(c.value, p) <==> ConditionHolds(e, invariant_, s))
  {
    var (x, t1) := ConstructAffine(e.lhs, invariant_, t);
    var (y, t2) := ConstructAffine(e.rhs, invariant_, t1);
    TablesGrow(e.rhs, invariant_, t1);
    NamesBefore(t1, t2, s, p);
    MeaningIsValue(e.lhs, invariant_, t, s, p);
    MeaningIsValue(e.rhs, invariant_, t1, s, p);
    hide ConstructAffine, Meaning, AffineValue, Convertible, HasAffineForm;
    var c := Compare(RelationOf(e.op).value, x.value, y.value);
    assert ExtractConstraint(e, invariant_, t) == (Some(c), t2);
  }

  lemma {:induction false} ConstraintIsCondition(e: Expr, invariant_: Expr -> bool, t: Tables, s: Valuation, p: Point)
    requires PlainCondition(e) && HasConstraintForm(e, invariant_) && Names(ExtractConstraint(e, invariant_, t).1, s, p)
    ensures var c := ExtractConstraint(e, invariant_, t).0;
            c.Some? && ConvertibleConstraint(c.value) && (Contains(c.value, p) <==> ConditionHolds(e, invariant_, s))
    decreases e
  {
    if e.Binary? && RelationOf(e.op).Some? {
      ComparisonIsValue(e, invariant_, t, s, p);
    } else if e.Binary? {
      var t1 := ExtractConstraint(e.lhs, invariant_, t).1;
      ConstraintTablesGrow(e.rhs, invariant_, t1);
      NamesBefore(t1, ExtractConstraint(e.rhs, invariant_, t1).1, s, p);
      ConstraintIsCondition(e.lhs, invariant_, t, s, p);
      ConstraintIsCondition(e.rhs, invariant_, t1, s, p);
    } else {
      ConstraintIsCondition(e.arg, invariant_, t, s, p);
    }
  }

  lemma InDomainOfMore(cs: seq<Constraint>, c: Constraint, p: Point)
    ensures InDomain(cs + [c], p) <==> InDomain(cs, p) && ConvertibleConstraint(c) && Contains(c, p)
  {
    var all := cs + [c];
    if InDomain(all, p) {
      assert all[|cs|] == c;
      assert forall k :: 0 <= k < |cs| ==> all[k] == cs[k];
    }
  }

  /** A point is in the domain of the axioms exactly if all those with an affine form hold there. */
  lemma {:induction false} DomainIsAxioms(axioms: seq<Expr>, invariant_: Expr -> bool, t: Tables, s: Valuation, p: Point)
    requires AllPlain(axioms, invariant_) && Names(ExtractAll(axioms, invariant_, t).1, s, p)
    ensures InDomain(ExtractAll(axioms, invariant_, t).0, p) <==> AxiomsHold(axioms, invariant_, s)
  {
    if axioms != [] {
      var n := |axioms| - 1;
      var before, last := axioms[..n], axioms[n];
      var (cs, t1) := ExtractAll(before, invariant_, t);
      ConstraintTablesGrow(last, invariant_, t1);
      NamesBefore(t1, ExtractConstraint(last, invariant_, t1).1, s, p);
      DomainIsAxioms(before, invariant_, t, s, p);
      ConstraintFormIsFound(last, invariant_, t1);
      if HasConstraintForm(last, invariant_) {
        ConstraintIsCondition(last, invariant_, t1, s, p);
        InDomainOfMore(cs, ExtractConstraint(last, invariant_, t1).0.value, p);
      }
      hide InDomain, ConditionHolds, HasConstraintForm, PlainCondition;
      MoreAxioms(axioms, invariant_, s);
    }
  }

  lemma MoreAxioms(axioms: seq<Expr>, invariant_: Expr -> bool, s: Valuation)
    requires axioms != [] && AllPlain(axioms, invariant_)
    ensures var n := |axioms| - 1;
            && AllPlain(axioms[..n], invariant_)
            && (AxiomsHold(axioms, invariant_, s) <==>
                AxiomsHold(axioms[..n], invariant_, s) &&
                (HasConstraintForm(axioms[n], invariant_) ==> ConditionHolds(axioms[n], invariant_, s)))
  {
    hide ConditionHolds, HasConstraintForm, PlainCondition;
    var n := |axioms| - 1;
    assert forall k :: 0 <= k < n ==> axioms[..n][k] == axioms[k];
    if AxiomsHold(axioms[..n], invariant_, s) && (HasConstraintForm(axioms[n], invariant_) ==> ConditionHolds(axioms[n], invariant_, s)) {
      forall k | 0 <= k < |axioms| && HasConstraintForm(axioms[k], invariant_)
        ensures ConditionHolds(axioms[k], invariant_, s)
      {
        assert k < n ==> axioms[..n][k] == axioms[k];
      }
    }
  }

  // The set.

  /** `x` is the value of the expression for some values of the variables for which the axioms hold;
      the invariants have the values `constant`. */
  ghost predicate IsTaken(e: Expr, axioms: seq<Expr>, invariant_: Expr -> bool, constant: Expr -> int, x: int)
    requires Plain(e) && HasAffineForm(e, invariant_) && AllPlain(axioms, invariant_)
  {
    exists variable: VarId -> int :: TakenFor(e, axioms, invariant_, Valuation(variable, constant), x)
  }

  ghost predicate TakenFor(e: Expr, axioms: seq<Expr>, invariant_: Expr -> bool, s: Valuation, x: int)
    requires Plain(e) && HasAffineForm(e, invariant_) && AllPlain(axioms, invariant_)
  {
    AxiomsHold(axioms, invariant_, s) && AffineValue(e, invariant_, s) == x as real
  }

  /** The constants of the point are the values of the invariants. */
  ghost predicate NamesConstants(t: Tables, constant: Expr -> int, constants: nat -> int) {
    forall e :: e in t.constants ==> constant(e) == constants(PositionIn(t.constants, e))
  }

  lemma InSetFor(e: Expr, axioms: seq<Expr>, invariant_: Expr -> bool, t: Tables, s: Valuation, p: Point, x: int)
    requires Plain(e) && HasAffineForm(e, invariant_) && AllPlain(axioms, invariant_)
    requires Names(Determine(e, axioms, invariant_, t).1, s, p)
    ensures var set_ := Determine(e, axioms, invariant_, t).0;
            && set_.expr.Some?
            && (InDomain(set_.domain, p) && Convertible(set_.expr.value) && Meaning(set_.expr.value, p) == x as real <==>
                TakenFor(e, axioms, invariant_, s, x))
  {
    var (a, t1) := ConstructAffine(e, invariant_, t);
    AffineFormIsFound(e, invariant_, t);
    AllTablesGrow(axioms, invariant_, t1);
    NamesBefore(t1, ExtractAll(axioms, invariant_, t1).1, s, p);
    hide ExtractAll, ConstructAffine, Names, InDomain, AxiomsHold, HasAffineForm, Plain, Meaning, Convertible;
    MeaningIsValue(e, invariant_, t, s, p);
    DomainIsAxioms(axioms, invariant_, t1, s, p);
  }

  /** Variables that are not in the table count as 0. */
  function ValueAt(u: Tables, variables: nat -> int, v: VarId): int {
    if v in u.variables then variables(PositionIn(u.variables, v)) else 0
  }

  function ValuationOf(u: Tables, variables: nat -> int, constant: Expr -> int): Valuation {
    Valuation((v: VarId) => ValueAt(u, variables, v), constant)
  }

  function VariablesOf(u: Tables, variable: VarId -> int): nat -> int {
    (k: nat) => if k < |u.variables| then variable(u.variables[k]) else 0
  }

  lemma ValuationIsNamed(u: Tables, variables: nat -> int, constant: Expr -> int, constants: nat -> int)
    requires NamesConstants(u, constant, constants)
    ensures Names(u, ValuationOf(u, variables, constant), Point(variables, constants))
  {
  }

  lemma PointIsNamed(u: Tables, variable: VarId -> int, constant: Expr -> int, constants: nat -> int)
    requires NamesConstants(u, constant, constants)
    ensures Names(u, Valuation(variable, constant), Point(VariablesOf(u, variable), constants))
  {
  }

  /** The set of an affine expression holds exactly the values it takes where the affine axioms hold. */
  lemma SetIsExact(e: Expr, axioms: seq<Expr>, invariant_: Expr -> bool, t: Tables, constant: Expr -> int, constants: nat -> int, x: int)
    requires Plain(e) && HasAffineForm(e, invariant_) && AllPlain(axioms, invariant_)
    requires NamesConstants(Determine(e, axioms, invariant_, t).1, constant, constants)
    ensures Includes(Determine(e, axioms, invariant_, t).0, x, constants) <==> IsTaken(e, axioms, invariant_, constant, x)
  {
    var (set_, u) := Determine(e, axioms, invariant_, t);
    hide Determine, TakenFor, InDomain, Meaning, Convertible;
    var zero := (k: nat) => 0;
    ValuationIsNamed(u, zero, constant, constants);
    InSetFor(e, axioms, invariant_, t, ValuationOf(u, zero, constant), Point(zero, constants), x);
    if Includes(set_, x, constants) {
      var variables: nat -> int :| InDomain(set_.domain, Point(variables, constants)) && Convertible(set_.expr.value) &&
        Meaning(set_.expr.value, Point(variables, constants)) == x as real;
      var s := ValuationOf(u, variables, constant);
      ValuationIsNamed(u, variables, constant, constants);
      InSetFor(e, axioms, invariant_, t, s, Point(variables, constants), x);
      assert TakenFor(e, axioms, invariant_, Valuation(s.variable, constant), x);
    }
    if IsTaken(e, axioms, invariant_, constant, x) {
      var variable: VarId -> int :| TakenFor(e, axioms, invariant_, Valuation(variable, constant), x);
      var variables := VariablesOf(u, variable);
      PointIsNamed(u, variable, constant, constants);
      InSetFor(e, axioms, invariant_, t, Valuation(variable, constant), Point(variables, constants), x);
    }
  }

  // Memories in place of valuations.

  lemma {:induction false} SameValue(e: Expr, invariant_: Expr -> bool, s: Valuation, s': Valuation, on: set<VarId>)
    requires Plain(e) && HasAffineForm(e, invariant_) && Reads(e) <= on && SameFor(invariant_, s, s', on)
    ensures AffineValue(e, invariant_, s) == AffineValue(e, invariant_, s')
  {
    match e
    case Binary(_, a, b) => SameValue(a, invariant_, s, s', on); SameValue(b, invariant_, s, s', on);
    case Unary(_, a) => SameValue(a, invariant_, s, s', on);
    case _ =>
  }

  /** Equal values of all invariants, and of the variables in `on` that are none. */
  ghost predicate SameFor(invariant_: Expr -> bool, s: Valuation, s': Valuation, on: set<VarId>) {
    && (forall e :: invariant_(e) ==> s.constant(e) == s'.constant(e))
    && (forall v :: v in on && !invariant_(Ref(v)) ==> s.variable(v) == s'.variable(v))
  }

  lemma {:induction false} SameCondition(e: Expr, invariant_: Expr -> bool, s: Valuation, s': Valuation, on: set<VarId>)
    requires PlainCondition(e) && HasConstraintForm(e, invariant_) && Reads(e) <= on && SameFor(invariant_, s, s', on)
    ensures ConditionHolds(e, invariant_, s) == ConditionHolds(e, invariant_, s')
  {
    if e.Unary? {
      SameCondition(e.arg, invariant_, s, s', on);
    } else if e.op.LogicalAnd? || e.op.LogicalOr? {
      SameCondition(e.lhs, invariant_, s, s', on);
      SameCondition(e.rhs, invariant_, s, s', on);
    } else {
      SameValue(e.lhs, invariant_, s, s', on);
      SameValue(e.rhs, invariant_, s, s', on);
    }
  }

  lemma SameTaken(e: Expr, axioms: seq<Expr>, invariant_: Expr -> bool, s: Valuation, s': Valuation, x: int)
    requires Plain(e) && HasAffineForm(e, invariant_) && AllPlain(axioms, invariant_)
    requires SameFor(invariant_, s, s', Reads(e) + ReadsAll(axioms))
    ensures TakenFor(e, axioms, invariant_, s, x) == TakenFor(e, axioms, invariant_, s', x)
  {
    hide HasConstraintForm, PlainCondition, HasAffineForm, Plain, SameFor, AffineValue, ConditionHolds;
    SameValue(e, invariant_, s, s', Reads(e) + ReadsAll(axioms));
    forall k | 0 <= k < |axioms| && HasConstraintForm(axioms[k], invariant_)
      ensures ConditionHolds(axioms[k], invariant_, s) == ConditionHolds(axioms[k], invariant_, s')
    {
      ReadsOfElement(axioms, k);
      SameCondition(axioms[k], invariant_, s, s', Reads(e) + ReadsAll(axioms));
    }
  }

  /** The values that a memory holds. */
  function ValuationIn(m: Memory): Valuation {
    Valuation((v: VarId) => Load(m, Scalar(v)), (e: Expr) => IntAt(e, m))
  }

  ghost predicate AxiomsTrue(axioms: seq<Expr>, invariant_: Expr -> bool, m: Memory) {
    forall k :: 0 <= k < |axioms| && HasConstraintForm(axioms[k], invariant_) ==> Eval(axioms[k], m) == Some(Bool(true))
  }

  predicate ConditionExactAt(axiom: Expr, m: Memory) {
    var truth := Eval(axiom, m);
    truth.Some? && truth.value.Bool? && ConditionConverts(axiom, m) && GreaterFits(axiom, m, truth.value.b)
  }

  /** The expression and the axioms that are used have values in `m`, and their affine forms have the
      same ones. */
  ghost predicate ExactAt(e: Expr, axioms: seq<Expr>, invariant_: Expr -> bool, m: Memory) {
    && Eval(e, m).Some? && Eval(e, m).value.Int? && Converts(e, m)
    && forall k :: 0 <= k < |axioms| && HasConstraintForm(axioms[k], invariant_) ==> ConditionExactAt(axioms[k], m)
  }

  lemma MemoryIsNamed(t: Tables, m: Memory)
    ensures Names(t, ValuationIn(m), PointOf(t, m))
  {
  }

  lemma ValueInMemory(e: Expr, invariant_: Expr -> bool, m: Memory, v: int)
    requires Plain(e) && HasAffineForm(e, invariant_) && Converts(e, m) && Eval(e, m) == Some(Int(v))
    ensures AffineValue(e, invariant_, ValuationIn(m)) == v as real
  {
    var t := ConstructAffine(e, invariant_, EMPTY).1;
    MemoryIsNamed(t, m);
    MeaningIsValue(e, invariant_, EMPTY, ValuationIn(m), PointOf(t, m));
    AffineIsExact(e, invariant_, EMPTY, m, v);
  }

  lemma ConditionInMemory(e: Expr, invariant_: Expr -> bool, m: Memory)
    requires PlainCondition(e) && HasConstraintForm(e, invariant_) && ConditionExactAt(e, m)
    ensures ConditionHolds(e, invariant_, ValuationIn(m)) <==> Eval(e, m) == Some(Bool(true))
  {
    var t := ExtractConstraint(e, invariant_, EMPTY).1;
    MemoryIsNamed(t, m);
    ConstraintIsCondition(e, invariant_, EMPTY, ValuationIn(m), PointOf(t, m));
    ConstraintDecides(e, invariant_, EMPTY, m, Eval(e, m).value.b);
  }

  lemma TakenInMemory(e: Expr, axioms: seq<Expr>, invariant_: Expr -> bool, m: Memory, x: int)
    requires Plain(e) && HasAffineForm(e, invariant_) && AllPlain(axioms, invariant_) && ExactAt(e, axioms, invariant_, m)
    ensures TakenFor(e, axioms, invariant_, ValuationIn(m), x) <==> AxiomsTrue(axioms, invariant_, m) && Eval(e, m) == Some(Int(x))
  {
    hide ConditionHolds, ConditionExactAt, HasConstraintForm, PlainCondition, AffineValue, HasAffineForm, Plain, Eval;
    ValueInMemory(e, invariant_, m, Eval(e, m).value.i);
    forall k | 0 <= k < |axioms| && HasConstraintForm(axioms[k], invariant_)
      ensures ConditionHolds(axioms[k], invariant_, ValuationIn(m)) <==> Eval(axioms[k], m) == Some(Bool(true))
    {
      ConditionInMemory(axioms[k], invariant_, m);
    }
  }

  /** An expression is invariant only if the variables it reads are. */
  ghost predicate Consistent(invariant_: Expr -> bool) {
    forall e, v :: invariant_(e) && v in Reads(e) ==> invariant_(Ref(v))
  }

  predicate IsFree(l: Location, invariant_: Expr -> bool) {
    l.Location? && l.indices == [] && !invariant_(Ref(l.base))
  }

  /** `m` differs from `mem` at most in variables that are not invariant. */
  ghost predicate VariesFrom(mem: Memory, m: Memory, invariant_: Expr -> bool) {
    forall l: Location :: !IsFree(l, invariant_) ==> Load(m, l) == Load(mem, l)
  }

  lemma InvariantsStay(e: Expr, invariant_: Expr -> bool, mem: Memory, m: Memory)
    requires Consistent(invariant_) && VariesFrom(mem, m, invariant_) && invariant_(e)
    ensures IntAt(e, m) == IntAt(e, mem)
  {
    forall l: Location | l.Dimension? || l.base in Reads(e)
      ensures Load(m, l) == Load(mem, l)
    {
      assert !IsFree(l, invariant_);
    }
    EvalSame(e, m, mem);
  }

  function Assigned(mem: Memory, vs: set<VarId>, invariant_: Expr -> bool, variable: VarId -> int): Memory {
    mem + map l: Location | l in (set v | v in vs :: Scalar(v)) && IsFree(l, invariant_) :: variable(l.base)
  }

  lemma AssignedVaries(mem: Memory, vs: set<VarId>, invariant_: Expr -> bool, variable: VarId -> int)
    requires Consistent(invariant_)
    ensures var m := Assigned(mem, vs, invariant_, variable);
            && VariesFrom(mem, m, invariant_)
            && SameFor(invariant_, Valuation(variable, (e: Expr) => IntAt(e, mem)), ValuationIn(m), vs)
  {
    var m := Assigned(mem, vs, invariant_, variable);
    assert VariesFrom(mem, m, invariant_);
    forall e | invariant_(e)
      ensures IntAt(e, m) == IntAt(e, mem)
    {
      InvariantsStay(e, invariant_, mem, m);
    }
    forall v | v in vs && !invariant_(Ref(v))
      ensures Load(m, Scalar(v)) == variable(v)
    {
      assert IsFree(Scalar(v), invariant_) && Scalar(v).base == v;
    }
  }

  /** A memory with the invariants of `mem` in which the used axioms are true and `e` is `x`. */
  ghost predicate TakenIn(e: Expr, axioms: seq<Expr>, invariant_: Expr -> bool, mem: Memory, m: Memory, x: int) {
    VariesFrom(mem, m, invariant_) && AxiomsTrue(axioms, invariant_, m) && Eval(e, m) == Some(Int(x))
  }

  /** Wherever the axioms are true or their affine forms hold, they and the expression convert exactly. */
  ghost predicate ExactWithin(e: Expr, axioms: seq<Expr>, invariant_: Expr -> bool, mem: Memory)
    requires AllPlain(axioms, invariant_)
  {
    forall m :: VariesFrom(mem, m, invariant_) && (AxiomsTrue(axioms, invariant_, m) || AxiomsHold(axioms, invariant_, ValuationIn(m))) ==>
      ExactAt(e, axioms, invariant_, m)
  }

  lemma TakenMeansMemory(e: Expr, axioms: seq<Expr>, invariant_: Expr -> bool, mem: Memory, x: int)
    requires Plain(e) && HasAffineForm(e, invariant_) && AllPlain(axioms, invariant_)
    requires Consistent(invariant_) && ExactWithin(e, axioms, invariant_, mem)
    ensures IsTaken(e, axioms, invariant_, (e: Expr) => IntAt(e, mem), x) <==> exists m :: TakenIn(e, axioms, invariant_, mem, m, x)
  {
    var constant := (e: Expr) => IntAt(e, mem);
    var vs := Reads(e) + ReadsAll(axioms);
    hide AxiomsTrue, ExactAt, AffineValue, HasAffineForm, Plain, Assigned, SameFor;
    if IsTaken(e, axioms, invariant_, constant, x) {
      var variable: VarId -> int :| TakenFor(e, axioms, invariant_, Valuation(variable, constant), x);
      var m := Assigned(mem, vs, invariant_, variable);
      AssignedVaries(mem, vs, invariant_, variable);
      SameTaken(e, axioms, invariant_, Valuation(variable, constant), ValuationIn(m), x);
      TakenInMemory(e, axioms, invariant_, m, x);
      assert TakenIn(e, axioms, invariant_, mem, m, x);
    }
    if m :| TakenIn(e, axioms, invariant_, mem, m, x) {
      TakenInMemory(e, axioms, invariant_, m, x);
      MemoryVaries(invariant_, mem, m, vs);
      SameTaken(e, axioms, invariant_, ValuationIn(m), Valuation(ValuationIn(m).variable, constant), x);
      assert TakenFor(e, axioms, invariant_, Valuation(ValuationIn(m).variable, constant), x);
    }
  }

  lemma MemoryVaries(invariant_: Expr -> bool, mem: Memory, m: Memory, vs: set<VarId>)
    requires Consistent(invariant_) && VariesFrom(mem, m, invariant_)
    ensures SameFor(invariant_, ValuationIn(m), Valuation(ValuationIn(m).variable, (e: Expr) => IntAt(e, mem)), vs)
  {
    forall e | invariant_(e)
      ensures IntAt(e, m) == IntAt(e, mem)
    {
      InvariantsStay(e, invariant_, mem, m);
    }
  }

  lemma ConstantsOfMemory(t: Tables, u: Tables, mem: Memory)
    requires Extends(t, u)
    ensures NamesConstants(t, (e: Expr) => IntAt(e, mem), PointOf(u, mem).constants)
  {
    forall e | e in t.constants
      ensures IntAt(e, mem) == PointOf(u, mem).constants(PositionIn(t.constants, e))
    {
      PositionStays(t.constants, u.constants, e);
    }
  }

  /** The set holds exactly the values that the expression has in memories with the given invariants
      in which the axioms are true. */
  lemma SetInMemory(e: Expr, axioms: seq<Expr>, invariant_: Expr -> bool, t: Tables, u: Tables, mem: Memory, x: int)
    requires Plain(e) && HasAffineForm(e, invariant_) && AllPlain(axioms, invariant_)
    requires Consistent(invariant_) && ExactWithin(e, axioms, invariant_, mem)
    requires Extends(Determine(e, axioms, invariant_, t).1, u)
    ensures Includes(Determine(e, axioms, invariant_, t).0, x, PointOf(u, mem).constants) <==>
            exists m :: TakenIn(e, axioms, invariant_, mem, m, x)
  {
    hide Determine, Includes, IsTaken, TakenIn, ExactWithin, PointOf, NamesConstants, HasAffineForm, Plain;
    ConstantsOfMemory(Determine(e, axioms, invariant_, t).1, u, mem);
    SetIsExact(e, axioms, invariant_, t, (e: Expr) => IntAt(e, mem), PointOf(u, mem).constants, x);
    TakenMeansMemory(e, axioms, invariant_, mem, x);
  }

  // The sets of a program.

  /** All axioms at the expression have affine forms that the library accepts. */
  ghost predicate AllAffine(axioms: seq<Expr>, invariant_: Expr -> bool) {
    forall k :: 0 <= k < |axioms| ==> HasConstraintForm(axioms[k], invariant_) && PlainCondition(axioms[k])
  }

  /** A value that the expression at `path` has for index values that the loops and branches around it
      admit. */
  ghost predicate Admitted(root: Expr, path: Path, invariant_: Expr -> bool, mem: Memory, m: Memory, x: int)
    requires IsSubexpression(root, path)
  {
    VariesFrom(mem, m, invariant_) && Admits(root, path, m) && Eval(Subexpression(root, path), m) == Some(Int(x))
  }

  lemma AdmittedIsTaken(root: Expr, path: Path, invariant_: Expr -> bool, mem: Memory, m: Memory, x: int)
    requires IsSubexpression(root, path) && IsPath(GenerateScope(root, []), path)
    requires AllAffine(AxiomsAt(GenerateScope(root, []), path), invariant_)
    ensures TakenIn(Subexpression(root, path), AxiomsAt(GenerateScope(root, []), path), invariant_, mem, m, x) <==>
            Admitted(root, path, invariant_, mem, m, x)
  {
    AxiomsAreExact(root, [], path, m);
    assert Holds([], m);
  }

  /** With the invariants of `mem`, the set determined for an affine expression of a program holds
      exactly the values that the expression has for the index values that the loops and branches
      around it admit, if the axioms there are affine and convert exactly where they hold. */
  lemma ValueSetIsExact(root: Expr, paths: seq<Path>, k: nat, invariant_: Expr -> bool, mem: Memory, x: int)
    requires AllAnalysable(root, paths) && k < |paths| && Consistent(invariant_)
    requires var e := Subexpression(root, paths[k]); Plain(e) && HasAffineForm(e, invariant_)
    requires var axioms := AxiomsAt(GenerateScope(root, []), paths[k]);
             AllAffine(axioms, invariant_) && ExactWithin(Subexpression(root, paths[k]), axioms, invariant_, mem)
    ensures var (valueSets, t) := DetermineAll(root, paths, |paths|, invariant_);
            Includes(valueSets[k], x, PointOf(t, mem).constants) <==> exists m :: Admitted(root, paths[k], invariant_, mem, m, x)
  {
    ContextGrows(root, paths, k + 1, |paths|, invariant_);
    var e, axioms := Subexpression(root, paths[k]), AxiomsAt(GenerateScope(root, []), paths[k]);
    var t, u := DetermineAll(root, paths, k, invariant_).1, DetermineAll(root, paths, |paths|, invariant_).1;
    assert DetermineAll(root, paths, k + 1, invariant_).0[k] == Determine(e, axioms, invariant_, t).0;
    forall m
      ensures TakenIn(e, axioms, invariant_, mem, m, x) <==> Admitted(root, paths[k], invariant_, mem, m, x)
    {
      AdmittedIsTaken(root, paths[k], invariant_, mem, m, x);
    }
    hide Includes, ExactWithin, TakenIn, Admitted, HasAffineForm, Plain, AllAffine;
    SetInMemory(e, axioms, invariant_, t, u, mem, x);
  }

  // The index of a loop between literals.

  lemma LiteralBound(idx: VarId, l: int, u: int, inc: int)
    requires inc > 0
    ensures UpperBoundAxiom(idx, IntLit(l), IntLit(u), IntLit(inc)) ==
            Binary(Less, Ref(idx), IntLit(if inc == 1 then u else u - Remainder(u - l - 1, inc)))
  {
    var mem: Memory := map[];
    var range := Binary(Minus, IntLit(u), IntLit(l));
    var last := Binary(Minus, range, IntLit(1));
    var excess := Binary(Modulus, last, IntLit(inc));
    var bound := TightBound(IntLit(l), IntLit(u), IntLit(inc));
    assert forall v :: Eval(IntLit(v), mem) == Some(Int(v)) && ConstantFolding.Constant(IntLit(v));
    assert ConstantFolding.Constant(range) && Eval(range, mem) == Some(Int(u - l));
    assert ConstantFolding.Constant(last) && Eval(last, mem) == Some(Int(u - l - 1));
    assert ConstantFolding.Constant(excess) && Eval(excess, mem) == Some(Int(Remainder(u - l - 1, inc)));
    assert ConstantFolding.Constant(bound) && Eval(bound, mem) == Some(Int(u - Remainder(u - l - 1, inc)));
    ConstantFolding.ConstantFoldsToValue(bound, mem);
  }

  lemma IndexComparison(op: BinaryOp, idx: VarId, bound: int, invariant_: Expr -> bool, s: Valuation)
    requires (op.Less? || op.GreaterEqual?) && !invariant_(Ref(idx))
    ensures var e := Binary(op, Ref(idx), IntLit(bound));
            && PlainCondition(e) && HasConstraintForm(e, invariant_)
            && (ConditionHolds(e, invariant_, s) <==> if op.Less? then s.variable(idx) < bound else s.variable(idx) >= bound)
  {
    assert AffineValue(Ref(idx), invariant_, s) == s.variable(idx) as real;
  }

  lemma LiteralForm(v: int, invariant_: Expr -> bool, s: Valuation)
    ensures Plain(IntLit(v)) && HasConstantForm(IntLit(v), invariant_) && HasAffineForm(IntLit(v), invariant_)
    ensures AffineValue(IntLit(v), invariant_, s) == v as real
  {
  }

  lemma StrideCondition(idx: VarId, l: int, inc: int, invariant_: Expr -> bool, s: Valuation)
    requires inc > 0 && !invariant_(Ref(idx))
    ensures var e := StrideAxiom(idx, IntLit(l), IntLit(inc));
            && PlainCondition(e) && HasConstraintForm(e, invariant_)
            && (ConditionHolds(e, invariant_, s) <==> (s.variable(idx) - l) % inc == 0)
  {
    var offset := Binary(Minus, Ref(idx), IntLit(l));
    var d := s.variable(idx) - l;
    LiteralForm(l, invariant_, s);
    LiteralForm(inc, invariant_, s);
    assert Plain(offset) && HasAffineForm(offset, invariant_);
    assert AffineValue(Ref(idx), invariant_, s) == s.variable(idx) as real;
    assert AffineValue(offset, invariant_, s) == s.variable(idx) as real - l as real;
    var remainder := Binary(Modulus, offset, IntLit(inc));
    assert Plain(remainder) && HasAffineForm(remainder, invariant_);
    FloorOfQuotient(d, inc);
    assert d == d / inc * inc + d % inc;
    assert AffineValue(remainder, invariant_, s) == (d % inc) as real;
  }

  /** Whatever the variables hold: the axioms of the loop allow the values its index counts through. */
  lemma LiteralAxioms(idx: VarId, l: int, u: int, inc: int, invariant_: Expr -> bool, s: Valuation)
    requires inc > 0 && !invariant_(Ref(idx))
    ensures var axioms := LoopAxioms(idx, IntLit(l), IntLit(u), IntLit(inc));
            && AllPlain(axioms, invariant_)
            && (AxiomsHold(axioms, invariant_, s) <==> l <= s.variable(idx) < u && (s.variable(idx) - l) % inc == 0)
  {
    var i, axioms := s.variable(idx), LoopAxioms(idx, IntLit(l), IntLit(u), IntLit(inc));
    var bound := if inc == 1 then u else u - Remainder(u - l - 1, inc);
    LiteralBound(idx, l, u, inc);
    IndexComparison(GreaterEqual, idx, l, invariant_, s);
    IndexComparison(Less, idx, bound, invariant_, s);
    StrideCondition(idx, l, inc, invariant_, s);
    assert PlainCondition(axioms[3]) && HasConstraintForm(axioms[3], invariant_);
    assert ConditionHolds(axioms[3], invariant_, s) <==> l < u;
    hide PlainCondition, HasConstraintForm, ConditionHolds, Remainder;
    if l < u {
      LastIteration(i, l, u, inc, bound);
    }
    assert AxiomsHold(axioms, invariant_, s) <==>
           ConditionHolds(axioms[0], invariant_, s) && ConditionHolds(axioms[1], invariant_, s) &&
           ConditionHolds(axioms[2], invariant_, s) && ConditionHolds(axioms[3], invariant_, s);
  }

  lemma LastIteration(i: int, l: int, u: int, inc: int, bound: int)
    requires inc > 0 && l < u && bound == if inc == 1 then u else u - Remainder(u - l - 1, inc)
    ensures bound <= u && (l <= i < u && (i - l) % inc == 0 ==> i < bound)
  {
    TruncatedIsEuclidean(u - l - 1, inc);
    if l <= i < u && (i - l) % inc == 0 {
      MultipleBelow(i - l, u - l - 1, inc);
    }
  }

  /** In a loop from `l` below `u` in steps of `inc` the set of the index is that of its iterations. */
  lemma LoopIndexSet(idx: VarId, l: int, u: int, inc: int, invariant_: Expr -> bool, t: Tables, constants: nat -> int, x: int)
    requires inc > 0 && !invariant_(Ref(idx))
    ensures Includes(Determine(Ref(idx), LoopAxioms(idx, IntLit(l), IntLit(u), IntLit(inc)), invariant_, t).0, x, constants) <==>
            l <= x < u && (x - l) % inc == 0
  {
    var e, axioms := Ref(idx), LoopAxioms(idx, IntLit(l), IntLit(u), IntLit(inc));
    var names := Determine(e, axioms, invariant_, t).1.constants;
    var constant := (c: Expr) => if c in names then constants(PositionIn(names, c)) else 0;
    var s := Valuation((v: VarId) => x, constant);
    LiteralAxioms(idx, l, u, inc, invariant_, s);
    SetIsExact(e, axioms, invariant_, t, constant, constants, x);
    if l <= x < u && (x - l) % inc == 0 {
      assert TakenFor(e, axioms, invariant_, Valuation(s.variable, constant), x);
    }
    if IsTaken(e, axioms, invariant_, constant, x) {
      var variable: VarId -> int :| TakenFor(e, axioms, invariant_, Valuation(variable, constant), x);
      LiteralAxioms(idx, l, u, inc, invariant_, Valuation(variable, constant));
    }
  }
}
