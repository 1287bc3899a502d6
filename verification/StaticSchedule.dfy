/** Static schedules: affine domains of the statements of a loop nest, and the tree that orders them. */
module StaticSchedule {
  import opened Wrappers
  import opened Qir
  import opened QirRun
  import opened AffineConstraints
  import opened ScheduleDomains

  /** Schedule trees; the children of a branch are those of an `if` in order. */
  datatype Tree =
    | Leaf(domain: seq<Constraint>)
    | Band(index: Affine, body: Tree)
    | Sequence(children: seq<Tree>)
    | Branches(children: seq<Tree>)

  function LoopConstraints(index: Affine, lower: Affine, upper: Affine, increment: Affine): seq<Constraint> {
    [Compare(IsGreaterEqual, index, lower), Compare(IsLess, index, upper),
     Compare(IsEqual, Modulo(index, increment), Literal(0))]
  }

  /** Nothing if a bound or condition is not affine or an increment not constant; the source then
      starts anew with the inner expressions. */
  function ConstructSchedule(e: Expr, domain: seq<Constraint>, invariant_: Expr -> bool, t: Tables): (Option<Tree>, Tables)
    decreases e, 1
  {
    match e
    case For(idx, lower, upper, increment, body) =>
      var (l, t1) := ConstructAffine(lower, invariant_, t);
      var (u, t2) := ConstructAffine(upper, invariant_, t1);
      var (inc, t3) := ConstructAffine(increment, invariant_, t2);
      if l == None || u == None || inc == None || !IsConst(inc.value) then (None, t3)
      else
        var (index, t4) := Declared(t3, idx);
        var (tree, t5) := ConstructSchedule(body, domain + LoopConstraints(index, l.value, u.value, inc.value), invariant_, t4);
        (if tree == None then None else Some(Band(index, tree.value)), t5)
    case If(cond, thenBranch, elseBranch) =>
      var (c, t1) := ExtractConstraint(cond, invariant_, t);
      if c == None then (None, t1)
      else
        var (first, t2) := ConstructSchedule(thenBranch, domain + [c.value], invariant_, t1);
        if first == None then (None, t2)
        else if elseBranch == None then (Some(Branches([first.value])), t2)
        else
          var (second, t3) := ConstructSchedule(elseBranch.value, domain + [Not(c.value)], invariant_, t2);
          (if second == None then None else Some(Branches([first.value, second.value])), t3)
    case Compound(exprs) =>
      var (children, t1) := ConstructAll(e, |exprs|, domain, invariant_, t);
      (if children == None then None else Some(Sequence(children.value)), t1)
    case _ => (Some(Leaf(domain)), t)
  }

  function ConstructAll(e: Expr, n: nat, domain: seq<Constraint>, invariant_: Expr -> bool, t: Tables): (r: (Option<seq<Tree>>, Tables))
    requires e.Compound? && n <= |e.exprs|
    ensures r.0.Some? ==> |r.0.value| == n
    decreases e, 0, n
  {
    if n == 0 then (Some([]), t)
    else
      var (before, t1) := ConstructAll(e, n - 1, domain, invariant_, t);
      if before == None then (None, t1)
      else
        var (child, t2) := ConstructSchedule(e.exprs[n - 1], domain, invariant_, t1);
        (if child == None then None else Some(before.value + [child.value]), t2)
  }

  /** All bounds and conditions have an affine form, and all increments are constant. */
  predicate Schedulable(e: Expr, invariant_: Expr -> bool) {
    match e
    case For(_, lower, upper, increment, body) =>
      && HasAffineForm(lower, invariant_) && HasAffineForm(upper, invariant_) && HasConstantForm(increment, invariant_)
      && Schedulable(body, invariant_)
    case If(cond, t, f) =>
      HasConstraintForm(cond, invariant_) && Schedulable(t, invariant_) && (f.Some? ==> Schedulable(f.value, invariant_))
    case Compound(exprs) => forall k :: 0 <= k < |exprs| ==> Schedulable(exprs[k], invariant_)
    case _ => true
  }

  lemma {:induction false} ConstantIsAffine(e: Expr, invariant_: Expr -> bool)
    requires HasConstantForm(e, invariant_)
    ensures HasAffineForm(e, invariant_)
    decreases e
  {
    if e.Unary? {
      ConstantIsAffine(e.arg, invariant_);
    }
  }

  /** A program has a schedule tree exactly if it is schedulable. */
  lemma {:induction false} TreeExists(e: Expr, domain: seq<Constraint>, invariant_: Expr -> bool, t: Tables)
    ensures ConstructSchedule(e, domain, invariant_, t).0.Some? <==> Schedulable(e, invariant_)
    decreases e, 1
  {
    match e
    case For(idx, lower, upper, increment, body) =>
      var (l, t1) := ConstructAffine(lower, invariant_, t);
      var (u, t2) := ConstructAffine(upper, invariant_, t1);
      var (inc, t3) := ConstructAffine(increment, invariant_, t2);
      AffineFormIsFound(lower, invariant_, t);
      AffineFormIsFound(upper, invariant_, t1);
      AffineFormIsFound(increment, invariant_, t2);
      if HasConstantForm(increment, invariant_) {
        ConstantIsAffine(increment, invariant_);
        if l.Some? && u.Some? {
          var (index, t4) := Declared(t3, idx);
          TreeExists(body, domain + LoopConstraints(index, l.value, u.value, inc.value), invariant_, t4);
        }
      }
    case If(cond, thenBranch, elseBranch) =>
      var (c, t1) := ExtractConstraint(cond, invariant_, t);
      ConstraintFormIsFound(cond, invariant_, t);
      if c.Some? {
        TreeExists(thenBranch, domain + [c.value], invariant_, t1);
        if elseBranch.Some? {
          TreeExists(elseBranch.value, domain + [Not(c.value)], invariant_,
                     ConstructSchedule(thenBranch, domain + [c.value], invariant_, t1).1);
        }
      }
    case Compound(exprs) => ChildTreesExist(e, |exprs|, domain, invariant_, t);
    case _ =>
  }

  lemma {:induction false} ChildTreesExist(e: Expr, n: nat, domain: seq<Constraint>, invariant_: Expr -> bool, t: Tables)
    requires e.Compound? && n <= |e.exprs|
    ensures ConstructAll(e, n, domain, invariant_, t).0.Some? <==> forall k :: 0 <= k < n ==> Schedulable(e.exprs[k], invariant_)
    decreases e, 0, n
  {
    if n > 0 {
      ChildTreesExist(e, n - 1, domain, invariant_, t);
      TreeExists(e.exprs[n - 1], domain, invariant_, ConstructAll(e, n - 1, domain, invariant_, t).1);
    }
  }

  /** The domain that the tree gives to the statement at `path`. */
  function DomainAt(tree: Tree, path: Path): Option<seq<Constraint>>
    decreases tree
  {
    match tree
    case Leaf(domain) => if path == [] then Some(domain) else None
    case Band(_, body) => if path != [] && path[0] == 3 then DomainAt(body, path[1..]) else None
    case Sequence(children) => if path != [] && path[0] < |children| then DomainAt(children[path[0]], path[1..]) else None
    case Branches(children) =>
      if path != [] && 0 < path[0] <= |children| then DomainAt(children[path[0] - 1], path[1..]) else None
  }

  /** Bounds and conditions that the library accepts; increments are positive literals. */
  predicate Accepted(e: Expr) {
    match e
    case For(_, lower, upper, increment, body) =>
      Plain(lower) && Plain(upper) && increment.IntLit? && increment.value > 0 && Accepted(body)
    case If(cond, t, f) => PlainCondition(cond) && Accepted(t) && (f.Some? ==> Accepted(f.value))
    case Compound(exprs) => forall k :: 0 <= k < |exprs| ==> Accepted(exprs[k])
    case _ => true
  }

  /** So far they also convert exactly. */
  predicate ConvertsTo(e: Expr, path: Path, m: Memory)
    decreases path
  {
    path == [] || !IsInner(e, path[0]) ||
    (ConvertsHere(e, m) && (InDomainHere(e, path[0], m) ==> ConvertsTo(Children(e)[path[0]], path[1..], m)))
  }

  predicate ConvertsHere(e: Expr, m: Memory) {
    match e
    case For(_, lower, upper, _, _) => Converts(lower, m) && Converts(upper, m)
    case If(cond, _, _) => ConditionConverts(cond, m) && GreaterFits(cond, m, TrueAt(cond, m))
    case _ => true
  }

  ghost predicate AllWithin(cs: seq<Constraint>, t: Tables) {
    forall k :: 0 <= k < |cs| ==> WithinConstraint(cs[k], t) && ConvertibleConstraint(cs[k])
  }

  ghost predicate AllContain(cs: seq<Constraint>, t: Tables, m: Memory) {
    forall k :: 0 <= k < |cs| ==> ConvertibleConstraint(cs[k]) && Contains(cs[k], PointOf(t, m))
  }

  lemma {:induction false} ScheduleTablesGrow(e: Expr, domain: seq<Constraint>, invariant_: Expr -> bool, t: Tables)
    ensures Extends(t, ConstructSchedule(e, domain, invariant_, t).1)
    decreases e, 1
  {
    match e
    case For(idx, lower, upper, increment, body) =>
      var (l, t1) := ConstructAffine(lower, invariant_, t);
      var (u, t2) := ConstructAffine(upper, invariant_, t1);
      var (inc, t3) := ConstructAffine(increment, invariant_, t2);
      TablesGrow(lower, invariant_, t);
      TablesGrow(upper, invariant_, t1);
      TablesGrow(increment, invariant_, t2);
      if !(l == None || u == None || inc == None || !IsConst(inc.value)) {
        var (index, t4) := Declared(t3, idx);
        ScheduleTablesGrow(body, domain + LoopConstraints(index, l.value, u.value, inc.value), invariant_, t4);
      }
    case If(cond, thenBranch, elseBranch) =>
      var (c, t1) := ExtractConstraint(cond, invariant_, t);
      ConstraintTablesGrow(cond, invariant_, t);
      if c.Some? {
        ScheduleTablesGrow(thenBranch, domain + [c.value], invariant_, t1);
        if elseBranch.Some? {
          ScheduleTablesGrow(elseBranch.value, domain + [Not(c.value)], invariant_,
                             ConstructSchedule(thenBranch, domain + [c.value], invariant_, t1).1);
        }
      }
    case Compound(exprs) => AllTablesGrow(e, |exprs|, domain, invariant_, t);
    case _ =>
  }

  lemma {:induction false} AllTablesGrow(e: Expr, n: nat, domain: seq<Constraint>, invariant_: Expr -> bool, t: Tables)
    requires e.Compound? && n <= |e.exprs|
    ensures Extends(t, ConstructAll(e, n, domain, invariant_, t).1)
    decreases e, 0, n
  {
    if n > 0 {
      AllTablesGrow(e, n - 1, domain, invariant_, t);
      ScheduleTablesGrow(e.exprs[n - 1], domain, invariant_, ConstructAll(e, n - 1, domain, invariant_, t).1);
    }
  }

  /** The constraints of a loop contain exactly the points the loop's part of the domain allows. */
  lemma LoopConstraintsExact(e: Expr, invariant_: Expr -> bool, t: Tables, w: Tables, m: Memory)
    requires e.For? && Accepted(e) && HasValuesHere(e, m) && ConvertsHere(e, m)
    requires ConstructAffine(e.lower, invariant_, t).0.Some?
    requires ConstructAffine(e.upper, invariant_, ConstructAffine(e.lower, invariant_, t).1).0.Some?
    requires var t3 := ConstructAffine(e.upper, invariant_, ConstructAffine(e.lower, invariant_, t).1).1;
             Extends(Declared(t3, e.idx).1, w)
    ensures var (l, t1) := ConstructAffine(e.lower, invariant_, t);
            var (u, t3) := ConstructAffine(e.upper, invariant_, t1);
            var cs := LoopConstraints(Declared(t3, e.idx).0, l.value, u.value, Literal(e.increment.value));
            AllWithin(cs, Declared(t3, e.idx).1) && (AllContain(cs, w, m) <==> InDomainHere(e, 3, m))
  {
    var (l, t1) := ConstructAffine(e.lower, invariant_, t);
    var (u, t3) := ConstructAffine(e.upper, invariant_, t1);
    var (index, t4) := Declared(t3, e.idx);
    AffineIsExact(e.lower, invariant_, t, m, IntAt(e.lower, m));
    AffineIsExact(e.upper, invariant_, t1, m, IntAt(e.upper, m));
    TablesGrow(e.upper, invariant_, t1);
    MeaningStays(l.value, t1, t4, m);
    MeaningStays(l.value, t4, w, m);
    MeaningStays(u.value, t3, t4, m);
    MeaningStays(u.value, t4, w, m);
    MeaningStays(index, t4, w, m);
    LoopContains(index, l.value, u.value, e.increment.value, t4, w, m, Load(m, Scalar(e.idx)), IntAt(e.lower, m), IntAt(e.upper, m));
  }

  lemma LoopContains(index: Affine, l: Affine, u: Affine, inc: int, t: Tables, w: Tables, m: Memory, i: int, x: int, y: int)
    requires inc > 0 && Within(index, t) && Within(l, t) && Within(u, t)
    requires Denotes(index, w, m, i) && Denotes(l, w, m, x) && Denotes(u, w, m, y)
    ensures var cs := LoopConstraints(index, l, u, Literal(inc));
            AllWithin(cs, t) && (AllContain(cs, w, m) <==> x <= i < y && i % inc == 0)
  {
    var p, cs := PointOf(w, m), LoopConstraints(index, l, u, Literal(inc));
    ComparisonIsExact(IsGreaterEqual, index, l, p, i, x);
    ComparisonIsExact(IsLess, index, u, p, i, y);
    ModuloMeaning(index, inc, p, i);
    ComparisonIsExact(IsEqual, Modulo(index, Literal(inc)), Literal(0), p, i % inc, 0);
    assert Within(Literal(inc), t) && Within(Modulo(index, Literal(inc)), t);
    hide Contains, Meaning;
    assert AllContain(cs, w, m) <==> Contains(cs[0], p) && Contains(cs[1], p) && Contains(cs[2], p);
  }

  // Domains of statements.

  /** The tree's domain for the statement at `path` contains the point of `m` exactly if the outer
      constraints `domain` do and `m` is in the statement's domain. */
  ghost predicate DomainMatches(tree: Tree, e: Expr, path: Path, domain: seq<Constraint>, w: Tables, m: Memory) {
    && DomainAt(tree, path).Some?
    && (AllContain(DomainAt(tree, path).value, w, m) <==> AllContain(domain, w, m) && InDomain(e, path, m))
  }

  lemma ContainConcat(a: seq<Constraint>, b: seq<Constraint>, w: Tables, m: Memory)
    ensures AllContain(a + b, w, m) <==> AllContain(a, w, m) && AllContain(b, w, m)
  {
    if AllContain(a + b, w, m) {
      assert forall k :: 0 <= k < |a| ==> (a + b)[k] == a[k];
      assert forall k :: 0 <= k < |b| ==> (a + b)[|a| + k] == b[k];
    }
  }

  lemma ExtensionContains(a: seq<Constraint>, b: seq<Constraint>, w: Tables, m: Memory)
    requires a <= b
    ensures AllContain(b, w, m) ==> AllContain(a, w, m)
  {
    assert forall k :: 0 <= k < |a| ==> a[k] == b[k];
  }

  /** Every statement has a domain in the tree, which adds to the outer constraints. */
  lemma {:induction false} DomainExtends(e: Expr, path: Path, domain: seq<Constraint>, invariant_: Expr -> bool, t: Tables)
    requires ConstructSchedule(e, domain, invariant_, t).0.Some? && IsStatementPath(e, path)
    ensures var d := DomainAt(ConstructSchedule(e, domain, invariant_, t).0.value, path); d.Some? && domain <= d.value
    decreases e, 1
  {
    match e
    case For(idx, lower, upper, increment, body) =>
      var (l, t1) := ConstructAffine(lower, invariant_, t);
      var (u, t2) := ConstructAffine(upper, invariant_, t1);
      var (inc, t3) := ConstructAffine(increment, invariant_, t2);
      var (index, t4) := Declared(t3, idx);
      DomainExtends(body, path[1..], domain + LoopConstraints(index, l.value, u.value, inc.value), invariant_, t4);
    case If(cond, thenBranch, elseBranch) =>
      var (c, t1) := ExtractConstraint(cond, invariant_, t);
      if path[0] == 1 {
        DomainExtends(thenBranch, path[1..], domain + [c.value], invariant_, t1);
      } else {
        DomainExtends(elseBranch.value, path[1..], domain + [Not(c.value)], invariant_,
                      ConstructSchedule(thenBranch, domain + [c.value], invariant_, t1).1);
      }
    case Compound(exprs) => ChildDomainExtends(e, path, |exprs|, domain, invariant_, t);
    case _ =>
  }

  lemma {:induction false} ChildDomainExtends(e: Expr, path: Path, n: nat, domain: seq<Constraint>, invariant_: Expr -> bool, t: Tables)
    requires e.Compound? && n <= |e.exprs| && path != [] && path[0] < n && IsStatementPath(e, path)
    requires ConstructAll(e, n, domain, invariant_, t).0.Some?
    ensures var d := DomainAt(ConstructAll(e, n, domain, invariant_, t).0.value[path[0]], path[1..]); d.Some? && domain <= d.value
    decreases e, 0, n
  {
    if path[0] == n - 1 {
      DomainExtends(e.exprs[n - 1], path[1..], domain, invariant_, ConstructAll(e, n - 1, domain, invariant_, t).1);
    } else {
      ChildDomainExtends(e, path, n - 1, domain, invariant_, t);
    }
  }

  /** The schedule gives every statement the domain that its loops and branches define. */
  lemma {:induction false} ScheduleDomainMatches(e: Expr, path: Path, domain: seq<Constraint>, invariant_: Expr -> bool, t: Tables, w: Tables, m: Memory)
    requires ConstructSchedule(e, domain, invariant_, t).0.Some? && Extends(ConstructSchedule(e, domain, invariant_, t).1, w)
    requires Accepted(e) && IsStatementPath(e, path) && HasValues(e, path, m) && ConvertsTo(e, path, m)
    ensures DomainMatches(ConstructSchedule(e, domain, invariant_, t).0.value, e, path, domain, w, m)
    decreases e, 1
  {
    if e.For? {
      ForDomainMatches(e, path, domain, invariant_, t, w, m);
    } else if e.If? {
      IfDomainMatches(e, path, domain, invariant_, t, w, m);
    } else if e.Compound? {
      var children := ConstructAll(e, |e.exprs|, domain, invariant_, t).0.value;
      CompoundDomainMatches(e, path, |e.exprs|, domain, invariant_, t, w, m);
      assert DomainAt(Sequence(children), path) == DomainAt(children[path[0]], path[1..]);
    }
  }

  lemma {:induction false} ForDomainMatches(e: Expr, path: Path, domain: seq<Constraint>, invariant_: Expr -> bool, t: Tables, w: Tables, m: Memory)
    requires e.For? && ConstructSchedule(e, domain, invariant_, t).0.Some? && Extends(ConstructSchedule(e, domain, invariant_, t).1, w)
    requires Accepted(e) && IsStatementPath(e, path) && HasValues(e, path, m) && ConvertsTo(e, path, m)
    ensures DomainMatches(ConstructSchedule(e, domain, invariant_, t).0.value, e, path, domain, w, m)
    decreases e, 0
  {
    var (l, t1) := ConstructAffine(e.lower, invariant_, t);
    var (u, t3) := ConstructAffine(e.upper, invariant_, t1);
    var (index, t4) := Declared(t3, e.idx);
    var cs := LoopConstraints(index, l.value, u.value, Literal(e.increment.value));
    assert ConstructAffine(e.increment, invariant_, t3) == (Some(Literal(e.increment.value)), t3);
    assert ConstructSchedule(e.body, domain + cs, invariant_, t4).0.Some?;
    var body := ConstructSchedule(e.body, domain + cs, invariant_, t4).0.value;
    assert ConstructSchedule(e, domain, invariant_, t) == (Some(Band(index, body)), ConstructSchedule(e.body, domain + cs, invariant_, t4).1);
    ScheduleTablesGrow(e.body, domain + cs, invariant_, t4);
    assert HasValuesHere(e, m) && ConvertsHere(e, m) && IsStatementPath(e.body, path[1..]);
    assert InDomainHere(e, 3, m) ==> HasValues(e.body, path[1..], m) && ConvertsTo(e.body, path[1..], m);
    hide ConstructSchedule, ConstructAffine, HasValues, ConvertsTo, LoopConstraints, AllContain;
    LoopConstraintsExact(e, invariant_, t, w, m);
    ContainConcat(domain, cs, w, m);
    DomainUnder(e, path, m);
    assert DomainAt(Band(index, body), path) == DomainAt(body, path[1..]);
    if InDomainHere(e, 3, m) {
      ScheduleDomainMatches(e.body, path[1..], domain + cs, invariant_, t4, w, m);
    } else {
      DomainExtends(e.body, path[1..], domain + cs, invariant_, t4);
      ExtensionContains(domain + cs, DomainAt(body, path[1..]).value, w, m);
    }
  }

  /** The condition of a branch, or its negation, as a constraint. */
  lemma BranchExact(e: Expr, k: nat, domain: seq<Constraint>, invariant_: Expr -> bool, t: Tables, w: Tables, m: Memory)
    requires e.If? && (k == 1 || k == 2) && ExtractConstraint(e.cond, invariant_, t).0.Some? && Accepted(e) && HasValuesHere(e, m) && ConvertsHere(e, m)
    requires Extends(ExtractConstraint(e.cond, invariant_, t).1, w)
    ensures var c := ExtractConstraint(e.cond, invariant_, t).0.value;
            AllContain(domain + [if k == 1 then c else Not(c)], w, m) <==> AllContain(domain, w, m) && InDomainHere(e, k, m)
  {
    var (c, t1) := ExtractConstraint(e.cond, invariant_, t);
    var truth := TrueAt(e.cond, m);
    ConstraintDecides(e.cond, invariant_, t, m, truth);
    ContainsStays(c.value, t1, w, m);
    var d := if k == 1 then c.value else Not(c.value);
    ContainConcat(domain, [d], w, m);
    assert AllContain([d], w, m) <==> ConvertibleConstraint([d][0]) && Contains([d][0], PointOf(w, m));
  }

  lemma {:induction false} IfDomainMatches(e: Expr, path: Path, domain: seq<Constraint>, invariant_: Expr -> bool, t: Tables, w: Tables, m: Memory)
    requires e.If? && ConstructSchedule(e, domain, invariant_, t).0.Some? && Extends(ConstructSchedule(e, domain, invariant_, t).1, w)
    requires Accepted(e) && IsStatementPath(e, path) && HasValues(e, path, m) && ConvertsTo(e, path, m)
    ensures DomainMatches(ConstructSchedule(e, domain, invariant_, t).0.value, e, path, domain, w, m)
    decreases e, 0
  {
    var (c, t1) := ExtractConstraint(e.cond, invariant_, t);
    var (first, t2) := ConstructSchedule(e.thenBranch, domain + [c.value], invariant_, t1);
    var tree := ConstructSchedule(e, domain, invariant_, t).0.value;
    ConstraintTablesGrow(e.cond, invariant_, t);
    ScheduleTablesGrow(e.thenBranch, domain + [c.value], invariant_, t1);
    if e.elseBranch.Some? {
      ScheduleTablesGrow(e.elseBranch.value, domain + [Not(c.value)], invariant_, t2);
    }
    var k := path[0];
    BranchExact(e, k, domain, invariant_, t, w, m);
    DomainUnder(e, path, m);
    var inner, domain', t' := Children(e)[k], domain + [if k == 1 then c.value else Not(c.value)], if k == 1 then t1 else t2;
    assert ConstructSchedule(inner, domain', invariant_, t').0 == Some(tree.children[k - 1]);
    assert DomainAt(tree, path) == DomainAt(tree.children[k - 1], path[1..]);
    if InDomainHere(e, k, m) {
      ScheduleDomainMatches(inner, path[1..], domain', invariant_, t', w, m);
    } else {
      DomainExtends(inner, path[1..], domain', invariant_, t');
      ExtensionContains(domain', DomainAt(tree.children[k - 1], path[1..]).value, w, m);
    }
  }

  lemma {:induction false} CompoundDomainMatches(e: Expr, path: Path, n: nat, domain: seq<Constraint>, invariant_: Expr -> bool, t: Tables, w: Tables, m: Memory)
    requires e.Compound? && n <= |e.exprs| && path != [] && path[0] < n
    requires ConstructAll(e, n, domain, invariant_, t).0.Some? && Extends(ConstructAll(e, n, domain, invariant_, t).1, w)
    requires Accepted(e) && IsStatementPath(e, path) && HasValues(e, path, m) && ConvertsTo(e, path, m)
    ensures var child := ConstructAll(e, n, domain, invariant_, t).0.value[path[0]];
            && DomainAt(child, path[1..]).Some?
            && (AllContain(DomainAt(child, path[1..]).value, w, m) <==> AllContain(domain, w, m) && InDomain(e, path, m))
    decreases e, 0, n
  {
    var (before, t1) := ConstructAll(e, n - 1, domain, invariant_, t);
    ScheduleTablesGrow(e.exprs[n - 1], domain, invariant_, t1);
    if path[0] == n - 1 {
      DomainUnder(e, path, m);
      ScheduleDomainMatches(e.exprs[n - 1], path[1..], domain, invariant_, t1, w, m);
    } else {
      CompoundDomainMatches(e, path, n - 1, domain, invariant_, t, w, m);
    }
  }

  /** For the whole program: a point is in the affine domain of a statement exactly if the loops and
      branches around the statement allow it. */
  lemma AffineDomainIsExact(e: Expr, path: Path, invariant_: Expr -> bool, m: Memory)
    requires ConstructSchedule(e, [], invariant_, EMPTY).0.Some?
    requires Accepted(e) && IsStatementPath(e, path) && HasValues(e, path, m) && ConvertsTo(e, path, m)
    ensures var (tree, t) := ConstructSchedule(e, [], invariant_, EMPTY);
            DomainAt(tree.value, path).Some? && (AllContain(DomainAt(tree.value, path).value, t, m) <==> InDomain(e, path, m))
  {
    var t := ConstructSchedule(e, [], invariant_, EMPTY).1;
    ScheduleDomainMatches(e, path, [], invariant_, EMPTY, t, m);
  }

  // The order of the tree.

  /** Lexicographic: bands compare the values of their index, sequences the positions of their
      children; the branches of an `if` are not ordered. */
  predicate TreeBefore(tree: Tree, t: Tables, a: Instance, b: Instance)
    decreases tree
  {
    && a.path != [] && b.path != []
    && match tree
       case Leaf(_) => false
       case Band(index, body) =>
         && a.path[0] == 3 && b.path[0] == 3 && Convertible(index)
         && (BandValue(index, t, a.mem) < BandValue(index, t, b.mem) ||
             (BandValue(index, t, a.mem) == BandValue(index, t, b.mem) && TreeBefore(body, t, Inner(a), Inner(b))))
       case Sequence(children) =>
         && a.path[0] < |children| && b.path[0] < |children|
         && (a.path[0] < b.path[0] || (a.path[0] == b.path[0] && TreeBefore(children[a.path[0]], t, Inner(a), Inner(b))))
       case Branches(children) =>
         0 < a.path[0] <= |children| && a.path[0] == b.path[0] && TreeBefore(children[a.path[0] - 1], t, Inner(a), Inner(b))
  }

  function BandValue(index: Affine, t: Tables, m: Memory): real
    requires Convertible(index)
  {
    Meaning(index, PointOf(t, m))
  }

  /** The bands around the statement have the same values. */
  predicate SameBands(tree: Tree, t: Tables, path: Path, a: Memory, b: Memory)
    decreases tree
  {
    match tree
    case Leaf(_) => true
    case Band(index, body) =>
      path != [] && path[0] == 3 ==>
        Convertible(index) && BandValue(index, t, a) == BandValue(index, t, b) && SameBands(body, t, path[1..], a, b)
    case Sequence(children) =>
      path != [] && path[0] < |children| ==> SameBands(children[path[0]], t, path[1..], a, b)
    case Branches(children) =>
      path != [] && 0 < path[0] <= |children| ==> SameBands(children[path[0] - 1], t, path[1..], a, b)
  }

  lemma BandIsIndex(idx: VarId, t: Tables, w: Tables, m: Memory)
    requires Extends(Declared(t, idx).1, w)
    ensures Convertible(Declared(t, idx).0) && BandValue(Declared(t, idx).0, w, m) == Load(m, Scalar(idx)) as real
  {
    MeaningStays(Declared(t, idx).0, Declared(t, idx).1, w, m);
  }

  /** The order of the constructed tree is the order in which loops count and sequences are listed. */
  lemma {:induction false} TreeOrder(e: Expr, domain: seq<Constraint>, invariant_: Expr -> bool, t: Tables, w: Tables, a: Instance, b: Instance)
    requires ConstructSchedule(e, domain, invariant_, t).0.Some? && Extends(ConstructSchedule(e, domain, invariant_, t).1, w)
    ensures TreeBefore(ConstructSchedule(e, domain, invariant_, t).0.value, w, a, b) <==> Before(e, a, b)
    decreases e, 1
  {
    if a.path != [] && b.path != [] {
      match e
      case For(_, _, _, _, body) =>
        var index, t3, domain', t4 := ForParts(e, domain, invariant_, t);
        ScheduleTablesGrow(body, domain', invariant_, t4);
        BandIsIndex(e.idx, t3, w, a.mem);
        BandIsIndex(e.idx, t3, w, b.mem);
        TreeOrder(body, domain', invariant_, t4, w, Inner(a), Inner(b));
      case If(_, _, _) => BranchOrder(e, domain, invariant_, t, w, a, b);
      case Compound(exprs) =>
        if a.path[0] == b.path[0] < |exprs| {
          ChildOrder(e, a.path[0], |exprs|, domain, invariant_, t, w, Inner(a), Inner(b));
        }
      case _ =>
    }
  }

  lemma ForParts(e: Expr, domain: seq<Constraint>, invariant_: Expr -> bool, t: Tables)
    returns (index: Affine, t3: Tables, domain': seq<Constraint>, t4: Tables)
    requires e.For? && ConstructSchedule(e, domain, invariant_, t).0.Some?
    ensures (index, t4) == Declared(t3, e.idx)
    ensures ConstructSchedule(e.body, domain', invariant_, t4).0.Some?
    ensures ConstructSchedule(e, domain, invariant_, t) ==
            (Some(Band(index, ConstructSchedule(e.body, domain', invariant_, t4).0.value)), ConstructSchedule(e.body, domain', invariant_, t4).1)
  {
    var (l, t1) := ConstructAffine(e.lower, invariant_, t);
    var (u, t2) := ConstructAffine(e.upper, invariant_, t1);
    var inc := ConstructAffine(e.increment, invariant_, t2).0;
    t3 := ConstructAffine(e.increment, invariant_, t2).1;
    index, t4 := Declared(t3, e.idx).0, Declared(t3, e.idx).1;
    domain' := domain + LoopConstraints(index, l.value, u.value, inc.value);
  }

  lemma IfParts(e: Expr, k: nat, domain: seq<Constraint>, invariant_: Expr -> bool, t: Tables, w: Tables)
    returns (domain': seq<Constraint>, t': Tables)
    requires e.If? && IsInner(e, k)
    requires ConstructSchedule(e, domain, invariant_, t).0.Some? && Extends(ConstructSchedule(e, domain, invariant_, t).1, w)
    ensures var tree := ConstructSchedule(e, domain, invariant_, t).0.value;
            tree.Branches? && |tree.children| == |Children(e)| - 1 &&
            ConstructSchedule(Children(e)[k], domain', invariant_, t').0 == Some(tree.children[k - 1])
    ensures Extends(ConstructSchedule(Children(e)[k], domain', invariant_, t').1, w)
  {
    var (c, t1) := ExtractConstraint(e.cond, invariant_, t);
    var t2 := ConstructSchedule(e.thenBranch, domain + [c.value], invariant_, t1).1;
    if e.elseBranch.Some? {
      ScheduleTablesGrow(e.elseBranch.value, domain + [Not(c.value)], invariant_, t2);
    }
    domain', t' := domain + [if k == 1 then c.value else Not(c.value)], if k == 1 then t1 else t2;
  }

  lemma {:induction false} BranchOrder(e: Expr, domain: seq<Constraint>, invariant_: Expr -> bool, t: Tables, w: Tables, a: Instance, b: Instance)
    requires e.If? && a.path != [] && b.path != []
    requires ConstructSchedule(e, domain, invariant_, t).0.Some? && Extends(ConstructSchedule(e, domain, invariant_, t).1, w)
    ensures TreeBefore(ConstructSchedule(e, domain, invariant_, t).0.value, w, a, b) <==> Before(e, a, b)
    decreases e, 0
  {
    var k := if IsInner(e, a.path[0]) then a.path[0] else 1;
    var domain', t' := IfParts(e, k, domain, invariant_, t, w);
    TreeOrder(Children(e)[k], domain', invariant_, t', w, Inner(a), Inner(b));
  }

  lemma {:induction false} ChildOrder(e: Expr, k: nat, n: nat, domain: seq<Constraint>, invariant_: Expr -> bool, t: Tables, w: Tables, a: Instance, b: Instance)
    requires e.Compound? && k < n <= |e.exprs|
    requires ConstructAll(e, n, domain, invariant_, t).0.Some? && Extends(ConstructAll(e, n, domain, invariant_, t).1, w)
    ensures TreeBefore(ConstructAll(e, n, domain, invariant_, t).0.value[k], w, a, b) <==> Before(e.exprs[k], a, b)
    decreases e, 0, n
  {
    var t1 := ConstructAll(e, n - 1, domain, invariant_, t).1;
    ScheduleTablesGrow(e.exprs[n - 1], domain, invariant_, t1);
    if k == n - 1 {
      TreeOrder(e.exprs[k], domain, invariant_, t1, w, a, b);
    } else {
      ChildOrder(e, k, n - 1, domain, invariant_, t, w, a, b);
    }
  }

  /** The same iteration is the same value of all bands. */
  lemma {:induction false} TreeIteration(e: Expr, domain: seq<Constraint>, invariant_: Expr -> bool, t: Tables, w: Tables, path: Path, a: Memory, b: Memory)
    requires ConstructSchedule(e, domain, invariant_, t).0.Some? && Extends(ConstructSchedule(e, domain, invariant_, t).1, w)
    ensures SameBands(ConstructSchedule(e, domain, invariant_, t).0.value, w, path, a, b) <==> SameIteration(e, path, a, b)
    decreases e, 1
  {
    if path != [] && IsInner(e, path[0]) {
      match e
      case For(_, _, _, _, body) =>
        var index, t3, domain', t4 := ForParts(e, domain, invariant_, t);
        ScheduleTablesGrow(body, domain', invariant_, t4);
        BandIsIndex(e.idx, t3, w, a);
        BandIsIndex(e.idx, t3, w, b);
        TreeIteration(body, domain', invariant_, t4, w, path[1..], a, b);
      case If(_, _, _) =>
        var domain', t' := IfParts(e, path[0], domain, invariant_, t, w);
        TreeIteration(Children(e)[path[0]], domain', invariant_, t', w, path[1..], a, b);
      case Compound(exprs) => ChildIteration(e, path[0], |exprs|, domain, invariant_, t, w, path[1..], a, b);
    } else {
      NoBands(e, domain, invariant_, t, w, path, a, b);
    }
  }

  lemma NoBands(e: Expr, domain: seq<Constraint>, invariant_: Expr -> bool, t: Tables, w: Tables, path: Path, a: Memory, b: Memory)
    requires ConstructSchedule(e, domain, invariant_, t).0.Some? && (path == [] || !IsInner(e, path[0]))
    requires Extends(ConstructSchedule(e, domain, invariant_, t).1, w)
    ensures SameBands(ConstructSchedule(e, domain, invariant_, t).0.value, w, path, a, b)
  {
    if e.If? {
      var domain', t' := IfParts(e, 1, domain, invariant_, t, w);
    }
  }

  lemma {:induction false} ChildIteration(e: Expr, k: nat, n: nat, domain: seq<Constraint>, invariant_: Expr -> bool, t: Tables, w: Tables, path: Path, a: Memory, b: Memory)
    requires e.Compound? && k < n <= |e.exprs|
    requires ConstructAll(e, n, domain, invariant_, t).0.Some? && Extends(ConstructAll(e, n, domain, invariant_, t).1, w)
    ensures SameBands(ConstructAll(e, n, domain, invariant_, t).0.value[k], w, path, a, b) <==> SameIteration(e.exprs[k], path, a, b)
    decreases e, 0, n
  {
    var t1 := ConstructAll(e, n - 1, domain, invariant_, t).1;
    ScheduleTablesGrow(e.exprs[n - 1], domain, invariant_, t1);
    if k == n - 1 {
      TreeIteration(e.exprs[k], domain, invariant_, t1, w, path, a, b);
    } else {
      ChildIteration(e, k, n - 1, domain, invariant_, t, w, path, a, b);
    }
  }

  /** The tree has domains for statements only. */
  lemma {:induction false} DomainsAreOfStatements(e: Expr, path: Path, domain: seq<Constraint>, invariant_: Expr -> bool, t: Tables)
    requires ConstructSchedule(e, domain, invariant_, t).0.Some?
    requires DomainAt(ConstructSchedule(e, domain, invariant_, t).0.value, path).Some?
    ensures IsStatementPath(e, path)
    decreases e, 1
  {
    match e
    case For(_, _, _, _, body) =>
      var index, t3, domain', t4 := ForParts(e, domain, invariant_, t);
      DomainsAreOfStatements(body, path[1..], domain', invariant_, t4);
    case If(_, _, _) =>
      var domain0, t0 := IfParts(e, 1, domain, invariant_, t, ConstructSchedule(e, domain, invariant_, t).1);
      var domain', t' := IfParts(e, path[0], domain, invariant_, t, ConstructSchedule(e, domain, invariant_, t).1);
      DomainsAreOfStatements(Children(e)[path[0]], path[1..], domain', invariant_, t');
    case Compound(exprs) => ChildDomainsAreOfStatements(e, path, |exprs|, domain, invariant_, t);
    case _ =>
  }

  lemma {:induction false} ChildDomainsAreOfStatements(e: Expr, path: Path, n: nat, domain: seq<Constraint>, invariant_: Expr -> bool, t: Tables)
    requires e.Compound? && n <= |e.exprs| && path != [] && path[0] < n
    requires ConstructAll(e, n, domain, invariant_, t).0.Some?
    requires DomainAt(ConstructAll(e, n, domain, invariant_, t).0.value[path[0]], path[1..]).Some?
    ensures IsStatementPath(e.exprs[path[0]], path[1..])
    decreases e, 0, n
  {
    if path[0] == n - 1 {
      DomainsAreOfStatements(e.exprs[n - 1], path[1..], domain, invariant_, ConstructAll(e, n - 1, domain, invariant_, t).1);
    } else {
      ChildDomainsAreOfStatements(e, path, n - 1, domain, invariant_, t);
    }
  }
}
