/** Value sets: the values an integer expression can take, as far as the axioms tell. */
module ValueSets {
  import opened Wrappers
  import opened Qir
  import opened QirRun
  import opened AxiomAnalysis
  import opened AffineConstraints

  /** The values of an affine expression over the points of a domain; without an expression, all. */
  datatype ValueSet = ValueSet(domain: seq<Constraint>, expr: Option<Affine>)

  ghost predicate InDomain(domain: seq<Constraint>, p: Point) {
    forall k :: 0 <= k < |domain| ==> ConvertibleConstraint(domain[k]) && Contains(domain[k], p)
  }

  /** The variables range over all integers; the invariants have the given values. */
  ghost predicate Includes(s: ValueSet, x: int, constants: nat -> int) {
    s.expr == None ||
    exists variables: nat -> int :: InDomain(s.domain, Point(variables, constants)) &&
      Convertible(s.expr.value) && Meaning(s.expr.value, Point(variables, constants)) == x as real
  }

  /** The constraints among `axioms`; the others are passed over. */
  function ExtractAll(axioms: seq<Expr>, invariant_: Expr -> bool, t: Tables): (seq<Constraint>, Tables) {
    if axioms == [] then ([], t)
    else
      var (cs, t1) := ExtractAll(axioms[..|axioms| - 1], invariant_, t);
      var (c, t2) := ExtractConstraint(axioms[|axioms| - 1], invariant_, t1);
      (if c.Some? then cs + [c.value] else cs, t2)
  }

  function Determine(e: Expr, axioms: seq<Expr>, invariant_: Expr -> bool, t: Tables): (ValueSet, Tables) {
    var (a, t1) := ConstructAffine(e, invariant_, t);
    if a == None then (ValueSet([], None), t1)
    else
      var (domain, t2) := ExtractAll(axioms, invariant_, t1);
      (ValueSet(domain, a), t2)
  }

  /** The paths lead to expressions of the program. */
  predicate AllAnalysable(root: Expr, paths: seq<Path>) {
    forall k :: 0 <= k < |paths| ==> IsSubexpression(root, paths[k]) && IsPath(GenerateScope(root, []), paths[k])
  }

  /** The value sets of the first `n` expressions, which share one context. */
  function DetermineAll(root: Expr, paths: seq<Path>, n: nat, invariant_: Expr -> bool): (r: (seq<ValueSet>, Tables))
    requires n <= |paths|
    requires AllAnalysable(root, paths)
    ensures |r.0| == n
  {
    if n == 0 then ([], EMPTY)
    else
      var (before, t) := DetermineAll(root, paths, n - 1, invariant_);
      var path := paths[n - 1];
      var (s, t') := Determine(Subexpression(root, path), AxiomsAt(GenerateScope(root, []), path), invariant_, t);
      (before + [s], t')
  }

  method DetermineValueSets(root: Expr, paths: seq<Path>, invariant_: Expr -> bool) returns (valueSets: seq<ValueSet>, ctx: AffineExprContext)
    requires AllAnalysable(root, paths)
    ensures (valueSets, ctx.State()) == DetermineAll(root, paths, |paths|, invariant_)
  {
    ctx := new AffineExprContext(invariant_);
    valueSets := [];
    for n := 0 to |paths|
      invariant ctx.invariantChecker == invariant_ && fresh(ctx)
      invariant (valueSets, ctx.State()) == DetermineAll(root, paths, n, invariant_)
    {
      var axioms := GetValidAxioms(GenerateScope(root, []), paths[n]);
      var analyzed := ctx.TryConstructAffineExpr(Subexpression(root, paths[n]));
      if analyzed.Some? {
        ghost var t := ctx.State();
        var affineAxioms: seq<Constraint> := [];
        for k := 0 to |axioms|
          invariant ctx.invariantChecker == invariant_ && fresh(ctx)
          invariant (affineAxioms, ctx.State()) == ExtractAll(axioms[..k], invariant_, t)
        {
          var c := ctx.TryExtractAffineConstraint(axioms[k]);
          assert axioms[..k + 1][..k] == axioms[..k];
          if c.Some? {
            affineAxioms := affineAxioms + [c.value];
          }
        }
        assert axioms[..|axioms|] == axioms;
        valueSets := valueSets + [ValueSet(affineAxioms, analyzed)];
      } else {
        valueSets := valueSets + [ValueSet([], None)];
      }
    }
  }

  // Soundness.

  /** An axiom that becomes a constraint has operations that convert exactly, and no `>` whose width
      matters; the others do not count. */
  predicate Usable(axiom: Expr, invariant_: Expr -> bool, mem: Memory) {
    HasConstraintForm(axiom, invariant_) ==>
      PlainCondition(axiom) && ConditionConverts(axiom, mem) && GreaterFits(axiom, mem, true)
  }

  /** Likewise for the expression, if it is affine at all. */
  predicate Analysable(e: Expr, invariant_: Expr -> bool, mem: Memory) {
    HasAffineForm(e, invariant_) ==> Plain(e) && Converts(e, mem)
  }

  lemma {:induction false} AllTablesGrow(axioms: seq<Expr>, invariant_: Expr -> bool, t: Tables)
    ensures Extends(t, ExtractAll(axioms, invariant_, t).1)
  {
    if axioms != [] {
      var before := axioms[..|axioms| - 1];
      AllTablesGrow(before, invariant_, t);
      ConstraintTablesGrow(axioms[|axioms| - 1], invariant_, ExtractAll(before, invariant_, t).1);
    }
  }

  ghost predicate HoldAt(cs: seq<Constraint>, t: Tables, mem: Memory) {
    forall k :: 0 <= k < |cs| ==> Decides(cs[k], t, mem, true)
  }

  lemma HoldLater(cs: seq<Constraint>, t: Tables, u: Tables, mem: Memory)
    requires HoldAt(cs, t, mem) && Extends(t, u)
    ensures HoldAt(cs, u, mem)
  {
    forall k | 0 <= k < |cs|
      ensures Decides(cs[k], u, mem, true)
    {
      ContainsStays(cs[k], t, u, mem);
    }
  }

  lemma {:induction false} AllHold(axioms: seq<Expr>, invariant_: Expr -> bool, t: Tables, mem: Memory)
    requires forall k :: 0 <= k < |axioms| ==> Eval(axioms[k], mem) == Some(Bool(true)) && Usable(axioms[k], invariant_, mem)
    ensures HoldAt(ExtractAll(axioms, invariant_, t).0, ExtractAll(axioms, invariant_, t).1, mem)
  {
    if axioms != [] {
      var before, last := axioms[..|axioms| - 1], axioms[|axioms| - 1];
      var (cs, t1) := ExtractAll(before, invariant_, t);
      AllHold(before, invariant_, t, mem);
      ConstraintTablesGrow(last, invariant_, t1);
      HoldLater(cs, t1, ExtractConstraint(last, invariant_, t1).1, mem);
      ConstraintFormIsFound(last, invariant_, t1);
      if ExtractConstraint(last, invariant_, t1).0.Some? {
        ConstraintDecides(last, invariant_, t1, mem, true);
      }
    }
  }

  /** If all axioms are true, the value of the expression is in its set. */
  lemma DetermineIsSound(e: Expr, axioms: seq<Expr>, invariant_: Expr -> bool, t: Tables, u: Tables, mem: Memory, v: int)
    requires forall k :: 0 <= k < |axioms| ==> Eval(axioms[k], mem) == Some(Bool(true)) && Usable(axioms[k], invariant_, mem)
    requires Eval(e, mem) == Some(Int(v)) && Analysable(e, invariant_, mem)
    requires Extends(Determine(e, axioms, invariant_, t).1, u)
    ensures Includes(Determine(e, axioms, invariant_, t).0, v, PointOf(u, mem).constants)
  {
    var (a, t1) := ConstructAffine(e, invariant_, t);
    AffineFormIsFound(e, invariant_, t);
    if a.Some? {
      var (domain, t2) := ExtractAll(axioms, invariant_, t1);
      AffineIsExact(e, invariant_, t, mem, v);
      AllTablesGrow(axioms, invariant_, t1);
      MeaningStays(a.value, t1, t2, mem);
      MeaningStays(a.value, t2, u, mem);
      AllHold(axioms, invariant_, t1, mem);
      HoldLater(domain, t2, u, mem);
      var p := PointOf(u, mem);
      assert Point(p.variables, p.constants) == p;
      assert forall k :: 0 <= k < |domain| ==> Decides(domain[k], u, mem, true);
      assert InDomain(domain, Point(p.variables, p.constants));
    }
  }

  lemma ExtendsFurther(t: Tables, u: Tables, w: Tables)
    requires Extends(t, u) && Extends(u, w)
    ensures Extends(t, w)
  {
  }

  lemma DetermineGrows(e: Expr, axioms: seq<Expr>, invariant_: Expr -> bool, t: Tables)
    ensures Extends(t, Determine(e, axioms, invariant_, t).1)
  {
    TablesGrow(e, invariant_, t);
    AllTablesGrow(axioms, invariant_, ConstructAffine(e, invariant_, t).1);
  }

  lemma {:induction false} ContextGrows(root: Expr, paths: seq<Path>, k: nat, n: nat, invariant_: Expr -> bool)
    requires k <= n <= |paths| && AllAnalysable(root, paths)
    ensures Extends(DetermineAll(root, paths, k, invariant_).1, DetermineAll(root, paths, n, invariant_).1)
    ensures DetermineAll(root, paths, k, invariant_).0 <= DetermineAll(root, paths, n, invariant_).0
  {
    if k < n {
      ContextGrows(root, paths, k, n - 1, invariant_);
      var (before, t) := DetermineAll(root, paths, n - 1, invariant_);
      var e, axioms := Subexpression(root, paths[n - 1]), AxiomsAt(GenerateScope(root, []), paths[n - 1]);
      assert DetermineAll(root, paths, n, invariant_).0 == before + [Determine(e, axioms, invariant_, t).0];
      assert DetermineAll(root, paths, n, invariant_).1 == Determine(e, axioms, invariant_, t).1;
      hide DetermineAll, Determine, Extends, AllAnalysable;
      DetermineGrows(e, axioms, invariant_, t);
      ExtendsFurther(DetermineAll(root, paths, k, invariant_).1, t, Determine(e, axioms, invariant_, t).1);
    }
  }

  /** In every run, whenever control reaches an analysed expression inside loops that count upwards, its
      value is in the set that was determined for it, for the values the invariants have then. */
  lemma ValueSetsAreSound(root: Expr, paths: seq<Path>, k: nat, invariant_: Expr -> bool, fuel: nat, mem: Memory, ev: Event, v: int)
    requires AllAnalysable(root, paths) && k < |paths| && Stable(root) && ev in Exec(fuel, root, [], mem).events && ev.path == paths[k]
    requires LoopsInOrder(root, paths[k], ev.mem)
    requires var e := Subexpression(root, paths[k]); Eval(e, ev.mem) == Some(Int(v)) && Analysable(e, invariant_, ev.mem)
    requires forall axiom :: axiom in AxiomsAt(GenerateScope(root, []), paths[k]) ==> Usable(axiom, invariant_, ev.mem)
    ensures var (valueSets, t) := DetermineAll(root, paths, |paths|, invariant_);
            Includes(valueSets[k], v, PointOf(t, ev.mem).constants)
  {
    AxiomsHoldOverRuns(root, fuel, mem, ev);
    ContextGrows(root, paths, k + 1, |paths|, invariant_);
    var e, axioms := Subexpression(root, paths[k]), AxiomsAt(GenerateScope(root, []), paths[k]);
    var t, u := DetermineAll(root, paths, k, invariant_).1, DetermineAll(root, paths, |paths|, invariant_).1;
    hide Exec, Stable, Includes, Eval, Usable, Analysable, ConstructAffine, ExtractAll;
    assert forall q :: 0 <= q < |axioms| ==> axioms[q] in axioms;
    DetermineIsSound(e, axioms, invariant_, t, u, ev.mem, v);
    assert DetermineAll(root, paths, k + 1, invariant_).0[k] == Determine(e, axioms, invariant_, t).0;
  }
}
