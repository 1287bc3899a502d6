/** Replacing variable references by expressions, and what that does to values. */
module Substitution {
  import opened Wrappers
  import opened Qir
  import opened QirRun

  /** Every reference to a variable in `s` becomes the expression assigned to it. */
  function Subst(e: Expr, s: map<VarId, Expr>): Expr {
    match e
    case IntLit(_) => e
    case BoolLit(_) => e
    case Access(base, indices) => if indices == [] && base in s then s[base] else Access(base, SubstAll(indices, s))
    case Binary(op, a, b) => Binary(op, Subst(a, s), Subst(b, s))
    case Unary(op, a) => Unary(op, Subst(a, s))
    case For(idx, lower, upper, increment, body) =>
      For(idx, Subst(lower, s), Subst(upper, s), Subst(increment, s), Subst(body, s))
    case If(cond, t, None) => If(Subst(cond, s), Subst(t, s), None)
    case If(cond, t, Some(f)) => If(Subst(cond, s), Subst(t, s), Some(Subst(f, s)))
    case Compound(exprs) => Compound(SubstAll(exprs, s))
    case Extent(_, _) => e
    case Delta(n, a, b) => Delta(n, Subst(a, s), Subst(b, s))
  }

  function SubstAll(es: seq<Expr>, s: map<VarId, Expr>): (r: seq<Expr>)
    ensures |r| == |es| && forall k :: 0 <= k < |es| ==> r[k] == Subst(es[k], s)
  {
    if es == [] then [] else [Subst(es[0], s)] + SubstAll(es[1..], s)
  }

  /** `b` is `a` with the variables of `s` set to the values of their expressions in `a`, as far as
      `on` goes. */
  ghost predicate Pulled(a: Memory, b: Memory, s: map<VarId, Expr>, on: set<VarId>) {
    && (forall i :: i in s && i in on ==> Eval(s[i], a) == Some(Int(Load(b, Scalar(i)))))
    && (forall l: Location :: l.Dimension? || (l.base in on && !(l.indices == [] && l.base in s)) ==> Load(a, l) == Load(b, l))
  }

  lemma {:induction false} EvalSubst(e: Expr, s: map<VarId, Expr>, a: Memory, b: Memory)
    requires Pulled(a, b, s, Reads(e)) && Pure(e)
    ensures Eval(Subst(e, s), a) == Eval(e, b)
    decreases e
  {
    match e
    case Access(base, indices) =>
      if !(indices == [] && base in s) {
        EvalSubstAll(indices, s, a, b);
        assert base in Reads(e);
      } else {
        assert EvalIndices([], b) == Some([]);
      }
    case Binary(_, x, y) => EvalSubst(x, s, a, b); EvalSubst(y, s, a, b);
    case Unary(_, x) => EvalSubst(x, s, a, b);
    case Delta(_, x, y) => EvalSubst(x, s, a, b); EvalSubst(y, s, a, b);
    case _ =>
  }

  lemma {:induction false} EvalSubstAll(es: seq<Expr>, s: map<VarId, Expr>, a: Memory, b: Memory)
    requires Pulled(a, b, s, ReadsAll(es)) && forall k :: 0 <= k < |es| ==> Pure(es[k])
    ensures EvalIndices(SubstAll(es, s), a) == EvalIndices(es, b)
    decreases es
  {
    if es != [] {
      EvalSubst(es[0], s, a, b);
      EvalSubstAll(es[1..], s, a, b);
      assert SubstAll(es, s)[1..] == SubstAll(es[1..], s);
    }
  }

  /** Renaming `i` to `n`. */
  function Rename(e: Expr, i: VarId, n: VarId): Expr { Subst(e, map[i := Ref(n)]) }

  function RenameAll(es: seq<Expr>, i: VarId, n: VarId): seq<Expr> { SubstAll(es, map[i := Ref(n)]) }

  lemma RenamePulls(i: VarId, n: VarId, mem: Memory, on: set<VarId>)
    ensures Pulled(mem, mem[Scalar(i) := Load(mem, Scalar(n))], map[i := Ref(n)], on)
  {
    RefValue(n, mem);
  }

  lemma EvalRename(e: Expr, i: VarId, n: VarId, mem: Memory)
    requires Pure(e)
    ensures Eval(Rename(e, i, n), mem) == Eval(e, mem[Scalar(i) := Load(mem, Scalar(n))])
  {
    RenamePulls(i, n, mem, Reads(e));
    EvalSubst(e, map[i := Ref(n)], mem, mem[Scalar(i) := Load(mem, Scalar(n))]);
  }

  lemma EvalRenameAll(es: seq<Expr>, i: VarId, n: VarId, mem: Memory)
    requires forall k :: 0 <= k < |es| ==> Pure(es[k])
    ensures EvalIndices(RenameAll(es, i, n), mem) == EvalIndices(es, mem[Scalar(i) := Load(mem, Scalar(n))])
  {
    RenamePulls(i, n, mem, ReadsAll(es));
    EvalSubstAll(es, map[i := Ref(n)], mem, mem[Scalar(i) := Load(mem, Scalar(n))]);
  }

  lemma {:induction false} RenameReads(e: Expr, i: VarId, n: VarId)
    requires Pure(e)
    ensures Pure(Rename(e, i, n)) && Reads(Rename(e, i, n)) <= Reads(e) + {n}
    ensures (forall k :: k in Reads(e) && k != i ==> k in Reads(Rename(e, i, n)))
    decreases e
  {
    match e
    case Access(base, indices) => RenameAllReads(indices, i, n);
      assert ReadsAll([]) == {};
    case Binary(_, x, y) => RenameReads(x, i, n); RenameReads(y, i, n);
    case Unary(_, x) => RenameReads(x, i, n);
    case Delta(_, x, y) => RenameReads(x, i, n); RenameReads(y, i, n);
    case _ =>
  }

  lemma {:induction false} RenameAllReads(es: seq<Expr>, i: VarId, n: VarId)
    requires forall k :: 0 <= k < |es| ==> Pure(es[k])
    ensures forall k :: 0 <= k < |es| ==> Pure(RenameAll(es, i, n)[k])
    ensures ReadsAll(RenameAll(es, i, n)) <= ReadsAll(es) + {n}
    ensures (forall k :: k in ReadsAll(es) && k != i ==> k in ReadsAll(RenameAll(es, i, n)))
    decreases es
  {
    if es != [] {
      RenameReads(es[0], i, n);
      RenameAllReads(es[1..], i, n);
      assert RenameAll(es, i, n)[1..] == RenameAll(es[1..], i, n);
    }
  }

  /** Replacing variables that do not occur changes nothing. */
  lemma {:induction false} SubstAbsent(e: Expr, s: map<VarId, Expr>)
    requires Pure(e) && Reads(e) !! s.Keys
    ensures Subst(e, s) == e
    decreases e
  {
    match e
    case Access(base, indices) => SubstAllAbsent(indices, s);
    case Binary(_, x, y) => SubstAbsent(x, s); SubstAbsent(y, s);
    case Unary(_, x) => SubstAbsent(x, s);
    case Delta(_, x, y) => SubstAbsent(x, s); SubstAbsent(y, s);
    case _ =>
  }

  lemma {:induction false} SubstAllAbsent(es: seq<Expr>, s: map<VarId, Expr>)
    requires (forall k :: 0 <= k < |es| ==> Pure(es[k])) && ReadsAll(es) !! s.Keys
    ensures SubstAll(es, s) == es
    decreases es
  {
    if es != [] {
      SubstAbsent(es[0], s);
      SubstAllAbsent(es[1..], s);
      assert SubstAll(es, s) == [Subst(es[0], s)] + SubstAll(es[1..], s);
    }
  }

  lemma RenameAllAbsent(es: seq<Expr>, i: VarId, n: VarId)
    requires (forall k :: 0 <= k < |es| ==> Pure(es[k])) && i !in ReadsAll(es)
    ensures RenameAll(es, i, n) == es
  {
    SubstAllAbsent(es, map[i := Ref(n)]);
  }

  /** What is read afterwards was read before or comes with the replacements. */
  lemma {:induction false} SubstReads(e: Expr, s: map<VarId, Expr>, within: set<VarId>)
    requires Pure(e) && Reads(e) <= within && forall v :: v in s ==> Reads(s[v]) <= within
    ensures Reads(Subst(e, s)) <= within
    decreases e
  {
    match e
    case Access(base, indices) => SubstAllReads(indices, s, within);
    case Binary(_, x, y) => SubstReads(x, s, within); SubstReads(y, s, within);
    case Unary(_, x) => SubstReads(x, s, within);
    case Delta(_, x, y) => SubstReads(x, s, within); SubstReads(y, s, within);
    case _ =>
  }

  lemma {:induction false} SubstAllReads(es: seq<Expr>, s: map<VarId, Expr>, within: set<VarId>)
    requires (forall k :: 0 <= k < |es| ==> Pure(es[k])) && ReadsAll(es) <= within && forall v :: v in s ==> Reads(s[v]) <= within
    ensures ReadsAll(SubstAll(es, s)) <= within
    decreases es
  {
    if es != [] {
      SubstReads(es[0], s, within);
      SubstAllReads(es[1..], s, within);
      assert SubstAll(es, s)[1..] == SubstAll(es[1..], s);
    }
  }
}
