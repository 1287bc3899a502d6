/** Nothing that could be folded is left: which deltas tie an index, and what becomes of tied indices. */
module DeltaFoldingCompleteness {
  import opened Wrappers
  import opened Qtl
  import opened DeltaFolding

  /** A factor of `e`, or of every term of it, is a delta that ties `i` to `j`. */
  predicate Ties(e: Expr, i: IndexId, j: IndexId) {
    match e
    case Delta(_, Index(k), Index(l)) => k != l && ((i == k && j == l) || (i == l && j == k))
    case Bin(Multiplies, a, b) => Ties(a, i, j) || Ties(b, i, j)
    case Bin(Divides, a, _) => Ties(a, i, j)
    case Bin(_, a, b) => Ties(a, i, j) && Ties(b, i, j)
    case Sum(indices, body) => Ties(body, i, j) && i !in indices && j !in indices
    case _ => false
  }

  lemma {:induction false} TiesAreFree(e: Expr, i: IndexId, j: IndexId)
    requires Ties(e, i, j)
    ensures i != j && i in Free(e) && j in Free(e) && Ties(e, j, i)
    decreases e
  {
    match e
    case Bin(op, x, y) =>
      if Ties(x, i, j) {
        TiesAreFree(x, i, j);
      }
      if Ties(y, i, j) {
        TiesAreFree(y, i, j);
      }
    case Sum(_, body) => TiesAreFree(body, i, j);
    case _ =>
  }

  /** The bubbles among indices that `e` does not bind: the ones found before, and its ties. */
  lemma {:induction false} CollectIsTies(e: Expr, found: seq<Bubble>, i: IndexId, j: IndexId)
    requires i < j && i !in Bound(e) && j !in Bound(e)
    ensures (i, j) in Collect(e, found) <==> (i, j) in found || Ties(e, i, j)
    decreases e
  {
    match e
    case Sum(indices, body) =>
      assert i !in SetOf(indices) && j !in SetOf(indices);
      CollectIsTies(body, found, i, j);
    case Bin(op, x, y) =>
      if op == Plus || op == Minus {
        CollectIsTies(x, [], i, j);
        CollectIsTies(y, [], i, j);
      } else {
        CollectIsTies(x, found, i, j);
        CollectIsTies(y, Collect(x, found), i, j);
      }
    case _ =>
  }

  /** The bubbles of an expression are exactly its ties, in products, quotients, sums, differences and
      contractions alike. */
  lemma BubblesAreTies(e: Expr, i: IndexId, j: IndexId, m: Interp)
    requires Good(e, m) && i < j
    ensures (i, j) in Collect(e, []) <==> Ties(e, i, j)
  {
    if i in Bound(e) || j in Bound(e) {
      if (i, j) in Collect(e, []) {
        BubbleFacts(e, [], m, (i, j));
      }
      if Ties(e, i, j) {
        TiesAreFree(e, i, j);
      }
    } else {
      CollectIsTies(e, [], i, j);
    }
  }

  ghost predicate IsTied(e: Expr, i: IndexId) { exists j :: Ties(e, i, j) }

  lemma PartnerIffTied(e: Expr, i: IndexId, m: Interp)
    requires Good(e, m)
    ensures Partner(i, Collect(e, [])).Some? <==> IsTied(e, i)
    ensures Partner(i, Collect(e, [])).Some? ==> Ties(e, i, Partner(i, Collect(e, [])).value)
  {
    var bubbles := Collect(e, []);
    if Partner(i, bubbles).Some? {
      var j := Partner(i, bubbles).value;
      var b := if (i, j) in bubbles then (i, j) else (j, i);
      BubbleFacts(e, [], m, b);
      BubblesAreTies(e, b.0, b.1, m);
      TiesAreFree(e, b.0, b.1);
    }
    forall j | Ties(e, i, j)
      ensures Partner(i, bubbles).Some?
    {
      var b := MakeBubble(i, j);
      TiesAreFree(e, i, j);
      BubblesAreTies(e, b.0, b.1, m);
      assert Mentions(b, i);
    }
  }

  /** The indices that nothing ties, in their order. */
  ghost function Untied(indices: seq<IndexId>, body: Expr): seq<IndexId> {
    if indices == [] then []
    else
      var k := |indices| - 1;
      Untied(indices[..k], body) + if IsTied(body, indices[k]) then [] else [indices[k]]
  }

  lemma {:induction false} SurvivorsAreUntied(indices: seq<IndexId>, body: Expr, m: Interp)
    requires Good(body, m)
    ensures FoldIndices(indices, Collect(body, []), body).1 == Untied(indices, body)
  {
    if indices != [] {
      SurvivorsAreUntied(indices[..|indices| - 1], body, m);
      PartnerIffTied(body, indices[|indices| - 1], m);
    }
  }

  /** A contraction goes on over exactly the indices that nothing ties, and there is none left without any. */
  lemma FoldSumRemovesTied(indices: seq<IndexId>, body: Expr, m: Interp)
    requires Good(Sum(indices, body), m)
    ensures var body' := FoldIndices(indices, Collect(body, []), body).0;
            FoldSum(indices, body) == if Untied(indices, body) == [] then body' else Sum(Untied(indices, body), body')
  {
    SurvivorsAreUntied(indices, body, m);
  }

  // Deltas of an index with itself.

  predicate HasTrivialDelta(e: Expr) {
    match e
    case Lit(_) => false
    case Index(_) => false
    case Tensor(_, subs) => exists n :: 0 <= n < |subs| && HasTrivialDelta(subs[n])
    case Negate(a) => HasTrivialDelta(a)
    case Bin(_, a, b) => HasTrivialDelta(a) || HasTrivialDelta(b)
    case Delta(_, a, b) => (a.Index? && a == b) || HasTrivialDelta(a) || HasTrivialDelta(b)
    case Sum(_, body) => HasTrivialDelta(body)
  }

  lemma {:induction false} TrivialDeltasAreGone(e: Expr)
    ensures !HasTrivialDelta(EliminateTrivial(e))
  {
    match e
    case Lit(_) =>
    case Index(_) =>
    case Tensor(_, subs) =>
      var r := EliminateAll(subs);
      forall n | 0 <= n < |subs| ensures !HasTrivialDelta(r[n]) { TrivialDeltasAreGone(subs[n]); }
    case Negate(x) => TrivialDeltasAreGone(x);
    case Bin(_, x, y) => TrivialDeltasAreGone(x); TrivialDeltasAreGone(y);
    case Delta(_, x, y) => TrivialDeltasAreGone(x); TrivialDeltasAreGone(y);
    case Sum(_, body) => TrivialDeltasAreGone(body);
  }

  /** A contraction that loses an index has no delta of an index with itself. */
  lemma {:induction false} FoldedHasNoTrivialDelta(indices: seq<IndexId>, body: Expr, m: Interp)
    requires Good(Sum(indices, body), m) && (HasTrivialDelta(body) ==> Untied(indices, body) != indices)
    ensures !HasTrivialDelta(FoldSum(indices, body))
  {
    LoopRemovesTrivial(indices, body, |indices|, m);
    assert indices[..|indices|] == indices;
    FoldSumRemovesTied(indices, body, m);
  }

  lemma {:induction false} LoopRemovesTrivial(indices: seq<IndexId>, body: Expr, n: nat, m: Interp)
    requires Good(Sum(indices, body), m) && n <= |indices|
    ensures HasTrivialDelta(FoldIndices(indices[..n], Collect(body, []), body).0) ==>
            HasTrivialDelta(body) && Untied(indices[..n], body) == indices[..n]
    decreases n
  {
    if n > 0 {
      var bubbles := Collect(body, []);
      LoopRemovesTrivial(indices, body, n - 1, m);
      FoldStep(indices, bubbles, body, n - 1);
      PartnerIffTied(body, indices[n - 1], m);
      assert indices[..n][..n - 1] == indices[..n - 1];
      var body' := FoldIndices(indices[..n - 1], bubbles, body).0;
      if Partner(indices[n - 1], bubbles).Some? {
        TrivialDeltasAreGone(Subst(body', indices[n - 1], Partner(indices[n - 1], bubbles).value));
      } else {
        assert indices[..n] == indices[..n - 1] + [indices[n - 1]];
      }
    }
  }

  // The whole pass.

  /** Some contraction in `e` has the index `k` and does not tie it. */
  ghost predicate Loose(e: Expr, k: IndexId) {
    match e
    case Lit(_) => false
    case Index(_) => false
    case Tensor(_, subs) => exists n :: 0 <= n < |subs| && Loose(subs[n], k)
    case Negate(a) => Loose(a, k)
    case Bin(_, a, b) => Loose(a, k) || Loose(b, k)
    case Delta(_, a, b) => Loose(a, k) || Loose(b, k)
    case Sum(indices, body) => (k in indices && !IsTied(body, k)) || Loose(body, k)
  }

  /** No contraction stands directly inside another. */
  predicate Flat(e: Expr) {
    match e
    case Lit(_) => true
    case Index(_) => true
    case Tensor(_, subs) => forall n :: 0 <= n < |subs| ==> Flat(subs[n])
    case Negate(a) => Flat(a)
    case Bin(_, a, b) => Flat(a) && Flat(b)
    case Delta(_, a, b) => Flat(a) && Flat(b)
    case Sum(_, body) => !body.Sum? && Flat(body)
  }

  lemma {:induction false} ReplaceIsFlat(e: Expr, i: IndexId, p: IndexId)
    requires Flat(e)
    ensures Flat(Replace(e, i, p)) && Replace(e, i, p).Sum? == e.Sum?
    decreases e
  {
    match e
    case Lit(_) =>
    case Index(_) =>
    case Tensor(_, subs) => forall n | 0 <= n < |subs| ensures Flat(Replace(subs[n], i, p)) { ReplaceIsFlat(subs[n], i, p); }
    case Negate(x) => ReplaceIsFlat(x, i, p);
    case Bin(_, x, y) => ReplaceIsFlat(x, i, p); ReplaceIsFlat(y, i, p);
    case Delta(_, x, y) => ReplaceIsFlat(x, i, p); ReplaceIsFlat(y, i, p);
    case Sum(_, body) => ReplaceIsFlat(body, i, p);
  }

  /** Replacing another index leaves an index tied, if to the replacement. */
  lemma {:induction false} ReplaceKeepsTies(e: Expr, i: IndexId, p: IndexId, k: IndexId, j: IndexId)
    requires Ties(e, k, j) && k != i && k != p && p !in Bound(e)
    ensures Ties(Replace(e, i, p), k, if j == i then p else j)
    decreases e
  {
    match e
    case Delta(n, x, y) =>
      assert Subst(e, i, p) == Delta(n, Index(if x.id == i then p else x.id), Index(if y.id == i then p else y.id));
    case Bin(op, x, y) =>
      if Ties(x, k, j) {
        ReplaceKeepsTies(x, i, p, k, j);
      }
      if Ties(y, k, j) {
        ReplaceKeepsTies(y, i, p, k, j);
      }
    case Sum(indices, body) =>
      assert p !in SetOf(indices);
      ReplaceKeepsTies(body, i, p, k, j);
    case _ =>
  }

  /** Replacing an index makes no tied index loose. */
  lemma {:induction false} ReplaceLoosensNothing(e: Expr, i: IndexId, p: IndexId, k: IndexId)
    requires Loose(Replace(e, i, p), k) && i !in Bound(e) && p !in Bound(e)
    ensures Loose(e, k)
    decreases e
  {
    match e
    case Lit(_) =>
    case Index(_) =>
    case Tensor(_, subs) =>
      var r := EliminateAll(SubstAll(subs, i, p));
      var n :| 0 <= n < |r| && Loose(r[n], k);
      assert Bound(subs[n]) <= Bound(e);
      ReplaceLoosensNothing(subs[n], i, p, k);
    case Negate(x) => ReplaceLoosensNothing(x, i, p, k);
    case Bin(_, x, y) =>
      if Loose(Replace(x, i, p), k) {
        ReplaceLoosensNothing(x, i, p, k);
      } else {
        ReplaceLoosensNothing(y, i, p, k);
      }
    case Delta(_, x, y) =>
      if Loose(Replace(x, i, p), k) {
        ReplaceLoosensNothing(x, i, p, k);
      } else {
        ReplaceLoosensNothing(y, i, p, k);
      }
    case Sum(indices, body) =>
      assert i !in SetOf(indices) && p !in SetOf(indices);
      if Loose(Replace(body, i, p), k) {
        ReplaceLoosensNothing(body, i, p, k);
      } else {
        forall j | Ties(body, k, j)
          ensures IsTied(Replace(body, i, p), k)
        {
          ReplaceKeepsTies(body, i, p, k, j);
        }
      }
  }

  /** The loop over the indices of a contraction makes no tied index of its body loose. */
  lemma {:induction false} LoopLoosensNothing(indices: seq<IndexId>, body: Expr, n: nat, k: IndexId, m: Interp)
    requires Good(Sum(indices, body), m) && Safe(indices, Collect(body, [])) && n <= |indices| && Flat(body)
    ensures var body' := FoldIndices(indices[..n], Collect(body, []), body).0;
            Flat(body') && body'.Sum? == body.Sum? && (Loose(body', k) ==> Loose(body, k))
    decreases n
  {
    if n > 0 {
      var bubbles := Collect(body, []);
      LoopLoosensNothing(indices, body, n - 1, k, m);
      LoopKeepsInv(indices, body, n - 1, m);
      FoldStep(indices, bubbles, body, n - 1);
      var body' := FoldIndices(indices[..n - 1], bubbles, body).0;
      if Partner(indices[n - 1], bubbles).Some? {
        var i, p := indices[n - 1], Partner(indices[n - 1], bubbles).value;
        PartnerFacts(indices, body, n - 1, m);
        ReplaceIsFlat(body', i, p);
        if Loose(Replace(body', i, p), k) {
          ReplaceLoosensNothing(body', i, p, k);
        }
      }
    }
  }

  lemma {:induction false} UntiedIsLoose(indices: seq<IndexId>, body: Expr, k: IndexId)
    requires k in Untied(indices, body)
    ensures k in indices && !IsTied(body, k)
  {
    var n := |indices| - 1;
    if k in Untied(indices[..n], body) {
      UntiedIsLoose(indices[..n], body, k);
    }
  }

  /** In the folded expression contractions go over no index but those that no delta ties. */
  lemma {:induction false} OnlyLooseIndicesRemain(e: Expr, k: IndexId, m: Interp)
    requires Good(e, m) && FoldSafe(e) && Flat(e) && k in Bound(Fold(e))
    ensures Loose(e, k)
    decreases Size(e), 1
  {
    if e.Sum? {
      var indices, body := e.indices, e.body;
      FoldSumScope(indices, body, m);
      FoldSumRemovesTied(indices, body, m);
      LoopLoosensNothing(indices, body, |indices|, k, m);
      assert indices[..|indices|] == indices;
      var body' := FoldIndices(indices, Collect(body, []), body).0;
      if k in Untied(indices, body) {
        UntiedIsLoose(indices, body, k);
      } else if Untied(indices, body) == [] {
        OnlyLooseChildrenRemain(body', k, m);
      } else {
        assert k !in SetOf(Untied(indices, body));
        OnlyLooseIndicesRemain(body', k, m);
      }
    } else {
      OnlyLooseChildrenRemain(e, k, m);
    }
  }

  lemma {:induction false} OnlyLooseChildrenRemain(e: Expr, k: IndexId, m: Interp)
    requires Good(e, m) && FoldSafeChildren(e) && Flat(e) && !e.Sum? && k in Bound(FoldChildren(e))
    ensures Loose(e, k)
    decreases Size(e), 0
  {
    match e
    case Tensor(_, subs) =>
      var r := FoldAll(subs);
      var n :| 0 <= n < |r| && k in Bound(r[n]);
      assert FoldSafeAll(subs);
      OnlyLooseIndicesRemain(subs[n], k, m);
    case Negate(x) => OnlyLooseIndicesRemain(x, k, m);
    case Bin(_, x, y) => if k in Bound(Fold(x)) { OnlyLooseIndicesRemain(x, k, m); } else { OnlyLooseIndicesRemain(y, k, m); }
    case Delta(_, x, y) => if k in Bound(Fold(x)) { OnlyLooseIndicesRemain(x, k, m); } else { OnlyLooseIndicesRemain(y, k, m); }
    case _ =>
  }

  lemma DeltaScope(n: nat, i: IndexId, j: IndexId, m: Interp)
    requires m.ext(i) == n == m.ext(j)
    ensures var e := Delta(n, Index(i), Index(j));
            Free(e) == {i, j} && Bound(e) == {} && Good(e, m)
  {
    assert Free(Index(i)) == {i} && Free(Index(j)) == {j} && Bound(Index(i)) == {} && Bound(Index(j)) == {};
    assert Good(Index(i), m) && Good(Index(j), m);
  }

  function Tie(n: nat, i: IndexId, j: IndexId): Expr { Delta(n, Index(i), Index(j)) }

  /** Two deltas, each tying the index of one of two contractions. */
  function TwoTies(n: nat): Expr { Bin(Multiplies, Tie(n, 0, 2), Tie(n, 1, 3)) }

  function Nested(n: nat): Expr { Sum([0], Sum([1], TwoTies(n))) }

  lemma NestedScope(n: nat, m: Interp)
    requires m.ext(0) == m.ext(1) == m.ext(2) == m.ext(3) == n
    ensures Good(Nested(n), m)
  {
    var body, inner, e := TwoTies(n), Sum([1], TwoTies(n)), Nested(n);
    DeltaScope(n, 0, 2, m);
    DeltaScope(n, 1, 3, m);
    assert Free(body) == Free(Tie(n, 0, 2)) + Free(Tie(n, 1, 3)) && Bound(body) == Bound(Tie(n, 0, 2)) + Bound(Tie(n, 1, 3));
    assert SetOf([1]) == {1} && SetOf([0]) == {0};
    assert Free(inner) == Free(body) - {1} && Bound(inner) == Bound(body) + {1};
    assert Free(e) == Free(inner) - {0} && Bound(e) == Bound(inner) + {0};
  }

  lemma NestedIsTied(n: nat)
    ensures !Loose(Nested(n), 1)
  {
    assert !Loose(Index(0), 1) && !Loose(Index(1), 1) && !Loose(Index(2), 1) && !Loose(Index(3), 1);
    assert !Loose(Tie(n, 0, 2), 1) && !Loose(Tie(n, 1, 3), 1);
    assert Ties(Tie(n, 1, 3), 1, 3);
    assert Ties(TwoTies(n), 1, 3);
    assert !Loose(Sum([1], TwoTies(n)), 1);
  }

  /** What replaces the outer contraction. */
  lemma NestedIsReplaced(n: nat, m: Interp)
    requires m.ext(0) == m.ext(1) == m.ext(2) == m.ext(3) == n
    ensures FoldSum([0], Sum([1], TwoTies(n))) == Sum([1], Bin(Multiplies, Lit(1), Tie(n, 1, 3)))
  {
    var body, inner := TwoTies(n), Sum([1], TwoTies(n));
    NestedScope(n, m);
    assert Ties(Tie(n, 0, 2), 0, 2);
    assert Ties(inner, 0, 2);
    PartnerIffTied(inner, 0, m);
    var bubbles := Collect(inner, []);
    var p := Partner(0, bubbles).value;
    assert Ties(body, 0, p);
    assert !Ties(Tie(n, 1, 3), 0, p) && Ties(Tie(n, 0, 2), 0, p);
    assert [0][..0] == [];
    assert Subst(Tie(n, 0, 2), 0, 2) == Tie(n, 2, 2) && Subst(Tie(n, 1, 3), 0, 2) == Tie(n, 1, 3);
    assert EliminateTrivial(Tie(n, 2, 2)) == Lit(1) && EliminateTrivial(Tie(n, 1, 3)) == Tie(n, 1, 3);
    assert Replace(body, 0, 2) == Bin(Multiplies, Lit(1), Tie(n, 1, 3));
    assert Replace(inner, 0, 2) == Sum([1], Replace(body, 0, 2));
    hide Collect, Partner, Replace, Subst, EliminateTrivial;
    assert FoldIndices([0][..0], bubbles, inner) == (inner, []);
    assert FoldIndices([0], bubbles, inner) == (Replace(inner, 0, 2), []);
  }

  /** A contraction directly inside one that folds away is not treated: the pass goes on with the children of
      what replaced the outer one. */
  lemma InnerContractionIsSkipped(n: nat, m: Interp)
    requires m.ext(0) == m.ext(1) == m.ext(2) == m.ext(3) == n
    ensures Good(Nested(n), m) && FoldSafe(Nested(n)) && !Loose(Nested(n), 1) && 1 in Bound(Fold(Nested(n)))
  {
    var body' := Bin(Multiplies, Lit(1), Tie(n, 1, 3));
    NestedScope(n, m);
    NestedIsTied(n);
    NestedIsReplaced(n, m);
    hide Collect, EliminateTrivial, Good;
    assert FoldSafe(body') by {
      assert FoldSafe(Index(1)) && FoldSafe(Index(3));
      assert FoldSafe(Lit(1)) && FoldSafe(Tie(n, 1, 3));
    }
    assert FoldSafeChildren(Sum([1], body'));
    assert Fold(Nested(n)) == Sum([1], Fold(body'));
  }
}
