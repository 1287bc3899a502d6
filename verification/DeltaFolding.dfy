/** Folding of Kronecker deltas: a sum over an index that a delta ties to another index is
    replaced by its one summand that may differ from zero. */
module DeltaFolding {
  import opened Wrappers
  import opened Qtl

  type Bubble = (IndexId, IndexId)

  function MakeBubble(i: IndexId, j: IndexId): Bubble {
    if i < j then (i, j) else (j, i)
  }

  predicate Mentions(b: Bubble, i: IndexId) { b.0 == i || b.1 == i }

  /** `bubbles` without the ones that mention `i`. */
  function Erase(bubbles: seq<Bubble>, i: IndexId): (r: seq<Bubble>)
    ensures forall b :: b in r <==> b in bubbles && !Mentions(b, i)
  {
    if bubbles == [] then []
    else
      var rest := Erase(bubbles[..|bubbles| - 1], i);
      var last := bubbles[|bubbles| - 1];
      if Mentions(last, i) then rest else rest + [last]
  }

  function EraseAll(bubbles: seq<Bubble>, indices: seq<IndexId>): (r: seq<Bubble>)
    ensures forall b :: b in r <==> b in bubbles && b.0 !in indices && b.1 !in indices
  {
    if indices == [] then bubbles
    else
      var k := |indices| - 1;
      assert indices == indices[..k] + [indices[k]];
      Erase(EraseAll(bubbles, indices[..k]), indices[k])
  }

  function Common(left: seq<Bubble>, right: seq<Bubble>): (r: seq<Bubble>)
    ensures forall b :: b in r <==> b in left && b in right
  {
    if left == [] then []
    else
      var rest := Common(left[..|left| - 1], right);
      var last := left[|left| - 1];
      if last in right then rest + [last] else rest
  }

  /** The bubbles of `e` appended to the ones found so far. */
  function Collect(e: Expr, found: seq<Bubble>): seq<Bubble> {
    match e
    case Sum(indices, body) => EraseAll(Collect(body, found), indices)
    case Bin(Plus, a, b) => found + Common(Collect(a, []), Collect(b, []))
    case Bin(Minus, a, b) => found + Common(Collect(a, []), Collect(b, []))
    case Bin(Divides, a, _) => Collect(a, found)
    case Bin(Multiplies, a, b) => Collect(b, Collect(a, found))
    case Delta(_, Index(i), Index(j)) => if i != j then found + [MakeBubble(i, j)] else found
    case _ => found
  }

  /** `collect_bubbles_context`: the list that `collect_bubbles` works on. */
  class CollectBubblesContext {
    var bubbles: seq<Bubble>

    constructor ()
      ensures bubbles == []
    {
      bubbles := [];
    }

    method CollectBubbles(e: Expr)
      modifies this
      ensures bubbles == Collect(e, old(bubbles))
      decreases e
    {
      match e
      case Sum(indices, body) =>
        CollectBubbles(body);
        ghost var collected := bubbles;
        for k := 0 to |indices|
          invariant bubbles == EraseAll(collected, indices[..k])
        {
          bubbles := Erase(bubbles, indices[k]);
          assert indices[..k + 1][..k] == indices[..k];
        }
        assert indices[..|indices|] == indices;
      case Bin(op, a, b) =>
        if op == Plus || op == Minus {
          var left := new CollectBubblesContext();
          var right := new CollectBubblesContext();
          left.CollectBubbles(a);
          right.CollectBubbles(b);
          ghost var found := bubbles;
          for k := 0 to |left.bubbles|
            invariant left.bubbles == Collect(a, []) && right.bubbles == Collect(b, [])
            invariant bubbles == found + Common(left.bubbles[..k], right.bubbles)
          {
            assert left.bubbles[..k + 1][..k] == left.bubbles[..k];
            if left.bubbles[k] in right.bubbles {
              bubbles := bubbles + [left.bubbles[k]];
            }
          }
          assert left.bubbles[..|left.bubbles|] == left.bubbles;
        } else if op == Divides {
          CollectBubbles(a);
        } else {
          CollectBubbles(a);
          CollectBubbles(b);
        }
      case Delta(_, i, j) =>
        if i.Index? && j.Index? && i.id != j.id {
          bubbles := bubbles + [MakeBubble(i.id, j.id)];
        }
      case _ =>
    }
  }

  /** The index that the first bubble mentioning `i` pairs it with. */
  function Partner(i: IndexId, bubbles: seq<Bubble>): (r: Option<IndexId>)
    ensures r == None <==> forall b :: b in bubbles ==> !Mentions(b, i)
    ensures r.Some? ==> (i, r.value) in bubbles || (r.value, i) in bubbles
  {
    if bubbles == [] then None
    else
      assert bubbles[0] in bubbles && (Mentions(bubbles[0], i) <==> bubbles[0].0 == i || bubbles[0].1 == i);
      if bubbles[0].0 == i then Some(bubbles[0].1)
    else if bubbles[0].1 == i then Some(bubbles[0].0)
    else
      assert bubbles == [bubbles[0]] + bubbles[1..];
      Partner(i, bubbles[1..])
  }

  method ContainsBubbleWithIndex(i: IndexId, bubbles: seq<Bubble>) returns (r: Option<IndexId>)
    ensures r == Partner(i, bubbles)
  {
    for k := 0 to |bubbles|
      invariant Partner(i, bubbles) == Partner(i, bubbles[k..])
    {
      if bubbles[k].0 == i {
        return Some(bubbles[k].1);
      } else if bubbles[k].1 == i {
        return Some(bubbles[k].0);
      }
      assert bubbles[k..][1..] == bubbles[k + 1..];
    }
    return None;
  }

  /** Every reference to `i` becomes a reference to `p`. */
  function Subst(e: Expr, i: IndexId, p: IndexId): (r: Expr)
    ensures Size(r) == Size(e)
  {
    match e
    case Index(k) => Index(if k == i then p else k)
    case Lit(_) => e
    case Tensor(name, subs) => Tensor(name, SubstAll(subs, i, p))
    case Negate(a) => Negate(Subst(a, i, p))
    case Bin(op, a, b) => Bin(op, Subst(a, i, p), Subst(b, i, p))
    case Delta(n, a, b) => Delta(n, Subst(a, i, p), Subst(b, i, p))
    case Sum(indices, body) => Sum(indices, Subst(body, i, p))
  }

  function SubstAll(es: seq<Expr>, i: IndexId, p: IndexId): (r: seq<Expr>)
    ensures |r| == |es| && SizeAll(r) == SizeAll(es)
    ensures forall k :: 0 <= k < |es| ==> r[k] == Subst(es[k], i, p)
  {
    if es == [] then [] else [Subst(es[0], i, p)] + SubstAll(es[1..], i, p)
  }

  /** Deltas of an index with itself become one. */
  function EliminateTrivial(e: Expr): (r: Expr)
    ensures Size(r) <= Size(e)
  {
    match e
    case Delta(_, Index(i), Index(j)) => if i == j then Lit(1) else e
    case Index(_) => e
    case Lit(_) => e
    case Tensor(name, subs) => Tensor(name, EliminateAll(subs))
    case Negate(a) => Negate(EliminateTrivial(a))
    case Bin(op, a, b) => Bin(op, EliminateTrivial(a), EliminateTrivial(b))
    case Delta(n, a, b) => Delta(n, EliminateTrivial(a), EliminateTrivial(b))
    case Sum(indices, body) => Sum(indices, EliminateTrivial(body))
  }

  function EliminateAll(es: seq<Expr>): (r: seq<Expr>)
    ensures |r| == |es| && SizeAll(r) <= SizeAll(es)
    ensures forall k :: 0 <= k < |es| ==> r[k] == EliminateTrivial(es[k])
  {
    if es == [] then [] else [EliminateTrivial(es[0])] + EliminateAll(es[1..])
  }

  /** One round of the loop over the indices of a sum. */
  function Replace(body: Expr, i: IndexId, p: IndexId): Expr {
    EliminateTrivial(Subst(body, i, p))
  }

  /** Body and surviving indices after the loop has treated `indices`. */
  function FoldIndices(indices: seq<IndexId>, bubbles: seq<Bubble>, body: Expr): (r: (Expr, seq<IndexId>))
    ensures Size(r.0) <= Size(body)
  {
    if indices == [] then (body, [])
    else
      var k := |indices| - 1;
      var (body', surviving) := FoldIndices(indices[..k], bubbles, body);
      match Partner(indices[k], bubbles)
      case Some(p) => (Replace(body', indices[k], p), surviving)
      case None => (body', surviving + [indices[k]])
  }

  /** What the matcher makes of one sum. */
  function FoldSum(indices: seq<IndexId>, body: Expr): (r: Expr)
    ensures Size(r) <= 1 + Size(body)
  {
    var (body', surviving) := FoldIndices(indices, Collect(body, []), body);
    if surviving == [] then body' else Sum(surviving, body')
  }

  method FoldSumInPlace(indices: seq<IndexId>, body: Expr) returns (r: Expr)
    ensures r == FoldSum(indices, body)
  {
    var newBody := body;
    var ctx := new CollectBubblesContext();
    ctx.CollectBubbles(newBody);
    var surviving: seq<IndexId> := [];
    for k := 0 to |indices|
      invariant ctx.bubbles == Collect(body, [])
      invariant (newBody, surviving) == FoldIndices(indices[..k], ctx.bubbles, body)
    {
      assert indices[..k + 1][..k] == indices[..k];
      var other := ContainsBubbleWithIndex(indices[k], ctx.bubbles);
      match other {
        case Some(p) => newBody := EliminateTrivial(Subst(newBody, indices[k], p));
        case None => surviving := surviving + [indices[k]];
      }
    }
    assert indices[..|indices|] == indices;
    r := if surviving == [] then newBody else Sum(surviving, newBody);
  }

  /** The whole pass: a sum is treated first, then the children of what replaced it. */
  function Fold(e: Expr): Expr
    decreases Size(e), 1, 0
  {
    FoldChildren(if e.Sum? then FoldSum(e.indices, e.body) else e)
  }

  function FoldChildren(e: Expr): Expr
    decreases Size(e), 0, 1
  {
    match e
    case Lit(_) => e
    case Index(_) => e
    case Tensor(name, subs) => Tensor(name, FoldAll(subs))
    case Negate(a) => Negate(Fold(a))
    case Bin(op, a, b) => Bin(op, Fold(a), Fold(b))
    case Delta(n, a, b) => Delta(n, Fold(a), Fold(b))
    case Sum(indices, body) => Sum(indices, Fold(body))
  }

  function FoldAll(es: seq<Expr>): (r: seq<Expr>)
    ensures |r| == |es|
    ensures forall k :: 0 <= k < |es| ==> Size(es[k]) <= SizeAll(es) && r[k] == Fold(es[k])
    decreases SizeAll(es), 2, |es|
  {
    if es == [] then [] else [Fold(es[0])] + FoldAll(es[1..])
  }

  // Bubbles are sound.

  /** `e` is zero wherever the two indices of `b` differ. */
  ghost predicate Vanishes(e: Expr, b: Bubble, m: Interp) {
    forall env :: At(env, b.0) != At(env, b.1) ==> Eval(e, env, m) == 0.0
  }

  lemma {:induction false} SumOfZeros(indices: seq<IndexId>, body: Expr, env: Env, m: Interp, b: Bubble)
    requires Vanishes(body, b, m) && b.0 !in indices && b.1 !in indices
    requires At(env, b.0) != At(env, b.1)
    ensures SumOver(indices, body, env, m) == 0.0
    decreases |indices|
  {
    if indices != [] {
      RangeOfZeros(indices[0], m.ext(indices[0]), indices[1..], body, env, m, b);
    }
  }

  lemma {:induction false} RangeOfZeros(i: IndexId, n: nat, rest: seq<IndexId>, body: Expr, env: Env, m: Interp, b: Bubble)
    requires Vanishes(body, b, m) && b.0 !in [i] + rest && b.1 !in [i] + rest
    requires At(env, b.0) != At(env, b.1)
    ensures SumRange(i, n, rest, body, env, m) == 0.0
    decreases |rest| + 1, n
  {
    if n > 0 {
      RangeOfZeros(i, n - 1, rest, body, env, m, b);
      assert i in [i] + rest;
      SumOfZeros(rest, body, env[i := n - 1], m, b);
    }
  }

  /** Every bubble found in `e` is one along which `e` vanishes. */
  lemma {:induction false} BubblesAreSound(e: Expr, found: seq<Bubble>, m: Interp, b: Bubble)
    requires b in Collect(e, found)
    ensures b in found || Vanishes(e, b, m)
    decreases e
  {
    match e
    case Sum(indices, body) =>
      BubblesAreSound(body, found, m, b);
      if b !in found {
        forall env | At(env, b.0) != At(env, b.1)
          ensures Eval(e, env, m) == 0.0
        {
          SumOfZeros(indices, body, env, m, b);
        }
      }
    case Bin(op, x, y) =>
      if op == Plus || op == Minus {
        if b !in found {
          BubblesAreSound(x, [], m, b);
          BubblesAreSound(y, [], m, b);
        }
      } else if op == Divides {
        BubblesAreSound(x, found, m, b);
      } else {
        BubblesAreSound(y, Collect(x, found), m, b);
        if b in Collect(x, found) {
          BubblesAreSound(x, found, m, b);
        }
      }
    case Delta(_, x, y) =>
      if b !in found {
        assert b == MakeBubble(x.id, y.id);
        assert forall env :: Eval(e, env, m) == if At(env, x.id) as real == At(env, y.id) as real then 1.0 else 0.0;
      }
    case _ =>
  }

  // Substitution evaluates the replaced index to its partner's value.

  lemma {:induction false} EvalSubst(e: Expr, i: IndexId, p: IndexId, env: Env, m: Interp)
    requires i !in Bound(e) && p !in Bound(e)
    ensures Eval(Subst(e, i, p), env, m) == Eval(e, env[i := At(env, p)], m)
    decreases e, 0, 0
  {
    var env' := env[i := At(env, p)];
    match e
    case Lit(_) =>
    case Index(k) =>
    case Tensor(name, subs) =>
      var r := SubstAll(subs, i, p);
      forall k | 0 <= k < |subs|
        ensures Eval(r[k], env, m) == Eval(subs[k], env', m)
      {
        assert Bound(subs[k]) <= Bound(e);
        EvalSubst(subs[k], i, p, env, m);
      }
      TensorAgree(name, r, subs, env, env', m);
    case Negate(x) => EvalSubst(x, i, p, env, m);
    case Bin(_, x, y) => EvalSubst(x, i, p, env, m); EvalSubst(y, i, p, env, m);
    case Delta(_, x, y) => EvalSubst(x, i, p, env, m); EvalSubst(y, i, p, env, m);
    case Sum(indices, body) => SumSubst(indices, body, i, p, env, m);
  }

  lemma {:induction false} SumSubst(indices: seq<IndexId>, body: Expr, i: IndexId, p: IndexId, env: Env, m: Interp)
    requires i !in Bound(body) && p !in Bound(body) && i !in indices && p !in indices
    ensures SumOver(indices, Subst(body, i, p), env, m) == SumOver(indices, body, env[i := At(env, p)], m)
    decreases body, |indices| + 1, 0
  {
    if indices == [] {
      EvalSubst(body, i, p, env, m);
    } else {
      RangeSubst(indices[0], m.ext(indices[0]), indices[1..], body, i, p, env, m);
    }
  }

  lemma {:induction false} RangeSubst(k: IndexId, n: nat, rest: seq<IndexId>, body: Expr, i: IndexId, p: IndexId, env: Env, m: Interp)
    requires i !in Bound(body) && p !in Bound(body) && i != k && p != k && i !in rest && p !in rest
    ensures SumRange(k, n, rest, Subst(body, i, p), env, m) == SumRange(k, n, rest, body, env[i := At(env, p)], m)
    decreases body, |rest| + 1, n + 1
  {
    if n > 0 {
      RangeSubst(k, n - 1, rest, body, i, p, env, m);
      SumSubst(rest, body, i, p, env[k := n - 1], m);
      assert env[k := n - 1][i := At(env, p)] == env[i := At(env, p)][k := n - 1];
    }
  }

  lemma {:induction false} EvalEliminate(e: Expr, env: Env, m: Interp)
    ensures Eval(EliminateTrivial(e), env, m) == Eval(e, env, m)
    decreases e, 0, 0
  {
    match e
    case Lit(_) =>
    case Index(k) =>
    case Tensor(name, subs) =>
      var r := EliminateAll(subs);
      forall k | 0 <= k < |subs|
        ensures Eval(r[k], env, m) == Eval(subs[k], env, m)
      {
        EvalEliminate(subs[k], env, m);
      }
      TensorAgree(name, r, subs, env, env, m);
    case Negate(x) => EvalEliminate(x, env, m);
    case Bin(_, x, y) => EvalEliminate(x, env, m); EvalEliminate(y, env, m);
    case Delta(_, x, y) => EvalEliminate(x, env, m); EvalEliminate(y, env, m);
    case Sum(indices, body) => SumEliminate(indices, body, env, m);
  }

  lemma {:induction false} SumEliminate(indices: seq<IndexId>, body: Expr, env: Env, m: Interp)
    ensures SumOver(indices, EliminateTrivial(body), env, m) == SumOver(indices, body, env, m)
    decreases body, |indices| + 1, 0
  {
    if indices == [] {
      EvalEliminate(body, env, m);
    } else {
      RangeEliminate(indices[0], m.ext(indices[0]), indices[1..], body, env, m);
    }
  }

  lemma {:induction false} RangeEliminate(i: IndexId, n: nat, rest: seq<IndexId>, body: Expr, env: Env, m: Interp)
    ensures SumRange(i, n, rest, EliminateTrivial(body), env, m) == SumRange(i, n, rest, body, env, m)
    decreases body, |rest| + 1, n + 1
  {
    if n > 0 {
      RangeEliminate(i, n - 1, rest, body, env, m);
      SumEliminate(rest, body, env[i := n - 1], m);
    }
  }

  lemma EvalReplace(e: Expr, i: IndexId, p: IndexId, env: Env, m: Interp)
    requires i !in Bound(e) && p !in Bound(e)
    ensures Eval(Replace(e, i, p), env, m) == Eval(e, env[i := At(env, p)], m)
  {
    EvalSubst(e, i, p, env, m);
    EvalEliminate(Subst(e, i, p), env, m);
  }

  // A sum over an index with a partner has a single summand.

  lemma VanishesAt(e: Expr, i: IndexId, p: IndexId, env: Env, m: Interp)
    requires Vanishes(e, MakeBubble(i, p), m) && At(env, i) != At(env, p)
    ensures Eval(e, env, m) == 0.0
  {
    var b := MakeBubble(i, p);
    assert At(env, b.0) != At(env, b.1);
  }

  lemma {:induction false} SingleSummand(i: IndexId, n: nat, body: Expr, p: IndexId, env: Env, m: Interp)
    requires i != p && Vanishes(body, MakeBubble(i, p), m)
    ensures SumRange(i, n, [], body, env, m) ==
            if 0 <= At(env, p) < n then Eval(body, env[i := At(env, p)], m) else 0.0
  {
    if n > 0 {
      SingleSummand(i, n - 1, body, p, env, m);
      if n - 1 != At(env, p) {
        VanishesAt(body, i, p, env[i := n - 1], m);
      }
    }
  }

  lemma {:induction false} CollapseLast(indices: seq<IndexId>, i: IndexId, body: Expr, p: IndexId, env: Env, m: Interp)
    requires i != p && Vanishes(body, MakeBubble(i, p), m) && i !in Bound(body) && p !in Bound(body)
    requires m.ext(i) == m.ext(p) && (p in indices || 0 <= At(env, p) < m.ext(p))
    ensures SumOver(indices + [i], body, env, m) == SumOver(indices, Replace(body, i, p), env, m)
    decreases |indices| + 1, 0
  {
    if indices == [] {
      SingleSummand(i, m.ext(i), body, p, env, m);
      EvalReplace(body, i, p, env, m);
      assert indices + [i] == [i];
    } else {
      CollapseUnder(indices[0], m.ext(indices[0]), indices[1..], i, body, p, env, m);
      assert (indices + [i])[1..] == indices[1..] + [i];
    }
  }

  lemma {:induction false} CollapseUnder(k: IndexId, n: nat, rest: seq<IndexId>, i: IndexId, body: Expr, p: IndexId, env: Env, m: Interp)
    requires i != p && Vanishes(body, MakeBubble(i, p), m) && i !in Bound(body) && p !in Bound(body)
    requires m.ext(i) == m.ext(p) && n <= m.ext(k) && (p == k || p in rest || 0 <= At(env, p) < m.ext(p))
    ensures SumRange(k, n, rest + [i], body, env, m) == SumRange(k, n, rest, Replace(body, i, p), env, m)
    decreases |rest| + 1, n + 1
  {
    if n > 0 {
      CollapseUnder(k, n - 1, rest, i, body, p, env, m);
      CollapseLast(rest, i, body, p, env[k := n - 1], m);
    }
  }

  lemma Collapse(before: seq<IndexId>, i: IndexId, after: seq<IndexId>, body: Expr, p: IndexId, env: Env, m: Interp)
    requires i !in before && i !in after
    requires i != p && Vanishes(body, MakeBubble(i, p), m) && i !in Bound(body) && p !in Bound(body)
    requires m.ext(i) == m.ext(p) && (p in before + after || 0 <= At(env, p) < m.ext(p))
    ensures SumOver(before + [i] + after, body, env, m) == SumOver(before + after, Replace(body, i, p), env, m)
  {
    MoveToEnd(before, i, after, body, env, m);
    CollapseLast(before + after, i, body, p, env, m);
  }

  // When the loop is right: no index is replaced by one that was replaced before it.

  predicate Safe(indices: seq<IndexId>, bubbles: seq<Bubble>) {
    forall k, l :: 0 <= l < k < |indices| && Partner(indices[l], bubbles).Some? ==>
      Partner(indices[k], bubbles) != Some(indices[l])
  }

  /** Indices that have a partner, hence are replaced. */
  function Replaced(indices: seq<IndexId>, bubbles: seq<Bubble>): set<IndexId> {
    set i | i in indices && Partner(i, bubbles).Some?
  }

  ghost predicate Ordered(bubbles: seq<Bubble>) {
    forall b :: b in bubbles ==> b.0 < b.1
  }

  lemma {:induction false} BubbleFacts(e: Expr, found: seq<Bubble>, m: Interp, b: Bubble)
    requires Good(e, m) && b in Collect(e, found) && b !in found
    ensures b.0 < b.1 && b.0 in Free(e) && b.1 in Free(e) && m.ext(b.0) == m.ext(b.1)
    decreases e
  {
    match e
    case Sum(indices, body) => BubbleFacts(body, found, m, b);
    case Bin(op, x, y) =>
      if op == Plus || op == Minus {
        BubbleFacts(x, [], m, b);
      } else if op == Divides {
        BubbleFacts(x, found, m, b);
      } else if b in Collect(x, found) {
        BubbleFacts(x, found, m, b);
      } else {
        BubbleFacts(y, Collect(x, found), m, b);
      }
    case _ =>
  }

  lemma {:induction false} SubstScope(e: Expr, i: IndexId, p: IndexId, m: Interp)
    requires Good(e, m) && i != p && i !in Bound(e) && p !in Bound(e) && m.ext(i) == m.ext(p)
    ensures Good(Subst(e, i, p), m)
    ensures Free(Subst(e, i, p)) <= Free(e) - {i} + {p} && Bound(Subst(e, i, p)) == Bound(e)
    decreases e
  {
    match e
    case Lit(_) =>
    case Index(_) =>
    case Tensor(_, subs) =>
      var r := SubstAll(subs, i, p);
      forall k | 0 <= k < |subs|
        ensures Good(r[k], m) && Free(r[k]) <= Free(e) - {i} + {p} && Bound(r[k]) == Bound(subs[k])
      {
        assert Bound(subs[k]) <= Bound(e) && Free(subs[k]) <= Free(e);
        SubstScope(subs[k], i, p, m);
      }
    case Negate(x) => SubstScope(x, i, p, m);
    case Bin(_, x, y) => SubstScope(x, i, p, m); SubstScope(y, i, p, m);
    case Delta(_, x, y) => SubstScope(x, i, p, m); SubstScope(y, i, p, m);
    case Sum(_, body) => SubstScope(body, i, p, m);
  }

  lemma {:induction false} EliminateScope(e: Expr, m: Interp)
    requires Good(e, m)
    ensures Good(EliminateTrivial(e), m)
    ensures Free(EliminateTrivial(e)) <= Free(e) && Bound(EliminateTrivial(e)) == Bound(e)
    decreases e
  {
    match e
    case Lit(_) =>
    case Index(_) =>
    case Tensor(_, subs) =>
      var r := EliminateAll(subs);
      forall k | 0 <= k < |subs|
        ensures Good(r[k], m) && Free(r[k]) <= Free(e) && Bound(r[k]) == Bound(subs[k])
      {
        assert Free(subs[k]) <= Free(e);
        EliminateScope(subs[k], m);
      }
    case Negate(x) => EliminateScope(x, m);
    case Bin(_, x, y) => EliminateScope(x, m); EliminateScope(y, m);
    case Delta(_, x, y) => EliminateScope(x, m); EliminateScope(y, m);
    case Sum(_, body) => EliminateScope(body, m);
  }

  lemma ReplaceScope(e: Expr, i: IndexId, p: IndexId, m: Interp)
    requires Good(e, m) && i != p && i !in Bound(e) && p !in Bound(e) && m.ext(i) == m.ext(p)
    ensures Good(Replace(e, i, p), m)
    ensures Free(Replace(e, i, p)) <= Free(e) - {i} + {p} && Bound(Replace(e, i, p)) == Bound(e)
  {
    SubstScope(e, i, p, m);
    EliminateScope(Subst(e, i, p), m);
  }

  /** What is known of the body after the first `k` rounds of the loop. */
  ghost predicate LoopInv(indices: seq<IndexId>, body: Expr, bubbles: seq<Bubble>, k: nat, body': Expr, surviving: seq<IndexId>, m: Interp)
    requires k <= |indices|
  {
    && Good(body', m)
    && Bound(body') == Bound(body)
    && Free(body') <= Free(body) - Replaced(indices[..k], bubbles)
    && SetOf(surviving) == SetOf(indices[..k]) - Replaced(indices[..k], bubbles)
    && Distinct(surviving)
    && (forall b :: b in bubbles && b.0 !in Replaced(indices[..k], bubbles) && b.1 !in Replaced(indices[..k], bubbles) ==>
          Vanishes(body', b, m))
  }

  /** A loop round that finds a partner. */
  lemma PartnerFacts(indices: seq<IndexId>, body: Expr, k: nat, m: Interp)
    requires Good(Sum(indices, body), m) && k < |indices|
    requires Safe(indices, Collect(body, [])) && Partner(indices[k], Collect(body, [])).Some?
    ensures var bubbles := Collect(body, []);
            var i, p := indices[k], Partner(indices[k], Collect(body, [])).value;
            && i != p && MakeBubble(i, p) in bubbles && i !in Bound(body) && p !in Bound(body) && p in Free(body)
            && m.ext(i) == m.ext(p)
            && i !in Replaced(indices[..k], bubbles) && p !in Replaced(indices[..k], bubbles)
            && (p in indices ==> p in indices[k + 1..])
  {
    var bubbles := Collect(body, []);
    var i, p := indices[k], Partner(indices[k], bubbles).value;
    var b := if (i, p) in bubbles then (i, p) else (p, i);
    BubbleFacts(body, [], m, b);
    assert i in SetOf(indices);
    assert Mentions(b, p);
    if p in indices {
      var l :| 0 <= l < |indices| && indices[l] == p;
      assert l > k;
      assert indices[k + 1..][l - k - 1] == p;
    }
    assert p !in indices[..k] && i !in indices[..k];
  }

  lemma VanishesAfterReplace(e: Expr, i: IndexId, p: IndexId, b: Bubble, m: Interp)
    requires Vanishes(e, b, m) && !Mentions(b, i) && i !in Bound(e) && p !in Bound(e)
    ensures Vanishes(Replace(e, i, p), b, m)
  {
    forall env | At(env, b.0) != At(env, b.1)
      ensures Eval(Replace(e, i, p), env, m) == 0.0
    {
      EvalReplace(e, i, p, env, m);
      var env' := env[i := At(env, p)];
      assert At(env', b.0) != At(env', b.1);
    }
  }

  lemma ReplacedGrows(indices: seq<IndexId>, bubbles: seq<Bubble>, k: nat)
    requires k < |indices|
    ensures Replaced(indices[..k + 1], bubbles) ==
            Replaced(indices[..k], bubbles) + (if Partner(indices[k], bubbles).Some? then {indices[k]} else {})
    ensures SetOf(indices[..k + 1]) == SetOf(indices[..k]) + {indices[k]}
  {
    assert indices[..k + 1] == indices[..k] + [indices[k]];
  }

  lemma RoundReplaces(indices: seq<IndexId>, body: Expr, k: nat, body': Expr, surviving: seq<IndexId>, m: Interp)
    requires Good(Sum(indices, body), m) && Safe(indices, Collect(body, [])) && k < |indices|
    requires LoopInv(indices, body, Collect(body, []), k, body', surviving, m)
    requires Partner(indices[k], Collect(body, [])).Some?
    ensures LoopInv(indices, body, Collect(body, []), k + 1,
                    Replace(body', indices[k], Partner(indices[k], Collect(body, [])).value), surviving, m)
  {
    var bubbles := Collect(body, []);
    var i, p := indices[k], Partner(indices[k], bubbles).value;
    ReplacedGrows(indices, bubbles, k);
    PartnerFacts(indices, body, k, m);
    ReplaceScope(body', i, p, m);
    forall b | b in bubbles && b.0 !in Replaced(indices[..k + 1], bubbles) && b.1 !in Replaced(indices[..k + 1], bubbles)
      ensures Vanishes(Replace(body', i, p), b, m)
    {
      VanishesAfterReplace(body', i, p, b, m);
    }
  }

  lemma RoundKeepsIndex(indices: seq<IndexId>, body: Expr, k: nat, body': Expr, surviving: seq<IndexId>, m: Interp)
    requires Good(Sum(indices, body), m) && k < |indices|
    requires LoopInv(indices, body, Collect(body, []), k, body', surviving, m)
    requires Partner(indices[k], Collect(body, [])) == None
    ensures LoopInv(indices, body, Collect(body, []), k + 1, body', surviving + [indices[k]], m)
  {
    var i := indices[k];
    ReplacedGrows(indices, Collect(body, []), k);
    assert i !in indices[..k];
    assert i in surviving ==> i in SetOf(surviving);
    assert SetOf(surviving + [i]) == SetOf(surviving) + {i};
  }

  lemma {:induction false} LoopKeepsInv(indices: seq<IndexId>, body: Expr, k: nat, m: Interp)
    requires Good(Sum(indices, body), m) && Safe(indices, Collect(body, [])) && k <= |indices|
    ensures var (body', surviving) := FoldIndices(indices[..k], Collect(body, []), body);
            LoopInv(indices, body, Collect(body, []), k, body', surviving, m)
    decreases k
  {
    var bubbles := Collect(body, []);
    if k == 0 {
      forall b | b in bubbles
        ensures Vanishes(body, b, m)
      {
        BubblesAreSound(body, [], m, b);
      }
    } else {
      LoopKeepsInv(indices, body, k - 1, m);
      assert indices[..k][..k - 1] == indices[..k - 1];
      var (body', surviving) := FoldIndices(indices[..k - 1], bubbles, body);
      if Partner(indices[k - 1], bubbles).Some? {
        RoundReplaces(indices, body, k - 1, body', surviving, m);
      } else {
        RoundKeepsIndex(indices, body, k - 1, body', surviving, m);
      }
    }
  }

  /** A round that finds a partner keeps the value of the sum. */
  lemma RoundKeepsValue(indices: seq<IndexId>, body: Expr, k: nat, body': Expr, surviving: seq<IndexId>, env: Env, m: Interp)
    requires Good(Sum(indices, body), m) && Safe(indices, Collect(body, [])) && k < |indices|
    requires InRange(Sum(indices, body), env, m)
    requires LoopInv(indices, body, Collect(body, []), k, body', surviving, m)
    requires Partner(indices[k], Collect(body, [])).Some?
    ensures SumOver(surviving + [indices[k]] + indices[k + 1..], body', env, m) ==
            SumOver(surviving + indices[k + 1..], Replace(body', indices[k], Partner(indices[k], Collect(body, [])).value), env, m)
  {
    var i, p := indices[k], Partner(indices[k], Collect(body, [])).value;
    PartnerFacts(indices, body, k, m);
    assert p !in indices ==> p in Free(Sum(indices, body));
    assert i !in SetOf(indices[..k]);
    assert i in surviving ==> i in SetOf(surviving);
    Collapse(surviving, i, indices[k + 1..], body', p, env, m);
  }

  /** The sum over what is left after `k` rounds is the original sum. */
  lemma {:induction false} LoopKeepsValue(indices: seq<IndexId>, body: Expr, k: nat, env: Env, m: Interp)
    requires Good(Sum(indices, body), m) && Safe(indices, Collect(body, [])) && k <= |indices|
    requires InRange(Sum(indices, body), env, m)
    ensures var (body', surviving) := FoldIndices(indices[..k], Collect(body, []), body);
            SumOver(surviving + indices[k..], body', env, m) == SumOver(indices, body, env, m)
    decreases k
  {
    if k == 0 {
      assert [] + indices[0..] == indices;
    } else {
      LoopKeepsValue(indices, body, k - 1, env, m);
      RoundOfLoop(indices, body, k - 1, env, m);
    }
  }

  /** The sums before and after round `k`. */
  lemma RoundOfLoop(indices: seq<IndexId>, body: Expr, k: nat, env: Env, m: Interp)
    requires Good(Sum(indices, body), m) && Safe(indices, Collect(body, [])) && k < |indices|
    requires InRange(Sum(indices, body), env, m)
    ensures var before, after := FoldIndices(indices[..k], Collect(body, []), body), FoldIndices(indices[..k + 1], Collect(body, []), body);
            SumOver(before.1 + indices[k..], before.0, env, m) == SumOver(after.1 + indices[k + 1..], after.0, env, m)
  {
    var bubbles := Collect(body, []);
    var before := FoldIndices(indices[..k], bubbles, body);
    FoldStep(indices, bubbles, body, k);
    if Partner(indices[k], bubbles).Some? {
      RoundKeepsValue(indices, body, k, before.0, before.1, env, m) by {
        LoopKeepsInv(indices, body, k, m);
      }
    }
    Regroup(before.1, indices, k);
  }

  lemma Regroup(before: seq<IndexId>, indices: seq<IndexId>, k: nat)
    requires k < |indices|
    ensures before + indices[k..] == before + [indices[k]] + indices[k + 1..]
  {
    assert indices[k..] == [indices[k]] + indices[k + 1..];
  }

  lemma FoldStep(indices: seq<IndexId>, bubbles: seq<Bubble>, body: Expr, k: nat)
    requires k < |indices|
    ensures var (body', surviving) := FoldIndices(indices[..k], bubbles, body);
            FoldIndices(indices[..k + 1], bubbles, body) ==
            match Partner(indices[k], bubbles)
            case Some(p) => (Replace(body', indices[k], p), surviving)
            case None => (body', surviving + [indices[k]])
  {
    assert indices[..k + 1][..k] == indices[..k];
  }

  /** One sum keeps its value when folded, and no index becomes free. */
  lemma FoldSumPreserves(indices: seq<IndexId>, body: Expr, env: Env, m: Interp)
    requires Good(Sum(indices, body), m) && Safe(indices, Collect(body, []))
    requires InRange(Sum(indices, body), env, m)
    ensures Eval(FoldSum(indices, body), env, m) == Eval(Sum(indices, body), env, m)
  {
    LoopKeepsValue(indices, body, |indices|, env, m);
    assert indices[..|indices|] == indices;
    var (body', surviving) := FoldIndices(indices, Collect(body, []), body);
    assert surviving + indices[|indices|..] == surviving;
  }

  lemma FoldSumScope(indices: seq<IndexId>, body: Expr, m: Interp)
    requires Good(Sum(indices, body), m) && Safe(indices, Collect(body, []))
    ensures Good(FoldSum(indices, body), m)
    ensures Free(FoldSum(indices, body)) <= Free(Sum(indices, body))
  {
    LoopKeepsInv(indices, body, |indices|, m);
    assert indices[..|indices|] == indices;
    var bubbles := Collect(body, []);
    var (body', surviving) := FoldIndices(indices, bubbles, body);
    assert SetOf(indices) == SetOf(surviving) + Replaced(indices, bubbles);
    if surviving == [] {
      assert SetOf(surviving) == {};
    }
  }

  /** `Safe` at every sum the pass meets, in the form in which it meets it. */
  predicate FoldSafe(e: Expr)
    decreases Size(e), 1, 0
  {
    && (e.Sum? ==> Safe(e.indices, Collect(e.body, [])))
    && FoldSafeChildren(if e.Sum? then FoldSum(e.indices, e.body) else e)
  }

  predicate FoldSafeChildren(e: Expr)
    decreases Size(e), 0, 1
  {
    match e
    case Lit(_) => true
    case Index(_) => true
    case Tensor(_, subs) => FoldSafeAll(subs)
    case Negate(a) => FoldSafe(a)
    case Bin(_, a, b) => FoldSafe(a) && FoldSafe(b)
    case Delta(_, a, b) => FoldSafe(a) && FoldSafe(b)
    case Sum(_, body) => FoldSafe(body)
  }

  predicate FoldSafeAll(es: seq<Expr>)
    ensures FoldSafeAll(es) ==> forall k :: 0 <= k < |es| ==> Size(es[k]) <= SizeAll(es) && FoldSafe(es[k])
    decreases SizeAll(es), 2, |es|
  {
    es != [] ==> FoldSafe(es[0]) && FoldSafeAll(es[1..])
  }

  ghost predicate EqualInRange(a: Expr, b: Expr, m: Interp) {
    forall env :: InRange(a, env, m) ==> Eval(b, env, m) == Eval(a, env, m)
  }

  lemma {:induction false} SumOfEquals(indices: seq<IndexId>, a: Expr, b: Expr, env: Env, m: Interp)
    requires EqualInRange(a, b, m)
    requires forall i :: i in Free(a) - SetOf(indices) ==> 0 <= At(env, i) < m.ext(i)
    ensures SumOver(indices, b, env, m) == SumOver(indices, a, env, m)
    decreases |indices| + 1, 0
  {
    if indices != [] {
      RangeOfEquals(indices[0], m.ext(indices[0]), indices[1..], a, b, env, m);
    }
  }

  lemma {:induction false} RangeOfEquals(k: IndexId, n: nat, rest: seq<IndexId>, a: Expr, b: Expr, env: Env, m: Interp)
    requires EqualInRange(a, b, m)
    requires forall i :: i in Free(a) - SetOf([k] + rest) ==> 0 <= At(env, i) < m.ext(i)
    requires n <= m.ext(k)
    ensures SumRange(k, n, rest, b, env, m) == SumRange(k, n, rest, a, env, m)
    decreases |rest| + 1, n + 1
  {
    if n > 0 {
      RangeOfEquals(k, n - 1, rest, a, b, env, m);
      forall i | i in Free(a) - SetOf(rest)
        ensures 0 <= At(env[k := n - 1], i) < m.ext(i)
      {
        assert i != k ==> i in Free(a) - SetOf([k] + rest);
      }
      SumOfEquals(rest, a, b, env[k := n - 1], m);
    }
  }

  /** Folding preserves the value of every expression in every environment. */
  lemma {:induction false} FoldPreserves(e: Expr, env: Env, m: Interp)
    requires Good(e, m) && FoldSafe(e) && InRange(e, env, m)
    ensures Eval(Fold(e), env, m) == Eval(e, env, m)
    decreases Size(e), 1, 0
  {
    if e.Sum? {
      FoldSumPreserves(e.indices, e.body, env, m);
      FoldSumScope(e.indices, e.body, m);
      FoldChildrenPreserves(FoldSum(e.indices, e.body), env, m);
    } else {
      FoldChildrenPreserves(e, env, m);
    }
  }

  lemma {:induction false} FoldChildrenPreserves(e: Expr, env: Env, m: Interp)
    requires Good(e, m) && FoldSafeChildren(e) && InRange(e, env, m)
    ensures Eval(FoldChildren(e), env, m) == Eval(e, env, m)
    decreases Size(e), 0, 1
  {
    match e
    case Lit(_) =>
    case Index(_) =>
    case Tensor(name, subs) =>
      var r := FoldAll(subs);
      forall k | 0 <= k < |subs|
        ensures Eval(r[k], env, m) == Eval(subs[k], env, m)
      {
        assert Free(subs[k]) <= Free(e);
        FoldPreserves(subs[k], env, m);
      }
      TensorAgree(name, r, subs, env, env, m);
    case Negate(x) => FoldPreserves(x, env, m);
    case Bin(_, x, y) => FoldPreserves(x, env, m); FoldPreserves(y, env, m);
    case Delta(_, x, y) => FoldPreserves(x, env, m); FoldPreserves(y, env, m);
    case Sum(indices, body) =>
      forall env' | InRange(body, env', m)
        ensures Eval(Fold(body), env', m) == Eval(body, env', m)
      {
        FoldPreserves(body, env', m);
      }
      SumOfEquals(indices, body, Fold(body), env, m);
  }
}
