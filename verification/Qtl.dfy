/** Tensor expressions and their meaning: finite sums over index ranges, in exact arithmetic. */
module Qtl {
  type IndexId = nat

  datatype BinOp = Plus | Minus | Multiplies | Divides

  datatype Expr =
    | Lit(value: int)
    | Index(id: IndexId)
    | Tensor(name: nat, subs: seq<Expr>)
    | Negate(arg: Expr)
    | Bin(op: BinOp, left: Expr, right: Expr)
    | Delta(extent: nat, first: Expr, second: Expr)
    | Sum(indices: seq<IndexId>, body: Expr)

  /** Extents of the indices and contents of the tensors. */
  datatype Interp = Interp(ext: IndexId -> nat, tensor: (nat, seq<real>) -> real)

  type Env = map<IndexId, int>

  function At(env: Env, i: IndexId): int {
    if i in env then env[i] else 0
  }

  /** A quotient with zero divisor counts as zero. */
  function Divide(a: real, b: real): real {
    if b == 0.0 then 0.0 else a / b
  }

  function Arith(op: BinOp, x: real, y: real): real {
    match op
    case Plus => x + y
    case Minus => x - y
    case Multiplies => x * y
    case Divides => Divide(x, y)
  }

  function Kronecker(x: real, y: real): real { if x == y then 1.0 else 0.0 }

  function Eval(e: Expr, env: Env, m: Interp): real
    decreases e, 0, 0
  {
    match e
    case Lit(v) => v as real
    case Index(i) => At(env, i) as real
    case Tensor(name, subs) => m.tensor(name, seq(|subs|, k requires 0 <= k < |subs| => Eval(subs[k], env, m)))
    case Negate(a) => -Eval(a, env, m)
    case Bin(op, a, b) => Arith(op, Eval(a, env, m), Eval(b, env, m))
    case Delta(_, i, j) => Kronecker(Eval(i, env, m), Eval(j, env, m))
    case Sum(indices, body) => SumOver(indices, body, env, m)
  }

  /** Sum of `body` over all values of all `indices`. */
  function SumOver(indices: seq<IndexId>, body: Expr, env: Env, m: Interp): real
    decreases body, |indices| + 1, 0
  {
    if indices == [] then Eval(body, env, m)
    else SumRange(indices[0], m.ext(indices[0]), indices[1..], body, env, m)
  }

  /** Sum over the values of `i` below `n` and all values of `rest`. */
  function SumRange(i: IndexId, n: nat, rest: seq<IndexId>, body: Expr, env: Env, m: Interp): real
    decreases body, |rest| + 1, n + 1
  {
    if n == 0 then 0.0
    else SumRange(i, n - 1, rest, body, env, m) + SumOver(rest, body, env[i := n - 1], m)
  }

  function Size(e: Expr): nat {
    match e
    case Lit(_) => 1
    case Index(_) => 1
    case Tensor(_, subs) => 1 + SizeAll(subs)
    case Negate(a) => 1 + Size(a)
    case Bin(_, a, b) => 1 + Size(a) + Size(b)
    case Delta(_, i, j) => 1 + Size(i) + Size(j)
    case Sum(_, body) => 1 + Size(body)
  }

  function SizeAll(es: seq<Expr>): nat {
    if es == [] then 0 else Size(es[0]) + SizeAll(es[1..])
  }

  function SetOf(indices: seq<IndexId>): set<IndexId> { set i | i in indices }

  function Free(e: Expr): set<IndexId> {
    match e
    case Lit(_) => {}
    case Index(i) => {i}
    case Tensor(_, subs) => set k, i | 0 <= k < |subs| && i in Free(subs[k]) :: i
    case Negate(a) => Free(a)
    case Bin(_, a, b) => Free(a) + Free(b)
    case Delta(_, i, j) => Free(i) + Free(j)
    case Sum(indices, body) => Free(body) - SetOf(indices)
  }

  function Bound(e: Expr): set<IndexId> {
    match e
    case Lit(_) => {}
    case Index(i) => {}
    case Tensor(_, subs) => set k, i | 0 <= k < |subs| && i in Bound(subs[k]) :: i
    case Negate(a) => Bound(a)
    case Bin(_, a, b) => Bound(a) + Bound(b)
    case Delta(_, i, j) => Bound(i) + Bound(j)
    case Sum(indices, body) => Bound(body) + SetOf(indices)
  }

  predicate Distinct(indices: seq<IndexId>) {
    forall a, b :: 0 <= a < b < |indices| ==> indices[a] != indices[b]
  }

  /** Binders are unique: no index is bound twice on a path or both bound and free, and deltas
      join indices of one extent. */
  predicate Good(e: Expr, m: Interp) {
    && Free(e) !! Bound(e)
    && match e
       case Lit(_) => true
       case Index(_) => true
       case Tensor(_, subs) => forall k :: 0 <= k < |subs| ==> Good(subs[k], m)
       case Negate(a) => Good(a, m)
       case Bin(_, a, b) => Good(a, m) && Good(b, m)
       case Delta(n, i, j) =>
         && Good(i, m) && Good(j, m)
         && (i.Index? && j.Index? ==> m.ext(i.id) == n == m.ext(j.id))
       case Sum(indices, body) => Distinct(indices) && SetOf(indices) !! Bound(body) && Good(body, m)
  }

  /** Every free index of `e` has a value within its extent. */
  predicate InRange(e: Expr, env: Env, m: Interp) {
    forall i :: i in Free(e) ==> 0 <= At(env, i) < m.ext(i)
  }

  // The meaning of an expression depends on its free indices only.

  ghost predicate Agree(a: Env, b: Env, on: set<IndexId>) {
    forall i :: i in on ==> At(a, i) == At(b, i)
  }

  lemma TensorAgree(name: nat, xs: seq<Expr>, ys: seq<Expr>, a: Env, b: Env, m: Interp)
    requires |xs| == |ys| && forall k :: 0 <= k < |xs| ==> Eval(xs[k], a, m) == Eval(ys[k], b, m)
    ensures Eval(Tensor(name, xs), a, m) == Eval(Tensor(name, ys), b, m)
  {
    assert seq(|xs|, k requires 0 <= k < |xs| => Eval(xs[k], a, m)) ==
           seq(|ys|, k requires 0 <= k < |ys| => Eval(ys[k], b, m));
  }

  lemma {:induction false} EvalAgree(e: Expr, a: Env, b: Env, m: Interp)
    requires Agree(a, b, Free(e))
    ensures Eval(e, a, m) == Eval(e, b, m)
    decreases e, 0, 0
  {
    match e
    case Lit(_) =>
    case Index(i) => assert i in Free(e);
    case Tensor(name, subs) =>
      forall k | 0 <= k < |subs|
        ensures Eval(subs[k], a, m) == Eval(subs[k], b, m)
      {
        assert Free(subs[k]) <= Free(e);
        EvalAgree(subs[k], a, b, m);
      }
      TensorAgree(name, subs, subs, a, b, m);
    case Negate(x) => EvalAgree(x, a, b, m);
    case Bin(_, x, y) => EvalAgree(x, a, b, m); EvalAgree(y, a, b, m);
    case Delta(_, x, y) => EvalAgree(x, a, b, m); EvalAgree(y, a, b, m);
    case Sum(indices, body) => SumAgree(indices, body, a, b, m);
  }

  lemma {:induction false} SumAgree(indices: seq<IndexId>, body: Expr, a: Env, b: Env, m: Interp)
    requires Agree(a, b, Free(body) - SetOf(indices))
    ensures SumOver(indices, body, a, m) == SumOver(indices, body, b, m)
    decreases body, |indices| + 1, 0
  {
    if indices == [] {
      EvalAgree(body, a, b, m);
    } else {
      RangeAgree(indices[0], m.ext(indices[0]), indices[1..], body, a, b, m);
    }
  }

  lemma {:induction false} RangeAgree(i: IndexId, n: nat, rest: seq<IndexId>, body: Expr, a: Env, b: Env, m: Interp)
    requires Agree(a, b, Free(body) - SetOf([i] + rest))
    ensures SumRange(i, n, rest, body, a, m) == SumRange(i, n, rest, body, b, m)
    decreases body, |rest| + 1, n + 1
  {
    if n > 0 {
      RangeAgree(i, n - 1, rest, body, a, b, m);
      forall x | x in Free(body) - SetOf(rest)
        ensures At(a[i := n - 1], x) == At(b[i := n - 1], x)
      {
        assert x != i ==> x in Free(body) - SetOf([i] + rest);
      }
      SumAgree(rest, body, a[i := n - 1], b[i := n - 1], m);
    }
  }

  // The order of summation does not matter.

  /** Sum over `i` below `n` of the sums over `j` below `l`. */
  function Grid(i: IndexId, n: nat, j: IndexId, l: nat, rest: seq<IndexId>, body: Expr, env: Env, m: Interp): real {
    if n == 0 then 0.0
    else Grid(i, n - 1, j, l, rest, body, env, m) + SumRange(j, l, rest, body, env[i := n - 1], m)
  }

  lemma {:induction false} GridIsSum(i: IndexId, n: nat, j: IndexId, rest: seq<IndexId>, body: Expr, env: Env, m: Interp)
    ensures Grid(i, n, j, m.ext(j), rest, body, env, m) == SumRange(i, n, [j] + rest, body, env, m)
  {
    if n > 0 {
      GridIsSum(i, n - 1, j, rest, body, env, m);
      assert ([j] + rest)[1..] == rest;
    }
  }

  lemma {:induction false} GridColumn(i: IndexId, n: nat, j: IndexId, l: nat, rest: seq<IndexId>, body: Expr, env: Env, m: Interp)
    requires l > 0 && i != j
    ensures Grid(i, n, j, l, rest, body, env, m) ==
            Grid(i, n, j, l - 1, rest, body, env, m) + SumRange(i, n, rest, body, env[j := l - 1], m)
  {
    if n > 0 {
      GridColumn(i, n - 1, j, l, rest, body, env, m);
      assert env[i := n - 1][j := l - 1] == env[j := l - 1][i := n - 1];
    }
  }

  lemma {:induction false} GridEmpty(i: IndexId, n: nat, j: IndexId, rest: seq<IndexId>, body: Expr, env: Env, m: Interp)
    ensures Grid(i, n, j, 0, rest, body, env, m) == 0.0
  {
    if n > 0 {
      GridEmpty(i, n - 1, j, rest, body, env, m);
    }
  }

  lemma {:induction false} GridTranspose(i: IndexId, n: nat, j: IndexId, l: nat, rest: seq<IndexId>, body: Expr, env: Env, m: Interp)
    requires i != j
    ensures Grid(i, n, j, l, rest, body, env, m) == Grid(j, l, i, n, rest, body, env, m)
    decreases l
  {
    if l == 0 {
      GridEmpty(i, n, j, rest, body, env, m);
    } else {
      GridColumn(i, n, j, l, rest, body, env, m);
      GridTranspose(i, n, j, l - 1, rest, body, env, m);
    }
  }

  lemma SwapSums(i: IndexId, j: IndexId, rest: seq<IndexId>, body: Expr, env: Env, m: Interp)
    requires i != j
    ensures SumOver([i, j] + rest, body, env, m) == SumOver([j, i] + rest, body, env, m)
  {
    GridIsSum(i, m.ext(i), j, rest, body, env, m);
    GridIsSum(j, m.ext(j), i, rest, body, env, m);
    GridTranspose(i, m.ext(i), j, m.ext(j), rest, body, env, m);
    assert ([i, j] + rest)[1..] == [j] + rest && ([j, i] + rest)[1..] == [i] + rest;
  }

  /** Two index lists that sum alike in every environment still do so under one more sum. */
  lemma {:induction false} UnderRange(i: IndexId, n: nat, xs: seq<IndexId>, ys: seq<IndexId>, body: Expr, env: Env, m: Interp)
    requires forall env' :: SumOver(xs, body, env', m) == SumOver(ys, body, env', m)
    ensures SumRange(i, n, xs, body, env, m) == SumRange(i, n, ys, body, env, m)
  {
    if n > 0 {
      UnderRange(i, n - 1, xs, ys, body, env, m);
    }
  }

  lemma {:induction false} MoveToEnd(before: seq<IndexId>, i: IndexId, after: seq<IndexId>, body: Expr, env: Env, m: Interp)
    requires i !in before && i !in after
    ensures SumOver(before + [i] + after, body, env, m) == SumOver(before + after + [i], body, env, m)
    decreases |before| + |after|, |after|
  {
    if before != [] {
      var xs, ys := before[1..] + [i] + after, before[1..] + after + [i];
      forall env'
        ensures SumOver(xs, body, env', m) == SumOver(ys, body, env', m)
      {
        MoveToEnd(before[1..], i, after, body, env', m);
      }
      UnderRange(before[0], m.ext(before[0]), xs, ys, body, env, m);
      assert (before + [i] + after)[1..] == xs && (before + after + [i])[1..] == ys;
    } else if after != [] {
      var j, rest := after[0], after[1..];
      SwapSums(i, j, rest, body, env, m);
      forall env'
        ensures SumOver([i] + rest, body, env', m) == SumOver(rest + [i], body, env', m)
      {
        MoveToEnd([], i, rest, body, env', m);
        assert [] + [i] + rest == [i] + rest && [] + rest + [i] == rest + [i];
      }
      UnderRange(j, m.ext(j), [i] + rest, rest + [i], body, env, m);
      assert before + [i] + after == [i, j] + rest;
      assert ([j, i] + rest)[1..] == [i] + rest;
      assert before + after + [i] == [j] + (rest + [i]);
      assert ([j] + (rest + [i]))[1..] == rest + [i];
    } else {
      assert before + [i] + after == before + after + [i];
    }
  }
}
