/** How far the folding of Kronecker deltas can be trusted.

    The list of bubbles is not refreshed after a substitution.  When an index is replaced by one
    that was itself replaced in an earlier round, that index reappears and is no longer bound. */
module DeltaFoldingExactness {
  import opened Wrappers
  import opened Qtl
  import opened DeltaFolding

  // A body on which an unsafe loop goes wrong.

  /** An element of a vector times one delta per bubble. */
  function Witness(k: IndexId, bubbles: seq<Bubble>): Expr {
    if bubbles == [] then Tensor(0, [Index(k)])
    else
      var n := |bubbles| - 1;
      Bin(Multiplies, Witness(k, bubbles[..n]), Delta(2, Index(bubbles[n].0), Index(bubbles[n].1)))
  }

  /** All extents are two and the vector is (1, -1). */
  const TwoByTwo := Interp((i: IndexId) => 2, (name: nat, xs: seq<real>) => if xs == [1.0] then -1.0 else 1.0)

  lemma {:induction false} WitnessFacts(k: IndexId, bubbles: seq<Bubble>)
    requires Ordered(bubbles)
    ensures Collect(Witness(k, bubbles), []) == bubbles
    ensures Bound(Witness(k, bubbles)) == {} && Good(Witness(k, bubbles), TwoByTwo)
  {
    if bubbles != [] {
      WitnessFacts(k, bubbles[..|bubbles| - 1]);
      var b := bubbles[|bubbles| - 1];
      assert b in bubbles;
      assert Bound(Delta(2, Index(b.0), Index(b.1))) == {};
      assert bubbles == bubbles[..|bubbles| - 1] + [bubbles[|bubbles| - 1]];
    } else {
      var subs := [Index(k)];
      assert forall j :: 0 <= j < |subs| ==> Bound(subs[j]) == {};
    }
  }

  lemma {:induction false} WitnessPositive(k: IndexId, bubbles: seq<Bubble>, env: Env)
    requires At(env, k) == 0 && forall b :: b in bubbles ==> At(env, b.0) == At(env, b.1)
    ensures Eval(Witness(k, bubbles), env, TwoByTwo) == 1.0
  {
    if bubbles == [] {
      var xs := seq(1, i requires 0 <= i < 1 => Eval([Index(k)][i], env, TwoByTwo));
      assert xs[0] == 0.0;
    } else {
      var b := bubbles[|bubbles| - 1];
      assert bubbles == bubbles[..|bubbles| - 1] + [b];
      assert b in bubbles;
      assert Eval(Delta(2, Index(b.0), Index(b.1)), env, TwoByTwo) == 1.0;
      WitnessPositive(k, bubbles[..|bubbles| - 1], env);
    }
  }

  lemma {:induction false} WitnessNotPositive(k: IndexId, bubbles: seq<Bubble>, env: Env)
    requires At(env, k) == 1
    ensures Eval(Witness(k, bubbles), env, TwoByTwo) <= 0.0
  {
    if bubbles == [] {
      var xs := seq(1, i requires 0 <= i < 1 => Eval([Index(k)][i], env, TwoByTwo));
      assert xs == [1.0];
    } else {
      WitnessNotPositive(k, bubbles[..|bubbles| - 1], env);
    }
  }

  /** The environment in which the original body has the value the folded one has in `env`. */
  function Pull(indices: seq<IndexId>, bubbles: seq<Bubble>, env: Env): Env {
    if indices == [] then env
    else
      var k := |indices| - 1;
      Pull(indices[..k], bubbles,
           match Partner(indices[k], bubbles)
           case Some(p) => env[indices[k] := At(env, p)]
           case None => env)
  }

  lemma {:induction false} FoldedBody(indices: seq<IndexId>, bubbles: seq<Bubble>, body: Expr, env: Env)
    requires Ordered(bubbles) && Good(body, TwoByTwo) && Bound(body) == {}
    ensures var body' := FoldIndices(indices, bubbles, body).0;
            && Good(body', TwoByTwo) && Bound(body') == {}
            && Eval(body', env, TwoByTwo) == Eval(body, Pull(indices, bubbles, env), TwoByTwo)
  {
    if indices != [] {
      var k := |indices| - 1;
      match Partner(indices[k], bubbles)
      case Some(p) =>
        FoldedBody(indices[..k], bubbles, body, env[indices[k] := At(env, p)]);
        var body' := FoldIndices(indices[..k], bubbles, body).0;
        EvalReplace(body', indices[k], p, env, TwoByTwo);
        ReplaceScope(body', indices[k], p, TwoByTwo);
      case None =>
        FoldedBody(indices[..k], bubbles, body, env);
    }
  }

  ghost predicate ZeroOnBubbles(bubbles: seq<Bubble>, env: Env) {
    forall b :: b in bubbles ==> At(env, b.0) == 0 && At(env, b.1) == 0
  }

  lemma {:induction false} PullKeepsZero(indices: seq<IndexId>, bubbles: seq<Bubble>, env: Env)
    requires ZeroOnBubbles(bubbles, env)
    ensures ZeroOnBubbles(bubbles, Pull(indices, bubbles, env))
  {
    if indices != [] {
      var k := |indices| - 1;
      match Partner(indices[k], bubbles)
      case Some(p) =>
        assert At(env, p) == 0;
        PullKeepsZero(indices[..k], bubbles, env[indices[k] := At(env, p)]);
      case None => PullKeepsZero(indices[..k], bubbles, env);
    }
  }

  lemma {:induction false} PullKeeps(indices: seq<IndexId>, bubbles: seq<Bubble>, env: Env, i: IndexId)
    requires i !in indices
    ensures At(Pull(indices, bubbles, env), i) == At(env, i)
  {
    if indices != [] {
      var k := |indices| - 1;
      assert indices[k] in indices;
      match Partner(indices[k], bubbles)
      case Some(p) => PullKeeps(indices[..k], bubbles, env[indices[k] := At(env, p)], i);
      case None => PullKeeps(indices[..k], bubbles, env, i);
    }
  }

  /** An index replaced by one replaced before it ends up with that one's outer value. */
  lemma {:induction false} PullLeaks(indices: seq<IndexId>, bubbles: seq<Bubble>, env: Env, l: nat, k: nat)
    requires Distinct(indices) && l < k < |indices|
    requires Partner(indices[k], bubbles) == Some(indices[l])
    ensures At(Pull(indices, bubbles, env), indices[k]) == At(env, indices[l])
    decreases |indices|
  {
    var last := |indices| - 1;
    if last == k {
      PullKeeps(indices[..k], bubbles, env[indices[k] := At(env, indices[l])], indices[k]);
    } else {
      match Partner(indices[last], bubbles)
      case Some(p) => PullLeaks(indices[..last], bubbles, env[indices[last] := At(env, p)], l, k);
      case None => PullLeaks(indices[..last], bubbles, env, l, k);
    }
  }

  // Signs of sums.

  /** `body` is positive (or, with `sign` false, not positive) wherever `keep` holds. */
  ghost predicate Signed(body: Expr, keep: Env -> bool, positive: bool) {
    forall env :: keep(env) ==> (Eval(body, env, TwoByTwo) > 0.0) == positive
  }

  function Put(env: Env, i: IndexId, v: int): Env { env[i := v] }

  ghost predicate Stable(keep: Env -> bool, indices: seq<IndexId>) {
    forall env, i, v :: keep(env) && i in indices ==> keep(Put(env, i, v))
  }

  lemma {:induction false} SignOfSum(indices: seq<IndexId>, body: Expr, env: Env, keep: Env -> bool, positive: bool)
    requires Signed(body, keep, positive) && Stable(keep, indices) && keep(env)
    ensures (SumOver(indices, body, env, TwoByTwo) > 0.0) == positive
    decreases |indices| + 1, 0
  {
    if indices != [] {
      assert indices == [indices[0]] + indices[1..];
      SignOfRange(indices[0], 2, indices[1..], body, env, keep, positive);
    }
  }

  lemma {:induction false} SignOfRange(i: IndexId, n: nat, rest: seq<IndexId>, body: Expr, env: Env, keep: Env -> bool, positive: bool)
    requires Signed(body, keep, positive) && Stable(keep, [i] + rest) && keep(env)
    ensures n > 0 ==> (SumRange(i, n, rest, body, env, TwoByTwo) > 0.0) == positive
    decreases |rest| + 1, n + 1
  {
    if n > 0 {
      SignOfRange(i, n - 1, rest, body, env, keep, positive);
      assert i in [i] + rest && forall j :: j in rest ==> j in [i] + rest;
      SignOfSum(rest, body, Put(env, i, n - 1), keep, positive);
    }
  }

  // The unsafe loop and its witness.

  /** In every environment that is zero on the bubbles the folded witness is positive. */
  lemma FoldedPositive(indices: seq<IndexId>, bubbles: seq<Bubble>, k: IndexId, env: Env)
    requires Ordered(bubbles) && Partner(k, bubbles).Some? && ZeroOnBubbles(bubbles, env)
    ensures Eval(FoldIndices(indices, bubbles, Witness(k, bubbles)).0, env, TwoByTwo) > 0.0
  {
    WitnessFacts(k, bubbles);
    FoldedBody(indices, bubbles, Witness(k, bubbles), env);
    PullKeepsZero(indices, bubbles, env);
    var env' := Pull(indices, bubbles, env);
    var b :| b in bubbles && Mentions(b, k);
    assert At(env', k) == 0;
    WitnessPositive(k, bubbles, env');
  }

  lemma FoldedNotPositive(indices: seq<IndexId>, bubbles: seq<Bubble>, l: nat, k: nat, env: Env)
    requires Distinct(indices) && Ordered(bubbles) && l < k < |indices|
    requires Partner(indices[k], bubbles) == Some(indices[l]) && At(env, indices[l]) == 1
    ensures Eval(FoldIndices(indices, bubbles, Witness(indices[k], bubbles)).0, env, TwoByTwo) <= 0.0
  {
    WitnessFacts(indices[k], bubbles);
    FoldedBody(indices, bubbles, Witness(indices[k], bubbles), env);
    PullLeaks(indices, bubbles, env, l, k);
    WitnessNotPositive(indices[k], bubbles, Pull(indices, bubbles, env));
  }

  /** Survivors are exactly the indices without a partner. */
  lemma {:induction false} SurvivorsHaveNoPartner(indices: seq<IndexId>, bubbles: seq<Bubble>, body: Expr)
    ensures forall i :: i in FoldIndices(indices, bubbles, body).1 ==> Partner(i, bubbles) == None
  {
    if indices != [] {
      SurvivorsHaveNoPartner(indices[..|indices| - 1], bubbles, body);
    }
  }

  ghost function ZeroOn(bubbles: seq<Bubble>): Env -> bool {
    (env: Env) => ZeroOnBubbles(bubbles, env)
  }

  lemma ZeroIsStable(bubbles: seq<Bubble>, indices: seq<IndexId>)
    requires forall i :: i in indices ==> Partner(i, bubbles) == None
    ensures Stable(ZeroOn(bubbles), indices)
  {
    forall env, i, v | ZeroOn(bubbles)(env) && i in indices
      ensures ZeroOn(bubbles)(Put(env, i, v))
    {
      forall b | b in bubbles
        ensures At(Put(env, i, v), b.0) == 0 && At(Put(env, i, v), b.1) == 0
      {
        assert !Mentions(b, i);
      }
    }
  }

  ghost function OneAt(i: IndexId): Env -> bool {
    (env: Env) => At(env, i) == 1
  }

  lemma OneIsStable(i: IndexId, indices: seq<IndexId>)
    requires i !in indices
    ensures Stable(OneAt(i), indices)
  {
  }

  lemma FoldedSigned(indices: seq<IndexId>, bubbles: seq<Bubble>, k: IndexId)
    requires Ordered(bubbles) && Partner(k, bubbles).Some?
    ensures Signed(FoldIndices(indices, bubbles, Witness(k, bubbles)).0, ZeroOn(bubbles), true)
  {
    forall env: Env | ZeroOn(bubbles)(env)
      ensures Eval(FoldIndices(indices, bubbles, Witness(k, bubbles)).0, env, TwoByTwo) > 0.0
    {
      FoldedPositive(indices, bubbles, k, env);
    }
  }

  lemma FoldedUnsigned(indices: seq<IndexId>, bubbles: seq<Bubble>, l: nat, k: nat)
    requires Distinct(indices) && Ordered(bubbles) && l < k < |indices|
    requires Partner(indices[k], bubbles) == Some(indices[l])
    ensures Signed(FoldIndices(indices, bubbles, Witness(indices[k], bubbles)).0, OneAt(indices[l]), false)
  {
    forall env: Env | OneAt(indices[l])(env)
      ensures Eval(FoldIndices(indices, bubbles, Witness(indices[k], bubbles)).0, env, TwoByTwo) <= 0.0
    {
      FoldedNotPositive(indices, bubbles, l, k, env);
    }
  }

  lemma FoldSumIsSum(indices: seq<IndexId>, bubbles: seq<Bubble>, body: Expr, env: Env)
    requires Collect(body, []) == bubbles
    ensures Eval(FoldSum(indices, body), env, TwoByTwo) ==
            SumOver(FoldIndices(indices, bubbles, body).1, FoldIndices(indices, bubbles, body).0, env, TwoByTwo)
  {
  }

  lemma FoldedSumPositive(indices: seq<IndexId>, bubbles: seq<Bubble>, k: IndexId)
    requires Ordered(bubbles) && Partner(k, bubbles).Some?
    ensures Eval(FoldSum(indices, Witness(k, bubbles)), map[], TwoByTwo) > 0.0
  {
    var body := Witness(k, bubbles);
    WitnessFacts(k, bubbles);
    FoldSumIsSum(indices, bubbles, body, map[]);
    FoldedSigned(indices, bubbles, k);
    SurvivorsHaveNoPartner(indices, bubbles, body);
    ZeroIsStable(bubbles, FoldIndices(indices, bubbles, body).1);
    SignOfSum(FoldIndices(indices, bubbles, body).1, FoldIndices(indices, bubbles, body).0, map[], ZeroOn(bubbles), true);
  }

  lemma FoldedSumNotPositive(indices: seq<IndexId>, bubbles: seq<Bubble>, l: nat, k: nat)
    requires Distinct(indices) && Ordered(bubbles) && l < k < |indices|
    requires Partner(indices[k], bubbles) == Some(indices[l]) && Partner(indices[l], bubbles).Some?
    ensures Eval(FoldSum(indices, Witness(indices[k], bubbles)), map[indices[l] := 1], TwoByTwo) <= 0.0
  {
    var body, env: Env := Witness(indices[k], bubbles), map[indices[l] := 1];
    WitnessFacts(indices[k], bubbles);
    FoldSumIsSum(indices, bubbles, body, env);
    FoldedUnsigned(indices, bubbles, l, k);
    SurvivorsHaveNoPartner(indices, bubbles, body);
    OneIsStable(indices[l], FoldIndices(indices, bubbles, body).1);
    SignOfSum(FoldIndices(indices, bubbles, body).1, FoldIndices(indices, bubbles, body).0, env, OneAt(indices[l]), false);
  }

  /** The loop over the indices of a sum keeps the value of every body with the given bubbles, for
      all extents, tensors and environments, exactly if it never replaces an index by one it has
      replaced before. */
  lemma SafeIsExact(indices: seq<IndexId>, bubbles: seq<Bubble>)
    requires Distinct(indices) && Ordered(bubbles)
    ensures Safe(indices, bubbles) <==>
            forall body, env, m ::
              Collect(body, []) == bubbles && Good(Sum(indices, body), m) && InRange(Sum(indices, body), env, m) ==>
              Eval(FoldSum(indices, body), env, m) == Eval(Sum(indices, body), env, m)
  {
    if Safe(indices, bubbles) {
      forall body, env, m
        | Collect(body, []) == bubbles && Good(Sum(indices, body), m) && InRange(Sum(indices, body), env, m)
        ensures Eval(FoldSum(indices, body), env, m) == Eval(Sum(indices, body), env, m)
      {
        FoldSumPreserves(indices, body, env, m);
      }
    } else {
      var k, l :| 0 <= l < k < |indices| && Partner(indices[l], bubbles).Some? &&
                  Partner(indices[k], bubbles) == Some(indices[l]);
      var body := Witness(indices[k], bubbles);
      var a, b: Env := map[], map[indices[l] := 1];
      WitnessFacts(indices[k], bubbles);
      FoldedSumPositive(indices, bubbles, indices[k]);
      FoldedSumNotPositive(indices, bubbles, l, k);
      var sum := Sum(indices, body);
      assert indices[l] in SetOf(indices);
      EvalAgree(sum, a, b, TwoByTwo);
      assert Good(sum, TwoByTwo) && InRange(sum, a, TwoByTwo) && InRange(sum, b, TwoByTwo);
      assert Eval(FoldSum(indices, body), a, TwoByTwo) != Eval(sum, a, TwoByTwo) ||
             Eval(FoldSum(indices, body), b, TwoByTwo) != Eval(sum, b, TwoByTwo);
    }
  }

  // A condition that can be read off the unfolded expression.

  /** No bubble joins two indices of one sum. */
  predicate NoPair(e: Expr) {
    match e
    case Lit(_) => true
    case Index(_) => true
    case Tensor(_, subs) => forall k :: 0 <= k < |subs| ==> NoPair(subs[k])
    case Negate(a) => NoPair(a)
    case Bin(_, a, b) => NoPair(a) && NoPair(b)
    case Delta(_, a, b) => NoPair(a) && NoPair(b)
    case Sum(indices, body) =>
      && NoPair(body)
      && forall b :: b in Collect(body, []) ==> b.0 !in indices || b.1 !in indices
  }

  lemma {:induction false} CollectMonotone(e: Expr, found: seq<Bubble>, found': seq<Bubble>, b: Bubble)
    requires b in Collect(e, found) && (b in found ==> b in found')
    ensures b in Collect(e, found')
    decreases e
  {
    match e
    case Sum(indices, body) => CollectMonotone(body, found, found', b);
    case Bin(op, x, y) =>
      if op == Divides {
        CollectMonotone(x, found, found', b);
      } else if op == Multiplies {
        if b in Collect(x, found) {
          CollectMonotone(x, found, found', b);
        }
        CollectMonotone(y, Collect(x, found), Collect(x, found'), b);
      }
    case _ =>
  }

  /** Replacing an index finds no new bubble among the other indices. */
  lemma {:induction false} ReplaceFindsNothing(e: Expr, i: IndexId, p: IndexId, found: seq<Bubble>, b: Bubble)
    requires b in Collect(Replace(e, i, p), found) && !Mentions(b, i) && !Mentions(b, p)
    ensures b in Collect(e, found)
    decreases e
  {
    match e
    case Sum(indices, body) => ReplaceFindsNothing(body, i, p, found, b);
    case Bin(op, x, y) =>
      if op == Plus || op == Minus {
        if b !in found {
          ReplaceFindsNothing(x, i, p, [], b);
          ReplaceFindsNothing(y, i, p, [], b);
        }
      } else if op == Divides {
        ReplaceFindsNothing(x, i, p, found, b);
      } else {
        var x' := Replace(x, i, p);
        ReplaceFindsNothing(y, i, p, Collect(x', found), b);
        if b in Collect(x', found) {
          ReplaceFindsNothing(x, i, p, found, b);
        }
        CollectMonotone(y, Collect(x', found), Collect(x, found), b);
      }
    case Delta(n, x, y) =>
      if b !in found {
        assert EliminateTrivial(Subst(x, i, p)).Index? ==> x.Index?;
        assert EliminateTrivial(Subst(y, i, p)).Index? ==> y.Index?;
        assert b == MakeBubble(x.id, y.id);
      }
    case _ =>
  }

  lemma {:induction false} ReplaceKeepsNoPair(e: Expr, i: IndexId, p: IndexId)
    requires NoPair(e) && i !in Bound(e) && p !in Bound(e)
    ensures NoPair(Replace(e, i, p))
    decreases e
  {
    match e
    case Lit(_) =>
    case Index(_) =>
    case Tensor(_, subs) =>
      forall k | 0 <= k < |subs|
        ensures NoPair(Replace(subs[k], i, p))
      {
        assert Bound(subs[k]) <= Bound(e);
        ReplaceKeepsNoPair(subs[k], i, p);
      }
    case Negate(x) => ReplaceKeepsNoPair(x, i, p);
    case Bin(_, x, y) => ReplaceKeepsNoPair(x, i, p); ReplaceKeepsNoPair(y, i, p);
    case Delta(_, x, y) => ReplaceKeepsNoPair(x, i, p); ReplaceKeepsNoPair(y, i, p);
    case Sum(indices, body) =>
      ReplaceKeepsNoPair(body, i, p);
      forall b | b in Collect(Replace(body, i, p), []) && b.0 in indices && b.1 in indices
        ensures false
      {
        assert i !in SetOf(indices) && p !in SetOf(indices);
        ReplaceFindsNothing(body, i, p, [], b);
      }
  }

  lemma {:induction false} NoPairIsSafe(indices: seq<IndexId>, body: Expr)
    requires NoPair(Sum(indices, body))
    ensures Safe(indices, Collect(body, []))
  {
    var bubbles := Collect(body, []);
    forall k, l | 0 <= l < k < |indices|
      ensures Partner(indices[k], bubbles) != Some(indices[l])
    {
      assert indices[k] in indices && indices[l] in indices;
      assert (indices[k], indices[l]) !in bubbles && (indices[l], indices[k]) !in bubbles;
    }
  }

  lemma {:induction false} LoopKeepsNoPair(indices: seq<IndexId>, body: Expr, k: nat, m: Interp)
    requires Good(Sum(indices, body), m) && NoPair(Sum(indices, body)) && k <= |indices|
    ensures NoPair(FoldIndices(indices[..k], Collect(body, []), body).0)
    decreases k
  {
    if k > 0 {
      NoPairIsSafe(indices, body);
      LoopKeepsNoPair(indices, body, k - 1, m);
      LoopKeepsInv(indices, body, k - 1, m);
      assert indices[..k][..k - 1] == indices[..k - 1];
      if Partner(indices[k - 1], Collect(body, [])).Some? {
        PartnerFacts(indices, body, k - 1, m);
        ReplaceKeepsNoPair(FoldIndices(indices[..k - 1], Collect(body, []), body).0,
                           indices[k - 1], Partner(indices[k - 1], Collect(body, [])).value);
      }
    }
  }

  /** If no bubble joins two indices of one sum, then every sum the pass meets is safe. */
  lemma {:induction false} NoPairIsFoldSafe(e: Expr, m: Interp)
    requires Good(e, m) && NoPair(e)
    ensures FoldSafe(e)
    decreases Size(e), 1
  {
    if e.Sum? {
      NoPairIsSafe(e.indices, e.body);
      FoldSumScope(e.indices, e.body, m);
      LoopKeepsNoPair(e.indices, e.body, |e.indices|, m);
      assert e.indices[..|e.indices|] == e.indices;
      var (body', surviving) := FoldIndices(e.indices, Collect(e.body, []), e.body);
      if surviving == [] {
        NoPairIsFoldSafeChildren(body', m);
      } else {
        NoPairIsFoldSafe(body', m);
      }
    } else {
      NoPairIsFoldSafeChildren(e, m);
    }
  }

  lemma {:induction false} NoPairIsFoldSafeChildren(e: Expr, m: Interp)
    requires Good(e, m) && NoPair(e)
    ensures FoldSafeChildren(e)
    decreases Size(e), 0
  {
    match e
    case Lit(_) =>
    case Index(_) =>
    case Tensor(_, subs) => NoPairIsFoldSafeAll(subs, m);
    case Negate(x) => NoPairIsFoldSafe(x, m);
    case Bin(_, x, y) => NoPairIsFoldSafe(x, m); NoPairIsFoldSafe(y, m);
    case Delta(_, x, y) => NoPairIsFoldSafe(x, m); NoPairIsFoldSafe(y, m);
    case Sum(_, body) => NoPairIsFoldSafe(body, m);
  }

  lemma {:induction false} NoPairIsFoldSafeAll(es: seq<Expr>, m: Interp)
    requires forall k :: 0 <= k < |es| ==> Good(es[k], m) && NoPair(es[k])
    ensures FoldSafeAll(es)
    decreases SizeAll(es), 2, |es|
  {
    if es != [] {
      NoPairIsFoldSafe(es[0], m);
      NoPairIsFoldSafeAll(es[1..], m);
    }
  }
}
