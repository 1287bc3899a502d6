/** Main results about the lowering of sparse contractions. */
module SparseTheorem {
  import opened Wrappers
  import opened Qir
  import opened QirRun
  import opened TensorCode
  import opened Substitution
  import opened SumLowering
  import opened IntSums
  import opened IndexSums
  import opened SparseLowering
  import opened SparseMeaning
  import opened SparseLoops
  import opened SparseCorrectness

  // The macro is expanded in the middle of the nest.

  /** The expressions in the bounds of the block loops. */
  lemma BoundReads(s: Sell, first: VarId)
    ensures Pure(Extent0(s)) && Reads(Extent0(s)) == {s.shape}
    ensures Pure(Rounded(s)) && Reads(Rounded(s)) == {s.shape}
    ensures var e := Binary(Modulus, Extent0(s), IntLit(BLOCK_WIDTH)); Pure(e) && Reads(e) == {s.shape}
    ensures var e := Access(s.cl, [Over(Ref(first), IntLit(BLOCK_WIDTH))]); Pure(e) && Reads(e) == {s.cl, first}
  {
    OneReads(s.shape, IntLit(0));
    BinaryReads(Divides, Extent0(s), IntLit(BLOCK_WIDTH));
    BinaryReads(Multiplies, Over(Extent0(s), IntLit(BLOCK_WIDTH)), IntLit(BLOCK_WIDTH));
    BinaryReads(Modulus, Extent0(s), IntLit(BLOCK_WIDTH));
    RefReads(first);
    BinaryReads(Divides, Ref(first), IntLit(BLOCK_WIDTH));
    OneReads(s.cl, Over(Ref(first), IntLit(BLOCK_WIDTH)));
  }

  lemma BlockLoopsExpand(s: Sell, kind: Kind, first: VarId, param: VarId, arg: Expr)
    requires s.shape < first && s.cl < first && param > first + 2
    ensures Subst(BlockLoops(s, kind, first, Ref(param)), map[param := arg]) == BlockLoops(s, kind, first, arg)
  {
    var m := map[param := arg];
    BoundReads(s, first);
    SubstAbsent(Extent0(s), m);
    SubstAbsent(Rounded(s), m);
    SubstAbsent(Binary(Modulus, Extent0(s), IntLit(BLOCK_WIDTH)), m);
    SubstAbsent(Access(s.cl, [Over(Ref(first), IntLit(BLOCK_WIDTH))]), m);
    hide Extent0, Rounded;
    var e := BlockLoops(s, kind, first, Ref(param));
    assert Subst(e.body.body, m) == BlockLoops(s, kind, first, arg).body.body;
    assert Subst(e.body, m) == BlockLoops(s, kind, first, arg).body;
  }

  lemma {:induction false} DenseLoopsExpand(dense: seq<VarId>, n: nat, e: Expr, first: VarId, inner: Expr, m: map<VarId, Expr>)
    requires n <= |dense|
    ensures Subst(DenseLoops(dense, n, e, first, inner), m) == DenseLoops(dense, n, e, first, Subst(inner, m))
  {
    if n > 0 {
      DenseLoopsExpand(dense, n - 1, e, first, inner, m);
      SearchFindsBound(dense[n - 1], e);
    }
  }

  function AnalysisOf(p: Problem): Analysis {
    Analysis(p.dense, [p.row, p.column], p.tensor, p.c, Refs(p.lhs), p.body)
  }

  lemma PartIsNest(p: Problem, kind: Kind, first: VarId)
    requires WellFormed(p) && p.next <= first
    ensures ComputationalPart(p.Statement(), AnalysisOf(p), p.sell, kind, first) == Nest(p, first, kind, |p.dense|)
  {
    var param := first + 3 + |p.dense|;
    var m := map[param := NewStatement(p, first)];
    assert p.sell.shape in p.Arrays() && p.sell.cl in p.Arrays();
    BlockLoopsExpand(p.sell, kind, first, param, NewStatement(p, first));
    DenseLoopsExpand(p.dense, |p.dense|, p.Statement(), first + 3, BlockLoops(p.sell, kind, first, Ref(param)), m);
  }

  // What the loops read and write.

  predicate Between(v: VarId, first: VarId, n: nat) { first <= v < first + n }

  /** The variables `first` to `first + n - 1`. */
  ghost function Loops(first: VarId, n: nat): (r: set<VarId>)
    ensures forall v :: v in r <==> first <= v < first + n
  {
    set v: VarId | first <= v < first + n && Between(v, first, n)
  }

  /** The variables that the code may read but does not introduce. */
  ghost function Sources(p: Problem): set<VarId> { Loops(0, p.next) - {p.c} }

  ghost predicate PartShape(p: Problem, e: Expr, first: VarId, n: nat, vs: set<VarId>) {
    IsTensorCode(e, p.c) && LoopVars(e) == vs && AllReads(e) <= Sources(p) + Loops(first, n)
  }

  lemma PartLoop(p: Problem, e: Expr, first: VarId, n: nat, vs: set<VarId>)
    requires e.For? && e.increment.IntLit? && e.increment.value > 0 && e.idx != p.c && e.idx !in vs
    requires Reads(e.lower) + Reads(e.upper) <= Sources(p) + Loops(first, n)
    requires (Reads(e.lower) + Reads(e.upper)) !! ({e.idx} + vs) && p.c < p.next <= first
    requires PartShape(p, e.body, first, n, vs)
    ensures PartShape(p, e, first, n, {e.idx} + vs)
  {
  }

  lemma StatementPart(p: Problem, first: VarId)
    requires WellFormed(p) && p.next <= first
    ensures PartShape(p, NewStatement(p, first), first, 3 + |p.dense|, {})
  {
    StatementShape(p, first);
    var within := Sources(p) + Loops(first, 3 + |p.dense|);
    assert p.c !in within;
    NewReads(p, first, within);
  }

  lemma NewReads(p: Problem, first: VarId, within: set<VarId>)
    requires WellFormed(p) && p.next <= first && within == Sources(p) + Loops(first, 3 + |p.dense|)
    ensures ReadsAll(NewIndices(p, first)) <= within && Reads(NewSummand(p, first)) <= within
  {
    var m, entry := MapOf(p, first), EntryAccess(p, first);
    SourcesWithin(p, first, within);
    assert Distinct(p.Indices());
    hide WellFormed, Sources, Loops, MapOf, EntryAccess, ReplaceTensor, Reads, ReadsAll, Refs, Distinct;
    ArrayAtIndexReads(p.sell.val, p.sell, first);
    ReplacedReads(p.body, p.tensor, entry);
    MapReads(p, first, within);
    SubstReads(ReplaceTensor(p.body, p.tensor, entry), m, within);
    SubstAllReads(Refs(p.lhs), m, within);
  }

  lemma SourcesWithin(p: Problem, first: VarId, within: set<VarId>)
    requires WellFormed(p) && p.next <= first && within == Sources(p) + Loops(first, 3 + |p.dense|)
    ensures {p.sell.val, p.sell.col, p.sell.cs, first, first + 1, first + 2} <= within
    ensures Reads(p.body) <= within && ReadsAll(Refs(p.lhs)) <= within && Loops(first, 3 + |p.dense|) <= within
  {
    assert p.sell.val in p.Arrays() && p.sell.col in p.Arrays() && p.sell.cs in p.Arrays();
    RefsReads(p.lhs);
  }

  lemma MapReads(p: Problem, first: VarId, within: set<VarId>)
    requires Distinct(p.Indices()) && Loops(first, 3 + |p.dense|) <= within
    requires {p.sell.col, p.sell.cs, first, first + 1, first + 2} <= within
    ensures forall v :: v in MapOf(p, first) ==> Reads(MapOf(p, first)[v]) <= within
  {
    hide SparseIndex, MapOf, Loops, Distinct;
    var m := MapOf(p, first);
    MapLookup(p, first);
    forall v | v in m
      ensures Reads(m[v]) <= within
    {
      if v == p.column {
        ArrayAtIndexReads(p.sell.col, p.sell, first);
      } else if v == p.row {
        RefReads(first);
        RefReads(first + 1);
        BinaryReads(Plus, Ref(first), Ref(first + 1));
      } else {
        assert v in p.dense;
        var q :| 0 <= q < |p.dense| && p.dense[q] == v;
        RefReads(first + 3 + q);
        LoopsHolds(first, 3 + |p.dense|, first + 3 + q);
      }
    }
  }

  lemma LoopsHolds(first: VarId, n: nat, v: VarId)
    ensures v in Loops(first, n) <==> first <= v < first + n
  {
  }

  lemma NextLoop(first: VarId, n: nat)
    ensures {first + n} + Loops(first, n) == Loops(first, n + 1)
  {
  }

  lemma LiteralReads(i: int)
    ensures Reads(IntLit(i)) == {}
  {
  }

  lemma BoundsAreSources(p: Problem, first: VarId, n: nat)
    requires WellFormed(p) && n > 0
    ensures p.sell.shape < p.next && p.sell.cl < p.next && p.c < p.next
    ensures {p.sell.shape, p.sell.cl, first} <= Sources(p) + Loops(first, n)
  {
    assert p.sell.shape in p.Arrays() && p.sell.cl in p.Arrays();
  }

  lemma BlocksPart(p: Problem, kind: Kind, first: VarId)
    requires WellFormed(p) && p.next <= first
    ensures PartShape(p, Nest(p, first, kind, 0), first, 3 + |p.dense|, Loops(first, 3))
  {
    var e, n := Nest(p, first, kind, 0), 3 + |p.dense|;
    StatementPart(p, first);
    BoundReads(p.sell, first);
    BoundsAreSources(p, first, n);
    hide WellFormed, PartShape, Sources, NewStatement, Extent0, Rounded, Reads, Pure;
    assert Reads(IntLit(0)) == {} by { LiteralReads(0); }
    BlockShapes(p, e, first, n);
  }

  lemma BlockShapes(p: Problem, e: Expr, first: VarId, n: nat)
    requires e.For? && e.body.For? && e.body.body.For? && p.c < p.next <= first
    requires e.increment.IntLit? && e.increment.value > 0 && e.body.increment == e.body.body.increment == IntLit(1)
    requires e.idx == first && e.body.idx == first + 2 && e.body.body.idx == first + 1
    requires Reads(e.lower) + Reads(e.upper) <= {p.sell.shape} && Reads(e.body.lower) == {} && Reads(e.body.upper) <= {p.sell.cl, first}
    requires Reads(e.body.body.lower) == {} && Reads(e.body.body.upper) <= {p.sell.shape}
    requires {p.sell.shape, p.sell.cl, first} <= Sources(p) + Loops(first, n) && p.sell.shape < p.next && p.sell.cl < p.next
    requires PartShape(p, e.body.body.body, first, n, {})
    ensures PartShape(p, e, first, n, Loops(first, 3))
  {
    hide PartShape, Sources;
    PartLoop(p, e.body.body, first, n, {});
    PartLoop(p, e.body, first, n, {first + 1} + {});
    PartLoop(p, e, first, n, {first + 2} + ({first + 1} + {}));
    assert {first} + ({first + 2} + ({first + 1} + {})) == Loops(first, 3);
  }

  lemma {:induction false} NestPart(p: Problem, kind: Kind, first: VarId, k: nat)
    requires WellFormed(p) && p.next <= first && k <= |p.dense|
    ensures PartShape(p, Nest(p, first, kind, k), first, 3 + |p.dense|, Loops(first, 3 + k))
  {
    if k == 0 {
      BlocksPart(p, kind, first);
    } else {
      hide PartShape, Sources, BlockLoops, NewStatement;
      NestPart(p, kind, first, k - 1);
      SearchFindsBound(p.dense[k - 1], p.Statement());
      PartLoop(p, Nest(p, first, kind, k), first, 3 + |p.dense|, Loops(first, 3 + (k - 1)));
      NextLoop(first, 3 + (k - 1));
    }
  }

  // The initialisation.

  predicate InShape(p: nat, t: seq<int>, lhs: seq<VarId>, x: VarId -> nat) {
    |t| == |lhs| && forall q :: p <= q < |lhs| ==> 0 <= t[q] < x(lhs[q])
  }

  predicate Chosen(p: nat, t: seq<int>, first: VarId, mem: Memory) {
    p <= |t| && forall q :: 0 <= q < p ==> Load(mem, Scalar(first + q)) == t[q]
  }

  /** The extents of the assigned tensor. */
  ghost predicate Shape(c: VarId, lhs: seq<VarId>, x: VarId -> nat, mem: Memory) {
    forall k :: 0 <= k < |lhs| ==> Load(mem, Dimension(c, k)) == x(lhs[k])
  }

  lemma {:induction false} UseInRefs(lhs: seq<VarId>, v: VarId)
    requires v in lhs
    ensures DirectUse(v, Refs(lhs)).Some? && DirectUse(v, Refs(lhs)).value < |lhs| && lhs[DirectUse(v, Refs(lhs)).value] == v
  {
    assert Refs(lhs)[1..] == Refs(lhs[1..]);
    if lhs[0] != v {
      assert lhs == [lhs[0]] + lhs[1..];
      UseInRefs(lhs[1..], v);
    }
  }

  lemma InitBound(c: VarId, lhs: seq<VarId>, x: VarId -> nat, mem: Memory, k: nat)
    requires Shape(c, lhs, x, mem) && k < |lhs|
    ensures Reads(Bound(lhs[k], Access(c, Refs(lhs)))) == {} && Eval(Bound(lhs[k], Access(c, Refs(lhs))), mem) == Some(Int(x(lhs[k])))
  {
    UseInRefs(lhs, lhs[k]);
  }

  lemma CoreFinal(c: VarId, n: nat, first: VarId, t: seq<int>, mem: Memory, cur: int)
    ensures Defined(InitCore(c, n, first), mem)
    ensures Final(InitCore(c, n, first), t, mem, cur) == if |t| == n && Chosen(n, t, first, mem) then 0 else cur
  {
    hide Chosen, Values, NewVars, Refs;
    RefsValue(NewVars(first, n), mem);
    NewValues(n, first, t, mem);
  }

  lemma NewValues(n: nat, first: VarId, t: seq<int>, mem: Memory)
    ensures Values(NewVars(first, n), mem) == t <==> |t| == n && Chosen(n, t, first, mem)
  {
    var vs := Values(NewVars(first, n), mem);
    assert |vs| == n && forall q :: 0 <= q < n ==> vs[q] == Load(mem, Scalar(first + q));
  }

  /** The initialisation sets the elements inside the extents to 0. */
  lemma {:induction false} InitFinal(c: VarId, lhs: seq<VarId>, k: nat, first: VarId, t: seq<int>, mem: Memory, x: VarId -> nat, cur: int)
    requires k <= |lhs| && Shape(c, lhs, x, mem)
    ensures Defined(InitLoops(c, lhs, k, first), mem)
    ensures Final(InitLoops(c, lhs, k, first), t, mem, cur) == if InShape(k, t, lhs, x) && Chosen(k, t, first, mem) then 0 else cur
    decreases |lhs| - k, 1, 0
  {
    hide Shape, Bound, InitCore, Chosen, LoopFinal, LoopDefined, Refs, EvalIndices;
    if k == |lhs| {
      assert InitLoops(c, lhs, k, first) == InitCore(c, |lhs|, first);
      CoreFinal(c, k, first, t, mem, cur);
    } else {
      InitBound(c, lhs, x, mem, k);
      InitLoopFinal(c, lhs, k, first, t, mem, x, 0, cur);
    }
  }

  lemma {:induction false} InitLoopFinal(c: VarId, lhs: seq<VarId>, k: nat, first: VarId, t: seq<int>, mem: Memory, x: VarId -> nat, i: nat, cur: int)
    requires k < |lhs| && Shape(c, lhs, x, mem) && i <= x(lhs[k])
    ensures LoopDefined(first + k, i, x(lhs[k]), 1, InitLoops(c, lhs, k + 1, first), mem)
    ensures LoopFinal(first + k, i, x(lhs[k]), 1, InitLoops(c, lhs, k + 1, first), t, mem, cur) ==
            if InShape(k, t, lhs, x) && Chosen(k, t, first, mem) && i <= t[k] then 0 else cur
    decreases |lhs| - k, 0, x(lhs[k]) - i
  {
    hide InitLoops;
    if i < x(lhs[k]) {
      var inner := mem[Scalar(first + k) := i];
      InitFinal(c, lhs, k + 1, first, t, inner, x, cur);
      assert Chosen(k + 1, t, first, inner) && |t| == |lhs| <==> Chosen(k, t, first, mem) && |t| == |lhs| && t[k] == i;
      InitLoopFinal(c, lhs, k, first, t, mem, x, i + 1, Final(InitLoops(c, lhs, k + 1, first), t, inner, cur));
    }
  }

  lemma CorePart(c: VarId, n: nat, first: VarId)
    requires c < first
    ensures var e := InitCore(c, n, first);
            IsTensorCode(e, c) && LoopVars(e) == {} && AllReads(e) <= Loops(first, n)
  {
    hide Refs;
    RefsReads(NewVars(first, n));
  }

  lemma SearchReads(v: VarId, e: Expr)
    ensures Reads(Bound(v, e)) == {}
  {
    SearchFindsBound(v, e);
  }

  lemma {:induction false} InitPart(p: Problem, k: nat, first: VarId)
    requires k <= |p.lhs| && p.c < first
    ensures var e := InitLoops(p.c, p.lhs, k, first);
            IsTensorCode(e, p.c) && LoopVars(e) == Loops(first + k, |p.lhs| - k) && AllReads(e) <= Loops(first, |p.lhs|)
    decreases |p.lhs| - k
  {
    if k == |p.lhs| {
      CorePart(p.c, k, first);
    } else {
      hide Search, InitCore, Bound, Refs;
      InitPart(p, k + 1, first);
      SearchReads(p.lhs[k], Access(p.c, Refs(p.lhs)));
      assert {first + k} + Loops(first + k + 1, |p.lhs| - k - 1) == Loops(first + k, |p.lhs| - k);
    }
  }

  // A complete run.

  function CodeOf(p: Problem): Expr { Lowered(AnalysisOf(p), p.sell, p.next) }

  function FullStart(p: Problem): VarId { p.next + |p.lhs| }

  function RestStart(p: Problem): VarId { FullStart(p) + 4 + |p.dense| }

  function End(p: Problem): VarId { RestStart(p) + 3 + |p.dense| }

  lemma {:induction false} NamesOfRefs(vs: seq<VarId>)
    ensures IndexNames(Refs(vs)) == vs
  {
    if vs != [] {
      NamesOfRefs(vs[1..]);
      assert Refs(vs)[1..] == Refs(vs[1..]);
    }
  }

  lemma CodeParts(p: Problem)
    requires WellFormed(p)
    ensures CodeOf(p) == Compound([InitLoops(p.c, p.lhs, 0, p.next), Nest(p, FullStart(p), Vectorizable, |p.dense|),
                                   Nest(p, RestStart(p), Remainder, |p.dense|)])
  {
    hide InitLoops, Nest, ComputationalPart, WellFormed;
    NamesOfRefs(p.lhs);
    PartIsNest(p, Vectorizable, FullStart(p));
    PartIsNest(p, Remainder, RestStart(p));
  }

  lemma ThreeParts(e: Expr, c: VarId)
    requires e.Compound? && |e.exprs| == 3
    requires forall k :: 0 <= k < 3 ==> IsTensorCode(e.exprs[k], c)
    requires AllReads(e.exprs[0]) !! LoopVars(e.exprs[1]) + LoopVars(e.exprs[2])
    requires AllReads(e.exprs[1]) !! LoopVars(e.exprs[0]) + LoopVars(e.exprs[2])
    requires AllReads(e.exprs[2]) !! LoopVars(e.exprs[0]) + LoopVars(e.exprs[1])
    ensures IsTensorCode(e, c) && LoopVars(e) == LoopVars(e.exprs[0]) + LoopVars(e.exprs[1]) + LoopVars(e.exprs[2])
  {
    hide AllReads;
    assert LoopVars(e) == LoopVars(e.exprs[0]) + LoopVars(e.exprs[1]) + LoopVars(e.exprs[2]);
    forall k | 0 <= k < 3
      ensures AllReads(e.exprs[k]) * LoopVars(e) <= LoopVars(e.exprs[k])
    {
      assert k == 0 || k == 1 || k == 2;
    }
  }

  lemma CodeShapes(p: Problem)
    requires WellFormed(p)
    ensures IsTensorCode(CodeOf(p), p.c)
    ensures forall v :: v in LoopVars(CodeOf(p)) ==> p.next <= v < End(p)
  {
    hide IsTensorCode, LoopVars, AllReads, Nest, InitLoops, Lowered;
    CodeParts(p);
    var e := CodeOf(p);
    FirstApart(p);
    NestApart(p, Vectorizable, FullStart(p));
    NestApart(p, Remainder, RestStart(p));
    ThreeParts(e, p.c);
  }

  /** What the first part reads and writes. */
  lemma FirstApart(p: Problem)
    requires WellFormed(p)
    ensures var e := InitLoops(p.c, p.lhs, 0, p.next);
            IsTensorCode(e, p.c) && LoopVars(e) == Loops(p.next, |p.lhs|) && AllReads(e) <= Loops(p.next, |p.lhs|)
  {
    InitPart(p, 0, p.next);
  }

  lemma NestApart(p: Problem, kind: Kind, first: VarId)
    requires WellFormed(p) && p.next <= first
    ensures var e := Nest(p, first, kind, |p.dense|);
            && IsTensorCode(e, p.c) && LoopVars(e) == Loops(first, 3 + |p.dense|)
            && AllReads(e) <= Loops(0, p.next) + Loops(first, 3 + |p.dense|)
  {
    NestPart(p, kind, first, |p.dense|);
  }

  /** `dense` is `mem` with the sparse tensor stored as a matrix. */
  ghost predicate DenseForm(p: Problem, mem: Memory, dense: Memory) {
    && (forall l: Location :: IsElementOf(l, p.tensor) || Load(dense, l) == Load(mem, l))
    && HoldsMatrix(p, dense, mem)
  }

  lemma AtStart(p: Problem, first: VarId, mem: Memory, dense: Memory)
    requires Given(p, mem) && DenseForm(p, mem, dense) && p.next <= first
    ensures Inside(p, first, |p.dense|, mem, dense, mem)
  {
  }

  /** The dense contraction, in the order in which the loops are nested. */
  function NestSum(p: Problem, t: seq<int>, dense: Memory): int {
    Total(LastFirst(p.dense, |p.dense|) + [p.row, p.column], Contributions(p, t), dense, p.x)
  }

  lemma CodeFinal(p: Problem, t: seq<int>, mem: Memory, dense: Memory, cur: int)
    requires Given(p, mem) && DenseForm(p, mem, dense)
    ensures Defined(CodeOf(p), mem)
    ensures Final(CodeOf(p), t, mem, cur) == (if InShape(0, t, p.lhs, p.x) then 0 else cur) + NestSum(p, t, dense)
  {
    var e, n := CodeOf(p), |p.dense|;
    CodeParts(p);
    InitFinal(p.c, p.lhs, 0, p.next, t, mem, p.x, cur);
    AtStart(p, FullStart(p), mem, dense);
    AtStart(p, RestStart(p), mem, dense);
    hide Given, DenseForm, CodeOf, Nest, InitLoops, Inside, Total, LastFirst;
    NestAdds(p, FullStart(p), Vectorizable, t, n, mem, dense, mem);
    NestAdds(p, RestStart(p), Remainder, t, n, mem, dense, mem);
    NestsTogether(p, t, n, mem, dense) by { StartReference(p, mem, dense); }
    ThreeFinal(e, t, mem, cur);
  }

  lemma StartReference(p: Problem, mem: Memory, dense: Memory)
    requires Given(p, mem) && DenseForm(p, mem, dense)
    ensures Reference(p, |p.dense|, dense, mem)
  {
  }

  lemma ThreeFinal(e: Expr, t: seq<int>, mem: Memory, cur: int)
    requires e.Compound? && |e.exprs| == 3
    ensures Final(e, t, mem, cur) == Final(e.exprs[2], t, mem, Final(e.exprs[1], t, mem, Final(e.exprs[0], t, mem, cur)))
    ensures Defined(e.exprs[0], mem) && Defined(e.exprs[1], mem) && Defined(e.exprs[2], mem) ==> Defined(e, mem)
  {
    assert FinalAll(e, 1, t, mem, cur) == Final(e.exprs[0], t, mem, FinalAll(e, 0, t, mem, cur));
    assert FinalAll(e, 2, t, mem, cur) == Final(e.exprs[1], t, mem, FinalAll(e, 1, t, mem, cur));
    assert FinalAll(e, 3, t, mem, cur) == Final(e.exprs[2], t, mem, FinalAll(e, 2, t, mem, cur));
  }

  lemma {:induction false} LastFirstHolds(vs: seq<VarId>, n: nat)
    requires Distinct(vs) && n <= |vs|
    ensures Distinct(LastFirst(vs, n)) && forall v :: v in LastFirst(vs, n) <==> v in vs[..n]
  {
    if n > 0 {
      LastFirstHolds(vs, n - 1);
      assert vs[..n] == vs[..n - 1] + [vs[n - 1]];
      assert forall k :: 0 <= k < n - 1 ==> vs[k] != vs[n - 1];
      assert vs[n - 1] !in vs[..n - 1];
    }
  }

  /** Any order of the indices gives the same sum. */
  lemma OrderIsFree(p: Problem, t: seq<int>, dense: Memory, order: seq<VarId>)
    requires WellFormed(p) && Distinct(order) && forall v :: v in order <==> v in p.Indices()
    ensures NestSum(p, t, dense) == Total(order, Contributions(p, t), dense, p.x)
  {
    var nested := LastFirst(p.dense, |p.dense|) + [p.row, p.column];
    IndicesDistinct(p);
    LastFirstHolds(p.dense, |p.dense|);
    assert p.dense[..|p.dense|] == p.dense;
    assert Distinct(nested);
    forall v
      ensures v in nested <==> v in order
    {
      assert v in [p.row, p.column] <==> v == p.row || v == p.column;
    }
    TotalPermutes(nested, order, Contributions(p, t), dense, p.x);
  }

  /** Indices in range never address an element outside the extents. */
  lemma {:induction false} NothingOutside(p: Problem, t: seq<int>, vs: seq<VarId>, d: Memory)
    requires WellFormed(p) && !InShape(0, t, p.lhs, p.x) && Distinct(vs)
    requires forall v :: v in p.lhs ==> v in vs || IndexIn(p, d, v)
    ensures Total(vs, Contributions(p, t), d, p.x) == 0
    decreases |vs|
  {
    if vs == [] {
      assert Values(p.lhs, d) != t by {
        if Values(p.lhs, d) == t {
          assert forall q :: 0 <= q < |p.lhs| ==> IndexIn(p, d, p.lhs[q]);
          assert false;
        }
      }
    } else {
      var v := vs[0];
      forall i | 0 <= i < p.x(v)
        ensures Total(vs[1..], Contributions(p, t), With(d, v, i), p.x) == 0
      {
        assert vs == [v] + vs[1..];
        NothingOutside(p, t, vs[1..], With(d, v, i));
      }
      var g := (i: int) => 0;
      assert vs == [v] + vs[1..];
      TotalUnfolds(v, vs[1..], Contributions(p, t), d, p.x, g);
      SumToZero(p.x(v), g);
    }
  }

  /** What a complete run has to leave behind. */
  ghost predicate HoldsContraction(run: Run, p: Problem, order: seq<VarId>, mem: Memory, dense: Memory) {
    && run.outcome.Done?
    && (forall t :: Load(run.outcome.mem, Location(p.c, t)) ==
                    if InBox(p.lhs, t, p.x) then Total(order, Contributions(p, t), dense, p.x) else Load(mem, Location(p.c, t)))
    && (forall l: Location :: !IsElementOf(l, p.c) && !(IsScalarOf(l, {l.base}) && p.next <= l.base < End(p)) ==>
          Load(run.outcome.mem, l) == Load(mem, l))
  }

  lemma ElementsOfContraction(p: Problem, order: seq<VarId>, t: seq<int>, mem: Memory, dense: Memory, cur: int)
    requires Given(p, mem) && DenseForm(p, mem, dense)
    requires Distinct(order) && forall v :: v in order <==> v in p.Indices()
    ensures Defined(CodeOf(p), mem)
    ensures Final(CodeOf(p), t, mem, cur) == if InBox(p.lhs, t, p.x) then Total(order, Contributions(p, t), dense, p.x) else cur
  {
    GivenFacts(p, mem);
    hide Given, DenseForm, Defined, Final, CodeOf, Total;
    CodeFinal(p, t, mem, dense, cur);
    OrderIsFree(p, t, dense, order);
    if !InBox(p.lhs, t, p.x) {
      NothingOutside(p, t, order, dense);
    }
  }

  /** The generated initialisation, vectorizable and remainder parts, run one after the other, leave
      in each element the contraction with the matrix the SELL arrays stand for, for every number of
      rows, and change nothing else but their own variables. */
  lemma ContractionIsComputed(p: Problem, order: seq<VarId>, mem: Memory, dense: Memory, fuel: nat)
    requires Given(p, mem) && DenseForm(p, mem, dense)
    requires Distinct(order) && forall v :: v in order <==> v in p.Indices()
    requires fuel >= FuelFor(CodeOf(p), mem)
    ensures HoldsContraction(Exec(fuel, CodeOf(p), [], mem), p, order, mem, dense)
  {
    var code := CodeOf(p);
    assert IsTensorCode(code, p.c) && forall v :: v in LoopVars(code) ==> p.next <= v < End(p) by {
      GivenFacts(p, mem);
      CodeShapes(p);
    }
    assert Agrees(mem, mem, code);
    hide Given, DenseForm, WellFormed, CodeOf, IsTensorCode, LoopVars, Exec, FuelFor, Final, Total, InBox, Agrees, Computes;
    forall t
      ensures FinalIs(p, order, t, mem, dense, code)
    {
      ElementsOfContraction(p, order, t, mem, dense, Load(mem, Location(p.c, t)));
    }
    assert Defined(code, mem) by { ElementsOfContraction(p, order, [], mem, dense, 0); }
    ExecComputes(fuel, code, p.c, [], mem, mem);
    RunHolds(p, order, mem, dense, code, Exec(fuel, code, [], mem));
  }

  ghost predicate FinalIs(p: Problem, order: seq<VarId>, t: seq<int>, mem: Memory, dense: Memory, code: Expr) {
    Final(code, t, mem, Load(mem, Location(p.c, t))) ==
    if InBox(p.lhs, t, p.x) then Total(order, Contributions(p, t), dense, p.x) else Load(mem, Location(p.c, t))
  }

  lemma RunHolds(p: Problem, order: seq<VarId>, mem: Memory, dense: Memory, code: Expr, run: Run)
    requires Computes(run, code, p.c, mem, mem)
    requires forall t :: FinalIs(p, order, t, mem, dense, code)
    requires forall v :: v in LoopVars(code) ==> p.next <= v < End(p)
    ensures HoldsContraction(run, p, order, mem, dense)
  {
    hide LoopVars, Final, Total, InBox;
    forall t
      ensures Load(run.outcome.mem, Location(p.c, t)) ==
              if InBox(p.lhs, t, p.x) then Total(order, Contributions(p, t), dense, p.x) else Load(mem, Location(p.c, t))
    {
      assert FinalIs(p, order, t, mem, dense, code);
    }
  }
}
