/** Lowering a contraction with one sparse matrix to loops over its SELL storage. */
module SparseLowering {
  import opened Wrappers
  import opened Qir
  import opened Substitution
  import opened SumLowering

  /** The member arrays of a sparse tensor. */
  datatype Sell = Sell(val: VarId, col: VarId, cs: VarId, cl: VarId, shape: VarId)

  datatype Analysis = Analysis(dense: seq<VarId>, sparse: seq<VarId>, tensor: VarId, base: VarId, lhs: seq<Expr>, body: Expr)

  // simple_sparse_pattern_analysis

  function OuterIndices(k: Kernel): seq<VarId> {
    if k.ForAll? then [k.idx] + OuterIndices(k.body) else []
  }

  function Innermost(k: Kernel): Kernel {
    if k.ForAll? then Innermost(k.body) else k
  }

  predicate AllIndices(es: seq<Expr>, known: seq<VarId>) {
    forall k :: 0 <= k < |es| ==> es[k].Access? && es[k].indices == [] && es[k].base in known
  }

  function IndexNames(es: seq<Expr>): (r: seq<VarId>)
    ensures |r| == |es|
  {
    if es == [] then [] else [if es[0].Access? then es[0].base else 0] + IndexNames(es[1..])
  }

  /** Sparse tensors subscripted with indices only, in the order of traversal. */
  function SparseUses(e: Expr, tensors: set<VarId>, known: seq<VarId>): seq<(VarId, seq<VarId>)> {
    match e
    case Access(base, indices) =>
      (if base in tensors && indices != [] && AllIndices(indices, known) then [(base, IndexNames(indices))] else []) +
      SparseUsesAll(indices, tensors, known)
    case Binary(_, a, b) => SparseUses(a, tensors, known) + SparseUses(b, tensors, known)
    case Unary(_, a) => SparseUses(a, tensors, known)
    case Delta(_, a, b) => SparseUses(a, tensors, known) + SparseUses(b, tensors, known)
    case _ => []
  }

  function SparseUsesAll(es: seq<Expr>, tensors: set<VarId>, known: seq<VarId>): seq<(VarId, seq<VarId>)> {
    if es == [] then [] else SparseUses(es[0], tensors, known) + SparseUsesAll(es[1..], tensors, known)
  }

  function Without(vs: seq<VarId>, out: seq<VarId>): (r: seq<VarId>)
    ensures forall v :: v in r <==> v in vs && v !in out
  {
    if vs == [] then []
    else if vs[0] in out then Without(vs[1..], out) else [vs[0]] + Without(vs[1..], out)
  }

  function Analyze(k: Kernel, tensors: set<VarId>): Option<Analysis> {
    var inner := Innermost(k);
    if !inner.Define? || inner.rhs.Plain? then None
    else
      var known := OuterIndices(k) + SumIndices(inner.rhs);
      var uses := SparseUses(SumBody(inner.rhs), tensors, known);
      if |uses| != 1 then None
      else
        Some(Analysis(Without(known, uses[0].1), uses[0].1, uses[0].0, inner.base, inner.indices, SumBody(inner.rhs)))
  }

  // generate_init_part

  function Times(a: Expr, b: Expr): Expr { Binary(Multiplies, a, b) }

  function Over(a: Expr, b: Expr): Expr { Binary(Divides, a, b) }

  function Add(a: Expr, b: Expr): Expr { Binary(Plus, a, b) }

  function LoopOver(idx: VarId, lower: Expr, upper: Expr, increment: int, body: Expr): Expr {
    For(idx, lower, upper, IntLit(increment), body)
  }

  function Bound(i: VarId, e: Expr): Expr {
    if Search(i, e).Some? then Search(i, e).value else IntLit(0)
  }

  /** Variables `first`, `first + 1`, and so on. */
  function NewVars(first: VarId, n: nat): (r: seq<VarId>)
    ensures |r| == n && forall k :: 0 <= k < n ==> r[k] == first + k
  {
    seq(n, k requires 0 <= k => first + k)
  }

  function InitCore(c: VarId, n: nat, first: VarId): Expr {
    Binary(Assign, Access(c, Refs(NewVars(first, n))), IntLit(0))
  }

  /** The loops for index positions `p` and up. */
  function InitLoops(c: VarId, lhs: seq<VarId>, p: nat, first: VarId): Expr
    requires p <= |lhs|
    decreases |lhs| - p
  {
    if p == |lhs| then InitCore(c, |lhs|, first)
    else LoopOver(first + p, IntLit(0), Bound(lhs[p], Access(c, Refs(lhs))), 1, InitLoops(c, lhs, p + 1, first))
  }

  method GenerateInitPart(c: VarId, lhs: seq<VarId>, first: VarId) returns (initLhs: Expr)
    ensures initLhs == InitLoops(c, lhs, 0, first)
  {
    var bounds: seq<Expr> := [];
    for i := 0 to |lhs|
      invariant |bounds| == i
      invariant forall k :: 0 <= k < i ==> bounds[k] == Bound(lhs[k], Access(c, Refs(lhs)))
    {
      bounds := bounds + [Bound(lhs[i], Access(c, Refs(lhs)))];
    }
    initLhs := InitCore(c, |lhs|, first);
    for i := |lhs| downto 0
      invariant initLhs == InitLoops(c, lhs, i, first)
    {
      initLhs := LoopOver(first + i, IntLit(0), bounds[i], 1, initLhs);
    }
  }

  // generate_computational_part

  const BLOCK_WIDTH: nat := 4

  datatype Kind = Vectorizable | Remainder

  function Extent0(s: Sell): Expr { Access(s.shape, [IntLit(0)]) }

  function Rounded(s: Sell): Expr { Times(Over(Extent0(s), IntLit(BLOCK_WIDTH)), IntLit(BLOCK_WIDTH)) }

  /** The loops over the blocks of rows, the entries of a block and its rows; `first`, `first + 1`
      and `first + 2` are the row, the offset within the block, and the position in the row. */
  function BlockLoops(s: Sell, kind: Kind, first: VarId, body: Expr): Expr {
    var i, ii, j := first, first + 1, first + 2;
    var inner := LoopOver(ii, IntLit(0),
                          if kind.Vectorizable? then IntLit(BLOCK_WIDTH)
                          else Binary(Modulus, Extent0(s), IntLit(BLOCK_WIDTH)), 1, body);
    var middle := LoopOver(j, IntLit(0), Access(s.cl, [Over(Ref(i), IntLit(BLOCK_WIDTH))]), 1, inner);
    if kind.Vectorizable? then LoopOver(i, IntLit(0), Rounded(s), BLOCK_WIDTH, middle)
    else LoopOver(i, Rounded(s), Extent0(s), BLOCK_WIDTH, middle)
  }

  /** The loops over the first `n` dense indices around `inner`, the last one outermost. */
  function DenseLoops(dense: seq<VarId>, n: nat, e: Expr, first: VarId, inner: Expr): Expr
    requires n <= |dense|
  {
    if n == 0 then inner
    else LoopOver(first + n - 1, IntLit(0), Bound(dense[n - 1], e), 1, DenseLoops(dense, n - 1, e, first, inner))
  }

  function SparseIndex(s: Sell, first: VarId): Expr {
    var i, ii, j := first, first + 1, first + 2;
    var blockIdx := Over(Add(Times(IntLit(0), IntLit(16)), Ref(i)), IntLit(BLOCK_WIDTH));
    Add(Add(Access(s.cs, [blockIdx]), Times(Ref(j), IntLit(BLOCK_WIDTH))), Ref(ii))
  }

  /** An entry that is already there stays. */
  function Emplace(m: map<VarId, Expr>, v: VarId, e: Expr): map<VarId, Expr> {
    if v in m then m else m[v := e]
  }

  function DenseMap(dense: seq<VarId>, n: nat, first: VarId): (m: map<VarId, Expr>)
    requires n <= |dense|
    ensures forall v :: v in m <==> v in dense[..n]
  {
    if n == 0 then map[]
    else
      assert dense[..n] == dense[..n - 1] + [dense[n - 1]];
      Emplace(DenseMap(dense, n - 1, first), dense[n - 1], Ref(first + n - 1))
  }

  function IndexMap(dense: seq<VarId>, row: VarId, column: VarId, s: Sell, first: VarId): map<VarId, Expr> {
    Emplace(Emplace(DenseMap(dense, |dense|, first + 3), row, Add(Ref(first), Ref(first + 1))),
            column, Access(s.col, [SparseIndex(s, first)]))
  }

  /** Subscriptions of the sparse tensor become `entry`. */
  function ReplaceTensor(e: Expr, tensor: VarId, entry: Expr): Expr {
    match e
    case Access(base, indices) =>
      if base == tensor && indices != [] then entry else Access(base, ReplaceTensorAll(indices, tensor, entry))
    case Binary(op, a, b) => Binary(op, ReplaceTensor(a, tensor, entry), ReplaceTensor(b, tensor, entry))
    case Unary(op, a) => Unary(op, ReplaceTensor(a, tensor, entry))
    case Delta(n, a, b) => Delta(n, ReplaceTensor(a, tensor, entry), ReplaceTensor(b, tensor, entry))
    case _ => e
  }

  function ReplaceTensorAll(es: seq<Expr>, tensor: VarId, entry: Expr): (r: seq<Expr>)
    ensures |r| == |es|
  {
    if es == [] then [] else [ReplaceTensor(es[0], tensor, entry)] + ReplaceTensorAll(es[1..], tensor, entry)
  }

  /** The statement in the middle of the nest. */
  function NewBody(e: Expr, tensor: VarId, dense: seq<VarId>, row: VarId, column: VarId, s: Sell, first: VarId): Expr {
    Subst(ReplaceTensor(e, tensor, Access(s.val, [SparseIndex(s, first)])), IndexMap(dense, row, column, s, first))
  }

  /** `expand_macro` for a macro with one parameter. */
  function ExpandMacro(param: VarId, body: Expr, arg: Expr): Expr { Subst(body, map[param := arg]) }

  function ComputationalPart(e: Expr, a: Analysis, s: Sell, kind: Kind, first: VarId): Expr
    requires |a.sparse| == 2
  {
    var newBody := first + 3 + |a.dense|;
    ExpandMacro(newBody,
                DenseLoops(a.dense, |a.dense|, e, first + 3, BlockLoops(s, kind, first, Ref(newBody))),
                NewBody(e, a.tensor, a.dense, a.sparse[0], a.sparse[1], s, first))
  }

  method GenerateComputationalPart(currentExpr: Expr, a: Analysis, s: Sell, kind: Kind, first: VarId) returns (newCode: Expr)
    requires |a.sparse| == 2
    ensures newCode == ComputationalPart(currentExpr, a, s, kind, first)
  {
    hide Search, BlockLoops, Subst, ReplaceTensor, SparseIndex, Bound;
    var newBody := first + 3 + |a.dense|;
    var skeleton := BlockLoops(s, kind, first, Ref(newBody));
    var indexMap: map<VarId, Expr> := map[];
    for n := 0 to |a.dense|
      invariant skeleton == DenseLoops(a.dense, n, currentExpr, first + 3, BlockLoops(s, kind, first, Ref(newBody)))
      invariant indexMap == DenseMap(a.dense, n, first + 3)
    {
      var idx := first + 3 + n;
      skeleton := LoopOver(idx, IntLit(0), Bound(a.dense[n], currentExpr), 1, skeleton);
      indexMap := Emplace(indexMap, a.dense[n], Ref(idx));
    }
    var sparseIdx := SparseIndex(s, first);
    var current := ReplaceTensor(currentExpr, a.tensor, Access(s.val, [sparseIdx]));
    indexMap := Emplace(indexMap, a.sparse[0], Add(Ref(first), Ref(first + 1)));
    indexMap := Emplace(indexMap, a.sparse[1], Access(s.col, [sparseIdx]));
    newCode := ExpandMacro(newBody, skeleton, Subst(current, indexMap));
  }

  // lower_sparse_contraction

  function Lowered(a: Analysis, s: Sell, next: VarId): Expr
    requires |a.sparse| == 2
  {
    var e := Accumulate(a.base, a.lhs, a.body);
    var first := next + |a.lhs|;
    Compound([InitLoops(a.base, IndexNames(a.lhs), 0, next),
              ComputationalPart(e, a, s, Vectorizable, first),
              ComputationalPart(e, a, s, Remainder, first + 4 + |a.dense|)])
  }

  /** The sparse tensor of the kernel, if there is one, is a matrix. */
  predicate Supported(k: Kernel, sells: map<VarId, Sell>) {
    var a := Analyze(k, sells.Keys);
    a.Some? ==> |a.value.sparse| == 2 && a.value.tensor in sells
  }

  /** Kernels without exactly one sparse tensor under sums stay as they are.  The pass fails if the
      assigned element has other subscripts than indices or the range of a dense index is unknown. */
  function LowerSparseContraction(k: Kernel, sells: map<VarId, Sell>, next: VarId): Option<Kernel>
    requires Supported(k, sells)
  {
    match Analyze(k, sells.Keys)
    case None => Some(k)
    case Some(a) =>
      if AllIndices(a.lhs, a.dense + a.sparse) &&
         (forall d :: d in a.dense ==> Search(d, Accumulate(a.base, a.lhs, a.body)).Some?)
      then Some(Code(Lowered(a, sells[a.tensor], next))) else None
  }
}
