/** From tensor definitions to loops: sums accumulate, other definitions assign. */
module SumLowering {
  import opened Wrappers
  import opened Qir
  import opened QirRun
  import opened TensorCode
  import opened Substitution

  /** A right-hand side with the single-index sums at its top. */
  datatype Rhs = Plain(e: Expr) | SumOf(idx: VarId, body: Rhs)

  datatype Kernel =
    | ForAll(idx: VarId, body: Kernel)
    | Define(base: VarId, indices: seq<Expr>, rhs: Rhs)
    | Tasks(kernels: seq<Kernel>)
    | Code(stmt: Expr)

  // lower_top_level_sums

  function SumIndices(rhs: Rhs): seq<VarId> {
    match rhs
    case Plain(_) => []
    case SumOf(i, r) => [i] + SumIndices(r)
  }

  function SumBody(rhs: Rhs): Expr {
    match rhs
    case Plain(e) => e
    case SumOf(_, r) => SumBody(r)
  }

  function ForAlls(indices: seq<VarId>, body: Kernel): Kernel {
    if indices == [] then body else ForAll(indices[0], ForAlls(indices[1..], body))
  }

  function Overwrite(base: VarId, indices: seq<Expr>, e: Expr): Expr {
    Binary(Assign, Access(base, indices), e)
  }

  function Initialize(base: VarId, indices: seq<Expr>): Expr {
    Overwrite(base, indices, IntLit(0))
  }

  function Accumulate(base: VarId, indices: seq<Expr>, body: Expr): Expr {
    Binary(PlusAssign, Access(base, indices), body)
  }

  function LowerTopLevelSums(k: Kernel): Kernel {
    match k
    case ForAll(i, b) => ForAll(i, LowerTopLevelSums(b))
    case Tasks(ks) => Tasks(LowerAll(ks))
    case Define(base, indices, SumOf(i, r)) =>
      Tasks([Code(Initialize(base, indices)),
             ForAlls(SumIndices(k.rhs), Code(Accumulate(base, indices, SumBody(k.rhs))))])
    case Define(base, indices, Plain(e)) => Code(Overwrite(base, indices, e))
    case Code(_) => k
  }

  function LowerAll(ks: seq<Kernel>): seq<Kernel> {
    if ks == [] then [] else [LowerTopLevelSums(ks[0])] + LowerAll(ks[1..])
  }

  /** `remove_top_level_sums`: strips the sums and appends their indices to the list so far. */
  method RemoveTopLevelSums(rhs: Rhs, found: seq<VarId>) returns (body: Expr, sumIndices: seq<VarId>)
    ensures body == SumBody(rhs) && sumIndices == found + SumIndices(rhs)
    decreases rhs
  {
    match rhs
    case Plain(e) => body, sumIndices := e, found;
    case SumOf(i, r) => body, sumIndices := RemoveTopLevelSums(r, found + [i]);
  }

  /** The case of a definition by a sum: the loops are wrapped around from the last index. */
  method LowerDefinition(base: VarId, indices: seq<Expr>, rhs: Rhs) returns (k: Kernel)
    requires rhs.SumOf?
    ensures k == LowerTopLevelSums(Define(base, indices, rhs))
  {
    var newRhs, sumIndices := RemoveTopLevelSums(rhs, []);
    var newExpr := Code(Accumulate(base, indices, newRhs));
    for n := |sumIndices| downto 0
      invariant newExpr == ForAlls(sumIndices[n..], Code(Accumulate(base, indices, newRhs)))
    {
      newExpr := ForAll(sumIndices[n], newExpr);
      assert sumIndices[n..][1..] == sumIndices[n + 1..];
    }
    assert sumIndices[0..] == sumIndices;
    k := Tasks([Code(Initialize(base, indices)), newExpr]);
  }

  // deduce_iteration_space

  function DirectUse(i: VarId, indices: seq<Expr>): Option<nat> {
    if indices == [] then None
    else if indices[0] == Ref(i) then Some(0)
    else
      match DirectUse(i, indices[1..])
      case Some(p) => Some(p + 1)
      case None => None
  }

  /** Upper bound of index `i`, from the first subscript or delta that uses it. */
  function Search(i: VarId, e: Expr): Option<Expr> {
    match e
    case Access(base, indices) =>
      (match DirectUse(i, indices)
       case Some(p) => Some(Extent(base, p))
       case None => SearchAll(i, indices))
    case Delta(n, a, b) =>
      if a == Ref(i) || b == Ref(i) then Some(IntLit(n))
      else if Search(i, a).Some? then Search(i, a) else Search(i, b)
    case Binary(_, a, b) => if Search(i, a).Some? then Search(i, a) else Search(i, b)
    case Unary(_, a) => Search(i, a)
    case For(_, a, b, c, d) =>
      if Search(i, a).Some? then Search(i, a)
      else if Search(i, b).Some? then Search(i, b)
      else if Search(i, c).Some? then Search(i, c) else Search(i, d)
    case Compound(es) => SearchAll(i, es)
    case If(a, b, c) =>
      if Search(i, a).Some? then Search(i, a)
      else if Search(i, b).Some? then Search(i, b)
      else if c.Some? then Search(i, c.value) else None
    case _ => None
  }

  function SearchAll(i: VarId, es: seq<Expr>): Option<Expr> {
    if es == [] then None
    else if Search(i, es[0]).Some? then Search(i, es[0]) else SearchAll(i, es[1..])
  }

  function Deduce(i: VarId, k: Kernel): Option<Expr> {
    match k
    case ForAll(_, b) => Deduce(i, b)
    case Tasks(ks) => DeduceAll(i, ks)
    case Define(_, _, _) => None
    case Code(e) => Search(i, e)
  }

  function DeduceAll(i: VarId, ks: seq<Kernel>): Option<Expr> {
    if ks == [] then None
    else if Deduce(i, ks[0]).Some? then Deduce(i, ks[0]) else DeduceAll(i, ks[1..])
  }

  // lower_abstract_indices

  function KernelSize(k: Kernel): nat {
    match k
    case ForAll(_, b) => 1 + KernelSize(b)
    case Tasks(ks) => 1 + KernelSizes(ks)
    case _ => 1
  }

  function KernelSizes(ks: seq<Kernel>): nat {
    if ks == [] then 0 else 1 + KernelSize(ks[0]) + KernelSizes(ks[1..])
  }

  function RenameKernel(k: Kernel, i: VarId, n: VarId): (r: Kernel)
    ensures KernelSize(r) == KernelSize(k)
  {
    match k
    case ForAll(j, b) => ForAll(j, RenameKernel(b, i, n))
    case Tasks(ks) => Tasks(RenameKernels(ks, i, n))
    case Define(_, _, _) => k
    case Code(e) => Code(Rename(e, i, n))
  }

  function RenameKernels(ks: seq<Kernel>, i: VarId, n: VarId): (r: seq<Kernel>)
    ensures KernelSizes(r) == KernelSizes(ks) && |r| == |ks|
  {
    if ks == [] then [] else [RenameKernel(ks[0], i, n)] + RenameKernels(ks[1..], i, n)
  }

  /** Code and the next unused variable, or failure if some range cannot be deduced. */
  function LowerIndices(k: Kernel, next: VarId): Option<(Expr, VarId)>
    decreases KernelSize(k)
  {
    match k
    case ForAll(i, b) =>
      (match Deduce(i, b)
       case None => None
       case Some(bound) =>
         match LowerIndices(RenameKernel(b, i, next), next + 1)
         case None => None
         case Some((body, next')) => Some((For(next, IntLit(0), bound, IntLit(1), body), next')))
    case Tasks(ks) =>
      (match LowerIndicesAll(ks, next)
       case None => None
       case Some((es, next')) => Some((Compound(es), next')))
    case Define(_, _, _) => None
    case Code(e) => Some((e, next))
  }

  function LowerIndicesAll(ks: seq<Kernel>, next: VarId): Option<(seq<Expr>, VarId)>
    decreases KernelSizes(ks)
  {
    if ks == [] then Some(([], next))
    else
      match LowerIndices(ks[0], next)
      case None => None
      case Some((e, next')) =>
        match LowerIndicesAll(ks[1..], next')
        case None => None
        case Some((es, next'')) => Some(([e] + es, next''))
  }

  // What the definition means.

  /** Sum of `b` over all values of `js`, the index `j` ranging below `x(j)`. */
  function SumValue(js: seq<VarId>, b: Expr, mem: Memory, x: VarId -> nat): int
    decreases |js| + 1, 0
  {
    if js == [] then IntOf(Eval(b, mem)) else SumRange(js[0], x(js[0]), js[1..], b, mem, x)
  }

  function SumRange(j: VarId, n: nat, rest: seq<VarId>, b: Expr, mem: Memory, x: VarId -> nat): int
    decreases |rest| + 1, n + 1
  {
    if n == 0 then 0
    else SumRange(j, n - 1, rest, b, mem, x) + SumValue(rest, b, mem[Scalar(j) := n - 1], x)
  }

  /** The summand has an integer value wherever the sum needs one. */
  ghost predicate SumDefined(js: seq<VarId>, b: Expr, mem: Memory, x: VarId -> nat)
    decreases |js|
  {
    if js == [] then IsInt(Eval(b, mem))
    else forall v :: 0 <= v < x(js[0]) ==> SumDefined(js[1..], b, With(mem, js[0], v), x)
  }

  predicate Distinct(vs: seq<VarId>) {
    forall p, q :: 0 <= p < q < |vs| ==> vs[p] != vs[q]
  }

  /** The range found for `j` in `b` is its extent. */
  predicate RangeFits(j: VarId, b: Expr, mem: Memory, x: VarId -> nat) {
    match Search(j, b)
    case Some(Extent(a, p)) => Load(mem, Dimension(a, p)) == x(j)
    case Some(IntLit(n)) => n == x(j)
    case _ => false
  }

  lemma {:induction false} SearchFindsBound(i: VarId, e: Expr)
    ensures Search(i, e).Some? ==> Search(i, e).value.Extent? || (Search(i, e).value.IntLit? && Search(i, e).value.value >= 0)
    decreases e
  {
    match e
    case Access(_, indices) => SearchAllFindsBound(i, indices);
    case Delta(_, a, b) => SearchFindsBound(i, a); SearchFindsBound(i, b);
    case Binary(_, a, b) => SearchFindsBound(i, a); SearchFindsBound(i, b);
    case Unary(_, a) => SearchFindsBound(i, a);
    case For(_, a, b, c, d) =>
      SearchFindsBound(i, a); SearchFindsBound(i, b); SearchFindsBound(i, c); SearchFindsBound(i, d);
    case Compound(es) => SearchAllFindsBound(i, es);
    case If(a, b, c) =>
      SearchFindsBound(i, a); SearchFindsBound(i, b);
      if c.Some? { SearchFindsBound(i, c.value); }
    case _ =>
  }

  lemma {:induction false} SearchAllFindsBound(i: VarId, es: seq<Expr>)
    ensures SearchAll(i, es).Some? ==>
              SearchAll(i, es).value.Extent? || (SearchAll(i, es).value.IntLit? && SearchAll(i, es).value.value >= 0)
    decreases es
  {
    if es != [] {
      SearchFindsBound(i, es[0]);
      SearchAllFindsBound(i, es[1..]);
    }
  }

  lemma {:induction false} SearchAbsent(i: VarId, e: Expr)
    requires Pure(e) && i !in Reads(e)
    ensures Search(i, e) == None
    decreases e
  {
    match e
    case Access(_, indices) => SearchAllAbsent(i, indices);
    case Delta(_, a, b) => SearchAbsent(i, a); SearchAbsent(i, b);
    case Binary(_, a, b) => SearchAbsent(i, a); SearchAbsent(i, b);
    case Unary(_, a) => SearchAbsent(i, a);
    case _ =>
  }

  lemma {:induction false} SearchAllAbsent(i: VarId, es: seq<Expr>)
    requires (forall k :: 0 <= k < |es| ==> Pure(es[k])) && i !in ReadsAll(es)
    ensures SearchAll(i, es) == None && DirectUse(i, es) == None
    decreases es
  {
    if es != [] {
      SearchAbsent(i, es[0]);
      SearchAllAbsent(i, es[1..]);
    }
  }

  /** Renaming one index leaves the ranges of the others. */
  lemma {:induction false} SearchRenamed(j: VarId, e: Expr, i: VarId, n: VarId)
    requires Pure(e) && j != i && j != n
    ensures Search(j, Rename(e, i, n)) == Search(j, e)
    decreases e
  {
    match e
    case Access(base, indices) =>
      SearchAllRenamed(j, indices, i, n);
      assert SearchAll(j, []) == None && DirectUse(j, []) == None;
    case Delta(_, a, b) => SearchRenamed(j, a, i, n); SearchRenamed(j, b, i, n);
      assert (Rename(a, i, n) == Ref(j) <==> a == Ref(j)) && (Rename(b, i, n) == Ref(j) <==> b == Ref(j));
    case Binary(_, a, b) => SearchRenamed(j, a, i, n); SearchRenamed(j, b, i, n);
    case Unary(_, a) => SearchRenamed(j, a, i, n);
    case _ =>
  }

  lemma {:induction false} SearchAllRenamed(j: VarId, es: seq<Expr>, i: VarId, n: VarId)
    requires (forall k :: 0 <= k < |es| ==> Pure(es[k])) && j != i && j != n
    ensures SearchAll(j, RenameAll(es, i, n)) == SearchAll(j, es)
    ensures DirectUse(j, RenameAll(es, i, n)) == DirectUse(j, es)
    decreases es
  {
    if es != [] {
      SearchRenamed(j, es[0], i, n);
      SearchAllRenamed(j, es[1..], i, n);
      assert RenameAll(es, i, n)[1..] == RenameAll(es[1..], i, n);
      assert Rename(es[0], i, n) == Ref(j) <==> es[0] == Ref(j);
    }
  }

  // The loops over the summation indices.

  /** Setting `n` in place of `i` makes no difference after renaming. */
  lemma {:induction false} SumRenamed(js: seq<VarId>, b: Expr, i: VarId, n: VarId, mem: Memory, v: int, x: VarId -> nat)
    requires Pure(b) && i !in js && n !in js && n !in Reads(b)
    ensures SumValue(js, Rename(b, i, n), mem[Scalar(n) := v], x) == SumValue(js, b, mem[Scalar(i) := v], x)
    ensures SumDefined(js, Rename(b, i, n), mem[Scalar(n) := v], x) <==> SumDefined(js, b, mem[Scalar(i) := v], x)
    decreases |js| + 1, 0
  {
    if js == [] {
      EvalRename(b, i, n, mem[Scalar(n) := v]);
      EvalSame(b, mem[Scalar(n) := v][Scalar(i) := v], mem[Scalar(i) := v]);
    } else {
      SumRangeRenamed(js[0], x(js[0]), js[1..], b, i, n, mem, v, x);
      assert With(mem, n, v) == mem[Scalar(n) := v] && With(mem, i, v) == mem[Scalar(i) := v];
      forall w | 0 <= w < x(js[0])
        ensures SumDefined(js[1..], Rename(b, i, n), With(With(mem, n, v), js[0], w), x) <==>
                SumDefined(js[1..], b, With(With(mem, i, v), js[0], w), x)
      {
        SumRenamed(js[1..], b, i, n, mem[Scalar(js[0]) := w], v, x);
        Reorder(mem, n, v, js[0], w);
        Reorder(mem, i, v, js[0], w);
      }
    }
  }

  lemma Reorder(mem: Memory, a: VarId, v: int, b: VarId, w: int)
    requires a != b
    ensures mem[Scalar(a) := v][Scalar(b) := w] == mem[Scalar(b) := w][Scalar(a) := v]
  {
  }

  lemma {:induction false} SumRangeRenamed(j: VarId, k: nat, rest: seq<VarId>, b: Expr, i: VarId, n: VarId, mem: Memory, v: int, x: VarId -> nat)
    requires Pure(b) && i != j && i !in rest && n != j && n !in rest && n !in Reads(b)
    ensures SumRange(j, k, rest, Rename(b, i, n), mem[Scalar(n) := v], x) == SumRange(j, k, rest, b, mem[Scalar(i) := v], x)
    decreases |rest| + 1, k + 1
  {
    if k > 0 {
      SumRangeRenamed(j, k - 1, rest, b, i, n, mem, v, x);
      SumRenamed(rest, b, i, n, mem[Scalar(j) := k - 1], v, x);
      Reorder(mem, n, v, j, k - 1);
      Reorder(mem, i, v, j, k - 1);
    }
  }

  /** The nest that the summation indices are lowered to. */
  function InnerCode(js: seq<VarId>, c: VarId, ix: seq<Expr>, b: Expr, next: VarId): Expr {
    if js == [] then Accumulate(c, ix, b)
    else
      For(next, IntLit(0), if Search(js[0], b).Some? then Search(js[0], b).value else IntLit(0), IntLit(1),
          InnerCode(js[1..], c, ix, Rename(b, js[0], next), next + 1))
  }

  /** The setting: `next` and later variables are unused, the tensor is not read, and the indices
      `js` are new. */
  ghost predicate Setting(js: seq<VarId>, c: VarId, ix: seq<Expr>, b: Expr, next: VarId) {
    && Pure(b) && (forall k :: 0 <= k < |ix| ==> Pure(ix[k]))
    && Distinct(js) && c !in js && c !in Reads(b) && c !in ReadsAll(ix) && c < next
    && (forall j :: j in js ==> j < next && j !in ReadsAll(ix))
    && (forall v :: v in Reads(b) || v in ReadsAll(ix) ==> v < next)
  }

  lemma NextSetting(js: seq<VarId>, c: VarId, ix: seq<Expr>, b: Expr, next: VarId)
    requires Setting(js, c, ix, b, next) && js != []
    ensures Setting(js[1..], c, ix, Rename(b, js[0], next), next + 1)
    ensures js[0] !in js[1..] && next !in js && next !in Reads(b)
    ensures forall j :: j in js[1..] ==> Search(j, Rename(b, js[0], next)) == Search(j, b)
  {
    RenameReads(b, js[0], next);
    forall j | j in js[1..]
      ensures j in js && j < next && j !in ReadsAll(ix)
    {
    }
    forall j | j in js[1..]
      ensures Search(j, Rename(b, js[0], next)) == Search(j, b)
    {
      SearchRenamed(j, b, js[0], next);
    }
  }

  lemma NextFits(js: seq<VarId>, c: VarId, ix: seq<Expr>, b: Expr, next: VarId, mem: Memory, i: int, x: VarId -> nat)
    requires Setting(js, c, ix, b, next) && js != [] && forall j :: j in js ==> RangeFits(j, b, mem, x)
    ensures forall j :: j in js[1..] ==> RangeFits(j, Rename(b, js[0], next), mem[Scalar(next) := i], x)
  {
    NextSetting(js, c, ix, b, next);
    forall j | j in js[1..]
      ensures RangeFits(j, Rename(b, js[0], next), mem[Scalar(next) := i], x)
    {
      assert j in js && RangeFits(j, b, mem, x);
    }
  }

  lemma {:induction false} RenameForAlls(js: seq<VarId>, e: Expr, i: VarId, n: VarId)
    ensures RenameKernel(ForAlls(js, Code(e)), i, n) == ForAlls(js, Code(Rename(e, i, n)))
  {
    if js != [] {
      RenameForAlls(js[1..], e, i, n);
    }
  }

  lemma {:induction false} DeduceForAlls(i: VarId, js: seq<VarId>, k: Kernel)
    ensures Deduce(i, ForAlls(js, k)) == Deduce(i, k)
  {
    if js != [] {
      DeduceForAlls(i, js[1..], k);
    }
  }

  lemma {:induction false} LowersToInnerCode(js: seq<VarId>, c: VarId, ix: seq<Expr>, b: Expr, next: VarId)
    requires Setting(js, c, ix, b, next)
    requires forall j :: j in js ==> Search(j, b).Some?
    ensures LowerIndices(ForAlls(js, Code(Accumulate(c, ix, b))), next) == Some((InnerCode(js, c, ix, b, next), next + |js|))
    decreases |js|
  {
    if js != [] {
      var j, rest := js[0], js[1..];
      NextSetting(js, c, ix, b, next);
      DeduceForAlls(j, rest, Code(Accumulate(c, ix, b)));
      SearchAllAbsent(j, ix);
      assert Search(j, Access(c, ix)) == None;
      assert Deduce(j, ForAlls(rest, Code(Accumulate(c, ix, b)))) == Search(j, b);
      RenameForAlls(rest, Accumulate(c, ix, b), j, next);
      RenameAllAbsent(ix, j, next);
      assert Rename(Access(c, ix), j, next) == Access(c, RenameAll(ix, j, next));
      assert Rename(Accumulate(c, ix, b), j, next) == Accumulate(c, ix, Rename(b, j, next));
      LowersToInnerCode(rest, c, ix, Rename(b, j, next), next + 1);
    }
  }

  ghost predicate FreshFrom(vs: set<VarId>, a: VarId, b: VarId) {
    forall v :: v in vs ==> a <= v < b
  }

  lemma {:induction false} InnerIsTensorCode(js: seq<VarId>, c: VarId, ix: seq<Expr>, b: Expr, next: VarId)
    requires Setting(js, c, ix, b, next)
    ensures var code := InnerCode(js, c, ix, b, next);
            && IsTensorCode(code, c)
            && FreshFrom(LoopVars(code), next, next + |js|)
            && (forall v :: v in AllReads(code) ==> v < next || v in LoopVars(code))
    decreases |js|
  {
    if js != [] {
      NextSetting(js, c, ix, b, next);
      SearchFindsBound(js[0], b);
      InnerIsTensorCode(js[1..], c, ix, Rename(b, js[0], next), next + 1);
    }
  }

  lemma {:induction false} InnerDefined(js: seq<VarId>, c: VarId, ix: seq<Expr>, b: Expr, next: VarId, mem: Memory, x: VarId -> nat)
    requires Setting(js, c, ix, b, next) && EvalIndices(ix, mem).Some?
    requires (forall j :: j in js ==> RangeFits(j, b, mem, x)) && SumDefined(js, b, mem, x)
    ensures Defined(InnerCode(js, c, ix, b, next), mem)
    decreases |js| + 1, 0
  {
    if js != [] {
      NextSetting(js, c, ix, b, next);
      assert RangeFits(js[0], b, mem, x);
      InnerLoopDefined(js, c, ix, b, next, mem, 0, x);
    }
  }

  lemma {:induction false} InnerLoopDefined(js: seq<VarId>, c: VarId, ix: seq<Expr>, b: Expr, next: VarId, mem: Memory, i: nat, x: VarId -> nat)
    requires js != [] && Setting(js, c, ix, b, next) && EvalIndices(ix, mem).Some?
    requires (forall j :: j in js ==> RangeFits(j, b, mem, x)) && SumDefined(js, b, mem, x)
    ensures LoopDefined(next, i, x(js[0]), 1, InnerCode(js[1..], c, ix, Rename(b, js[0], next), next + 1), mem)
    decreases |js|, x(js[0]) - i
  {
    if i < x(js[0]) {
      NextSetting(js, c, ix, b, next);
      EvalIndicesSame(ix, mem, mem[Scalar(next) := i]);
      SumRenamed(js[1..], b, js[0], next, mem, i, x);
      NextFits(js, c, ix, b, next, mem, i, x);
      assert SumDefined(js[1..], b, With(mem, js[0], i), x);
      InnerDefined(js[1..], c, ix, Rename(b, js[0], next), next + 1, mem[Scalar(next) := i], x);
      InnerLoopDefined(js, c, ix, b, next, mem, i + 1, x);
    }
  }

  /** The nest adds the sum to the one element it addresses. */
  lemma {:induction false} InnerFinal(js: seq<VarId>, c: VarId, ix: seq<Expr>, b: Expr, next: VarId, mem: Memory, x: VarId -> nat, t: seq<int>, cur: int)
    requires Setting(js, c, ix, b, next)
    requires forall j :: j in js ==> RangeFits(j, b, mem, x)
    ensures Final(InnerCode(js, c, ix, b, next), t, mem, cur) ==
            cur + (if EvalIndices(ix, mem) == Some(t) then SumValue(js, b, mem, x) else 0)
    decreases |js| + 1, 0
  {
    if js != [] {
      NextSetting(js, c, ix, b, next);
      assert RangeFits(js[0], b, mem, x);
      InnerLoopFinal(js, c, ix, b, next, mem, 0, x, t, cur);
    }
  }

  lemma {:induction false} InnerLoopFinal(js: seq<VarId>, c: VarId, ix: seq<Expr>, b: Expr, next: VarId, mem: Memory, i: nat, x: VarId -> nat, t: seq<int>, cur: int)
    requires js != [] && Setting(js, c, ix, b, next) && i <= x(js[0])
    requires forall j :: j in js ==> RangeFits(j, b, mem, x)
    ensures LoopFinal(next, i, x(js[0]), 1, InnerCode(js[1..], c, ix, Rename(b, js[0], next), next + 1), t, mem, cur) ==
            cur + (if EvalIndices(ix, mem) == Some(t)
                   then SumRange(js[0], x(js[0]), js[1..], b, mem, x) - SumRange(js[0], i, js[1..], b, mem, x) else 0)
    decreases |js|, x(js[0]) - i
  {
    if i < x(js[0]) {
      NextSetting(js, c, ix, b, next);
      var inner := InnerCode(js[1..], c, ix, Rename(b, js[0], next), next + 1);
      EvalIndicesSame(ix, mem, mem[Scalar(next) := i]);
      SumRenamed(js[1..], b, js[0], next, mem, i, x);
      NextFits(js, c, ix, b, next, mem, i, x);
      InnerFinal(js[1..], c, ix, Rename(b, js[0], next), next + 1, mem[Scalar(next) := i], x, t, cur);
      InnerLoopFinal(js, c, ix, b, next, mem, i + 1, x, t, Final(inner, t, mem[Scalar(next) := i], cur));
    }
  }

  // The loops over the free indices.

  /** The nest of the whole definition; `fs` are the free indices still to be lowered. */
  function OuterCode(fs: seq<VarId>, js: seq<VarId>, c: VarId, ix: seq<Expr>, b: Expr, next: VarId): Expr {
    if fs == [] then
      if js == [] then Overwrite(c, ix, b) else Compound([Initialize(c, ix), InnerCode(js, c, ix, b, next)])
    else
      For(next, IntLit(0), Extent(c, if DirectUse(fs[0], ix).Some? then DirectUse(fs[0], ix).value else 0), IntLit(1),
          OuterCode(fs[1..], js, c, RenameAll(ix, fs[0], next), Rename(b, fs[0], next), next + 1))
  }

  /** Value of element `t` after the assignments for all values of `fs` were made in order. */
  function OuterValue(fs: seq<VarId>, js: seq<VarId>, ix: seq<Expr>, b: Expr, mem: Memory, x: VarId -> nat, t: seq<int>, cur: int): int
    decreases |fs| + 1, 0
  {
    if fs == [] then (if EvalIndices(ix, mem) == Some(t) then SumValue(js, b, mem, x) else cur)
    else OuterRange(fs[0], x(fs[0]), fs[1..], js, ix, b, mem, x, t, cur)
  }

  function OuterRange(f: VarId, n: nat, rest: seq<VarId>, js: seq<VarId>, ix: seq<Expr>, b: Expr, mem: Memory, x: VarId -> nat, t: seq<int>, cur: int): int
    decreases |rest| + 1, n + 1
  {
    if n == 0 then cur
    else OuterValue(rest, js, ix, b, mem[Scalar(f) := n - 1], x, t, OuterRange(f, n - 1, rest, js, ix, b, mem, x, t, cur))
  }

  ghost predicate OuterDefined(fs: seq<VarId>, js: seq<VarId>, ix: seq<Expr>, b: Expr, mem: Memory, x: VarId -> nat)
    decreases |fs|
  {
    if fs == [] then EvalIndices(ix, mem).Some? && SumDefined(js, b, mem, x)
    else forall v :: 0 <= v < x(fs[0]) ==> OuterDefined(fs[1..], js, ix, b, With(mem, fs[0], v), x)
  }

  ghost predicate OuterSetting(fs: seq<VarId>, js: seq<VarId>, c: VarId, ix: seq<Expr>, b: Expr, next: VarId) {
    && Setting(js, c, ix, b, next)
    && Distinct(fs) && c !in fs
    && (forall f :: f in fs ==> f < next && f !in js && DirectUse(f, ix).Some?)
  }

  /** The extents stored with the tensor are those of the indices it is defined by. */
  ghost predicate Shaped(fs: seq<VarId>, c: VarId, ix: seq<Expr>, mem: Memory, x: VarId -> nat) {
    forall f :: f in fs && DirectUse(f, ix).Some? ==> Load(mem, Dimension(c, DirectUse(f, ix).value)) == x(f)
  }

  lemma NextOuterSetting(fs: seq<VarId>, js: seq<VarId>, c: VarId, ix: seq<Expr>, b: Expr, next: VarId)
    requires OuterSetting(fs, js, c, ix, b, next) && fs != []
    ensures OuterSetting(fs[1..], js, c, RenameAll(ix, fs[0], next), Rename(b, fs[0], next), next + 1)
    ensures fs[0] !in fs[1..] && fs[0] !in js && next !in fs && next !in js && next !in Reads(b) && next !in ReadsAll(ix)
    ensures forall f :: f in fs[1..] ==> DirectUse(f, RenameAll(ix, fs[0], next)) == DirectUse(f, ix)
    ensures forall j :: j in js ==> Search(j, Rename(b, fs[0], next)) == Search(j, b)
  {
    RenameReads(b, fs[0], next);
    RenameAllReads(ix, fs[0], next);
    forall f | f in fs[1..]
      ensures DirectUse(f, RenameAll(ix, fs[0], next)) == DirectUse(f, ix)
    {
      SearchAllRenamed(f, ix, fs[0], next);
    }
    forall j | j in js
      ensures Search(j, Rename(b, fs[0], next)) == Search(j, b)
    {
      SearchRenamed(j, b, fs[0], next);
    }
  }

  function Definition(js: seq<VarId>, c: VarId, ix: seq<Expr>, b: Expr): Kernel {
    if js == [] then Code(Overwrite(c, ix, b))
    else Tasks([Code(Initialize(c, ix)), ForAlls(js, Code(Accumulate(c, ix, b)))])
  }

  lemma {:induction false} RenameDefinition(fs: seq<VarId>, js: seq<VarId>, c: VarId, ix: seq<Expr>, b: Expr, i: VarId, n: VarId)
    requires c != i
    ensures RenameKernel(ForAlls(fs, Definition(js, c, ix, b)), i, n) ==
            ForAlls(fs, Definition(js, c, RenameAll(ix, i, n), Rename(b, i, n)))
  {
    if fs != [] {
      RenameDefinition(fs[1..], js, c, ix, b, i, n);
    } else if js == [] {
      assert Rename(Access(c, ix), i, n) == Access(c, RenameAll(ix, i, n));
      assert Rename(Overwrite(c, ix, b), i, n) == Overwrite(c, RenameAll(ix, i, n), Rename(b, i, n));
    } else {
      assert Rename(Access(c, ix), i, n) == Access(c, RenameAll(ix, i, n));
      assert Rename(IntLit(0), i, n) == IntLit(0);
      assert Rename(Initialize(c, ix), i, n) == Initialize(c, RenameAll(ix, i, n));
      assert Rename(Accumulate(c, ix, b), i, n) == Accumulate(c, RenameAll(ix, i, n), Rename(b, i, n));
      RenameForAlls(js, Accumulate(c, ix, b), i, n);
      var ks := [Code(Initialize(c, ix)), ForAlls(js, Code(Accumulate(c, ix, b)))];
      assert ks[1..] == [ks[1]] && ks[1..][1..] == [];
      assert RenameKernels(ks, i, n) == [RenameKernel(ks[0], i, n)] + ([RenameKernel(ks[1], i, n)] + RenameKernels([], i, n));
    }
  }

  lemma DeduceDefinition(f: VarId, fs: seq<VarId>, js: seq<VarId>, c: VarId, ix: seq<Expr>, b: Expr)
    requires DirectUse(f, ix).Some?
    ensures Deduce(f, ForAlls(fs, Definition(js, c, ix, b))) == Some(Extent(c, DirectUse(f, ix).value))
  {
    DeduceForAlls(f, fs, Definition(js, c, ix, b));
    assert Search(f, Access(c, ix)) == Some(Extent(c, DirectUse(f, ix).value));
    assert Search(f, Overwrite(c, ix, b)) == Some(Extent(c, DirectUse(f, ix).value));
    if js != [] {
      assert Search(f, Initialize(c, ix)) == Some(Extent(c, DirectUse(f, ix).value));
      assert Deduce(f, Definition(js, c, ix, b).kernels[0]) == Some(Extent(c, DirectUse(f, ix).value));
    }
  }

  lemma LowersPair(js: seq<VarId>, c: VarId, ix: seq<Expr>, b: Expr, next: VarId)
    requires Setting(js, c, ix, b, next) && forall j :: j in js ==> Search(j, b).Some?
    ensures LowerIndices(Definition(js, c, ix, b), next) == Some((OuterCode([], js, c, ix, b, next), next + |js|))
  {
    if js == [] {
      return;
    }
    LowersToInnerCode(js, c, ix, b, next);
    var ks := Definition(js, c, ix, b).kernels;
    assert ks[1..] == [ks[1]] && ks[1..][1..] == [];
    assert LowerIndicesAll([], next + |js|) == Some(([], next + |js|));
    assert [InnerCode(js, c, ix, b, next)] + [] == [InnerCode(js, c, ix, b, next)];
    assert LowerIndicesAll(ks[1..], next) == Some(([InnerCode(js, c, ix, b, next)], next + |js|));
    assert LowerIndices(ks[0], next) == Some((Initialize(c, ix), next));
    var es := [Initialize(c, ix)] + [InnerCode(js, c, ix, b, next)];
    assert LowerIndicesAll(ks, next) == Some((es, next + |js|));
    assert es == [Initialize(c, ix), InnerCode(js, c, ix, b, next)];
  }

  lemma {:induction false} LowersToOuterCode(fs: seq<VarId>, js: seq<VarId>, c: VarId, ix: seq<Expr>, b: Expr, next: VarId)
    requires OuterSetting(fs, js, c, ix, b, next)
    requires forall j :: j in js ==> Search(j, b).Some?
    ensures LowerIndices(ForAlls(fs, Definition(js, c, ix, b)), next) ==
            Some((OuterCode(fs, js, c, ix, b, next), next + |fs| + |js|))
    decreases |fs|, 1
  {
    if fs == [] {
      LowersPair(js, c, ix, b, next);
    } else {
      LowersRest(fs, js, c, ix, b, next);
      LowersForAll(fs, js, c, ix, b, next);
    }
  }

  lemma {:induction false} LowersRest(fs: seq<VarId>, js: seq<VarId>, c: VarId, ix: seq<Expr>, b: Expr, next: VarId)
    requires OuterSetting(fs, js, c, ix, b, next) && fs != []
    requires forall j :: j in js ==> Search(j, b).Some?
    ensures var ix', b' := RenameAll(ix, fs[0], next), Rename(b, fs[0], next);
            LowerIndices(ForAlls(fs[1..], Definition(js, c, ix', b')), next + 1) ==
            Some((OuterCode(fs[1..], js, c, ix', b', next + 1), next + |fs| + |js|))
    decreases |fs|, 0
  {
    hide LowerIndices, ForAlls, Definition, OuterCode, Search, Rename, RenameAll, DirectUse, Reads, ReadsAll;
    NextOuterSetting(fs, js, c, ix, b, next);
    hide OuterSetting;
    LowersToOuterCode(fs[1..], js, c, RenameAll(ix, fs[0], next), Rename(b, fs[0], next), next + 1);
  }

  lemma LowersForAll(fs: seq<VarId>, js: seq<VarId>, c: VarId, ix: seq<Expr>, b: Expr, next: VarId)
    requires OuterSetting(fs, js, c, ix, b, next) && fs != []
    requires LowerIndices(ForAlls(fs[1..], Definition(js, c, RenameAll(ix, fs[0], next), Rename(b, fs[0], next))), next + 1) ==
             Some((OuterCode(fs[1..], js, c, RenameAll(ix, fs[0], next), Rename(b, fs[0], next), next + 1), next + |fs| + |js|))
    ensures LowerIndices(ForAlls(fs, Definition(js, c, ix, b)), next) ==
            Some((OuterCode(fs, js, c, ix, b, next), next + |fs| + |js|))
  {
    DeduceDefinition(fs[0], fs[1..], js, c, ix, b);
    RenameDefinition(fs[1..], js, c, ix, b, fs[0], next);
  }

  lemma PairIsTensorCode(js: seq<VarId>, c: VarId, ix: seq<Expr>, b: Expr, next: VarId)
    requires Setting(js, c, ix, b, next)
    ensures var code := OuterCode([], js, c, ix, b, next);
            && IsTensorCode(code, c)
            && LoopVars(code) == LoopVars(InnerCode(js, c, ix, b, next))
            && AllReads(code) == ReadsAll(ix) + AllReads(InnerCode(js, c, ix, b, next))
  {
    if js == [] {
      return;
    }
    InnerIsTensorCode(js, c, ix, b, next);
    var code := OuterCode([], js, c, ix, b, next);
    var es := code.exprs;
    assert LoopVars(es[0]) == {} && AllReads(es[0]) == ReadsAll(ix) && IsTensorCode(es[0], c);
    assert es[1] == InnerCode(js, c, ix, b, next);
    assert LoopVars(code) == LoopVars(es[0]) + LoopVars(es[1]);
    assert AllReads(code) == AllReads(es[0]) + AllReads(es[1]);
    forall k | 0 <= k < |es|
      ensures IsTensorCode(es[k], c) && AllReads(es[k]) * LoopVars(code) <= LoopVars(es[k])
    {
      assert k == 0 || k == 1;
    }
  }

  ghost predicate CodeShape(code: Expr, c: VarId, next: VarId, next': VarId) {
    && IsTensorCode(code, c)
    && FreshFrom(LoopVars(code), next, next')
    && (forall v :: v in AllReads(code) ==> v < next || v in LoopVars(code))
  }

  lemma LoopShape(code: Expr, c: VarId, bound: Expr, next: VarId, next': VarId)
    requires CodeShape(code, c, next + 1, next') && Reads(bound) == {} && c < next < next'
    ensures CodeShape(For(next, IntLit(0), bound, IntLit(1), code), c, next, next')
  {
  }

  lemma {:induction false} OuterIsTensorCode(fs: seq<VarId>, js: seq<VarId>, c: VarId, ix: seq<Expr>, b: Expr, next: VarId)
    requires OuterSetting(fs, js, c, ix, b, next)
    ensures CodeShape(OuterCode(fs, js, c, ix, b, next), c, next, next + |fs| + |js|)
    decreases |fs|
  {
    if fs == [] {
      InnerIsTensorCode(js, c, ix, b, next);
      PairIsTensorCode(js, c, ix, b, next);
    } else {
      var ix', b' := RenameAll(ix, fs[0], next), Rename(b, fs[0], next);
      LoopShape(OuterCode(fs[1..], js, c, ix', b', next + 1), c, Extent(c, DirectUse(fs[0], ix).value), next, next + |fs| + |js|) by {
        NextOuterSetting(fs, js, c, ix, b, next);
        OuterIsTensorCode(fs[1..], js, c, ix', b', next + 1);
      }
    }
  }

  /** Setting `n` in place of `i` makes no difference after renaming. */
  lemma {:induction false} OuterRenamed(fs: seq<VarId>, js: seq<VarId>, ix: seq<Expr>, b: Expr, i: VarId, n: VarId, mem: Memory, v: int, x: VarId -> nat, t: seq<int>, cur: int)
    requires Pure(b) && (forall k :: 0 <= k < |ix| ==> Pure(ix[k]))
    requires i !in fs && i !in js && n !in fs && n !in js && n !in Reads(b) && n !in ReadsAll(ix)
    ensures OuterValue(fs, js, RenameAll(ix, i, n), Rename(b, i, n), mem[Scalar(n) := v], x, t, cur) ==
            OuterValue(fs, js, ix, b, mem[Scalar(i) := v], x, t, cur)
    decreases |fs| + 1, 0
  {
    if fs == [] {
      IndicesRenamed(ix, i, n, mem, v);
      SumRenamed(js, b, i, n, mem, v, x);
    } else {
      OuterRangeRenamed(fs[0], x(fs[0]), fs[1..], js, ix, b, i, n, mem, v, x, t, cur);
    }
  }

  lemma IndicesRenamed(ix: seq<Expr>, i: VarId, n: VarId, mem: Memory, v: int)
    requires (forall k :: 0 <= k < |ix| ==> Pure(ix[k])) && n !in ReadsAll(ix)
    ensures EvalIndices(RenameAll(ix, i, n), mem[Scalar(n) := v]) == EvalIndices(ix, mem[Scalar(i) := v])
  {
    EvalRenameAll(ix, i, n, mem[Scalar(n) := v]);
    EvalIndicesSame(ix, mem[Scalar(n) := v][Scalar(i) := v], mem[Scalar(i) := v]);
  }

  lemma {:induction false} OuterRangeRenamed(f: VarId, k: nat, rest: seq<VarId>, js: seq<VarId>, ix: seq<Expr>, b: Expr, i: VarId, n: VarId, mem: Memory, v: int, x: VarId -> nat, t: seq<int>, cur: int)
    requires Pure(b) && (forall k :: 0 <= k < |ix| ==> Pure(ix[k]))
    requires i != f && n != f && i !in rest && i !in js && n !in rest && n !in js && n !in Reads(b) && n !in ReadsAll(ix)
    ensures OuterRange(f, k, rest, js, RenameAll(ix, i, n), Rename(b, i, n), mem[Scalar(n) := v], x, t, cur) ==
            OuterRange(f, k, rest, js, ix, b, mem[Scalar(i) := v], x, t, cur)
    decreases |rest| + 1, k + 1
  {
    if k > 0 {
      OuterRangeRenamed(f, k - 1, rest, js, ix, b, i, n, mem, v, x, t, cur);
      OuterRenamed(rest, js, ix, b, i, n, mem[Scalar(f) := k - 1], v, x, t,
                   OuterRange(f, k - 1, rest, js, ix, b, mem[Scalar(i) := v], x, t, cur));
      Reorder(mem, n, v, f, k - 1);
      Reorder(mem, i, v, f, k - 1);
    }
  }

  lemma {:induction false} OuterDefinedRenamed(fs: seq<VarId>, js: seq<VarId>, ix: seq<Expr>, b: Expr, i: VarId, n: VarId, mem: Memory, v: int, x: VarId -> nat)
    requires Pure(b) && (forall k :: 0 <= k < |ix| ==> Pure(ix[k]))
    requires i !in fs && i !in js && n !in fs && n !in js && n !in Reads(b) && n !in ReadsAll(ix)
    requires OuterDefined(fs, js, ix, b, With(mem, i, v), x)
    ensures OuterDefined(fs, js, RenameAll(ix, i, n), Rename(b, i, n), With(mem, n, v), x)
    decreases |fs|
  {
    if fs == [] {
      IndicesRenamed(ix, i, n, mem, v);
      SumRenamed(js, b, i, n, mem, v, x);
    } else {
      forall w | 0 <= w < x(fs[0])
        ensures OuterDefined(fs[1..], js, RenameAll(ix, i, n), Rename(b, i, n), With(With(mem, n, v), fs[0], w), x)
      {
        Reorder(mem, n, v, fs[0], w);
        Reorder(mem, i, v, fs[0], w);
        assert OuterDefined(fs[1..], js, ix, b, With(With(mem, i, v), fs[0], w), x);
        OuterDefinedRenamed(fs[1..], js, ix, b, i, n, With(mem, fs[0], w), v, x);
      }
    }
  }

  lemma NextOuterFits(fs: seq<VarId>, js: seq<VarId>, c: VarId, ix: seq<Expr>, b: Expr, next: VarId, mem: Memory, v: int, x: VarId -> nat)
    requires OuterSetting(fs, js, c, ix, b, next) && fs != []
    requires Shaped(fs, c, ix, mem, x) && forall j :: j in js ==> RangeFits(j, b, mem, x)
    ensures Shaped(fs[1..], c, RenameAll(ix, fs[0], next), mem[Scalar(next) := v], x)
    ensures forall j :: j in js ==> RangeFits(j, Rename(b, fs[0], next), mem[Scalar(next) := v], x)
  {
    NextOuterSetting(fs, js, c, ix, b, next);
    forall j | j in js
      ensures RangeFits(j, Rename(b, fs[0], next), mem[Scalar(next) := v], x)
    {
      assert RangeFits(j, b, mem, x);
    }
  }

  lemma PairFinal(js: seq<VarId>, c: VarId, ix: seq<Expr>, b: Expr, next: VarId, mem: Memory, x: VarId -> nat, t: seq<int>, cur: int)
    requires Setting(js, c, ix, b, next)
    requires forall j :: j in js ==> RangeFits(j, b, mem, x)
    ensures Final(OuterCode([], js, c, ix, b, next), t, mem, cur) ==
            if EvalIndices(ix, mem) == Some(t) then SumValue(js, b, mem, x) else cur
  {
    var code := OuterCode([], js, c, ix, b, next);
    if js == [] {
      return;
    }
    var first := Final(code.exprs[0], t, mem, cur);
    assert FinalAll(code, 0, t, mem, cur) == cur;
    assert FinalAll(code, 1, t, mem, cur) == first;
    assert FinalAll(code, 2, t, mem, cur) == Final(code.exprs[1], t, mem, first);
    InnerFinal(js, c, ix, b, next, mem, x, t, first);
  }

  /** The lowered nest assigns what the definition says, in the same order. */
  lemma {:induction false} OuterFinal(fs: seq<VarId>, js: seq<VarId>, c: VarId, ix: seq<Expr>, b: Expr, next: VarId, mem: Memory, x: VarId -> nat, t: seq<int>, cur: int)
    requires OuterSetting(fs, js, c, ix, b, next)
    requires Shaped(fs, c, ix, mem, x) && forall j :: j in js ==> RangeFits(j, b, mem, x)
    ensures Final(OuterCode(fs, js, c, ix, b, next), t, mem, cur) == OuterValue(fs, js, ix, b, mem, x, t, cur)
    decreases |fs| + 1, 0, 0
  {
    if fs == [] {
      PairFinal(js, c, ix, b, next, mem, x, t, cur);
    } else {
      OuterLoopFinal(fs, js, c, ix, b, next, mem, 0, x, t, cur, cur);
    }
  }

  lemma {:induction false} OuterLoopFinal(fs: seq<VarId>, js: seq<VarId>, c: VarId, ix: seq<Expr>, b: Expr, next: VarId, mem: Memory, i: nat, x: VarId -> nat, t: seq<int>, start: int, cur: int)
    requires fs != [] && OuterSetting(fs, js, c, ix, b, next) && i <= x(fs[0])
    requires Shaped(fs, c, ix, mem, x) && forall j :: j in js ==> RangeFits(j, b, mem, x)
    requires cur == OuterRange(fs[0], i, fs[1..], js, ix, b, mem, x, t, start)
    ensures LoopFinal(next, i, x(fs[0]), 1,
                      OuterCode(fs[1..], js, c, RenameAll(ix, fs[0], next), Rename(b, fs[0], next), next + 1), t, mem, cur) ==
            OuterValue(fs, js, ix, b, mem, x, t, start)
    decreases |fs|, x(fs[0]) - i
  {
    hide Shaped, OuterSetting, OuterCode, RangeFits, Final, Rename, RenameAll, Search, DirectUse, Reads, SumValue;
    if i < x(fs[0]) {
      OuterStepFinal(fs, js, c, ix, b, next, mem, i, x, t, start, cur);
      NextOuterSetting(fs, js, c, ix, b, next);
      OuterLoopFinal(fs, js, c, ix, b, next, mem, i + 1, x, t, start,
                     OuterRange(fs[0], i + 1, fs[1..], js, ix, b, mem, x, t, start));
    }
  }

  lemma {:induction false} OuterStepFinal(fs: seq<VarId>, js: seq<VarId>, c: VarId, ix: seq<Expr>, b: Expr, next: VarId, mem: Memory, i: nat, x: VarId -> nat, t: seq<int>, start: int, cur: int)
    requires fs != [] && OuterSetting(fs, js, c, ix, b, next) && i < x(fs[0])
    requires Shaped(fs, c, ix, mem, x) && forall j :: j in js ==> RangeFits(j, b, mem, x)
    requires cur == OuterRange(fs[0], i, fs[1..], js, ix, b, mem, x, t, start)
    ensures Final(OuterCode(fs[1..], js, c, RenameAll(ix, fs[0], next), Rename(b, fs[0], next), next + 1), t, mem[Scalar(next) := i], cur) ==
            OuterRange(fs[0], i + 1, fs[1..], js, ix, b, mem, x, t, start)
    decreases |fs|, 0, 1
  {
    var f, ix', b' := fs[0], RenameAll(ix, fs[0], next), Rename(b, fs[0], next);
    hide Shaped, OuterSetting, OuterCode, RangeFits, Final, Rename, RenameAll, Search, DirectUse, Reads, SumValue, OuterValue;
    NextOuterSetting(fs, js, c, ix, b, next);
    NextOuterFits(fs, js, c, ix, b, next, mem, i, x);
    OuterFinal(fs[1..], js, c, ix', b', next + 1, mem[Scalar(next) := i], x, t, cur);
    OuterRenamed(fs[1..], js, ix, b, f, next, mem, i, x, t, cur);
  }

  lemma {:induction false} OuterNestDefined(fs: seq<VarId>, js: seq<VarId>, c: VarId, ix: seq<Expr>, b: Expr, next: VarId, mem: Memory, x: VarId -> nat)
    requires OuterSetting(fs, js, c, ix, b, next) && OuterDefined(fs, js, ix, b, mem, x)
    requires Shaped(fs, c, ix, mem, x) && forall j :: j in js ==> RangeFits(j, b, mem, x)
    ensures Defined(OuterCode(fs, js, c, ix, b, next), mem)
    decreases |fs| + 1, 0
  {
    if fs == [] {
      if js != [] {
        InnerDefined(js, c, ix, b, next, mem, x);
        var code := OuterCode([], js, c, ix, b, next);
        assert Defined(code.exprs[0], mem) && Defined(code.exprs[1], mem);
      }
    } else {
      OuterLoopDefined(fs, js, c, ix, b, next, mem, 0, x);
    }
  }

  lemma {:induction false} OuterLoopDefined(fs: seq<VarId>, js: seq<VarId>, c: VarId, ix: seq<Expr>, b: Expr, next: VarId, mem: Memory, i: nat, x: VarId -> nat)
    requires fs != [] && OuterSetting(fs, js, c, ix, b, next) && OuterDefined(fs, js, ix, b, mem, x)
    requires Shaped(fs, c, ix, mem, x) && forall j :: j in js ==> RangeFits(j, b, mem, x)
    ensures LoopDefined(next, i, x(fs[0]), 1,
                        OuterCode(fs[1..], js, c, RenameAll(ix, fs[0], next), Rename(b, fs[0], next), next + 1), mem)
    decreases |fs|, x(fs[0]) - i
  {
    if i < x(fs[0]) {
      NextOuterDefined(fs, js, c, ix, b, next, mem, i, x);
      OuterNestDefined(fs[1..], js, c, RenameAll(ix, fs[0], next), Rename(b, fs[0], next), next + 1, mem[Scalar(next) := i], x);
      OuterLoopDefined(fs, js, c, ix, b, next, mem, i + 1, x);
    }
  }

  lemma NextOuterDefined(fs: seq<VarId>, js: seq<VarId>, c: VarId, ix: seq<Expr>, b: Expr, next: VarId, mem: Memory, i: nat, x: VarId -> nat)
    requires fs != [] && OuterSetting(fs, js, c, ix, b, next) && OuterDefined(fs, js, ix, b, mem, x) && i < x(fs[0])
    requires Shaped(fs, c, ix, mem, x) && forall j :: j in js ==> RangeFits(j, b, mem, x)
    ensures var ix', b', mem' := RenameAll(ix, fs[0], next), Rename(b, fs[0], next), mem[Scalar(next) := i];
            && OuterSetting(fs[1..], js, c, ix', b', next + 1) && OuterDefined(fs[1..], js, ix', b', mem', x)
            && Shaped(fs[1..], c, ix', mem', x) && forall j :: j in js ==> RangeFits(j, b', mem', x)
  {
    NextOuterSetting(fs, js, c, ix, b, next);
    NextOuterFits(fs, js, c, ix, b, next, mem, i, x);
    assert OuterDefined(fs[1..], js, ix, b, With(mem, fs[0], i), x);
    OuterDefinedRenamed(fs[1..], js, ix, b, fs[0], next, mem, i, x);
  }

  // Elements.

  function Refs(fs: seq<VarId>): (r: seq<Expr>)
    ensures |r| == |fs| && forall k :: 0 <= k < |fs| ==> r[k] == Ref(fs[k])
  {
    if fs == [] then [] else [Ref(fs[0])] + Refs(fs[1..])
  }

  /** `mem` with the variables `fs` set to the values `t`. */
  function Bind(mem: Memory, fs: seq<VarId>, t: seq<int>): Memory
    requires |fs| == |t|
    decreases |fs|
  {
    if fs == [] then mem else Bind(mem[Scalar(fs[0]) := t[0]], fs[1..], t[1..])
  }

  predicate InBox(fs: seq<VarId>, t: seq<int>, x: VarId -> nat) {
    |t| == |fs| && forall k :: 0 <= k < |fs| ==> 0 <= t[k] < x(fs[k])
  }

  function Values(fs: seq<VarId>, mem: Memory): (r: seq<int>)
    ensures |r| == |fs| && forall k :: 0 <= k < |fs| ==> r[k] == Load(mem, Scalar(fs[k]))
  {
    if fs == [] then [] else [Load(mem, Scalar(fs[0]))] + Values(fs[1..], mem)
  }

  lemma {:induction false} RefsValue(fs: seq<VarId>, mem: Memory)
    ensures EvalIndices(Refs(fs), mem) == Some(Values(fs, mem))
  {
    if fs != [] {
      RefValue(fs[0], mem);
      RefsValue(fs[1..], mem);
      assert Refs(fs)[1..] == Refs(fs[1..]);
    }
  }

  lemma {:induction false} RefsReads(fs: seq<VarId>)
    ensures ReadsAll(Refs(fs)) == set f | f in fs
    ensures forall k :: 0 <= k < |fs| ==> Pure(Refs(fs)[k])
  {
    if fs != [] {
      var rest := Refs(fs[1..]);
      RefsReads(fs[1..]);
      assert Refs(fs) == [Ref(fs[0])] + rest;
      assert ReadsAll([]) == {} && Reads(Ref(fs[0])) == {fs[0]};
      assert ReadsAll(Refs(fs)) == {fs[0]} + ReadsAll(rest) by { assert Refs(fs)[1..] == rest; }
      assert Pure(Ref(fs[0]));
      hide Reads, ReadsAll, Pure, Refs;
      assert fs == [fs[0]] + fs[1..];
    }
  }

  lemma {:induction false} RefsUse(fs: seq<VarId>, k: nat)
    requires Distinct(fs) && k < |fs|
    ensures DirectUse(fs[k], Refs(fs)) == Some(k)
  {
    assert Refs(fs)[1..] == Refs(fs[1..]);
    if k > 0 {
      assert fs[k] == fs[1..][k - 1] && fs[0] != fs[k];
      RefsUse(fs[1..], k - 1);
    }
  }

  /** The values fixed so far are the first components of `t`. */
  predicate Prefix(fs: seq<VarId>, p: nat, mem: Memory, t: seq<int>) {
    p <= |fs| == |t| && forall k :: 0 <= k < p ==> Load(mem, Scalar(fs[k])) == t[k]
  }

  /** The element with indices `t` receives the sum for `t`, every other one is left alone. */
  lemma {:induction false} OuterValueOfElement(fs: seq<VarId>, p: nat, js: seq<VarId>, b: Expr, mem: Memory, x: VarId -> nat, t: seq<int>, cur: int)
    requires Distinct(fs) && p <= |fs|
    ensures OuterValue(fs[p..], js, Refs(fs), b, mem, x, t, cur) ==
            if Prefix(fs, p, mem, t) && InBox(fs[p..], t[p..], x) then SumValue(js, b, Bind(mem, fs[p..], t[p..]), x) else cur
    decreases |fs| - p, 1, 0
  {
    if p == |fs| {
      RefsValue(fs, mem);
      assert Values(fs, mem) == t <==> Prefix(fs, p, mem, t);
    } else {
      OuterRangeOfElement(fs, p, x(fs[p]), js, b, mem, x, t, cur);
      assert fs[p..][1..] == fs[p + 1..];
      if |t| == |fs| {
        assert t[p..][1..] == t[p + 1..];
        assert InBox(fs[p..], t[p..], x) <==> 0 <= t[p] < x(fs[p]) && InBox(fs[p + 1..], t[p + 1..], x) by {
          BoxStep(fs[p..], t[p..], x);
        }
      }
    }
  }

  lemma BoxStep(fs: seq<VarId>, t: seq<int>, x: VarId -> nat)
    requires |fs| == |t| > 0
    ensures InBox(fs, t, x) <==> 0 <= t[0] < x(fs[0]) && InBox(fs[1..], t[1..], x)
  {
    if 0 <= t[0] < x(fs[0]) && InBox(fs[1..], t[1..], x) {
      forall k | 0 <= k < |fs|
        ensures 0 <= t[k] < x(fs[k])
      {
        assert k > 0 ==> t[1..][k - 1] == t[k] && fs[1..][k - 1] == fs[k];
      }
    }
  }

  lemma {:induction false} OuterRangeOfElement(fs: seq<VarId>, p: nat, n: nat, js: seq<VarId>, b: Expr, mem: Memory, x: VarId -> nat, t: seq<int>, cur: int)
    requires Distinct(fs) && p < |fs|
    ensures OuterRange(fs[p], n, fs[p + 1..], js, Refs(fs), b, mem, x, t, cur) ==
            if Prefix(fs, p, mem, t) && 0 <= t[p] < n && InBox(fs[p + 1..], t[p + 1..], x)
            then SumValue(js, b, Bind(mem[Scalar(fs[p]) := t[p]], fs[p + 1..], t[p + 1..]), x) else cur
    decreases |fs| - p, 0, n
  {
    if n > 0 {
      var before := OuterRange(fs[p], n - 1, fs[p + 1..], js, Refs(fs), b, mem, x, t, cur);
      OuterRangeOfElement(fs, p, n - 1, js, b, mem, x, t, cur);
      OuterValueOfElement(fs, p + 1, js, b, mem[Scalar(fs[p]) := n - 1], x, t, before);
      PrefixStep(fs, p, n - 1, mem, t);
      hide Prefix, InBox, SumValue, Bind;
    }
  }

  lemma PrefixStep(fs: seq<VarId>, p: nat, v: int, mem: Memory, t: seq<int>)
    requires Distinct(fs) && p < |fs|
    ensures Prefix(fs, p + 1, mem[Scalar(fs[p]) := v], t) <==> Prefix(fs, p, mem, t) && t[p] == v
  {
  }

  // Main result.

  /** A tensor defined element by element: for all values of `fs`, element `fs` of `c` is the value of
      the right-hand side, a sum or not. */
  function SumKernel(fs: seq<VarId>, c: VarId, rhs: Rhs): Kernel {
    ForAlls(fs, Define(c, Refs(fs), rhs))
  }

  lemma {:induction false} LowersDefinition(fs: seq<VarId>, c: VarId, ix: seq<Expr>, rhs: Rhs)
    ensures LowerTopLevelSums(ForAlls(fs, Define(c, ix, rhs))) ==
            ForAlls(fs, Definition(SumIndices(rhs), c, ix, SumBody(rhs)))
  {
    if fs != [] {
      LowersDefinition(fs[1..], c, ix, rhs);
    }
  }

  /** Indices are distinct, older than `next`, and used with one extent each; the summand does not
      read the tensor it defines and has a value for all values of the indices. */
  ghost predicate SumKernelOk(fs: seq<VarId>, c: VarId, rhs: Rhs, next: VarId, mem: Memory, x: VarId -> nat) {
    var js, b := SumIndices(rhs), SumBody(rhs);
    && Pure(b)
    && Distinct(fs) && Distinct(js) && (forall f :: f in fs ==> f !in js)
    && c !in fs && c !in js && c !in Reads(b)
    && c < next && (forall v :: v in Reads(b) || v in fs || v in js ==> v < next)
    && (forall k :: 0 <= k < |fs| ==> Load(mem, Dimension(c, k)) == x(fs[k]))
    && (forall j :: j in js ==> RangeFits(j, b, mem, x))
    && OuterDefined(fs, js, Refs(fs), b, mem, x)
  }

  /** From `mem` to `after`: every element of `c` has the value that the definition gives it, and
      apart from the variables `next` and up, below `next'`, nothing else changes. */
  ghost predicate Defines(fs: seq<VarId>, c: VarId, rhs: Rhs, mem: Memory, after: Memory, x: VarId -> nat, next: VarId, next': VarId) {
    && (forall t :: Load(after, Location(c, t)) ==
                    if InBox(fs, t, x) then SumValue(SumIndices(rhs), SumBody(rhs), Bind(mem, fs, t), x)
                    else Load(mem, Location(c, t)))
    && (forall l: Location :: !IsElementOf(l, c) && !(IsScalarOf(l, {l.base}) && next <= l.base < next') ==>
          Load(after, l) == Load(mem, l))
  }

  /** What a complete run of the code has to leave behind. */
  ghost predicate HoldsSums(run: Run, fs: seq<VarId>, c: VarId, rhs: Rhs, mem: Memory, x: VarId -> nat, next: VarId, next': VarId) {
    run.outcome.Done? && Defines(fs, c, rhs, mem, run.outcome.mem, x, next, next')
  }

  lemma KernelSetting(fs: seq<VarId>, c: VarId, rhs: Rhs, next: VarId, mem: Memory, x: VarId -> nat)
    requires SumKernelOk(fs, c, rhs, next, mem, x)
    ensures OuterSetting(fs, SumIndices(rhs), c, Refs(fs), SumBody(rhs), next) && Shaped(fs, c, Refs(fs), mem, x)
    ensures OuterDefined(fs, SumIndices(rhs), Refs(fs), SumBody(rhs), mem, x)
    ensures forall j :: j in SumIndices(rhs) ==> RangeFits(j, SumBody(rhs), mem, x)
  {
    RefsReads(fs);
    forall f | f in fs
      ensures DirectUse(f, Refs(fs)).Some? && Load(mem, Dimension(c, DirectUse(f, Refs(fs)).value)) == x(f)
    {
      var k :| 0 <= k < |fs| && fs[k] == f;
      RefsUse(fs, k);
    }
  }

  lemma ElementsOf(fs: seq<VarId>, c: VarId, rhs: Rhs, next: VarId, mem: Memory, x: VarId -> nat, t: seq<int>, cur: int)
    requires SumKernelOk(fs, c, rhs, next, mem, x)
    ensures Final(OuterCode(fs, SumIndices(rhs), c, Refs(fs), SumBody(rhs), next), t, mem, cur) ==
            if InBox(fs, t, x) then SumValue(SumIndices(rhs), SumBody(rhs), Bind(mem, fs, t), x) else cur
  {
    KernelSetting(fs, c, rhs, next, mem, x);
    OuterFinal(fs, SumIndices(rhs), c, Refs(fs), SumBody(rhs), next, mem, x, t, cur);
    OuterValueOfElement(fs, 0, SumIndices(rhs), SumBody(rhs), mem, x, t, cur);
    assert fs[0..] == fs && t[0..] == t;
  }

  /** The code of the definition. */
  function CodeFor(fs: seq<VarId>, c: VarId, rhs: Rhs, next: VarId): Expr {
    OuterCode(fs, SumIndices(rhs), c, Refs(fs), SumBody(rhs), next)
  }

  lemma KernelLowers(fs: seq<VarId>, c: VarId, rhs: Rhs, next: VarId, mem: Memory, x: VarId -> nat)
    requires SumKernelOk(fs, c, rhs, next, mem, x)
    ensures LowerIndices(LowerTopLevelSums(SumKernel(fs, c, rhs)), next) ==
            Some((CodeFor(fs, c, rhs, next), next + |fs| + |SumIndices(rhs)|))
  {
    var js, b, ix := SumIndices(rhs), SumBody(rhs), Refs(fs);
    LowersDefinition(fs, c, ix, rhs);
    KernelSetting(fs, c, rhs, next, mem, x);
    forall j | j in js
      ensures Search(j, b).Some?
    {
      assert RangeFits(j, b, mem, x);
    }
    hide SumKernelOk, Definition, OuterCode, LowerIndices, LowerTopLevelSums, OuterSetting, Search;
    LowersToOuterCode(fs, js, c, ix, b, next);
  }

  /** The two lowering passes turn the definition into loops that, run to the end, leave in every
      element the value of the right-hand side, the iterated sum of the summand if it is a sum, and
      touch nothing else but their own loop variables. */
  lemma SumLoweringIsCorrect(fs: seq<VarId>, c: VarId, rhs: Rhs, next: VarId, mem: Memory, x: VarId -> nat)
    requires SumKernelOk(fs, c, rhs, next, mem, x)
    ensures LowerIndices(LowerTopLevelSums(SumKernel(fs, c, rhs)), next).Some?
    ensures var (code, next') := LowerIndices(LowerTopLevelSums(SumKernel(fs, c, rhs)), next).value;
            forall fuel :: fuel >= FuelFor(code, mem) ==>
              HoldsSums(Exec(fuel, code, [], mem), fs, c, rhs, mem, x, next, next')
  {
    KernelLowers(fs, c, rhs, next, mem, x);
    hide SumKernelOk, CodeFor, LowerIndices, LowerTopLevelSums, FuelFor, Exec, HoldsSums;
    forall fuel: nat | fuel >= FuelFor(CodeFor(fs, c, rhs, next), mem)
      ensures HoldsSums(Exec(fuel, CodeFor(fs, c, rhs, next), [], mem), fs, c, rhs, mem, x, next, next + |fs| + |SumIndices(rhs)|)
    {
      RunHoldsSums(fs, c, rhs, next, mem, x, fuel, []);
    }
  }

  lemma RunComputes(fs: seq<VarId>, js: seq<VarId>, c: VarId, ix: seq<Expr>, b: Expr, next: VarId, mem: Memory, x: VarId -> nat, fuel: nat, path: Path)
    requires OuterSetting(fs, js, c, ix, b, next) && OuterDefined(fs, js, ix, b, mem, x)
    requires Shaped(fs, c, ix, mem, x) && forall j :: j in js ==> RangeFits(j, b, mem, x)
    requires fuel >= FuelFor(OuterCode(fs, js, c, ix, b, next), mem)
    ensures var code := OuterCode(fs, js, c, ix, b, next);
            CodeShape(code, c, next, next + |fs| + |js|) && Computes(Exec(fuel, code, path, mem), code, c, mem, mem)
  {
    hide OuterSetting, OuterCode, OuterDefined, Exec, FuelFor, Shaped, RangeFits, Computes, IsTensorCode, Defined, AllReads, LoopVars;
    OuterIsTensorCode(fs, js, c, ix, b, next);
    OuterNestDefined(fs, js, c, ix, b, next, mem, x);
    ExecComputes(fuel, OuterCode(fs, js, c, ix, b, next), c, path, mem, mem);
  }

  lemma KernelComputes(fs: seq<VarId>, c: VarId, rhs: Rhs, next: VarId, mem: Memory, x: VarId -> nat, fuel: nat, path: Path)
    requires SumKernelOk(fs, c, rhs, next, mem, x) && fuel >= FuelFor(CodeFor(fs, c, rhs, next), mem)
    ensures var code := CodeFor(fs, c, rhs, next);
            CodeShape(code, c, next, next + |fs| + |SumIndices(rhs)|) && Computes(Exec(fuel, code, path, mem), code, c, mem, mem)
  {
    hide SumKernelOk, OuterSetting, OuterDefined, RangeFits, Shaped, OuterCode, Exec, FuelFor, Computes, CodeShape;
    KernelSetting(fs, c, rhs, next, mem, x);
    RunComputes(fs, SumIndices(rhs), c, Refs(fs), SumBody(rhs), next, mem, x, fuel, path);
  }

  /** What the elements of `c` finally are. */
  ghost predicate IsSums(code: Expr, fs: seq<VarId>, c: VarId, rhs: Rhs, mem: Memory, x: VarId -> nat) {
    forall t :: Final(code, t, mem, Load(mem, Location(c, t))) ==
      if InBox(fs, t, x) then SumValue(SumIndices(rhs), SumBody(rhs), Bind(mem, fs, t), x) else Load(mem, Location(c, t))
  }

  lemma CodeIsSums(fs: seq<VarId>, c: VarId, rhs: Rhs, next: VarId, mem: Memory, x: VarId -> nat)
    requires SumKernelOk(fs, c, rhs, next, mem, x)
    ensures IsSums(CodeFor(fs, c, rhs, next), fs, c, rhs, mem, x)
  {
    hide SumKernelOk, Final, SumValue, OuterCode;
    forall t
      ensures Final(CodeFor(fs, c, rhs, next), t, mem, Load(mem, Location(c, t))) ==
              if InBox(fs, t, x) then SumValue(SumIndices(rhs), SumBody(rhs), Bind(mem, fs, t), x) else Load(mem, Location(c, t))
    {
      ElementsOf(fs, c, rhs, next, mem, x, t, Load(mem, Location(c, t)));
    }
  }

  lemma ComputedHoldsSums(run: Run, code: Expr, fs: seq<VarId>, c: VarId, rhs: Rhs, mem: Memory, x: VarId -> nat, next: VarId, next': VarId)
    requires Computes(run, code, c, mem, mem) && CodeShape(code, c, next, next') && IsSums(code, fs, c, rhs, mem, x)
    ensures HoldsSums(run, fs, c, rhs, mem, x, next, next')
  {
    hide Final, SumValue, InBox, IsTensorCode, AllReads;
  }

  lemma RunHoldsSums(fs: seq<VarId>, c: VarId, rhs: Rhs, next: VarId, mem: Memory, x: VarId -> nat, fuel: nat, path: Path)
    requires SumKernelOk(fs, c, rhs, next, mem, x) && fuel >= FuelFor(CodeFor(fs, c, rhs, next), mem)
    ensures HoldsSums(Exec(fuel, CodeFor(fs, c, rhs, next), path, mem), fs, c, rhs, mem, x, next, next + |fs| + |SumIndices(rhs)|)
  {
    var code := CodeFor(fs, c, rhs, next);
    hide SumKernelOk, CodeFor, Exec, FuelFor, Computes, CodeShape, IsSums, HoldsSums;
    KernelComputes(fs, c, rhs, next, mem, x, fuel, path);
    CodeIsSums(fs, c, rhs, next, mem, x);
    ComputedHoldsSums(Exec(fuel, code, path, mem), code, fs, c, rhs, mem, x, next, next + |fs| + |SumIndices(rhs)|);
  }
}
