/** Several definitions one after the other: each is lowered to its own code, and running all of it
    gives every tensor what its definition says, in order. */
module DefinitionSequences {
  import opened Wrappers
  import opened Qir
  import opened QirRun
  import opened TensorCode
  import opened Substitution
  import opened SumLowering

  /** A definition and the extents of its indices. */
  datatype TensorDefinition = TensorDefinition(fs: seq<VarId>, c: VarId, rhs: Rhs, x: VarId -> nat)

  function KernelsOf(ds: seq<TensorDefinition>): (ks: seq<Kernel>)
    ensures |ks| == |ds|
  {
    if ds == [] then [] else [SumKernel(ds[0].fs, ds[0].c, ds[0].rhs)] + KernelsOf(ds[1..])
  }

  /** The first variable that the code of a definition leaves unused. */
  function NextAfter(d: TensorDefinition, next: VarId): VarId { next + |d.fs| + |SumIndices(d.rhs)| }

  function NextAfterAll(ds: seq<TensorDefinition>, next: VarId): VarId {
    if ds == [] then next else NextAfterAll(ds[1..], NextAfter(ds[0], next))
  }

  function Codes(ds: seq<TensorDefinition>, next: VarId): (es: seq<Expr>)
    ensures |es| == |ds|
  {
    if ds == [] then [] else [CodeFor(ds[0].fs, ds[0].c, ds[0].rhs, next)] + Codes(ds[1..], NextAfter(ds[0], next))
  }

  ghost predicate Does(d: TensorDefinition, next: VarId, mem: Memory, after: Memory) {
    Defines(d.fs, d.c, d.rhs, mem, after, d.x, next, NextAfter(d, next))
  }

  /** One after the other, each from what the ones before it left. */
  ghost predicate DoAll(ds: seq<TensorDefinition>, next: VarId, mem: Memory, after: Memory) {
    if ds == [] then after == mem
    else exists mid :: Does(ds[0], next, mem, mid) && DoAll(ds[1..], NextAfter(ds[0], next), mid, after)
  }

  /** Each definition can be lowered and has values wherever the ones before it lead. */
  ghost predicate AllOk(ds: seq<TensorDefinition>, next: VarId, mem: Memory) {
    ds != [] ==>
      && SumKernelOk(ds[0].fs, ds[0].c, ds[0].rhs, next, mem, ds[0].x)
      && forall mid :: Does(ds[0], next, mem, mid) ==> AllOk(ds[1..], NextAfter(ds[0], next), mid)
  }

  // The number of iterations does not change from one definition to the next.

  predicate HasFixedBounds(e: Expr) {
    match e
    case For(_, lower, upper, _, body) => lower.IntLit? && (upper.Extent? || upper.IntLit?) && HasFixedBounds(body)
    case Compound(exprs) => forall k :: 0 <= k < |exprs| ==> HasFixedBounds(exprs[k])
    case _ => true
  }

  ghost predicate SameExtents(a: Memory, b: Memory) {
    forall l: Location :: l.Dimension? ==> Load(a, l) == Load(b, l)
  }

  lemma {:induction false} FuelSame(e: Expr, a: Memory, b: Memory)
    requires HasFixedBounds(e) && SameExtents(a, b)
    ensures FuelFor(e, a) == FuelFor(e, b)
    decreases e, 0, 1
  {
    match e
    case For(idx, lower, upper, increment, body) =>
      if increment.IntLit? && increment.value > 0 {
        assert Eval(upper, a) == Eval(upper, b);
        LoopFuelSame(idx, IntOf(Eval(lower, a)), IntOf(Eval(upper, a)), increment.value, body, a, b);
      }
    case Compound(exprs) => FuelForAllSame(e, |exprs|, a, b);
    case _ =>
  }

  lemma {:induction false} LoopFuelSame(idx: VarId, i: int, u: int, inc: int, body: Expr, a: Memory, b: Memory)
    requires inc > 0 && HasFixedBounds(body) && SameExtents(a, b)
    ensures LoopFuel(idx, i, u, inc, body, a) == LoopFuel(idx, i, u, inc, body, b)
    decreases body, 1, u - i
  {
    if i < u {
      FuelSame(body, a[Scalar(idx) := i], b[Scalar(idx) := i]);
      LoopFuelSame(idx, i + inc, u, inc, body, a, b);
    }
  }

  lemma {:induction false} FuelForAllSame(e: Expr, k: nat, a: Memory, b: Memory)
    requires e.Compound? && k <= |e.exprs| && HasFixedBounds(e) && SameExtents(a, b)
    ensures FuelForAll(e, k, a) == FuelForAll(e, k, b)
    decreases e, 0, 0, k
  {
    if k > 0 {
      FuelSame(e.exprs[k - 1], a, b);
      FuelForAllSame(e, k - 1, a, b);
    }
  }

  lemma {:induction false} InnerHasFixedBounds(js: seq<VarId>, c: VarId, ix: seq<Expr>, b: Expr, next: VarId)
    ensures HasFixedBounds(InnerCode(js, c, ix, b, next))
    decreases |js|
  {
    if js != [] {
      SearchFindsBound(js[0], b);
      InnerHasFixedBounds(js[1..], c, ix, Rename(b, js[0], next), next + 1);
    }
  }

  lemma {:induction false} OuterHasFixedBounds(fs: seq<VarId>, js: seq<VarId>, c: VarId, ix: seq<Expr>, b: Expr, next: VarId)
    ensures HasFixedBounds(OuterCode(fs, js, c, ix, b, next))
    decreases |fs|
  {
    if fs == [] {
      InnerHasFixedBounds(js, c, ix, b, next);
    } else {
      OuterHasFixedBounds(fs[1..], js, c, RenameAll(ix, fs[0], next), Rename(b, fs[0], next), next + 1);
    }
  }

  // Lowering and running.

  lemma RunDoes(d: TensorDefinition, next: VarId, mem: Memory, fuel: nat, path: Path)
    requires SumKernelOk(d.fs, d.c, d.rhs, next, mem, d.x) && fuel >= FuelFor(CodeFor(d.fs, d.c, d.rhs, next), mem)
    ensures var run := Exec(fuel, CodeFor(d.fs, d.c, d.rhs, next), path, mem);
            run.outcome.Done? && Does(d, next, mem, run.outcome.mem) && SameExtents(mem, run.outcome.mem)
  {
    RunHoldsSums(d.fs, d.c, d.rhs, next, mem, d.x, fuel, path);
  }

  lemma LowersFirst(k: Kernel, rest: seq<Kernel>, next: VarId, next': VarId, next'': VarId, e: Expr, es: seq<Expr>)
    requires LowerIndices(LowerTopLevelSums(k), next) == Some((e, next'))
    requires LowerIndicesAll(LowerAll(rest), next') == Some((es, next''))
    ensures LowerIndicesAll(LowerAll([k] + rest), next) == Some(([e] + es, next''))
  {
    hide LowerIndices, LowerTopLevelSums;
    assert ([k] + rest)[1..] == rest;
    var ks := LowerAll([k] + rest);
    assert ks[0] == LowerTopLevelSums(k) && ks[1..] == LowerAll(rest);
  }

  /** Running the first definition shows that there is a memory for the others to start from. */
  lemma OthersAreOk(ds: seq<TensorDefinition>, next: VarId, mem: Memory) returns (mid: Memory)
    requires ds != [] && AllOk(ds, next, mem)
    ensures SumKernelOk(ds[0].fs, ds[0].c, ds[0].rhs, next, mem, ds[0].x) && AllOk(ds[1..], NextAfter(ds[0], next), mid)
  {
    var d := ds[0];
    hide Does, SumKernelOk, CodeFor, Exec, FuelFor;
    var code := CodeFor(d.fs, d.c, d.rhs, next);
    RunDoes(d, next, mem, FuelFor(code, mem), []);
    mid := Exec(FuelFor(code, mem), code, [], mem).outcome.mem;
  }

  lemma {:induction false} AllLower(ds: seq<TensorDefinition>, next: VarId, mem: Memory)
    requires AllOk(ds, next, mem)
    ensures LowerIndicesAll(LowerAll(KernelsOf(ds)), next) == Some((Codes(ds, next), NextAfterAll(ds, next)))
    decreases |ds|
  {
    if ds == [] {
      assert LowerAll([]) == [];
    } else {
      var d, rest, next' := ds[0], ds[1..], NextAfter(ds[0], next);
      hide AllOk, SumKernelOk, CodeFor, LowerIndices, LowerIndicesAll, LowerAll, LowerTopLevelSums, SumKernel;
      var code := CodeFor(d.fs, d.c, d.rhs, next);
      var mid := OthersAreOk(ds, next, mem);
      AllLower(rest, next', mid);
      KernelLowers(d.fs, d.c, d.rhs, next, mem, d.x);
      LowersFirst(SumKernel(d.fs, d.c, d.rhs), KernelsOf(rest), next, next', NextAfterAll(rest, next'), code, Codes(rest, next'));
      assert KernelsOf(ds) == [SumKernel(d.fs, d.c, d.rhs)] + KernelsOf(rest);
      assert Codes(ds, next) == [code] + Codes(rest, next');
      assert NextAfterAll(ds, next) == NextAfterAll(rest, next');
    }
  }

  lemma {:induction false} CodesHaveFixedBounds(ds: seq<TensorDefinition>, next: VarId, k: nat)
    requires k < |ds|
    ensures HasFixedBounds(Codes(ds, next)[k])
    decreases |ds|
  {
    if k == 0 {
      OuterHasFixedBounds(ds[0].fs, SumIndices(ds[0].rhs), ds[0].c, Refs(ds[0].fs), SumBody(ds[0].rhs), next);
    } else {
      CodesHaveFixedBounds(ds[1..], NextAfter(ds[0], next), k - 1);
    }
  }

  lemma {:induction false} AllRun(ds: seq<TensorDefinition>, next: VarId, es: seq<Expr>, k: nat, path: Path, mem: Memory, fuel: nat)
    requires k <= |es| && es[k..] == Codes(ds, next) && AllOk(ds, next, mem)
    requires forall j :: k <= j < |es| ==> fuel >= FuelFor(es[j], mem) && HasFixedBounds(es[j])
    ensures var run := ExecAll(fuel, es, k, path, mem);
            run.outcome.Done? && DoAll(ds, next, mem, run.outcome.mem)
    decreases |es| - k
  {
    if k < |es| {
      var d := ds[0];
      assert es[k] == es[k..][0] && es[k + 1..] == es[k..][1..];
      hide SumKernelOk, CodeFor, Exec, FuelFor, Does, SameExtents, HasFixedBounds;
      RunDoes(d, next, mem, fuel, path + [k]);
      var mid := Exec(fuel, es[k], path + [k], mem).outcome.mem;
      forall j | k + 1 <= j < |es|
        ensures fuel >= FuelFor(es[j], mid)
      {
        FuelSame(es[j], mem, mid);
      }
      AllRun(ds[1..], NextAfter(d, next), es, k + 1, path, mid, fuel);
    }
  }

  /** A sequence of definitions, sums or not, is lowered definition by definition; run to the end, the
      code gives each tensor in turn the values its definition has in what the ones before it left. */
  lemma SequenceIsCorrect(ds: seq<TensorDefinition>, next: VarId, mem: Memory)
    requires AllOk(ds, next, mem)
    ensures LowerIndices(LowerTopLevelSums(Tasks(KernelsOf(ds))), next) == Some((Compound(Codes(ds, next)), NextAfterAll(ds, next)))
    ensures forall fuel :: fuel >= FuelFor(Compound(Codes(ds, next)), mem) ==>
              var run := Exec(fuel, Compound(Codes(ds, next)), [], mem);
              run.outcome.Done? && DoAll(ds, next, mem, run.outcome.mem)
  {
    AllLower(ds, next, mem);
    var code := Compound(Codes(ds, next));
    forall fuel: nat | fuel >= FuelFor(code, mem)
      ensures Exec(fuel, code, [], mem).outcome.Done? && DoAll(ds, next, mem, Exec(fuel, code, [], mem).outcome.mem)
    {
      forall j | 0 <= j < |ds|
        ensures fuel >= FuelFor(code.exprs[j], mem) && HasFixedBounds(code.exprs[j])
      {
        FuelOfChild(code, |code.exprs|, j, mem);
        CodesHaveFixedBounds(ds, next, j);
      }
      hide AllOk, DoAll, FuelFor, HasFixedBounds, ExecAll;
      AllRun(ds, next, code.exprs, 0, [], mem, fuel);
    }
  }
}
