/** The lowering passes of a kernel in a row: sparse contractions, sums, abstract indices. */
module KernelTranslation {
  import opened Wrappers
  import opened Qir
  import opened QirRun
  import opened TensorCode
  import opened SumLowering
  import opened SparseLowering
  import opened SparseMeaning
  import opened SparseLoops
  import opened SparseSelection
  import opened SparseTheorem
  import opened SparseAgreement

  /** Code and the next unused variable. */
  function TranslateKernel(k: Kernel, sells: map<VarId, Sell>, next: VarId): Option<(Expr, VarId)>
    requires Supported(k, sells)
  {
    match LowerSparseContraction(k, sells, next)
    case None => None
    case Some(lowered) => LowerIndices(LowerTopLevelSums(lowered), next)
  }

  /** A definition, with sums or without, that is no contraction with one sparse tensor: run to the
      end, its code leaves in every element the value of the right-hand side. */
  lemma OrdinaryKernelIsTranslated(fs: seq<VarId>, c: VarId, rhs: Rhs, sells: map<VarId, Sell>, next: VarId, mem: Memory, x: VarId -> nat)
    requires SumKernelOk(fs, c, rhs, next, mem, x) && !IsSparseContraction(SumKernel(fs, c, rhs), sells.Keys)
    ensures Supported(SumKernel(fs, c, rhs), sells) && TranslateKernel(SumKernel(fs, c, rhs), sells, next).Some?
    ensures var (code, next') := TranslateKernel(SumKernel(fs, c, rhs), sells, next).value;
            forall fuel :: fuel >= FuelFor(code, mem) ==>
              HoldsSums(Exec(fuel, code, [], mem), fs, c, rhs, mem, x, next, next')
  {
    KernelParts(fs, c, fs, rhs);
    hide LowerIndices, LowerTopLevelSums, FuelFor, Exec, HoldsSums, IsSparseContraction;
    OthersStay(SumKernel(fs, c, rhs), sells, next);
    SumLoweringIsCorrect(fs, c, rhs, next, mem, x);
  }

  /** In particular a definition that reads no sparse tensor. */
  lemma DenseKernelIsTranslated(fs: seq<VarId>, c: VarId, rhs: Rhs, sells: map<VarId, Sell>, next: VarId, mem: Memory, x: VarId -> nat)
    requires SumKernelOk(fs, c, rhs, next, mem, x) && sells.Keys !! Reads(SumBody(rhs))
    ensures Supported(SumKernel(fs, c, rhs), sells) && TranslateKernel(SumKernel(fs, c, rhs), sells, next).Some?
    ensures var (code, next') := TranslateKernel(SumKernel(fs, c, rhs), sells, next).value;
            forall fuel :: fuel >= FuelFor(code, mem) ==>
              HoldsSums(Exec(fuel, code, [], mem), fs, c, rhs, mem, x, next, next')
  {
    KernelParts(fs, c, fs, rhs);
    DenseIsNotSparse(SumKernel(fs, c, rhs), sells.Keys);
    OrdinaryKernelIsTranslated(fs, c, rhs, sells, next, mem, x);
  }

  /** A contraction with one sparse matrix: the later passes keep the code of the first one. */
  lemma SparseKernelIsTranslated(p: Problem, fs: seq<VarId>, rhs: Rhs, sells: map<VarId, Sell>, mem: Memory, dense: Memory)
    requires Describes(p, fs, rhs, sells) && Given(p, mem) && DenseForm(p, mem, dense)
    ensures Supported(KernelOf(fs, p.c, p.lhs, rhs), sells)
    ensures TranslateKernel(KernelOf(fs, p.c, p.lhs, rhs), sells, p.next) == Some((CodeOf(p), p.next))
    ensures forall fuel :: fuel >= FuelFor(CodeOf(p), mem) ==>
              HoldsContraction(Exec(fuel, CodeOf(p), [], mem), p, Known(fs, rhs), mem, dense)
  {
    AnalysisFinds(p, fs, rhs, sells);
    SparseLoweringIsCorrect(p, fs, rhs, sells, mem, dense);
  }
}
