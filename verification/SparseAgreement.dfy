/** Lowering for sparse storage and lowering for dense storage compute the same tensor. */
module SparseAgreement {
  import opened Wrappers
  import opened Qir
  import opened QirRun
  import opened TensorCode
  import opened SumLowering
  import opened IntSums
  import opened IndexSums
  import opened SparseLowering
  import opened SparseMeaning
  import opened SparseLoops
  import opened SparseNest
  import opened SparseSelection
  import opened SparseTheorem
  import opened SparseCorrectness

  function KernelOf(fs: seq<VarId>, c: VarId, lhs: seq<VarId>, rhs: Rhs): Kernel {
    ForAlls(fs, Define(c, Refs(lhs), rhs))
  }

  lemma {:induction false} KernelParts(fs: seq<VarId>, c: VarId, lhs: seq<VarId>, rhs: Rhs)
    ensures OuterIndices(KernelOf(fs, c, lhs, rhs)) == fs && Innermost(KernelOf(fs, c, lhs, rhs)) == Define(c, Refs(lhs), rhs)
  {
    if fs != [] {
      KernelParts(fs[1..], c, lhs, rhs);
    }
  }

  function Known(fs: seq<VarId>, rhs: Rhs): seq<VarId> { fs + SumIndices(rhs) }

  ghost predicate IsOnlyUse(p: Problem, path: Path, tensors: set<VarId>, known: seq<VarId>) {
    && IsUse(p.body, path, tensors, known) && Subexpression(p.body, path) == Access(p.tensor, [Ref(p.row), Ref(p.column)])
    && forall other :: IsUse(p.body, other, tensors, known) ==> other == path
  }

  /** `p` describes the kernel; its body uses one sparse tensor, once. */
  ghost predicate Describes(p: Problem, fs: seq<VarId>, rhs: Rhs, sells: map<VarId, Sell>) {
    && rhs.SumOf? && p.body == SumBody(rhs) && Pure(p.body)
    && (exists path :: IsOnlyUse(p, path, sells.Keys, Known(fs, rhs)))
    && p.dense == Without(Known(fs, rhs), [p.row, p.column])
    && p.tensor in sells && p.sell == sells[p.tensor]
    && Distinct(Known(fs, rhs)) && p.row in Known(fs, rhs) && p.column in Known(fs, rhs)
  }

  lemma NamesOfTwo(a: VarId, b: VarId)
    ensures IndexNames([Ref(a), Ref(b)]) == [a, b]
  {
    assert [Ref(a), Ref(b)][1..] == [Ref(b)] && [Ref(b)][1..] == [];
  }

  lemma AnalysisFinds(p: Problem, fs: seq<VarId>, rhs: Rhs, sells: map<VarId, Sell>)
    requires Describes(p, fs, rhs, sells)
    ensures Analyze(KernelOf(fs, p.c, p.lhs, rhs), sells.Keys) == Some(AnalysisOf(p))
    ensures forall v :: v in Known(fs, rhs) <==> v in p.Indices()
  {
    var path :| IsOnlyUse(p, path, sells.Keys, Known(fs, rhs));
    OneUseIsReported(p.body, path, sells.Keys, Known(fs, rhs));
    NamesOfTwo(p.row, p.column);
    assert SparseUses(p.body, sells.Keys, Known(fs, rhs)) == [(p.tensor, [p.row, p.column])];
    hide SparseUses, IsUse;
    KernelParts(fs, p.c, p.lhs, rhs);
    assert forall v :: v in [p.row, p.column] <==> v == p.row || v == p.column;
  }

  /** Nothing stands in the way of generating code. */
  lemma CodeIsGenerated(p: Problem, mem: Memory)
    requires Given(p, mem)
    ensures AllIndices(Refs(p.lhs), p.dense + [p.row, p.column])
    ensures forall d :: d in p.dense ==> Search(d, p.Statement()).Some?
  {
    hide Vanishes;
    assert forall k :: 0 <= k < |p.lhs| ==> p.lhs[k] in p.Indices();
    forall d | d in p.dense
      ensures Search(d, p.Statement()).Some?
    {
      assert RangeFits(d, p.Statement(), mem, p.x);
    }
  }

  /** A kernel with one sparse matrix under its sums is lowered to code that, run to the end, leaves
      the contraction in the assigned tensor. */
  lemma SparseLoweringIsCorrect(p: Problem, fs: seq<VarId>, rhs: Rhs, sells: map<VarId, Sell>, mem: Memory, dense: Memory)
    requires Describes(p, fs, rhs, sells) && Given(p, mem) && DenseForm(p, mem, dense)
    ensures Analyze(KernelOf(fs, p.c, p.lhs, rhs), sells.Keys) == Some(AnalysisOf(p))
    ensures LowerSparseContraction(KernelOf(fs, p.c, p.lhs, rhs), sells, p.next) == Some(Code(CodeOf(p)))
    ensures forall fuel :: fuel >= FuelFor(CodeOf(p), mem) ==>
              HoldsContraction(Exec(fuel, CodeOf(p), [], mem), p, Known(fs, rhs), mem, dense)
  {
    hide Given, DenseForm, HoldsContraction, FuelFor, Exec, Analyze, AllIndices, Search, Refs, Lowered;
    AnalysisFinds(p, fs, rhs, sells);
    CodeIsGenerated(p, mem);
    forall fuel: nat | fuel >= FuelFor(CodeOf(p), mem)
      ensures HoldsContraction(Exec(fuel, CodeOf(p), [], mem), p, Known(fs, rhs), mem, dense)
    {
      ContractionIsComputed(p, Known(fs, rhs), mem, dense, fuel);
    }
  }

  // If every index of the assigned element is an outer one, the contraction is the iterated sum.

  lemma {:induction false} TotalOfBody(p: Problem, fs: seq<VarId>, t: seq<int>, js: seq<VarId>, d: Memory)
    requires p.lhs == fs && forall j :: j in js ==> j !in fs
    ensures Total(js, Contributions(p, t), d, p.x) == if Values(fs, d) == t then SumValue(js, p.body, d, p.x) else 0
    decreases |js|
  {
    if js != [] {
      var j, rest := js[0], js[1..];
      var g := (i: int) => if Values(fs, d) == t then SumValue(rest, p.body, With(d, j, i), p.x) else 0;
      assert js == [j] + rest;
      forall i | 0 <= i < p.x(j)
        ensures g(i) == Total(rest, Contributions(p, t), With(d, j, i), p.x)
      {
        ValuesSame(fs, With(d, j, i), d);
        TotalOfBody(p, fs, t, rest, With(d, j, i));
      }
      TotalUnfolds(j, rest, Contributions(p, t), d, p.x, g);
      if Values(fs, d) == t {
        SumRangeIsSumTo(j, p.x(j), rest, p.body, d, p.x, g);
      } else {
        SumToZero(p.x(j), g);
      }
    }
  }

  /** The part of the sum that belongs to element `t`, when the first `k` outer indices are set. */
  function PartOf(p: Problem, fs: seq<VarId>, js: seq<VarId>, k: nat, t: seq<int>, d: Memory): int
    requires k <= |fs|
  {
    if Prefix(fs, k, d, t) && InBox(fs[k..], t[k..], p.x) then SumValue(js, p.body, Bind(d, fs[k..], t[k..]), p.x) else 0
  }

  lemma {:induction false} TotalOfElement(p: Problem, fs: seq<VarId>, js: seq<VarId>, k: nat, t: seq<int>, d: Memory)
    requires p.lhs == fs && Distinct(fs) && k <= |fs| && forall j :: j in js ==> j !in fs
    ensures Total(fs[k..] + js, Contributions(p, t), d, p.x) == PartOf(p, fs, js, k, t, d)
    decreases |fs| - k
  {
    if k == |fs| {
      assert fs[k..] + js == js;
      TotalOfBody(p, fs, t, js, d);
      assert Values(fs, d) == t <==> Prefix(fs, k, d, t);
    } else {
      var f := fs[k];
      var g := (i: int) => if |t| == |fs| && i == t[k] then PartOf(p, fs, js, k, t, d) else 0;
      forall i | 0 <= i < p.x(f)
        ensures g(i) == Total(fs[k + 1..] + js, Contributions(p, t), With(d, f, i), p.x)
      {
        TotalOfElement(p, fs, js, k + 1, t, With(d, f, i));
        NextPart(p, fs, js, k, t, d, i);
      }
      assert fs[k..] + js == [f] + (fs[k + 1..] + js);
      TotalUnfolds(f, fs[k + 1..] + js, Contributions(p, t), d, p.x, g);
      if |t| == |fs| && 0 <= t[k] < p.x(f) {
        SumToSingle(p.x(f), t[k], g);
      } else {
        SumToZero(p.x(f), g);
        assert |t| == |fs| ==> t[k..][0] == t[k] && fs[k..][0] == f;
      }
    }
  }

  lemma NextPart(p: Problem, fs: seq<VarId>, js: seq<VarId>, k: nat, t: seq<int>, d: Memory, i: int)
    requires Distinct(fs) && k < |fs| && 0 <= i < p.x(fs[k])
    ensures PartOf(p, fs, js, k + 1, t, With(d, fs[k], i)) == if |t| == |fs| && i == t[k] then PartOf(p, fs, js, k, t, d) else 0
  {
    var f, d' := fs[k], With(d, fs[k], i);
    if |t| == |fs| {
      assert forall q :: 0 <= q < k ==> Load(d', Scalar(fs[q])) == Load(d, Scalar(fs[q]));
      assert Prefix(fs, k + 1, d', t) <==> Prefix(fs, k, d, t) && i == t[k];
      assert fs[k..][1..] == fs[k + 1..] && t[k..][1..] == t[k + 1..] && fs[k..][0] == f && t[k..][0] == t[k];
      if i == t[k] {
        BoxStep(fs[k..], t[k..], p.x);
        assert Bind(d, fs[k..], t[k..]) == Bind(d', fs[k + 1..], t[k + 1..]);
      }
    }
  }

  /** Run to the end, the code for SELL storage and the code the sum lowering generates for dense
      storage leave the same values in all elements of the assigned tensor. */
  lemma SparseAgreesWithDense(p: Problem, fs: seq<VarId>, rhs: Rhs, sells: map<VarId, Sell>, mem: Memory, dense: Memory, next': VarId, code: Expr, fuel: nat, t: seq<int>)
    requires Describes(p, fs, rhs, sells) && Given(p, mem) && DenseForm(p, mem, dense) && p.lhs == fs
    requires SumKernelOk(fs, p.c, rhs, p.next, dense, p.x)
    requires LowerIndices(LowerTopLevelSums(SumKernel(fs, p.c, rhs)), p.next) == Some((code, next'))
    requires fuel >= FuelFor(code, dense) && fuel >= FuelFor(CodeOf(p), mem)
    ensures var viaSparse, viaDense := Exec(fuel, CodeOf(p), [], mem).outcome, Exec(fuel, code, [], dense).outcome;
            viaSparse.Done? && viaDense.Done? && Load(viaSparse.mem, Location(p.c, t)) == Load(viaDense.mem, Location(p.c, t))
  {
    hide Exec, CodeOf, LowerIndices, LowerTopLevelSums, FuelFor, Total, SumValue;
    AnalysisFinds(p, fs, rhs, sells);
    assert Distinct(Known(fs, rhs)) && Distinct(fs) && forall j :: j in SumIndices(rhs) ==> j !in fs;
    assert Load(mem, Location(p.c, t)) == Load(dense, Location(p.c, t)) by { GivenFacts(p, mem); }
    ViaDense(p, fs, rhs, dense, next', code, fuel, t);
    hide Describes, SumKernelOk, Given, DenseForm;
    ContractionIsComputed(p, Known(fs, rhs), mem, dense, fuel);
    TotalOfElement(p, fs, SumIndices(rhs), 0, t, dense);
    assert fs[0..] == fs && t[0..] == t;
  }

  lemma ViaDense(p: Problem, fs: seq<VarId>, rhs: Rhs, dense: Memory, next': VarId, code: Expr, fuel: nat, t: seq<int>)
    requires SumKernelOk(fs, p.c, rhs, p.next, dense, p.x)
    requires LowerIndices(LowerTopLevelSums(SumKernel(fs, p.c, rhs)), p.next) == Some((code, next')) && fuel >= FuelFor(code, dense)
    ensures var run := Exec(fuel, code, [], dense);
            && run.outcome.Done?
            && Load(run.outcome.mem, Location(p.c, t)) ==
               if InBox(fs, t, p.x) then SumValue(SumIndices(rhs), SumBody(rhs), Bind(dense, fs, t), p.x) else Load(dense, Location(p.c, t))
  {
    hide Exec, LowerIndices, LowerTopLevelSums, FuelFor, SumValue, SumKernelOk, Bind, InBox, Load;
    SumLoweringIsCorrect(fs, p.c, rhs, p.next, dense, p.x);
    assert HoldsSums(Exec(fuel, code, [], dense), fs, p.c, rhs, dense, p.x, p.next, next');
  }
}
