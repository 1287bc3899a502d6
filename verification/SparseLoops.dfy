/** What the generated loops add to each element. */
module SparseLoops {
  import opened Wrappers
  import opened Qir
  import opened QirRun
  import opened TensorCode
  import opened Substitution
  import opened SumLowering
  import opened IntSums
  import opened SparseLowering
  import opened SparseMeaning

  /** Running `e` is defined and adds `value` to element `t`. */
  ghost predicate Adds(e: Expr, t: seq<int>, mem: Memory, value: int) {
    Defined(e, mem) && forall cur: int :: Final(e, t, mem, cur) == cur + value
  }

  /** `at(q)` is the loop variable in iteration `q`; there are `steps` iterations, which add `g`. */
  ghost predicate Iterates(e: Expr, t: seq<int>, mem: Memory, u: int, steps: nat, at: int -> int, g: int -> int) {
    && e.For? && e.increment.IntLit? && e.increment.value > 0
    && (forall q :: 0 <= q < steps ==> at(q) < u && at(q + 1) == at(q) + e.increment.value && Adds(e.body, t, With(mem, e.idx, at(q)), g(q)))
    && at(steps) >= u
  }

  lemma {:induction false} LoopAddsFrom(e: Expr, t: seq<int>, mem: Memory, u: int, steps: nat, at: int -> int, g: int -> int, k: nat, cur: int)
    requires Iterates(e, t, mem, u, steps, at, g) && k <= steps
    ensures LoopDefined(e.idx, at(k), u, e.increment.value, e.body, mem)
    ensures LoopFinal(e.idx, at(k), u, e.increment.value, e.body, t, mem, cur) == cur + SumTo(steps, g) - SumTo(k, g)
    decreases steps - k
  {
    if k < steps {
      assert Adds(e.body, t, With(mem, e.idx, at(k)), g(k));
      LoopAddsFrom(e, t, mem, u, steps, at, g, k + 1, Final(e.body, t, With(mem, e.idx, at(k)), cur));
    }
  }

  /** A loop adds what its iterations add. */
  lemma LoopAdds(e: Expr, t: seq<int>, mem: Memory, u: int, steps: nat, at: int -> int, g: int -> int)
    requires Iterates(e, t, mem, u, steps, at, g)
    requires Eval(e.lower, mem) == Some(Int(at(0))) && Eval(e.upper, mem) == Some(Int(u))
    ensures Adds(e, t, mem, SumTo(steps, g))
  {
    LoopAddsFrom(e, t, mem, u, steps, at, g, 0, 0);
    assert Defined(e, mem);
    forall cur: int
      ensures Final(e, t, mem, cur) == cur + SumTo(steps, g)
    {
      LoopAddsFrom(e, t, mem, u, steps, at, g, 0, cur);
    }
  }

  /** The common case: from 0 in steps of 1. */
  lemma CountingLoopAdds(e: Expr, t: seq<int>, mem: Memory, u: int, g: int -> int)
    requires e.For? && e.lower == IntLit(0) && e.increment == IntLit(1) && Eval(e.upper, mem) == Some(Int(u))
    requires forall v :: 0 <= v < u ==> Adds(e.body, t, With(mem, e.idx, v), g(v))
    ensures Adds(e, t, mem, SumTo(if u > 0 then u else 0, g))
  {
    var steps := if u > 0 then u else 0;
    var at := (q: int) => q;
    assert Iterates(e, t, mem, u, steps, at, g);
    LoopAdds(e, t, mem, u, steps, at, g);
  }

  // The statement in the middle.

  /** The run-time memory `a` and the reference memory `d`, in which the tensor is dense and whose
      indices from position `k` on have the values of the loop variables in `a`. */
  ghost predicate Related(p: Problem, first: VarId, k: nat, a: Memory, d: Memory) {
    && p.next <= first
    && (forall q :: k <= q < |p.dense| ==> Load(a, Scalar(first + 3 + q)) == Load(d, Scalar(p.dense[q])))
    && (forall l: Location :: OutOfReach(p, l) || Load(a, l) == Load(d, l))
  }

  ghost predicate OutOfReach(p: Problem, l: Location) {
    l.Location? && (l.base == p.tensor || (l.indices == [] && (l.base >= p.next || l.base in p.Indices())))
  }

  lemma OneIndex(e: Expr, i: int, mem: Memory)
    requires Eval(e, mem) == Some(Int(i))
    ensures EvalIndices([e], mem) == Some([i])
  {
    assert [e][1..] == [] && [i] + [] == [i];
    assert EvalIndices([], mem) == Some([]);
  }

  lemma ElementValue(p: Problem, d: Memory)
    ensures Eval(Access(p.tensor, [Ref(p.row), Ref(p.column)]), d) == Some(Int(Load(d, Element(p, d))))
  {
    RefValue(p.row, d);
    RefValue(p.column, d);
    OneIndex(Ref(p.column), Load(d, Scalar(p.column)), d);
    var indices := [Ref(p.row), Ref(p.column)];
    assert indices[1..] == [Ref(p.column)];
    assert [Load(d, Scalar(p.row))] + [Load(d, Scalar(p.column))] == Element(p, d).indices;
    assert EvalIndices(indices, d) == Some(Element(p, d).indices);
  }

  lemma {:induction false} EvalReplaced(p: Problem, e: Expr, entry: Expr, a: Memory, d: Memory)
    requires OnlyUse(e, p.tensor, p.row, p.column) && Pure(e)
    requires forall l: Location :: l.Dimension? || (l.base in Reads(e) && l.base != p.tensor) ==> Load(a, l) == Load(d, l)
    requires p.tensor in Reads(e) ==> Eval(entry, a) == Some(Int(Load(d, Element(p, d))))
    ensures Eval(ReplaceTensor(e, p.tensor, entry), a) == Eval(e, d)
    decreases e
  {
    match e
    case Access(base, indices) =>
      if base == p.tensor {
        ElementValue(p, d);
      } else {
        EvalReplacedAll(p, indices, entry, a, d);
      }
    case Binary(_, x, y) => EvalReplaced(p, x, entry, a, d); EvalReplaced(p, y, entry, a, d);
    case Unary(_, x) => EvalReplaced(p, x, entry, a, d);
    case Delta(_, x, y) => EvalReplaced(p, x, entry, a, d); EvalReplaced(p, y, entry, a, d);
    case _ =>
  }

  lemma {:induction false} EvalReplacedAll(p: Problem, es: seq<Expr>, entry: Expr, a: Memory, d: Memory)
    requires forall k :: 0 <= k < |es| ==> OnlyUse(es[k], p.tensor, p.row, p.column) && Pure(es[k])
    requires forall l: Location :: l.Dimension? || (l.base in ReadsAll(es) && l.base != p.tensor) ==> Load(a, l) == Load(d, l)
    requires p.tensor in ReadsAll(es) ==> Eval(entry, a) == Some(Int(Load(d, Element(p, d))))
    ensures EvalIndices(ReplaceTensorAll(es, p.tensor, entry), a) == EvalIndices(es, d)
    decreases es
  {
    if es != [] {
      EvalReplaced(p, es[0], entry, a, d);
      EvalReplacedAll(p, es[1..], entry, a, d);
      assert ReplaceTensorAll(es, p.tensor, entry)[1..] == ReplaceTensorAll(es[1..], p.tensor, entry);
    }
  }

  /** Only the variables of `e` and of `entry` are read after the replacement. */
  lemma {:induction false} ReplacedReads(e: Expr, tensor: VarId, entry: Expr)
    requires Pure(e) && Pure(entry)
    ensures Pure(ReplaceTensor(e, tensor, entry))
    ensures Reads(ReplaceTensor(e, tensor, entry)) <= Reads(e) + Reads(entry)
    decreases e
  {
    match e
    case Access(_, indices) => ReplacedReadsAll(indices, tensor, entry);
    case Binary(_, x, y) => ReplacedReads(x, tensor, entry); ReplacedReads(y, tensor, entry);
    case Unary(_, x) => ReplacedReads(x, tensor, entry);
    case Delta(_, x, y) => ReplacedReads(x, tensor, entry); ReplacedReads(y, tensor, entry);
    case _ =>
  }

  lemma {:induction false} ReplacedReadsAll(es: seq<Expr>, tensor: VarId, entry: Expr)
    requires Pure(entry) && forall k :: 0 <= k < |es| ==> Pure(es[k])
    ensures forall k :: 0 <= k < |es| ==> Pure(ReplaceTensorAll(es, tensor, entry)[k])
    ensures ReadsAll(ReplaceTensorAll(es, tensor, entry)) <= ReadsAll(es) + Reads(entry)
    decreases es
  {
    if es != [] {
      ReplacedReads(es[0], tensor, entry);
      ReplacedReadsAll(es[1..], tensor, entry);
      assert ReplaceTensorAll(es, tensor, entry)[1..] == ReplaceTensorAll(es[1..], tensor, entry);
    }
  }

  /** The tensor itself is not read any more. */
  lemma {:induction false} ReplacedAvoids(p: Problem, e: Expr, entry: Expr)
    requires OnlyUse(e, p.tensor, p.row, p.column) && p.tensor !in Reads(entry)
    ensures p.tensor !in Reads(ReplaceTensor(e, p.tensor, entry))
    decreases e
  {
    match e
    case Access(_, indices) => if e.base != p.tensor { ReplacedAvoidsAll(p, indices, entry); }
    case Binary(_, x, y) => ReplacedAvoids(p, x, entry); ReplacedAvoids(p, y, entry);
    case Unary(_, x) => ReplacedAvoids(p, x, entry);
    case Delta(_, x, y) => ReplacedAvoids(p, x, entry); ReplacedAvoids(p, y, entry);
    case _ =>
  }

  lemma {:induction false} ReplacedAvoidsAll(p: Problem, es: seq<Expr>, entry: Expr)
    requires (forall k :: 0 <= k < |es| ==> OnlyUse(es[k], p.tensor, p.row, p.column)) && p.tensor !in Reads(entry)
    ensures p.tensor !in ReadsAll(ReplaceTensorAll(es, p.tensor, entry))
    decreases es
  {
    if es != [] {
      ReplacedAvoids(p, es[0], entry);
      ReplacedAvoidsAll(p, es[1..], entry);
      assert ReplaceTensorAll(es, p.tensor, entry)[1..] == ReplaceTensorAll(es[1..], p.tensor, entry);
    }
  }

  /** Where a lane of the loops stands: entry `j` of row `row`. */
  ghost predicate AtEntry(p: Problem, first: VarId, a: Memory, row: int, j: int) {
    && row >= 0
    && Load(a, Scalar(first)) == row / 4 * 4 && Load(a, Scalar(first + 1)) == row % 4 && Load(a, Scalar(first + 2)) == j
  }

  lemma LoadOne(v: VarId, e: Expr, i: int, mem: Memory)
    requires Eval(e, mem) == Some(Int(i))
    ensures Eval(Access(v, [e]), mem) == Some(Int(Load(mem, Location(v, [i]))))
  {
    OneIndex(e, i, mem);
  }

  lemma Apply(op: BinaryOp, a: Expr, b: Expr, x: int, y: int, mem: Memory)
    requires Eval(a, mem) == Some(Int(x)) && Eval(b, mem) == Some(Int(y))
    ensures Eval(Binary(op, a, b), mem) == ApplyBinary(op, Some(Int(x)), Some(Int(y)))
  {
  }

  function BlockIndex(first: VarId): Expr { Over(Add(Times(IntLit(0), IntLit(16)), Ref(first)), IntLit(BLOCK_WIDTH)) }

  lemma BlockIndexValue(first: VarId, a: Memory, row: int)
    requires row >= 0 && Load(a, Scalar(first)) == row / 4 * 4
    ensures Eval(BlockIndex(first), a) == Some(Int(row / 4))
  {
    RefValue(first, a);
    Apply(Multiplies, IntLit(0), IntLit(16), 0, 16, a);
    Apply(Plus, Times(IntLit(0), IntLit(16)), Ref(first), 0, row / 4 * 4, a);
    Apply(Divides, Add(Times(IntLit(0), IntLit(16)), Ref(first)), IntLit(BLOCK_WIDTH), row / 4 * 4, 4, a);
  }

  lemma SparseIndexValue(p: Problem, first: VarId, a: Memory, row: int, j: int)
    requires AtEntry(p, first, a, row, j)
    ensures Eval(SparseIndex(p.sell, first), a) == Some(Int(Position(p, a, row, j)))
    ensures Eval(Access(p.sell.val, [SparseIndex(p.sell, first)]), a) == Some(Int(Val(p, a, row, j)))
    ensures Eval(Access(p.sell.col, [SparseIndex(p.sell, first)]), a) == Some(Int(Col(p, a, row, j)))
  {
    BlockIndexValue(first, a, row);
    var start, offset := Access(p.sell.cs, [BlockIndex(first)]), Times(Ref(first + 2), IntLit(BLOCK_WIDTH));
    var s := Load(a, Location(p.sell.cs, [row / 4]));
    LoadOne(p.sell.cs, BlockIndex(first), row / 4, a);
    RefValue(first + 1, a);
    RefValue(first + 2, a);
    Apply(Multiplies, Ref(first + 2), IntLit(BLOCK_WIDTH), j, 4, a);
    Apply(Plus, start, offset, s, j * 4, a);
    Apply(Plus, Add(start, offset), Ref(first + 1), s + j * 4, row % 4, a);
    LoadOne(p.sell.val, SparseIndex(p.sell, first), Position(p, a, row, j), a);
    LoadOne(p.sell.col, SparseIndex(p.sell, first), Position(p, a, row, j), a);
  }

  lemma RefReads(v: VarId)
    ensures Pure(Ref(v)) && Reads(Ref(v)) == {v}
  {
    assert ReadsAll([]) == {};
  }

  lemma OneReads(v: VarId, e: Expr)
    requires Pure(e)
    ensures Pure(Access(v, [e])) && Reads(Access(v, [e])) == {v} + Reads(e)
  {
    assert [e][1..] == [] && ReadsAll([]) == {};
    assert ReadsAll([e]) == Reads(e) + ReadsAll([e][1..]);
  }

  lemma BinaryReads(op: BinaryOp, a: Expr, b: Expr)
    requires Pure(a) && Pure(b) && !op.Assign? && !op.PlusAssign?
    ensures Pure(Binary(op, a, b)) && Reads(Binary(op, a, b)) == Reads(a) + Reads(b)
  {
  }

  lemma SparseIndexReads(s: Sell, first: VarId)
    ensures Pure(SparseIndex(s, first)) && Reads(SparseIndex(s, first)) == {s.cs, first, first + 1, first + 2}
  {
    RefReads(first);
    RefReads(first + 1);
    RefReads(first + 2);
    BinaryReads(Multiplies, IntLit(0), IntLit(16));
    BinaryReads(Plus, Times(IntLit(0), IntLit(16)), Ref(first));
    BinaryReads(Divides, Add(Times(IntLit(0), IntLit(16)), Ref(first)), IntLit(BLOCK_WIDTH));
    OneReads(s.cs, BlockIndex(first));
    var start, offset := Access(s.cs, [BlockIndex(first)]), Times(Ref(first + 2), IntLit(BLOCK_WIDTH));
    BinaryReads(Multiplies, Ref(first + 2), IntLit(BLOCK_WIDTH));
    BinaryReads(Plus, start, offset);
    BinaryReads(Plus, Add(start, offset), Ref(first + 1));
  }

  lemma ArrayAtIndexReads(v: VarId, s: Sell, first: VarId)
    ensures Pure(Access(v, [SparseIndex(s, first)]))
    ensures Reads(Access(v, [SparseIndex(s, first)])) == {v, s.cs, first, first + 1, first + 2}
  {
    SparseIndexReads(s, first);
    OneReads(v, SparseIndex(s, first));
  }

  lemma {:induction false} DenseMapAt(dense: seq<VarId>, n: nat, first: VarId, q: nat)
    requires Distinct(dense) && q < n <= |dense|
    ensures DenseMap(dense, n, first)[dense[q]] == Ref(first + q)
  {
    var m := DenseMap(dense, n - 1, first);
    assert DenseMap(dense, n, first) == Emplace(m, dense[n - 1], Ref(first + n - 1));
    assert dense[n - 1] !in m by {
      assert forall k :: 0 <= k < n - 1 ==> dense[k] != dense[n - 1];
    }
    if q < n - 1 {
      DenseMapAt(dense, n - 1, first, q);
    }
  }

  function MapOf(p: Problem, first: VarId): map<VarId, Expr> { IndexMap(p.dense, p.row, p.column, p.sell, first) }

  lemma IndicesDistinct(p: Problem)
    requires Distinct(p.Indices())
    ensures Distinct(p.dense) && p.row !in p.dense && p.column !in p.dense && p.row != p.column
  {
    var n := |p.dense|;
    assert forall k :: 0 <= k < n ==> p.Indices()[k] == p.dense[k];
    assert p.Indices()[n] == p.row && p.Indices()[n + 1] == p.column;
  }

  lemma MapLookup(p: Problem, first: VarId)
    requires Distinct(p.Indices())
    ensures forall v :: v in MapOf(p, first) <==> v in p.Indices()
    ensures forall q :: 0 <= q < |p.dense| ==> MapOf(p, first)[p.dense[q]] == Ref(first + 3 + q)
    ensures MapOf(p, first)[p.row] == Add(Ref(first), Ref(first + 1))
    ensures MapOf(p, first)[p.column] == Access(p.sell.col, [SparseIndex(p.sell, first)])
  {
    hide Distinct, SparseIndex, DenseMap;
    var n := |p.dense|;
    assert p.dense[..n] == p.dense;
    IndicesDistinct(p);
    forall q: nat | q < n
      ensures MapOf(p, first)[p.dense[q]] == Ref(first + 3 + q)
    {
      DenseMapAt(p.dense, n, first + 3, q);
    }
  }

  /** The reference memory at one element of the matrix. */
  function At(p: Problem, d: Memory, row: int, column: int): Memory {
    With(With(d, p.row, row), p.column, column)
  }

  function EntryValue(p: Problem, t: seq<int>, mem: Memory, d: Memory, row: int, j: int): int {
    if Val(p, mem, row, j) == 0 then 0 else Contribution(p, t, At(p, d, row, Col(p, mem, row, j)))
  }

  /** The reference memory inside the dense loops: dense indices from position `k` on are set. */
  ghost predicate Reference(p: Problem, k: nat, d: Memory, mem: Memory) {
    && Like(p, d, mem) && HoldsMatrix(p, d, mem)
    && (forall q :: k <= q < |p.dense| ==> IndexIn(p, d, p.dense[q]))
  }

  ghost predicate Given(p: Problem, mem: Memory) {
    WellFormed(p) && Stored(p, mem) && Vanishes(p, mem)
  }

  /** The situation inside the dense loops. */
  ghost predicate Inside(p: Problem, first: VarId, k: nat, a: Memory, d: Memory, mem: Memory) {
    Given(p, mem) && Related(p, first, k, a, d) && Reference(p, k, d, mem)
  }

  lemma SellArrays(p: Problem, a: Memory, d: Memory, mem: Memory, first: VarId, k: nat, v: VarId, i: int)
    requires WellFormed(p) && Related(p, first, k, a, d) && Like(p, d, mem) && v in p.Arrays()
    ensures Load(a, Location(v, [i])) == Load(mem, Location(v, [i]))
  {
    assert !OutOfReach(p, Location(v, [i]));
  }

  lemma SameEntries(p: Problem, first: VarId, k: nat, a: Memory, d: Memory, mem: Memory, row: int, j: int)
    requires WellFormed(p) && Related(p, first, k, a, d) && Like(p, d, mem)
    ensures Position(p, a, row, j) == Position(p, mem, row, j)
    ensures Val(p, a, row, j) == Val(p, mem, row, j) && Col(p, a, row, j) == Col(p, mem, row, j)
  {
    SellArrays(p, a, d, mem, first, k, p.sell.cs, row / 4);
    SellArrays(p, a, d, mem, first, k, p.sell.val, Position(p, mem, row, j));
    SellArrays(p, a, d, mem, first, k, p.sell.col, Position(p, mem, row, j));
  }

  /** The reference memory with the loop variables of the block loops added. */
  function Overlay(p: Problem, first: VarId, a: Memory, d: Memory): Memory {
    With(With(With(d, first, Load(a, Scalar(first))), first + 1, Load(a, Scalar(first + 1))), first + 2, Load(a, Scalar(first + 2)))
  }

  /** The substitution of the pass sets the indices as the reference memory has them. */
  lemma MapPulls(p: Problem, first: VarId, a: Memory, d: Memory, mem: Memory, row: int, j: int, on: set<VarId>)
    requires WellFormed(p) && Related(p, first, 0, a, d) && Like(p, d, mem) && AtEntry(p, first, a, row, j)
    requires p.tensor !in on && forall v :: v in on ==> v < p.next || v in {first, first + 1, first + 2}
    ensures Pulled(a, Overlay(p, first, a, At(p, d, row, Col(p, mem, row, j))), MapOf(p, first), on)
  {
    var b := Overlay(p, first, a, At(p, d, row, Col(p, mem, row, j)));
    forall i | i in MapOf(p, first)
      ensures Eval(MapOf(p, first)[i], a) == Some(Int(Load(b, Scalar(i))))
    {
      MapLookup(p, first);
      MapValue(p, first, a, d, mem, row, j, i);
    }
    forall l: Location | l.Dimension? || (l.base in on && !(l.indices == [] && l.base in MapOf(p, first)))
      ensures Load(a, l) == Load(b, l)
    {
      assert l.Dimension? || !(l.indices == [] && l.base in p.Indices()) by { MapLookup(p, first); }
      OverlayAgrees(p, first, a, d, row, Col(p, mem, row, j), l);
    }
  }

  lemma OverlayAgrees(p: Problem, first: VarId, a: Memory, d: Memory, row: int, column: int, l: Location)
    requires Related(p, first, 0, a, d)
    requires l.Dimension? || (l.base != p.tensor && (l.base < p.next || l.base in {first, first + 1, first + 2}))
    requires l.Dimension? || !(l.indices == [] && l.base in p.Indices())
    ensures Load(a, l) == Load(Overlay(p, first, a, At(p, d, row, column)), l)
  {
    assert p.row in p.Indices() && p.column in p.Indices();
  }

  lemma MapValue(p: Problem, first: VarId, a: Memory, d: Memory, mem: Memory, row: int, j: int, i: VarId)
    requires WellFormed(p) && Related(p, first, 0, a, d) && Like(p, d, mem) && AtEntry(p, first, a, row, j)
    requires i in p.Indices() && i in MapOf(p, first)
    ensures Eval(MapOf(p, first)[i], a) == Some(Int(Load(Overlay(p, first, a, At(p, d, row, Col(p, mem, row, j))), Scalar(i))))
  {
    IndicesDiffer(p);
    OverlayValue(p, first, a, d, row, Col(p, mem, row, j), i);
    if i == p.column {
      ColumnValue(p, first, a, d, mem, row, j);
    } else if i == p.row {
      RowValue(p, first, a, row, j);
    } else {
      DenseValue(p, first, a, d, i);
    }
  }

  lemma OverlayValue(p: Problem, first: VarId, a: Memory, d: Memory, row: int, column: int, i: VarId)
    requires i < p.next <= first && p.row != p.column
    ensures Load(Overlay(p, first, a, At(p, d, row, column)), Scalar(i)) ==
            if i == p.column then column else if i == p.row then row else Load(d, Scalar(i))
  {
  }

  lemma ColumnValue(p: Problem, first: VarId, a: Memory, d: Memory, mem: Memory, row: int, j: int)
    requires WellFormed(p) && Related(p, first, 0, a, d) && Like(p, d, mem) && AtEntry(p, first, a, row, j)
    requires p.column in MapOf(p, first)
    ensures Eval(MapOf(p, first)[p.column], a) == Some(Int(Col(p, mem, row, j)))
  {
    assert MapOf(p, first)[p.column] == Access(p.sell.col, [SparseIndex(p.sell, first)]) by { MapLookup(p, first); }
    SparseIndexValue(p, first, a, row, j);
    SameEntries(p, first, 0, a, d, mem, row, j);
  }

  lemma RowValue(p: Problem, first: VarId, a: Memory, row: int, j: int)
    requires WellFormed(p) && AtEntry(p, first, a, row, j) && p.row in MapOf(p, first)
    ensures Eval(MapOf(p, first)[p.row], a) == Some(Int(row))
  {
    assert MapOf(p, first)[p.row] == Add(Ref(first), Ref(first + 1)) by { MapLookup(p, first); }
    RefValue(first, a);
    RefValue(first + 1, a);
    Apply(Plus, Ref(first), Ref(first + 1), row / 4 * 4, row % 4, a);
  }

  lemma DenseValue(p: Problem, first: VarId, a: Memory, d: Memory, i: VarId)
    requires WellFormed(p) && Related(p, first, 0, a, d) && i in p.dense && i in MapOf(p, first)
    ensures Eval(MapOf(p, first)[i], a) == Some(Int(Load(d, Scalar(i))))
  {
    var q :| 0 <= q < |p.dense| && p.dense[q] == i;
    assert MapOf(p, first)[i] == Ref(first + 3 + q) by { MapLookup(p, first); }
    RefValue(first + 3 + q, a);
  }

  lemma IndicesDiffer(p: Problem)
    requires WellFormed(p)
    ensures p.row != p.column && p.row !in p.dense && p.column !in p.dense
    ensures p.row < p.next && p.column < p.next && forall v :: v in p.dense ==> v < p.next
  {
    IndicesDistinct(p);
    assert p.row in p.Indices() && p.column in p.Indices();
    assert forall v :: v in p.dense ==> v in p.Indices();
  }

  lemma {:induction false} RefsKept(vs: seq<VarId>, tensor: VarId, entry: Expr)
    ensures ReplaceTensorAll(Refs(vs), tensor, entry) == Refs(vs)
  {
    if vs != [] {
      RefsKept(vs[1..], tensor, entry);
      assert Refs(vs)[1..] == Refs(vs[1..]);
      assert ReplaceTensorAll([], tensor, entry) == [];
      assert ReplaceTensor(Ref(vs[0]), tensor, entry) == Ref(vs[0]);
      assert Refs(vs) == [Ref(vs[0])] + Refs(vs)[1..];
    }
  }

  function EntryAccess(p: Problem, first: VarId): Expr { Access(p.sell.val, [SparseIndex(p.sell, first)]) }

  function NewIndices(p: Problem, first: VarId): seq<Expr> { SubstAll(Refs(p.lhs), MapOf(p, first)) }

  function NewSummand(p: Problem, first: VarId): Expr {
    Subst(ReplaceTensor(p.body, p.tensor, EntryAccess(p, first)), MapOf(p, first))
  }

  function NewStatement(p: Problem, first: VarId): Expr {
    NewBody(p.Statement(), p.tensor, p.dense, p.row, p.column, p.sell, first)
  }

  lemma StatementShape(p: Problem, first: VarId)
    requires p.c != p.tensor && p.c !in p.Indices() && Distinct(p.Indices())
    ensures NewStatement(p, first) == Accumulate(p.c, NewIndices(p, first), NewSummand(p, first))
  {
    RefsKept(p.lhs, p.tensor, EntryAccess(p, first));
    assert ReplaceTensor(Access(p.c, Refs(p.lhs)), p.tensor, EntryAccess(p, first)) == Access(p.c, Refs(p.lhs));
    MapLookup(p, first);
    assert Subst(Access(p.c, Refs(p.lhs)), MapOf(p, first)) == Access(p.c, NewIndices(p, first));
  }
}
