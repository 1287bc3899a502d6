/** The nest around the statement: blocks of rows, and the loops over the dense indices. */
module SparseNest {
  import opened Wrappers
  import opened Qir
  import opened QirRun
  import opened TensorCode
  import opened Substitution
  import opened SumLowering
  import opened IntSums
  import opened SparseLowering
  import opened SparseMeaning
  import opened SparseLoops

  /** `At` with the sparse element set to the stored value, also where it is padding. */
  function AtValue(p: Problem, mem: Memory, d: Memory, row: int, j: int): Memory {
    At(p, d, row, Col(p, mem, row, j))[Location(p.tensor, [row, Col(p, mem, row, j)]) := Val(p, mem, row, j)]
  }

  /** An entry that is not padding is the whole matrix element. */
  lemma EntryIsElement(p: Problem, mem: Memory, row: int, j: int)
    requires RowOk(p, mem, row) && 0 <= j < NatLength(p, mem, row / 4) && Val(p, mem, row, j) != 0
    ensures Entry(p, mem, row, Col(p, mem, row, j)) == Val(p, mem, row, j)
  {
    var column := Col(p, mem, row, j);
    assert EntryOk(p, mem, row, j);
    var f := (i: int) => if Col(p, mem, row, i) == column then Val(p, mem, row, i) else 0;
    SumToSingle(NatLength(p, mem, row / 4), j, f);
    SumToEqual(NatLength(p, mem, row / 4), f, i => if Col(p, mem, row, i) == column then Val(p, mem, row, i) else 0);
  }

  ghost predicate EntryInRange(p: Problem, mem: Memory, row: int, j: int) {
    0 <= row < p.Rows() && 0 <= j < NatLength(p, mem, row / 4)
  }

  lemma AtLike(p: Problem, d: Memory, mem: Memory, row: int, column: int)
    requires Given(p, mem) && Reference(p, 0, d, mem) && 0 <= row < p.Rows() && 0 <= column < p.Columns()
    ensures Like(p, At(p, d, row, column), mem) && forall v :: v in p.Indices() ==> IndexIn(p, At(p, d, row, column), v)
    ensures Load(At(p, d, row, column), Scalar(p.row)) == row && Load(At(p, d, row, column), Scalar(p.column)) == column
    ensures Load(At(p, d, row, column), Location(p.tensor, [row, column])) == Entry(p, mem, row, column)
  {
    hide Stored, Vanishes, NatLength, Position, Entry;
    IndicesDiffer(p);
    var e := At(p, d, row, column);
    assert p.row in p.Indices() && p.column in p.Indices();
    forall v | v in p.Indices()
      ensures IndexIn(p, e, v)
    {
      if v != p.row && v != p.column {
        var q :| 0 <= q < |p.dense| && p.dense[q] == v;
        assert IndexIn(p, d, p.dense[q]);
      }
    }
  }

  /** The value of the summand with the stored entry in place of the matrix element. */
  lemma SummandAtEntry(p: Problem, first: VarId, a: Memory, d: Memory, mem: Memory, row: int, j: int)
    requires Inside(p, first, 0, a, d, mem) && EntryInRange(p, mem, row, j)
    ensures IsInt(Eval(p.body, AtValue(p, mem, d, row, j)))
    ensures IntOf(Eval(p.body, AtValue(p, mem, d, row, j))) ==
            if Val(p, mem, row, j) == 0 then 0 else IntOf(Eval(p.body, At(p, d, row, Col(p, mem, row, j))))
  {
    assert RowOk(p, mem, row) && EntryOk(p, mem, row, j);
    var column, v := Col(p, mem, row, j), Val(p, mem, row, j);
    AtLike(p, d, mem, row, column);
    var e, e' := At(p, d, row, column), AtValue(p, mem, d, row, j);
    assert Like(p, e', mem) && (forall v :: v in p.Indices() ==> IndexIn(p, e', v)) by {
      assert forall v: VarId :: Load(e', Scalar(v)) == Load(e, Scalar(v));
    }
    assert Load(e', Element(p, e')) == v;
    if v != 0 {
      EntryIsElement(p, mem, row, j);
      EvalSame(p.body, e, e');
    }
  }

  /** The substituted summand has that value at run time. */
  lemma NewSummandValue(p: Problem, first: VarId, a: Memory, d: Memory, mem: Memory, row: int, j: int)
    requires Inside(p, first, 0, a, d, mem) && EntryInRange(p, mem, row, j) && AtEntry(p, first, a, row, j)
    ensures Eval(NewSummand(p, first), a) == Eval(p.body, AtValue(p, mem, d, row, j))
  {
    hide Stored, Vanishes, HoldsMatrix, NatLength, Position, Eval, EvalIndices, Like, Pulled, ReplaceTensor, Subst, MapOf, SparseIndex, Element, AtEntry;
    var column := Col(p, mem, row, j);
    var entry, b, e := EntryAccess(p, first), Overlay(p, first, a, At(p, d, row, column)), AtValue(p, mem, d, row, j);
    var summand := ReplaceTensor(p.body, p.tensor, entry);
    ArrayAtIndexReads(p.sell.val, p.sell, first);
    ReplacedReads(p.body, p.tensor, entry);
    ReplacedAvoids(p, p.body, entry);
    MapPulls(p, first, a, d, mem, row, j, Reads(summand));
    EvalSubst(summand, MapOf(p, first), a, b);
    assert Eval(entry, b) == Some(Int(Load(e, Element(p, e)))) by {
      EntryInOverlay(p, first, a, d, mem, row, j);
    }
    assert forall l: Location :: l.Dimension? || (l.base in Reads(p.body) && l.base != p.tensor) ==> Load(b, l) == Load(e, l);
    EvalReplaced(p, p.body, entry, b, e);
  }

  lemma EntryInOverlay(p: Problem, first: VarId, a: Memory, d: Memory, mem: Memory, row: int, j: int)
    requires WellFormed(p) && Related(p, first, 0, a, d) && Like(p, d, mem) && AtEntry(p, first, a, row, j)
    ensures var b, e := Overlay(p, first, a, At(p, d, row, Col(p, mem, row, j))), AtValue(p, mem, d, row, j);
            Eval(EntryAccess(p, first), b) == Some(Int(Load(e, Element(p, e))))
  {
    var column := Col(p, mem, row, j);
    var d' := At(p, d, row, column);
    var b, e := Overlay(p, first, a, d'), AtValue(p, mem, d, row, j);
    IndicesDiffer(p);
    assert Element(p, e) == Location(p.tensor, [row, column]);
    SparseIndexValue(p, first, b, row, j);
    OverlaySell(p, first, a, d, mem, row, column, row, j);
  }

  lemma OverlaySell(p: Problem, first: VarId, a: Memory, d: Memory, mem: Memory, r: int, column: int, row: int, j: int)
    requires WellFormed(p) && Related(p, first, 0, a, d) && Like(p, d, mem)
    ensures Val(p, Overlay(p, first, a, At(p, d, r, column)), row, j) == Val(p, mem, row, j)
  {
    var b := Overlay(p, first, a, At(p, d, r, column));
    assert forall v: VarId, i: int :: Load(b, Location(v, [i])) == Load(d, Location(v, [i]));
    hide Overlay, At;
    OverlayArrays(p, d, mem, b, p.sell.cs, row / 4);
    OverlayArrays(p, d, mem, b, p.sell.val, Position(p, mem, row, j));
  }

  lemma OverlayArrays(p: Problem, d: Memory, mem: Memory, b: Memory, v: VarId, i: int)
    requires WellFormed(p) && Like(p, d, mem) && v in p.Arrays() && Load(b, Location(v, [i])) == Load(d, Location(v, [i]))
    ensures Load(b, Location(v, [i])) == Load(mem, Location(v, [i]))
  {
  }

  lemma {:induction false} ValuesSame(vs: seq<VarId>, a: Memory, b: Memory)
    requires forall v :: v in vs ==> Load(a, Scalar(v)) == Load(b, Scalar(v))
    ensures Values(vs, a) == Values(vs, b)
  {
    if vs != [] {
      ValuesSame(vs[1..], a, b);
    }
  }

  lemma NewIndicesValue(p: Problem, first: VarId, a: Memory, d: Memory, mem: Memory, row: int, j: int)
    requires Inside(p, first, 0, a, d, mem) && AtEntry(p, first, a, row, j)
    ensures EvalIndices(NewIndices(p, first), a) == Some(Values(p.lhs, At(p, d, row, Col(p, mem, row, j))))
  {
    hide Stored, Vanishes, HoldsMatrix, NatLength, Position, Eval, EvalIndices, Refs, Values, Like, AtEntry, Pulled, Subst, MapOf, Reads, Col, Pure, OnlyUse;
    var e := At(p, d, row, Col(p, mem, row, j));
    var b := Overlay(p, first, a, e);
    RefsReads(p.lhs);
    assert forall v :: v in p.Indices() ==> v < p.next && v != p.tensor;
    MapPulls(p, first, a, d, mem, row, j, ReadsAll(Refs(p.lhs)));
    EvalSubstAll(Refs(p.lhs), MapOf(p, first), a, b);
    RefsValue(p.lhs, b);
    ValuesSame(p.lhs, b, e);
  }

  lemma InsideFacts(p: Problem, first: VarId, a: Memory, d: Memory, mem: Memory)
    requires Inside(p, first, 0, a, d, mem)
    ensures p.c != p.tensor && p.c !in p.Indices() && Distinct(p.Indices())
  {
  }

  /** One pass through the innermost loop body adds the contribution of one stored entry. */
  lemma StatementAdds(p: Problem, first: VarId, t: seq<int>, a: Memory, d: Memory, mem: Memory, row: int, j: int)
    requires Inside(p, first, 0, a, d, mem) && EntryInRange(p, mem, row, j) && AtEntry(p, first, a, row, j)
    ensures Adds(NewStatement(p, first), t, a, EntryValue(p, t, mem, d, row, j))
  {
    hide Stored, Vanishes, HoldsMatrix, WellFormed, Related, Like, AtEntry, NewStatement, NewIndices, NewSummand, Values;
    assert p.c != p.tensor && p.c !in p.Indices() && Distinct(p.Indices()) by { InsideFacts(p, first, a, d, mem); }
    StatementShape(p, first);
    SummandAtEntry(p, first, a, d, mem, row, j);
    NewSummandValue(p, first, a, d, mem, row, j);
    NewIndicesValue(p, first, a, d, mem, row, j);
  }

  // The block loops.

  function Lengths(p: Problem, mem: Memory): int -> nat { q => NatLength(p, mem, q) }

  function EntryValues(p: Problem, t: seq<int>, mem: Memory, d: Memory): (int, int) -> int {
    (row, j) => EntryValue(p, t, mem, d, row, j)
  }

  lemma StillInside(p: Problem, first: VarId, k: nat, a: Memory, d: Memory, mem: Memory, v: VarId, i: int)
    requires Inside(p, first, k, a, d, mem) && first <= v < first + 3 + k
    ensures Inside(p, first, k, With(a, v, i), d, mem)
  {
    assert OutOfReach(p, Scalar(v));
  }

  /** The loop over the rows of a block; `w` is its width. */
  lemma LanesAdd(p: Problem, first: VarId, t: seq<int>, a: Memory, d: Memory, mem: Memory, q: nat, j: nat, loop: Expr, w: nat)
    requires Inside(p, first, 0, a, d, mem) && j < NatLength(p, mem, q)
    requires Load(a, Scalar(first)) == q * 4 && Load(a, Scalar(first + 2)) == j
    requires loop.For? && loop.idx == first + 1 && loop.lower == IntLit(0) && loop.increment == IntLit(1)
    requires loop.body == NewStatement(p, first) && Eval(loop.upper, a) == Some(Int(w)) && w <= 4 && q * 4 + w <= p.Rows()
    ensures Adds(loop, t, a, SumTo(w, LanePart(EntryValues(p, t, mem, d), q * 4, j)))
  {
    hide Stored, Vanishes, HoldsMatrix, WellFormed, Related, Like, Adds, NewStatement;
    var g := LanePart(EntryValues(p, t, mem, d), q * 4, j);
    forall z | 0 <= z < w
      ensures Adds(loop.body, t, With(a, first + 1, z), g(z))
    {
      StillInside(p, first, 0, a, d, mem, first + 1, z);
      var row := q * 4 + z;
      assert row / 4 == q && row % 4 == z;
      StatementAdds(p, first, t, With(a, first + 1, z), d, mem, row, j);
    }
    CountingLoopAdds(loop, t, a, w, g);
  }

  function Width(p: Problem, kind: Kind): nat { if kind.Vectorizable? then 4 else p.Rows() % 4 }

  lemma RowsValue(p: Problem, first: VarId, k: nat, a: Memory, d: Memory, mem: Memory)
    requires Inside(p, first, k, a, d, mem)
    ensures Eval(Extent0(p.sell), a) == Some(Int(p.Rows()))
    ensures Eval(Rounded(p.sell), a) == Some(Int(p.Rows() / 4 * 4))
    ensures Eval(Binary(Modulus, Extent0(p.sell), IntLit(BLOCK_WIDTH)), a) == Some(Int(p.Rows() % 4))
  {
    SellArrays(p, a, d, mem, first, k, p.sell.shape, 0);
    LoadOne(p.sell.shape, IntLit(0), 0, a);
    Apply(Divides, Extent0(p.sell), IntLit(BLOCK_WIDTH), p.Rows(), 4, a);
    Apply(Multiplies, Over(Extent0(p.sell), IntLit(BLOCK_WIDTH)), IntLit(BLOCK_WIDTH), p.Rows() / 4, 4, a);
    Apply(Modulus, Extent0(p.sell), IntLit(BLOCK_WIDTH), p.Rows(), 4, a);
  }

  lemma LengthValue(p: Problem, first: VarId, a: Memory, d: Memory, mem: Memory, q: nat)
    requires Inside(p, first, 0, a, d, mem) && Load(a, Scalar(first)) == q * 4
    ensures Eval(Access(p.sell.cl, [Over(Ref(first), IntLit(BLOCK_WIDTH))]), a) == Some(Int(Length(p, mem, q)))
  {
    RefValue(first, a);
    Apply(Divides, Ref(first), IntLit(BLOCK_WIDTH), q * 4, 4, a);
    LoadOne(p.sell.cl, Over(Ref(first), IntLit(BLOCK_WIDTH)), q, a);
    SellArrays(p, a, d, mem, first, 0, p.sell.cl, q);
  }

  /** The loops inside the one over the blocks. */
  lemma PositionsAdd(p: Problem, first: VarId, kind: Kind, t: seq<int>, a: Memory, d: Memory, mem: Memory, q: nat)
    requires Inside(p, first, 0, a, d, mem) && Load(a, Scalar(first)) == q * 4 && q * 4 + Width(p, kind) <= p.Rows()
    ensures Adds(BlockLoops(p.sell, kind, first, NewStatement(p, first)).body, t, a,
                 BlockSum(q, Width(p, kind), Lengths(p, mem), EntryValues(p, t, mem, d)))
  {
    hide Stored, Vanishes, HoldsMatrix, WellFormed, Related, Like, Adds, NewStatement, LanePart, EntryValues, LaneSums, SumTo, Eval;
    var middle := BlockLoops(p.sell, kind, first, NewStatement(p, first)).body;
    var w, h := Width(p, kind), EntryValues(p, t, mem, d);
    LengthValue(p, first, a, d, mem, q);
    forall j | 0 <= j < Length(p, mem, q)
      ensures Adds(middle.body, t, With(a, first + 2, j), SumTo(w, LanePart(h, q * 4, j)))
    {
      var a' := With(a, first + 2, j);
      StillInside(p, first, 0, a, d, mem, first + 2, j);
      assert Eval(middle.body.upper, a') == Some(Int(w)) by {
        RowsValue(p, first, 0, a', d, mem);
        LiteralValue(BLOCK_WIDTH, a');
      }
      LanesAdd(p, first, t, a', d, mem, q, j, middle.body, w);
    }
    LaneSumsAre(q, w, h);
    CountingLoopAdds(middle, t, a, Length(p, mem, q), LaneSums(q, w, h));
  }

  lemma LiteralValue(i: int, a: Memory)
    ensures Eval(IntLit(i), a) == Some(Int(i))
  {
  }

  lemma LaneSumsAre(q: int, w: nat, h: (int, int) -> int)
    ensures forall j :: LaneSums(q, w, h)(j) == SumTo(w, LanePart(h, q * 4, j))
  {
  }

  /** What the block loops contribute for given dense indices. */
  function KindValue(p: Problem, kind: Kind, t: seq<int>, mem: Memory, d: Memory): int {
    if kind.Vectorizable? then SumTo(p.Rows() / 4, BlockSums(Lengths(p, mem), EntryValues(p, t, mem, d)))
    else BlockSum(p.Rows() / 4, p.Rows() % 4, Lengths(p, mem), EntryValues(p, t, mem, d))
  }

  lemma BlocksAdd(p: Problem, first: VarId, kind: Kind, t: seq<int>, a: Memory, d: Memory, mem: Memory)
    requires Inside(p, first, 0, a, d, mem)
    ensures Adds(BlockLoops(p.sell, kind, first, NewStatement(p, first)), t, a, KindValue(p, kind, t, mem, d))
  {
    hide Stored, Vanishes, HoldsMatrix, WellFormed, Related, Like, Adds, NewStatement, EntryValues, BlockSum, Eval;
    var e := BlockLoops(p.sell, kind, first, NewStatement(p, first));
    var n, w, length, h := p.Rows(), Width(p, kind), Lengths(p, mem), EntryValues(p, t, mem, d);
    RowsValue(p, first, 0, a, d, mem);
    LiteralValue(0, a);
    var start := if kind.Vectorizable? then 0 else n / 4;
    var steps := if kind.Vectorizable? then n / 4 else if w > 0 then 1 else 0;
    var at := (q: int) => (start + q) * 4;
    var g := (q: int) => BlockSum(start + q, w, length, h);
    forall q: int | 0 <= q < steps
      ensures Adds(e.body, t, With(a, first, at(q)), g(q))
    {
      StillInside(p, first, 0, a, d, mem, first, at(q));
      PositionsAdd(p, first, kind, t, With(a, first, at(q)), d, mem, start + q);
    }
    var u := if kind.Vectorizable? then n / 4 * 4 else n;
    assert Iterates(e, t, a, u, steps, at, g);
    LoopAdds(e, t, a, u, steps, at, g);
    if kind.Vectorizable? {
      SumToEqual(steps, g, BlockSums(length, h));
    } else if w > 0 {
      assert SumTo(1, g) == g(0);
    } else {
      EmptyBlock(n / 4, length, h);
    }
  }

  lemma EmptyBlock(q: int, length: int -> nat, h: (int, int) -> int)
    ensures BlockSum(q, 0, length, h) == 0
  {
    SumToZero(length(q), LaneSums(q, 0, h));
  }
}
