/** The lowered sparse contraction leaves the dense contraction in every element. */
module SparseCorrectness {
  import opened Wrappers
  import opened Qir
  import opened QirRun
  import opened SumLowering
  import opened IntSums
  import opened IndexSums
  import opened SparseLowering
  import opened SparseMeaning
  import opened SparseLoops
  import opened SparseNest

  // The loops over the dense indices.

  /** The first `n` variables, the last one first. */
  function LastFirst(vs: seq<VarId>, n: nat): seq<VarId>
    requires n <= |vs|
  {
    if n == 0 then [] else [vs[n - 1]] + LastFirst(vs, n - 1)
  }

  function KindValues(p: Problem, kind: Kind, t: seq<int>, mem: Memory): Memory -> int { d => KindValue(p, kind, t, mem, d) }

  function Contributions(p: Problem, t: seq<int>): Memory -> int { d => Contribution(p, t, d) }

  /** Setting one more dense index. */
  lemma NextReference(p: Problem, k: nat, d: Memory, mem: Memory, i: int)
    requires WellFormed(p) && 0 < k <= |p.dense| && Reference(p, k, d, mem) && 0 <= i < p.x(p.dense[k - 1])
    ensures Reference(p, k - 1, With(d, p.dense[k - 1], i), mem)
  {
    var v, d' := p.dense[k - 1], With(d, p.dense[k - 1], i);
    assert v in p.Indices() && v != p.tensor;
    forall q | k - 1 <= q < |p.dense|
      ensures IndexIn(p, d', p.dense[q])
    {
      if q >= k {
        assert IndexIn(p, d, p.dense[q]);
        assert p.Indices()[q] == p.dense[q] && p.Indices()[k - 1] == v;
      }
    }
  }

  lemma NextRelated(p: Problem, first: VarId, k: nat, a: Memory, d: Memory, i: int)
    requires WellFormed(p) && 0 < k <= |p.dense| && Related(p, first, k, a, d)
    ensures Related(p, first, k - 1, With(a, first + 3 + k - 1, i), With(d, p.dense[k - 1], i))
  {
    var v := p.dense[k - 1];
    assert v in p.Indices();
    forall q | k <= q < |p.dense|
      ensures p.dense[q] != v
    {
      assert p.Indices()[q] == p.dense[q] && p.Indices()[k - 1] == v;
    }
  }

  lemma BoundValue(p: Problem, first: VarId, k: nat, a: Memory, d: Memory, mem: Memory, v: VarId)
    requires Inside(p, first, k, a, d, mem) && v in p.dense
    ensures Eval(Bound(v, p.Statement()), a) == Some(Int(p.x(v)))
  {
    assert RangeFits(v, p.Statement(), mem, p.x);
    assert forall l: Location :: l.Dimension? ==> Load(a, l) == Load(mem, l);
  }

  function Nest(p: Problem, first: VarId, kind: Kind, k: nat): Expr
    requires k <= |p.dense|
  {
    DenseLoops(p.dense, k, p.Statement(), first + 3, BlockLoops(p.sell, kind, first, NewStatement(p, first)))
  }

  lemma {:induction false} NestAdds(p: Problem, first: VarId, kind: Kind, t: seq<int>, k: nat, a: Memory, d: Memory, mem: Memory)
    requires k <= |p.dense| && Inside(p, first, k, a, d, mem)
    ensures Adds(Nest(p, first, kind, k), t, a, Total(LastFirst(p.dense, k), KindValues(p, kind, t, mem), d, p.x))
    decreases k
  {
    hide Given, Related, Reference, Adds, NewStatement, KindValue, BlockLoops, Bound, Eval;
    if k == 0 {
      BlocksAdd(p, first, kind, t, a, d, mem);
    } else {
      var v, rest, f := p.dense[k - 1], LastFirst(p.dense, k - 1), KindValues(p, kind, t, mem);
      var loop, g := Nest(p, first, kind, k), (i: int) => Total(rest, f, With(d, v, i), p.x);
      BoundValue(p, first, k, a, d, mem, v);
      forall i | 0 <= i < p.x(v)
        ensures Adds(loop.body, t, With(a, loop.idx, i), g(i))
      {
        NextInside(p, first, k, a, d, mem, i);
        NestAdds(p, first, kind, t, k - 1, With(a, loop.idx, i), With(d, v, i), mem);
      }
      CountingLoopAdds(loop, t, a, p.x(v), g);
      TotalUnfolds(v, rest, f, d, p.x, g);
    }
  }

  lemma NextInside(p: Problem, first: VarId, k: nat, a: Memory, d: Memory, mem: Memory, i: int)
    requires 0 < k <= |p.dense| && Inside(p, first, k, a, d, mem) && 0 <= i < p.x(p.dense[k - 1])
    ensures Inside(p, first, k - 1, With(a, first + 3 + k - 1, i), With(d, p.dense[k - 1], i), mem)
  {
    NextReference(p, k, d, mem, i);
    NextRelated(p, first, k, a, d, i);
  }

  // The entries of a row are the row of the matrix.

  lemma EmptyColumn(p: Problem, t: seq<int>, mem: Memory, d: Memory, row: int, column: int)
    requires Given(p, mem) && Reference(p, 0, d, mem) && 0 <= row < p.Rows() && 0 <= column < p.Columns()
    requires forall j :: 0 <= j < NatLength(p, mem, row / 4) && Val(p, mem, row, j) != 0 ==> Col(p, mem, row, j) != column
    ensures Contribution(p, t, At(p, d, row, column)) == 0
  {
    AtLike(p, d, mem, row, column);
    SumToZero(NatLength(p, mem, row / 4), j => if Col(p, mem, row, j) == column then Val(p, mem, row, j) else 0);
    assert Entry(p, mem, row, column) == 0;
    assert Load(At(p, d, row, column), Element(p, At(p, d, row, column))) == 0;
  }

  lemma RowKeys(p: Problem, mem: Memory, row: int)
    requires Given(p, mem) && 0 <= row < p.Rows()
    ensures forall j :: 0 <= j < NatLength(p, mem, row / 4) ==> 0 <= Col(p, mem, row, j) < p.Columns()
    ensures forall i, j :: 0 <= i < j < NatLength(p, mem, row / 4) && Val(p, mem, row, i) != 0 && Val(p, mem, row, j) != 0 ==>
              Col(p, mem, row, i) != Col(p, mem, row, j)
  {
    hide Vanishes, WellFormed, Position, Length;
    assert RowOk(p, mem, row);
    forall i, j | 0 <= i < j < NatLength(p, mem, row / 4) && Val(p, mem, row, i) != 0 && Val(p, mem, row, j) != 0
      ensures Col(p, mem, row, i) != Col(p, mem, row, j)
    {
      assert EntryOk(p, mem, row, j);
    }
    forall j | 0 <= j < NatLength(p, mem, row / 4)
      ensures 0 <= Col(p, mem, row, j) < p.Columns()
    {
      assert EntryOk(p, mem, row, j);
    }
  }

  function Stands(p: Problem, mem: Memory, row: int): int -> bool { j => Val(p, mem, row, j) != 0 }

  function Keys(p: Problem, mem: Memory, row: int): int -> int { j => Col(p, mem, row, j) }

  /** Over the stored entries of a row or over all its columns: the contributions are the same. */
  lemma RowContributions(p: Problem, t: seq<int>, mem: Memory, d: Memory, row: int)
    requires Given(p, mem) && Reference(p, 0, d, mem) && 0 <= row < p.Rows()
    ensures RowSum(Lengths(p, mem), EntryValues(p, t, mem, d), row) == Total([p.column], Contributions(p, t), With(d, p.row, row), p.x)
  {
    var n, f := NatLength(p, mem, row / 4), (column: int) => Contribution(p, t, At(p, d, row, column));
    EntriesAreRow(p, t, mem, d, row, f);
    hide Given, Reference, Val, Col, Contribution, NatLength;
    TotalUnfolds(p.column, [], Contributions(p, t), With(d, p.row, row), p.x, f);
  }

  /** A column that no entry of the row stands for contributes nothing. */
  lemma EmptyColumns(p: Problem, t: seq<int>, mem: Memory, d: Memory, row: int, f: int -> int)
    requires Given(p, mem) && Reference(p, 0, d, mem) && 0 <= row < p.Rows()
    requires forall column :: f(column) == Contribution(p, t, At(p, d, row, column))
    ensures var n, key, stands := NatLength(p, mem, row / 4), Keys(p, mem, row), Stands(p, mem, row);
            forall c :: 0 <= c < p.Columns() && (forall j :: 0 <= j < n && stands(j) ==> key(j) != c) ==> f(c) == 0
  {
    var n, key, stands := NatLength(p, mem, row / 4), Keys(p, mem, row), Stands(p, mem, row);
    forall c | 0 <= c < p.Columns() && (forall j :: 0 <= j < n && stands(j) ==> key(j) != c)
      ensures f(c) == 0
    {
      assert forall j :: 0 <= j < n && Val(p, mem, row, j) != 0 ==> stands(j) && key(j) == Col(p, mem, row, j);
      EmptyColumn(p, t, mem, d, row, c);
    }
  }

  lemma EntriesAreRow(p: Problem, t: seq<int>, mem: Memory, d: Memory, row: int, f: int -> int)
    requires Given(p, mem) && Reference(p, 0, d, mem) && 0 <= row < p.Rows()
    requires forall column :: f(column) == Contribution(p, t, At(p, d, row, column))
    ensures RowSum(Lengths(p, mem), EntryValues(p, t, mem, d), row) == SumTo(p.Columns(), f)
  {
    var n, key, stands := NatLength(p, mem, row / 4), Keys(p, mem, row), Stands(p, mem, row);
    RowKeys(p, mem, row);
    EmptyColumns(p, t, mem, d, row, f);
    hide Given, Reference, Val, Col, Contribution, NatLength, SumTo;
    SumByKey(n, p.Columns(), key, stands, f);
    SumToEqual(n, RowPart(EntryValues(p, t, mem, d), row), j => if stands(j) then f(key(j)) else 0);
  }

  /** Full blocks and remainder together make up the sum over all rows and columns. */
  lemma KindsTogether(p: Problem, t: seq<int>, mem: Memory, d: Memory)
    requires Given(p, mem) && Reference(p, 0, d, mem)
    ensures KindValue(p, Vectorizable, t, mem, d) + KindValue(p, Remainder, t, mem, d) ==
            Total([p.row, p.column], Contributions(p, t), d, p.x)
  {
    hide Given, Reference, RowSum, EntryValues, Lengths, Total;
    var length, h := Lengths(p, mem), EntryValues(p, t, mem, d);
    BlocksCoverRows(p.Rows(), length, h);
    forall row | 0 <= row < p.Rows()
      ensures RowSums(length, h)(row) == Total([p.column], Contributions(p, t), With(d, p.row, row), p.x)
    {
      RowContributions(p, t, mem, d, row);
    }
    TotalUnfolds(p.row, [p.column], Contributions(p, t), d, p.x, RowSums(length, h));
    assert [p.row] + [p.column] == [p.row, p.column];
  }

  lemma {:induction false} NestsTogether(p: Problem, t: seq<int>, k: nat, mem: Memory, d: Memory)
    requires k <= |p.dense| && Given(p, mem) && Reference(p, k, d, mem)
    ensures Total(LastFirst(p.dense, k), KindValues(p, Vectorizable, t, mem), d, p.x) +
            Total(LastFirst(p.dense, k), KindValues(p, Remainder, t, mem), d, p.x) ==
            Total(LastFirst(p.dense, k) + [p.row, p.column], Contributions(p, t), d, p.x)
    decreases k
  {
    hide Given, Reference, KindValue, Contribution;
    if k == 0 {
      KindsTogether(p, t, mem, d);
      assert [] + [p.row, p.column] == [p.row, p.column];
    } else {
      var v, rest := p.dense[k - 1], LastFirst(p.dense, k - 1);
      var full, left := KindValues(p, Vectorizable, t, mem), KindValues(p, Remainder, t, mem);
      var f, g := (i: int) => Total(rest, full, With(d, v, i), p.x), (i: int) => Total(rest, left, With(d, v, i), p.x);
      forall i | 0 <= i < p.x(v)
        ensures f(i) + g(i) == Total(rest + [p.row, p.column], Contributions(p, t), With(d, v, i), p.x)
      {
        assert WellFormed(p) by { GivenFacts(p, mem); }
        NextReference(p, k, d, mem, i);
        NestsTogether(p, t, k - 1, mem, With(d, v, i));
      }
      TotalUnfolds(v, rest, full, d, p.x, f);
      TotalUnfolds(v, rest, left, d, p.x, g);
      SumToAdd(p.x(v), f, g);
      TotalUnfolds(v, rest + [p.row, p.column], Contributions(p, t), d, p.x, i => f(i) + g(i));
      assert [v] + (rest + [p.row, p.column]) == LastFirst(p.dense, k) + [p.row, p.column];
    }
  }

  lemma GivenFacts(p: Problem, mem: Memory)
    requires Given(p, mem)
    ensures WellFormed(p)
  {
  }
}
