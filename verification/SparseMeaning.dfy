/** The SELL loops compute the contraction with the matrix that the SELL arrays stand for. */
module SparseMeaning {
  import opened Qir
  import opened QirRun
  import opened TensorCode
  import opened SumLowering
  import opened IntSums
  import opened SparseLowering

  /** The contraction: element `lhs` of `c` is the sum of `body` over the remaining indices;
      `tensor` is stored in `sell` and used as `tensor[row, column]`; index `v` ranges below `x(v)`
      and variables from `next` on are unused. */
  datatype Problem = Problem(c: VarId, lhs: seq<VarId>, body: Expr, tensor: VarId, dense: seq<VarId>,
                             row: VarId, column: VarId, sell: Sell, x: VarId -> nat, next: VarId)
  {
    function Indices(): seq<VarId> { dense + [row, column] }

    function Arrays(): set<VarId> { {sell.val, sell.col, sell.cs, sell.cl, sell.shape} }

    function Statement(): Expr { Accumulate(c, Refs(lhs), body) }

    function Rows(): nat { x(row) }

    function Columns(): nat { x(column) }
  }

  /** Every access to `tensor` is `tensor[row, column]`. */
  predicate OnlyUse(e: Expr, tensor: VarId, row: VarId, column: VarId) {
    match e
    case Access(base, indices) =>
      if base == tensor then indices == [Ref(row), Ref(column)]
      else forall k :: 0 <= k < |indices| ==> OnlyUse(indices[k], tensor, row, column)
    case Binary(_, a, b) => OnlyUse(a, tensor, row, column) && OnlyUse(b, tensor, row, column)
    case Unary(_, a) => OnlyUse(a, tensor, row, column)
    case Delta(_, a, b) => OnlyUse(a, tensor, row, column) && OnlyUse(b, tensor, row, column)
    case _ => true
  }

  ghost predicate WellFormed(p: Problem) {
    && Distinct(p.Indices()) && (forall v :: v in p.lhs ==> v in p.Indices())
    && Pure(p.body) && OnlyUse(p.body, p.tensor, p.row, p.column)
    && p.c !in Reads(p.body) && p.c != p.tensor && p.c !in p.Indices() && p.tensor !in p.Indices()
    && (forall v :: v in p.Arrays() ==> v !in p.Indices() && v != p.c && v != p.tensor && v < p.next)
    && p.c < p.next && p.tensor < p.next
    && (forall v :: v in p.Indices() || v in Reads(p.body) ==> v < p.next)
  }

  // The matrix in SELL storage.

  /** Number of entries stored for each row of block `q`. */
  function Length(p: Problem, mem: Memory, q: int): int { Load(mem, Location(p.sell.cl, [q])) }

  function Position(p: Problem, mem: Memory, row: int, j: int): int {
    Load(mem, Location(p.sell.cs, [row / 4])) + j * 4 + row % 4
  }

  function Val(p: Problem, mem: Memory, row: int, j: int): int { Load(mem, Location(p.sell.val, [Position(p, mem, row, j)])) }

  function Col(p: Problem, mem: Memory, row: int, j: int): int { Load(mem, Location(p.sell.col, [Position(p, mem, row, j)])) }

  function NatLength(p: Problem, mem: Memory, q: int): nat {
    if Length(p, mem, q) > 0 then Length(p, mem, q) else 0
  }

  /** The matrix element at (row, column): the stored entries of that column, padding adding 0. */
  function Entry(p: Problem, mem: Memory, row: int, column: int): int {
    SumTo(NatLength(p, mem, row / 4), j => if Col(p, mem, row, j) == column then Val(p, mem, row, j) else 0)
  }

  /** Entry `j` of `row` is in range and, unless it is padding, the only one in its column. */
  ghost predicate EntryOk(p: Problem, mem: Memory, row: int, j: int) {
    && 0 <= Col(p, mem, row, j) < p.Columns()
    && (Val(p, mem, row, j) != 0 ==>
          forall k :: 0 <= k < NatLength(p, mem, row / 4) && k != j && Col(p, mem, row, k) == Col(p, mem, row, j) ==>
            Val(p, mem, row, k) == 0)
  }

  ghost predicate RowOk(p: Problem, mem: Memory, row: int) {
    forall j :: 0 <= j < NatLength(p, mem, row / 4) ==> EntryOk(p, mem, row, j)
  }

  ghost predicate Stored(p: Problem, mem: Memory) {
    && Load(mem, Location(p.sell.shape, [0])) == p.Rows()
    && (forall row :: 0 <= row < p.Rows() ==> RowOk(p, mem, row))
    && (forall k :: 0 <= k < |p.lhs| ==> Load(mem, Dimension(p.c, k)) == p.x(p.lhs[k]))
    && (forall d :: d in p.dense ==> RangeFits(d, p.Statement(), mem, p.x))
  }

  /** `d` differs from `mem` only in indices and in elements of the sparse tensor. */
  ghost predicate Like(p: Problem, d: Memory, mem: Memory) {
    forall l: Location :: IsElementOf(l, p.tensor) || IsScalarOf(l, set v | v in p.Indices()) || Load(d, l) == Load(mem, l)
  }

  ghost predicate IndexIn(p: Problem, d: Memory, v: VarId) { 0 <= Load(d, Scalar(v)) < p.x(v) }

  function Element(p: Problem, d: Memory): Location {
    Location(p.tensor, [Load(d, Scalar(p.row)), Load(d, Scalar(p.column))])
  }

  /** For all values of the indices the body has a value, which is 0 if the sparse element is. */
  ghost predicate Vanishes(p: Problem, mem: Memory) {
    forall d :: Like(p, d, mem) && (forall v :: v in p.Indices() ==> IndexIn(p, d, v)) ==>
      IsInt(Eval(p.body, d)) && (Load(d, Element(p, d)) == 0 ==> IntOf(Eval(p.body, d)) == 0)
  }

  ghost predicate HoldsMatrix(p: Problem, d: Memory, mem: Memory) {
    forall r, k :: 0 <= r < p.Rows() && 0 <= k < p.Columns() ==>
      Load(d, Location(p.tensor, [r, k])) == Entry(p, mem, r, k)
  }

  /** What the indices in `d` contribute to element `t`. */
  function Contribution(p: Problem, t: seq<int>, d: Memory): int {
    if Values(p.lhs, d) == t then IntOf(Eval(p.body, d)) else 0
  }

  // Sums over the rows, block by block.

  /** The entries of one row. */
  function RowPart(h: (int, int) -> int, row: int): int -> int { j => h(row, j) }

  /** The entries at one position of consecutive rows. */
  function LanePart(h: (int, int) -> int, row: int, j: int): int -> int { z => h(row + z, j) }

  function RowSum(length: int -> nat, h: (int, int) -> int, row: int): int {
    SumTo(length(row / 4), RowPart(h, row))
  }

  function LaneSums(q: int, w: nat, h: (int, int) -> int): int -> int { j => SumTo(w, LanePart(h, q * 4, j)) }

  /** What the two inner loops add up for `w` rows of block `q`. */
  function BlockSum(q: int, w: nat, length: int -> nat, h: (int, int) -> int): int {
    SumTo(length(q), LaneSums(q, w, h))
  }

  function RowSums(length: int -> nat, h: (int, int) -> int): int -> int { r => RowSum(length, h, r) }

  function BlockSums(length: int -> nat, h: (int, int) -> int): int -> int { q => BlockSum(q, 4, length, h) }

  lemma BlockRows(q: nat, w: nat, length: int -> nat, h: (int, int) -> int, g: int -> int)
    requires w <= 4 && forall z :: 0 <= z < w ==> g(z) == RowSum(length, h, q * 4 + z)
    ensures BlockSum(q, w, length, h) == SumTo(w, g)
  {
    var f, f' := (j: int) => LanePart(h, q * 4, j), (z: int) => RowPart(h, q * 4 + z);
    forall z | 0 <= z < w
      ensures g(z) == SumTo(length(q), f'(z))
    {
      assert (q * 4 + z) / 4 == q;
    }
    forall j, z | 0 <= j < length(q) && 0 <= z < w
      ensures f(j)(z) == f'(z)(j)
    {
      assert LanePart(h, q * 4, j)(z) == h(q * 4 + z, j);
      assert RowPart(h, q * 4 + z)(j) == h(q * 4 + z, j);
    }
    SumToExchange(length(q), w, f, f', LaneSums(q, w, h), g);
  }

  lemma ShiftedRows(q: nat, w: nat, length: int -> nat, h: (int, int) -> int)
    requires w <= 4
    ensures BlockSum(q, w, length, h) == SumTo(w, Shifted(RowSums(length, h), q * 4))
  {
    var g := Shifted(RowSums(length, h), q * 4);
    forall z | 0 <= z < w
      ensures g(z) == RowSum(length, h, q * 4 + z)
    {
      assert RowSums(length, h)(q * 4 + z) == RowSum(length, h, q * 4 + z);
    }
    BlockRows(q, w, length, h, g);
  }

  /** Block by block, every row below `n` is visited exactly once, as `i + ii`, also if `n` is no
      multiple of the block width. */
  lemma BlocksCoverRows(n: nat, length: int -> nat, h: (int, int) -> int)
    ensures SumTo(n / 4, BlockSums(length, h)) + BlockSum(n / 4, n % 4, length, h) == SumTo(n, RowSums(length, h))
  {
    CoverRows(n, n / 4, n % 4, BlockSums(length, h), RowSums(length, h), BlockSum(n / 4, n % 4, length, h)) by {
      ShiftedRows(n / 4, n % 4, length, h);
      forall q: int | 0 <= q < n / 4
        ensures BlockSums(length, h)(q) == SumTo(4, Shifted(RowSums(length, h), q * 4))
      {
        ShiftedRows(q, 4, length, h);
      }
    }
  }

  lemma CoverRows(n: nat, blocks: nat, left: nat, blockSums: int -> int, rowSums: int -> int, last: int)
    requires n == blocks * 4 + left && last == SumTo(left, Shifted(rowSums, blocks * 4))
    requires forall q :: 0 <= q < blocks ==> blockSums(q) == SumTo(4, Shifted(rowSums, q * 4))
    ensures SumTo(blocks, blockSums) + last == SumTo(n, rowSums)
  {
    SumToBlocks(blocks, 4, blockSums, rowSums);
    SumToSplit(blocks * 4, left, rowSums);
  }
}
