/** Row-major indexing: in the host views, in generated code, and in the block an array is given. */
module RowMajor {
  import opened Wrappers
  import opened Division
  import opened Qir

  /** Horner's scheme, the last index varying fastest. */
  function Linear(shape: seq<int>, index: seq<int>): int
    requires |shape| == |index|
    decreases |shape|
  {
    if shape == [] then 0
    else
      var n := |shape| - 1;
      shape[n] * Linear(shape[..n], index[..n]) + index[n]
  }

  function Product(shape: seq<int>): int
    decreases |shape|
  {
    if shape == [] then 1 else Product(shape[..|shape| - 1]) * shape[|shape| - 1]
  }

  predicate Positive(shape: seq<int>) { forall k :: 0 <= k < |shape| ==> shape[k] > 0 }

  predicate InRange(shape: seq<int>, index: seq<int>) {
    |index| == |shape| && forall k :: 0 <= k < |shape| ==> 0 <= index[k] < shape[k]
  }

  /** The index tuple of the element at `position`. */
  function IndexAt(shape: seq<int>, position: int): (r: seq<int>)
    requires Positive(shape)
    ensures |r| == |shape|
    decreases |shape|
  {
    if shape == [] then []
    else
      var n := |shape| - 1;
      IndexAt(shape[..n], position / shape[n]) + [position % shape[n]]
  }

  lemma Scaled(e: int, q: int, i: int, n: int)
    requires 0 <= q < n && 0 <= i < e
    ensures 0 <= e * q + i < n * e
  {
    assert e * (q + 1) <= e * n;
  }

  /** In-range index tuples have positions below the number of elements, and can be read off them. */
  lemma {:induction false} LinearInRange(shape: seq<int>, index: seq<int>)
    requires Positive(shape) && InRange(shape, index)
    ensures 0 <= Linear(shape, index) < Product(shape)
    ensures IndexAt(shape, Linear(shape, index)) == index
    decreases |shape|
  {
    if shape != [] {
      var n := |shape| - 1;
      var q := Linear(shape[..n], index[..n]);
      LinearInRange(shape[..n], index[..n]);
      Scaled(shape[n], q, index[n], Product(shape[..n]));
      DivisionIsUnique(shape[n] * q + index[n], shape[n], q, index[n]);
      assert index[..n] + [index[n]] == index;
    }
  }

  lemma QuotientBelow(p: int, n: int, e: int)
    requires 0 <= p < n * e && e > 0
    ensures 0 <= p / e < n
  {
    var d := p / e - n;
    AtLeastOnce(d + 1, e);
    assert p == p / e * e + p % e;
    assert (d + 1) * e == p / e * e - n * e + e;
  }

  /** Every position below the number of elements is the position of an in-range tuple. */
  lemma {:induction false} EveryPositionIsUsed(shape: seq<int>, position: int)
    requires Positive(shape) && 0 <= position < Product(shape)
    ensures InRange(shape, IndexAt(shape, position)) && Linear(shape, IndexAt(shape, position)) == position
    decreases |shape|
  {
    if shape != [] {
      var n := |shape| - 1;
      var rest := IndexAt(shape[..n], position / shape[n]);
      QuotientBelow(position, Product(shape[..n]), shape[n]);
      EveryPositionIsUsed(shape[..n], position / shape[n]);
      assert IndexAt(shape, position)[..n] == rest;
      assert forall k :: 0 <= k < n ==> rest[k] == IndexAt(shape, position)[k] && shape[..n][k] == shape[k];
    }
  }

  ghost predicate IsPosition(shape: seq<int>, p: int) {
    exists a :: InRange(shape, a) && Linear(shape, a) == p
  }

  /** The row-major position is a bijection between in-range tuples and [0, number of elements). */
  lemma LinearIsBijection(shape: seq<int>)
    requires Positive(shape)
    ensures forall a, b :: InRange(shape, a) && InRange(shape, b) && Linear(shape, a) == Linear(shape, b) ==> a == b
    ensures forall p :: 0 <= p < Product(shape) ==> IsPosition(shape, p)
    ensures forall a :: InRange(shape, a) ==> 0 <= Linear(shape, a) < Product(shape)
  {
    forall a | InRange(shape, a)
      ensures 0 <= Linear(shape, a) < Product(shape) && IndexAt(shape, Linear(shape, a)) == a
    {
      LinearInRange(shape, a);
    }
    forall p: int | 0 <= p < Product(shape)
      ensures IsPosition(shape, p)
    {
      EveryPositionIsUsed(shape, p);
      assert InRange(shape, IndexAt(shape, p));
    }
  }

  /** A view of the elements of an array object. */
  class CpuArrayView<T> {
    const shape: array<int>
    const data: array<T>

    constructor (shape: array<int>, data: array<T>)
      ensures this.shape == shape && this.data == data
    {
      this.shape := shape;
      this.data := data;
    }

    ghost predicate Valid()
      reads shape
    {
      shape as object != data as object && Positive(shape[..]) && Product(shape[..]) == data.Length
    }

    method LinearIndex(index: seq<int>) returns (linearIndex: int)
      requires |index| == shape.Length
      ensures linearIndex == Linear(shape[..], index)
    {
      linearIndex := 0;
      for i := 0 to shape.Length
        invariant linearIndex == Linear(shape[..i], index[..i])
      {
        linearIndex := shape[i] * linearIndex + index[i];
        assert shape[..i + 1][..i] == shape[..i] && index[..i + 1][..i] == index[..i];
      }
      assert shape[..shape.Length] == shape[..] && index[..shape.Length] == index;
    }

    /** The element with the given index tuple. */
    ghost function Element(index: seq<int>): T
      requires Valid() && InRange(shape[..], index)
      reads shape, data
    {
      LinearInRange(shape[..], index);
      data[Linear(shape[..], index)]
    }

    /** Reading through the reference that the call operator returns. */
    method Get(index: seq<int>) returns (value: T)
      requires Valid() && InRange(shape[..], index)
      ensures value == Element(index)
    {
      var i := LinearIndex(index);
      LinearInRange(shape[..], index);
      value := data[i];
    }

    /** Writing through it: all elements with other indices stay as they are. */
    method Set(index: seq<int>, value: T)
      requires Valid() && InRange(shape[..], index)
      modifies data
      ensures Valid() && Element(index) == value
      ensures forall other :: InRange(shape[..], other) && other != index ==> Element(other) == old(Element(other))
    {
      var i := LinearIndex(index);
      LinearInRange(shape[..], index);
      ghost var s := shape[..];
      data[i] := value;
      assert shape[..] == s;
      forall other | InRange(s, other) && other != index
        ensures Linear(s, other) != i
      {
        LinearInRange(s, other);
      }
    }
  }

  // The index expression of generated code.

  /** What `emit_array_access` builds for the first `n` indices. */
  function IndexExpression(tensor: VarId, indices: seq<Expr>, n: nat): Expr
    requires n <= |indices|
  {
    if n == 0 then IntLit(0)
    else Binary(Plus, Binary(Multiplies, Extent(tensor, n - 1), IndexExpression(tensor, indices, n - 1)), indices[n - 1])
  }

  method EmitIndexExpression(tensor: VarId, indices: seq<Expr>) returns (linearizedIndex: Expr)
    ensures linearizedIndex == IndexExpression(tensor, indices, |indices|)
  {
    linearizedIndex := IntLit(0);
    for i := 0 to |indices|
      invariant linearizedIndex == IndexExpression(tensor, indices, i)
    {
      linearizedIndex := Binary(Plus, Binary(Multiplies, Extent(tensor, i), linearizedIndex), indices[i]);
    }
  }

  function Extents(tensor: VarId, n: nat, mem: Memory): (r: seq<int>)
    ensures |r| == n && forall k :: 0 <= k < n ==> r[k] == Load(mem, Dimension(tensor, k))
  {
    if n == 0 then [] else Extents(tensor, n - 1, mem) + [Load(mem, Dimension(tensor, n - 1))]
  }

  lemma ExtentsUnfold(tensor: VarId, n: nat, mem: Memory)
    requires n > 0
    ensures Extents(tensor, n, mem) == Extents(tensor, n - 1, mem) + [Load(mem, Dimension(tensor, n - 1))]
  {
  }

  lemma LinearUnfolds(shape: seq<int>, e: int, index: seq<int>, i: int)
    requires |shape| == |index|
    ensures Linear(shape + [e], index + [i]) == e * Linear(shape, index) + i
  {
    assert (shape + [e])[..|shape|] == shape && (index + [i])[..|shape|] == index;
  }

  lemma TermValue(tensor: VarId, k: nat, e: Expr, index: Expr, mem: Memory, l: int, i: int)
    requires Eval(e, mem) == Some(Int(l)) && Eval(index, mem) == Some(Int(i))
    ensures Eval(Binary(Plus, Binary(Multiplies, Extent(tensor, k), e), index), mem) ==
            Some(Int(Load(mem, Dimension(tensor, k)) * l + i))
  {
    var extent := Load(mem, Dimension(tensor, k));
    assert Eval(Extent(tensor, k), mem) == Some(Int(extent));
    assert Eval(Binary(Multiplies, Extent(tensor, k), e), mem) == ApplyBinary(Multiplies, Some(Int(extent)), Some(Int(l)));
  }

  lemma IndexStep(tensor: VarId, k: nat, e: Expr, index: Expr, mem: Memory, shape: seq<int>, init: seq<int>, i: int)
    requires |shape| == |init|
    requires Eval(e, mem) == Some(Int(Linear(shape, init))) && Eval(index, mem) == Some(Int(i))
    ensures Eval(Binary(Plus, Binary(Multiplies, Extent(tensor, k), e), index), mem) ==
            Some(Int(Linear(shape + [Load(mem, Dimension(tensor, k))], init + [i])))
  {
    hide Eval, Linear, Load;
    TermValue(tensor, k, e, index, mem, Linear(shape, init), i);
    LinearUnfolds(shape, Load(mem, Dimension(tensor, k)), init, i);
  }

  ghost predicate AllEvaluate(indices: seq<Expr>, mem: Memory, values: seq<int>) {
    |indices| == |values| && forall k :: 0 <= k < |indices| ==> Eval(indices[k], mem) == Some(Int(values[k]))
  }

  lemma TakeLast(s: seq<int>, n: nat)
    requires 0 < n <= |s|
    ensures s[..n] == s[..n - 1] + [s[n - 1]]
  {
  }

  lemma NoIndices(tensor: VarId, indices: seq<Expr>, mem: Memory, values: seq<int>)
    ensures Eval(IndexExpression(tensor, indices, 0), mem) == Some(Int(Linear(Extents(tensor, 0, mem), values[..0])))
  {
  }

  /** Generated code computes the same position as the host views. */
  lemma {:induction false} IndexExpressionValue(tensor: VarId, indices: seq<Expr>, n: nat, mem: Memory, values: seq<int>)
    requires AllEvaluate(indices, mem, values) && n <= |indices|
    ensures Eval(IndexExpression(tensor, indices, n), mem) == Some(Int(Linear(Extents(tensor, n, mem), values[..n])))
  {
    hide Eval, Linear, Load, Extents;
    if n == 0 {
      NoIndices(tensor, indices, mem, values);
    } else {
      IndexExpressionValue(tensor, indices, n - 1, mem, values);
      assert Eval(indices[n - 1], mem) == Some(Int(values[n - 1]));
      hide AllEvaluate;
      IndexStep(tensor, n - 1, IndexExpression(tensor, indices, n - 1), indices[n - 1], mem,
                Extents(tensor, n - 1, mem), values[..n - 1], values[n - 1]);
      ExtentsUnfold(tensor, n, mem);
      TakeLast(values, n);
    }
  }

  // reassociate_index_expression

  predicate IsSum(e: Expr) { e.Binary? && e.op.Plus? }

  /** Integer literals among the terms of a sum. */
  function ConstantTerm(e: Expr): int {
    if !IsSum(e) then 0
    else if e.lhs.IntLit? then e.lhs.value + ConstantTerm(e.rhs)
    else if e.rhs.IntLit? then ConstantTerm(e.lhs) + e.rhs.value
    else ConstantTerm(e.lhs) + ConstantTerm(e.rhs)
  }

  function OtherTerms(e: Expr): Expr {
    if !IsSum(e) then e
    else if e.lhs.IntLit? then OtherTerms(e.rhs)
    else if e.rhs.IntLit? then OtherTerms(e.lhs)
    else Binary(Plus, OtherTerms(e.lhs), OtherTerms(e.rhs))
  }

  function Reassociate(e: Expr): Expr {
    if ConstantTerm(e) != 0 then Binary(Plus, OtherTerms(e), IntLit(ConstantTerm(e))) else OtherTerms(e)
  }

  /** The closure: it adds the literals it finds to `constantTerm`. */
  method CollectConstantTerms(e: Expr, constantTerm: int) returns (simplified: Expr, constantTerm': int)
    ensures simplified == OtherTerms(e) && constantTerm' == constantTerm + ConstantTerm(e)
    decreases e
  {
    if !IsSum(e) {
      simplified, constantTerm' := e, constantTerm;
    } else if e.lhs.IntLit? {
      simplified, constantTerm' := CollectConstantTerms(e.rhs, constantTerm + e.lhs.value);
    } else if e.rhs.IntLit? {
      simplified, constantTerm' := CollectConstantTerms(e.lhs, constantTerm + e.rhs.value);
    } else {
      var left, right;
      left, constantTerm' := CollectConstantTerms(e.lhs, constantTerm);
      right, constantTerm' := CollectConstantTerms(e.rhs, constantTerm');
      simplified := Binary(Plus, left, right);
    }
  }

  /** In every memory the result has the value of the index expression. */
  method ReassociateIndexExpression(e: Expr) returns (r: Expr)
    ensures r == Reassociate(e)
    ensures forall mem, i :: Eval(e, mem) == Some(Int(i)) ==> Eval(r, mem) == Some(Int(i))
  {
    var simplified, constantTerm := CollectConstantTerms(e, 0);
    r := if constantTerm != 0 then Binary(Plus, simplified, IntLit(constantTerm)) else simplified;
    forall mem, i | Eval(e, mem) == Some(Int(i))
      ensures Eval(r, mem) == Some(Int(i))
    {
      ReassociatePreserves(e, mem, i);
    }
  }

  lemma {:induction false} TermsAddUp(e: Expr, mem: Memory, i: int)
    requires Eval(e, mem) == Some(Int(i))
    ensures Eval(OtherTerms(e), mem) == Some(Int(i - ConstantTerm(e)))
    decreases e
  {
    if IsSum(e) {
      var x, y := Eval(e.lhs, mem).value.i, Eval(e.rhs, mem).value.i;
      if !e.lhs.IntLit? {
        TermsAddUp(e.lhs, mem, x);
      }
      if e.lhs.IntLit? || !e.rhs.IntLit? {
        TermsAddUp(e.rhs, mem, y);
      }
    }
  }

  /** Reassociation leaves every integer value as it is. */
  lemma ReassociatePreserves(e: Expr, mem: Memory, i: int)
    requires Eval(e, mem) == Some(Int(i))
    ensures Eval(Reassociate(e), mem) == Some(Int(i))
  {
    TermsAddUp(e, mem, i);
  }

  /** The terms of a sum that are no literals, from left to right. */
  function Variables(e: Expr): seq<Expr> {
    if IsSum(e) then Variables(e.lhs) + Variables(e.rhs) else if e.IntLit? then [] else [e]
  }

  predicate HasLiteral(e: Expr) { if IsSum(e) then HasLiteral(e.lhs) || HasLiteral(e.rhs) else e.IntLit? }

  /** Each sum among the terms of `e` has a term that is no literal. */
  predicate NoConstantSum(e: Expr) {
    IsSum(e) ==> Variables(e) != [] && NoConstantSum(e.lhs) && NoConstantSum(e.rhs)
  }

  /** No other term is lost or moved, and exactly the sums of literals alone keep a literal back. */
  lemma {:induction false} LiteralsAreCollected(e: Expr)
    ensures Variables(OtherTerms(e)) == Variables(e)
    ensures !HasLiteral(OtherTerms(e)) <==> !e.IntLit? && NoConstantSum(e)
  {
    if IsSum(e) {
      LiteralsAreCollected(e.lhs);
      LiteralsAreCollected(e.rhs);
      if e.lhs.IntLit? {
        assert Variables(e) == [] + Variables(e.rhs) == Variables(e.rhs);
        assert !e.rhs.IntLit? && NoConstantSum(e.rhs) ==> Variables(e.rhs) != [];
      } else if e.rhs.IntLit? {
        assert Variables(e) == Variables(e.lhs) + [] == Variables(e.lhs);
        assert NoConstantSum(e.lhs) ==> Variables(e.lhs) != [];
      } else {
        assert NoConstantSum(e.lhs) ==> Variables(e.lhs) != [];
      }
    }
  }

  /** Reassociation puts all literals into one last term, exactly if no sum consists of literals alone. */
  lemma LiteralComesLast(e: Expr)
    ensures !e.IntLit? && NoConstantSum(e) <==>
            if ConstantTerm(e) != 0 then !HasLiteral(Reassociate(e).lhs) && Reassociate(e).rhs == IntLit(ConstantTerm(e))
            else !HasLiteral(Reassociate(e))
  {
    LiteralsAreCollected(e);
  }

  /** `(1 + 2) + x` becomes `(2 + x) + 1`. */
  lemma ConstantSumIsKept(x: VarId)
    ensures var e := Binary(Plus, Binary(Plus, IntLit(1), IntLit(2)), Ref(x));
            Reassociate(e) == Binary(Plus, Binary(Plus, IntLit(2), Ref(x)), IntLit(1)) && !NoConstantSum(e)
  {
    var e := Binary(Plus, Binary(Plus, IntLit(1), IntLit(2)), Ref(x));
    assert ConstantTerm(e.lhs) == 1 && OtherTerms(e.lhs) == IntLit(2);
    assert !IsSum(Ref(x)) && ConstantTerm(Ref(x)) == 0 && OtherTerms(Ref(x)) == Ref(x);
    assert Variables(e.lhs) == [];
  }

  /** The index that generated code uses is the position the host views use. */
  lemma GeneratedIndexIsLinear(tensor: VarId, indices: seq<Expr>, mem: Memory, values: seq<int>)
    requires |indices| == |values| && forall k :: 0 <= k < |indices| ==> Eval(indices[k], mem) == Some(Int(values[k]))
    ensures Eval(Reassociate(IndexExpression(tensor, indices, |indices|)), mem) ==
            Some(Int(Linear(Extents(tensor, |indices|, mem), values)))
  {
    IndexExpressionValue(tensor, indices, |indices|, mem, values);
    assert values[..|values|] == values;
    ReassociatePreserves(IndexExpression(tensor, indices, |indices|), mem, Linear(Extents(tensor, |indices|, mem), values));
  }
}
