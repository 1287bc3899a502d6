/** Sums over all values of a list of index variables. */
module IndexSums {
  import opened Qir
  import opened QirRun
  import opened IntSums
  import opened SumLowering

  /** Sum of `f` over all ways to set the variables `vs`, variable `v` ranging below `x(v)`. */
  function Total(vs: seq<VarId>, f: Memory -> int, mem: Memory, x: VarId -> nat): int
    decreases |vs|
  {
    if vs == [] then f(mem) else SumTo(x(vs[0]), v => Total(vs[1..], f, With(mem, vs[0], v), x))
  }

  lemma TotalUnfolds(v: VarId, rest: seq<VarId>, f: Memory -> int, mem: Memory, x: VarId -> nat, g: int -> int)
    requires forall i :: 0 <= i < x(v) ==> g(i) == Total(rest, f, With(mem, v, i), x)
    ensures Total([v] + rest, f, mem, x) == SumTo(x(v), g)
  {
    assert ([v] + rest)[1..] == rest;
    SumToEqual(x(v), i => Total(rest, f, With(mem, v, i), x), g);
  }

  lemma TotalSwap(a: VarId, b: VarId, rest: seq<VarId>, f: Memory -> int, mem: Memory, x: VarId -> nat)
    requires a != b
    ensures Total([a, b] + rest, f, mem, x) == Total([b, a] + rest, f, mem, x)
  {
    var at := (i: int, j: int) => Total(rest, f, With(With(mem, a, i), b, j), x);
    forall i | 0 <= i < x(a)
      ensures Total([b] + rest, f, With(mem, a, i), x) == SumTo(x(b), j => at(i, j))
    {
      TotalUnfolds(b, rest, f, With(mem, a, i), x, j => at(i, j));
    }
    forall j | 0 <= j < x(b)
      ensures Total([a] + rest, f, With(mem, b, j), x) == SumTo(x(a), i => at(i, j))
    {
      forall i | 0 <= i < x(a)
        ensures at(i, j) == Total(rest, f, With(With(mem, b, j), a, i), x)
      {
        Reorder(mem, a, i, b, j);
      }
      TotalUnfolds(a, rest, f, With(mem, b, j), x, i => at(i, j));
    }
    TotalUnfolds(a, [b] + rest, f, mem, x, i => SumTo(x(b), j => at(i, j)));
    TotalUnfolds(b, [a] + rest, f, mem, x, j => SumTo(x(a), i => at(i, j)));
    SumToSwap(x(a), x(b), at);
    assert [a] + ([b] + rest) == [a, b] + rest && [b] + ([a] + rest) == [b, a] + rest;
  }

  lemma TotalUnder(v: VarId, a: seq<VarId>, b: seq<VarId>, f: Memory -> int, mem: Memory, x: VarId -> nat)
    requires forall i :: 0 <= i < x(v) ==> Total(a, f, With(mem, v, i), x) == Total(b, f, With(mem, v, i), x)
    ensures Total([v] + a, f, mem, x) == Total([v] + b, f, mem, x)
  {
    var g := (i: int) => Total(a, f, With(mem, v, i), x);
    TotalUnfolds(v, a, f, mem, x, g);
    TotalUnfolds(v, b, f, mem, x, g);
  }

  lemma Regroup(vs: seq<VarId>, p: nat)
    requires 0 < p < |vs|
    ensures var tail := vs[1..]; var rest := tail[..p - 1] + tail[p..];
            && tail[p - 1] == vs[p] && [vs[0]] + tail == vs
            && [vs[0]] + ([vs[p]] + tail[..p - 1] + tail[p..]) == [vs[0], vs[p]] + rest
            && [vs[p], vs[0]] + rest == [vs[p]] + vs[..p] + vs[p + 1..]
  {
    var tail := vs[1..];
    assert vs[..p] == [vs[0]] + tail[..p - 1] && vs[p + 1..] == tail[p..];
  }

  /** The sum over `vs[p]` can be made the outermost one. */
  lemma {:induction false} TotalPullOut(vs: seq<VarId>, p: nat, f: Memory -> int, mem: Memory, x: VarId -> nat)
    requires Distinct(vs) && p < |vs|
    ensures Total(vs, f, mem, x) == Total([vs[p]] + vs[..p] + vs[p + 1..], f, mem, x)
    decreases p
  {
    hide Total;
    if p == 0 {
      assert [vs[0]] + vs[..0] + vs[1..] == vs;
    } else {
      var v, tail := vs[0], vs[1..];
      Regroup(vs, p);
      forall i | 0 <= i < x(v)
        ensures Total(tail, f, With(mem, v, i), x) == Total([vs[p]] + tail[..p - 1] + tail[p..], f, With(mem, v, i), x)
      {
        TotalPullOut(tail, p - 1, f, With(mem, v, i), x);
      }
      TotalUnder(v, tail, [vs[p]] + tail[..p - 1] + tail[p..], f, mem, x);
      TotalSwap(v, vs[p], tail[..p - 1] + tail[p..], f, mem, x);
    }
  }

  /** The order of summation does not matter. */
  lemma {:induction false} TotalPermutes(vs: seq<VarId>, ws: seq<VarId>, f: Memory -> int, mem: Memory, x: VarId -> nat)
    requires Distinct(vs) && Distinct(ws) && forall v :: v in vs <==> v in ws
    ensures Total(vs, f, mem, x) == Total(ws, f, mem, x)
    decreases |ws|
  {
    assert vs != [] ==> vs[0] in ws;
    if ws != [] {
      var w := ws[0];
      assert w in vs;
      var p :| 0 <= p < |vs| && vs[p] == w;
      var others := vs[..p] + vs[p + 1..];
      SameOthers(vs, p, ws);
      TotalPullOut(vs, p, f, mem, x);
      forall i | 0 <= i < x(w)
        ensures Total(others, f, With(mem, w, i), x) == Total(ws[1..], f, With(mem, w, i), x)
      {
        TotalPermutes(others, ws[1..], f, With(mem, w, i), x);
      }
      TotalUnder(w, others, ws[1..], f, mem, x);
      assert [w] + ws[1..] == ws && [w] + others == [vs[p]] + vs[..p] + vs[p + 1..];
    }
  }

  lemma SameOthers(vs: seq<VarId>, p: nat, ws: seq<VarId>)
    requires Distinct(vs) && Distinct(ws) && ws != [] && p < |vs| && vs[p] == ws[0]
    requires forall v :: v in vs <==> v in ws
    ensures Distinct(vs[..p] + vs[p + 1..]) && Distinct(ws[1..])
    ensures forall v :: v in vs[..p] + vs[p + 1..] <==> v in ws[1..]
  {
    var others := vs[..p] + vs[p + 1..];
    forall v
      ensures v in others <==> v in vs && v != vs[p]
    {
      if v in vs && v != vs[p] {
        var q :| 0 <= q < |vs| && vs[q] == v;
        assert v == if q < p then others[q] else others[q - 1];
      }
    }
    assert ws == [ws[0]] + ws[1..];
  }

  lemma {:induction false} SumRangeIsSumTo(j: VarId, n: nat, rest: seq<VarId>, b: Expr, mem: Memory, x: VarId -> nat, g: int -> int)
    requires forall i :: 0 <= i < n ==> g(i) == SumValue(rest, b, With(mem, j, i), x)
    ensures SumRange(j, n, rest, b, mem, x) == SumTo(n, g)
  {
    if n > 0 {
      SumRangeIsSumTo(j, n - 1, rest, b, mem, x, g);
      assert g(n - 1) == SumValue(rest, b, mem[Scalar(j) := n - 1], x);
    }
  }
}
