/** Which kernels the lowering for sparse storage takes, and what becomes of all others. */
module SparseSelection {
  import opened Wrappers
  import opened Qir
  import opened QirRun
  import opened SumLowering
  import opened SparseLowering

  /** The expression at `path` is a sparse tensor subscripted with known indices. */
  predicate IsUse(e: Expr, path: Path, tensors: set<VarId>, known: seq<VarId>) {
    && IsSubexpression(e, path)
    && var use := Subexpression(e, path);
       use.Access? && use.base in tensors && use.indices != [] && AllIndices(use.indices, known)
  }

  /** There is one such expression and no other. */
  ghost predicate HasOneUse(e: Expr, tensors: set<VarId>, known: seq<VarId>) {
    exists path :: IsUse(e, path, tensors, known) && forall other :: IsUse(e, other, tensors, known) ==> other == path
  }

  // Where the traversal finds the uses.

  function Under(k: nat, paths: seq<Path>): (r: seq<Path>)
    ensures |r| == |paths| && forall n :: 0 <= n < |paths| ==> r[n] == [k] + paths[n]
  {
    seq(|paths|, n requires 0 <= n < |paths| => [k] + paths[n])
  }

  function UsePaths(e: Expr, tensors: set<VarId>, known: seq<VarId>): seq<Path>
    decreases e, |Children(e)| + 1
  {
    (if IsUse(e, [], tensors, known) then [[]] else []) + UsePathsFrom(e, 0, tensors, known)
  }

  /** In the children `n` and up. */
  function UsePathsFrom(e: Expr, n: nat, tensors: set<VarId>, known: seq<VarId>): seq<Path>
    requires n <= |Children(e)|
    decreases e, |Children(e)| - n
  {
    if n == |Children(e)| then []
    else Under(n, UsePaths(Children(e)[n], tensors, known)) + UsePathsFrom(e, n + 1, tensors, known)
  }

  lemma {:induction false} PathsAreUses(e: Expr, path: Path, tensors: set<VarId>, known: seq<VarId>)
    ensures path in UsePaths(e, tensors, known) <==> IsUse(e, path, tensors, known)
    decreases e, |Children(e)| + 1
  {
    PathsFromAreUses(e, 0, path, tensors, known);
  }

  lemma {:induction false} PathsFromAreUses(e: Expr, n: nat, path: Path, tensors: set<VarId>, known: seq<VarId>)
    requires n <= |Children(e)|
    ensures path in UsePathsFrom(e, n, tensors, known) <==> path != [] && path[0] >= n && IsUse(e, path, tensors, known)
    decreases e, |Children(e)| - n
  {
    if n < |Children(e)| {
      PathsFromAreUses(e, n + 1, path, tensors, known);
      var inner := UsePaths(Children(e)[n], tensors, known);
      if path != [] {
        assert path == [path[0]] + path[1..];
        PathsAreUses(Children(e)[n], path[1..], tensors, known);
        if path[0] == n && path[1..] in inner {
          var k :| 0 <= k < |inner| && inner[k] == path[1..];
          assert Under(n, inner)[k] == path;
        }
      }
    }
  }

  ghost predicate AllDifferent(paths: seq<Path>) { forall i, j :: 0 <= i < j < |paths| ==> paths[i] != paths[j] }

  lemma DifferentTogether(ps: seq<Path>, qs: seq<Path>)
    requires AllDifferent(ps) && AllDifferent(qs) && forall p :: p in ps ==> p !in qs
    ensures AllDifferent(ps + qs)
  {
    var all := ps + qs;
    forall i, j | 0 <= i < j < |all|
      ensures all[i] != all[j]
    {
      if i < |ps| <= j {
        assert all[i] in ps && all[j] in qs;
      }
    }
  }

  lemma {:induction false} PathsDiffer(e: Expr, tensors: set<VarId>, known: seq<VarId>)
    ensures AllDifferent(UsePaths(e, tensors, known))
    decreases e, |Children(e)| + 1
  {
    PathsFromDiffer(e, 0, tensors, known);
    forall path | path in UsePathsFrom(e, 0, tensors, known)
      ensures path != []
    {
      PathsFromAreUses(e, 0, path, tensors, known);
    }
    DifferentTogether(if IsUse(e, [], tensors, known) then [[]] else [], UsePathsFrom(e, 0, tensors, known));
  }

  lemma {:induction false} PathsFromDiffer(e: Expr, n: nat, tensors: set<VarId>, known: seq<VarId>)
    requires n <= |Children(e)|
    ensures AllDifferent(UsePathsFrom(e, n, tensors, known))
    decreases e, |Children(e)| - n
  {
    if n < |Children(e)| {
      PathsDiffer(Children(e)[n], tensors, known);
      PathsFromDiffer(e, n + 1, tensors, known);
      forall path | path in UsePathsFrom(e, n + 1, tensors, known)
        ensures path != [] && path[0] > n
      {
        PathsFromAreUses(e, n + 1, path, tensors, known);
      }
      var inner := UsePaths(Children(e)[n], tensors, known);
      forall i, j | 0 <= i < j < |inner|
        ensures [n] + inner[i] != [n] + inner[j]
      {
        assert ([n] + inner[i])[1..] == inner[i] && ([n] + inner[j])[1..] == inner[j];
      }
      assert forall path :: path in Under(n, inner) ==> path != [] && path[0] == n;
      DifferentTogether(Under(n, inner), UsePathsFrom(e, n + 1, tensors, known));
    }
  }

  /** What the traversal reports for the use at `path`. */
  function Reported(e: Expr, path: Path): (VarId, seq<VarId>)
    requires IsSubexpression(e, path) && Subexpression(e, path).Access?
  {
    (Subexpression(e, path).base, IndexNames(Subexpression(e, path).indices))
  }

  /** The tensor and the indices of every use, in order. */
  ghost predicate Reports(uses: seq<(VarId, seq<VarId>)>, e: Expr, paths: seq<Path>) {
    && |uses| == |paths|
    && forall n :: 0 <= n < |paths| ==>
         IsSubexpression(e, paths[n]) && Subexpression(e, paths[n]).Access? && uses[n] == Reported(e, paths[n])
  }

  lemma ReportsTogether(us: seq<(VarId, seq<VarId>)>, vs: seq<(VarId, seq<VarId>)>, e: Expr, ps: seq<Path>, qs: seq<Path>)
    requires Reports(us, e, ps) && Reports(vs, e, qs)
    ensures Reports(us + vs, e, ps + qs)
  {
  }

  lemma ReportsUnder(us: seq<(VarId, seq<VarId>)>, e: Expr, n: nat, ps: seq<Path>)
    requires n < |Children(e)| && Reports(us, Children(e)[n], ps)
    ensures Reports(us, e, Under(n, ps))
  {
    forall k | 0 <= k < |ps|
      ensures IsSubexpression(e, [n] + ps[k]) && Subexpression(e, [n] + ps[k]) == Subexpression(Children(e)[n], ps[k])
    {
      assert ([n] + ps[k])[1..] == ps[k];
    }
  }

  lemma PureChildren(e: Expr, tensors: set<VarId>, known: seq<VarId>)
    requires Pure(e)
    ensures forall k :: 0 <= k < |Children(e)| ==> Pure(Children(e)[k])
    ensures SparseUses(e, tensors, known) ==
            (if IsUse(e, [], tensors, known) then [Reported(e, [])] else []) + SparseUsesAll(Children(e), tensors, known)
  {
    if e.Binary? || e.Delta? {
      var cs := Children(e);
      assert cs[1..] == [cs[1]] && cs[1..][1..] == [];
      assert SparseUsesAll(cs[1..], tensors, known) == SparseUses(cs[1], tensors, known) + SparseUsesAll(cs[1..][1..], tensors, known);
    } else if e.Unary? {
      assert Children(e)[1..] == [];
    }
  }

  lemma {:induction false} TraversalReports(e: Expr, tensors: set<VarId>, known: seq<VarId>)
    requires Pure(e)
    ensures Reports(SparseUses(e, tensors, known), e, UsePaths(e, tensors, known))
    decreases e, |Children(e)| + 1
  {
    PureChildren(e, tensors, known);
    TraversalReportsFrom(e, 0, tensors, known);
    assert Children(e)[0..] == Children(e);
    if IsUse(e, [], tensors, known) {
      ReportsTogether([Reported(e, [])], SparseUsesAll(Children(e), tensors, known), e, [[]], UsePathsFrom(e, 0, tensors, known));
    } else {
      ReportsTogether([], SparseUsesAll(Children(e), tensors, known), e, [], UsePathsFrom(e, 0, tensors, known));
    }
  }

  lemma {:induction false} TraversalReportsFrom(e: Expr, n: nat, tensors: set<VarId>, known: seq<VarId>)
    requires n <= |Children(e)| && Pure(e)
    ensures Reports(SparseUsesAll(Children(e)[n..], tensors, known), e, UsePathsFrom(e, n, tensors, known))
    decreases e, |Children(e)| - n
  {
    PureChildren(e, tensors, known);
    if n < |Children(e)| {
      var child := Children(e)[n];
      assert Children(e)[n..][1..] == Children(e)[n + 1..];
      TraversalReports(child, tensors, known);
      ReportsUnder(SparseUses(child, tensors, known), e, n, UsePaths(child, tensors, known));
      TraversalReportsFrom(e, n + 1, tensors, known);
      ReportsTogether(SparseUses(child, tensors, known), SparseUsesAll(Children(e)[n + 1..], tensors, known),
                      e, Under(n, UsePaths(child, tensors, known)), UsePathsFrom(e, n + 1, tensors, known));
    }
  }

  // The selection.

  /** A list of different paths that are all the same. */
  lemma OnlyOne(paths: seq<Path>, path: Path)
    requires AllDifferent(paths) && path in paths && forall p :: p in paths ==> p == path
    ensures paths == [path]
  {
    var first, last := paths[0], paths[|paths| - 1];
    assert first in paths && last in paths;
  }

  lemma OneUseIsReported(e: Expr, path: Path, tensors: set<VarId>, known: seq<VarId>)
    requires Pure(e) && IsUse(e, path, tensors, known) && forall other :: IsUse(e, other, tensors, known) ==> other == path
    ensures SparseUses(e, tensors, known) == [Reported(e, path)]
  {
    var paths := UsePaths(e, tensors, known);
    TraversalReports(e, tensors, known);
    PathsDiffer(e, tensors, known);
    PathsAreUses(e, path, tensors, known);
    forall p | p in paths
      ensures p == path
    {
      PathsAreUses(e, p, tensors, known);
    }
    OnlyOne(paths, path);
  }

  lemma OneReport(e: Expr, tensors: set<VarId>, known: seq<VarId>)
    requires Pure(e) && |SparseUses(e, tensors, known)| == 1
    ensures HasOneUse(e, tensors, known)
  {
    var paths := UsePaths(e, tensors, known);
    TraversalReports(e, tensors, known);
    hide UsePaths, SparseUses, IsUse;
    var path := paths[0];
    PathsAreUses(e, path, tensors, known);
    forall other | IsUse(e, other, tensors, known)
      ensures other == path
    {
      PathsAreUses(e, other, tensors, known);
    }
  }

  lemma OneReportIsOneUse(e: Expr, tensors: set<VarId>, known: seq<VarId>)
    requires Pure(e)
    ensures |SparseUses(e, tensors, known)| == 1 <==> HasOneUse(e, tensors, known)
  {
    if HasOneUse(e, tensors, known) {
      var path :| IsUse(e, path, tensors, known) && forall other :: IsUse(e, other, tensors, known) ==> other == path;
      OneUseIsReported(e, path, tensors, known);
    } else if |SparseUses(e, tensors, known)| == 1 {
      OneReport(e, tensors, known);
    }
  }

  /** Under the outer indices of `k` there is a definition by a sum whose summand uses one sparse
      tensor, once. */
  ghost predicate IsSparseContraction(k: Kernel, tensors: set<VarId>) {
    && Innermost(k).Define? && Innermost(k).rhs.SumOf?
    && HasOneUse(SumBody(Innermost(k).rhs), tensors, OuterIndices(k) + SumIndices(Innermost(k).rhs))
  }

  /** The lowering for sparse storage takes exactly these kernels. */
  lemma SelectionIsExact(k: Kernel, tensors: set<VarId>)
    requires Innermost(k).Define? ==> Pure(SumBody(Innermost(k).rhs))
    ensures Analyze(k, tensors).Some? <==> IsSparseContraction(k, tensors)
  {
    if Innermost(k).Define? && Innermost(k).rhs.SumOf? {
      OneReportIsOneUse(SumBody(Innermost(k).rhs), tensors, OuterIndices(k) + SumIndices(Innermost(k).rhs));
    }
  }

  /** All others leave the pass as they came. */
  lemma OthersStay(k: Kernel, sells: map<VarId, Sell>, next: VarId)
    requires Innermost(k).Define? ==> Pure(SumBody(Innermost(k).rhs))
    requires !IsSparseContraction(k, sells.Keys)
    ensures Analyze(k, sells.Keys) == None && LowerSparseContraction(k, sells, next) == Some(k)
  {
    SelectionIsExact(k, sells.Keys);
  }

  lemma {:induction false} UseIsRead(e: Expr, path: Path, tensors: set<VarId>, known: seq<VarId>)
    requires Pure(e) && IsUse(e, path, tensors, known)
    ensures Subexpression(e, path).base in Reads(e)
    decreases path
  {
    if path != [] {
      PureChildren(e, tensors, known);
      UseIsRead(Children(e)[path[0]], path[1..], tensors, known);
      if e.Access? {
        ReadsOfElement(e.indices, path[0]);
      }
    }
  }

  /** Among them are the kernels that read no sparse tensor under their sums. */
  lemma DenseIsNotSparse(k: Kernel, tensors: set<VarId>)
    requires Innermost(k).Define? && Pure(SumBody(Innermost(k).rhs)) && tensors !! Reads(SumBody(Innermost(k).rhs))
    ensures !IsSparseContraction(k, tensors)
  {
    var body, known := SumBody(Innermost(k).rhs), OuterIndices(k) + SumIndices(Innermost(k).rhs);
    forall path | IsUse(body, path, tensors, known)
      ensures false
    {
      UseIsRead(body, path, tensors, known);
    }
  }

  /** And those that use sparse tensors at two places. */
  lemma TwoUsesAreNotSparse(k: Kernel, p: Path, q: Path, tensors: set<VarId>)
    requires Innermost(k).Define? && p != q
    requires var known := OuterIndices(k) + SumIndices(Innermost(k).rhs);
             IsUse(SumBody(Innermost(k).rhs), p, tensors, known) && IsUse(SumBody(Innermost(k).rhs), q, tensors, known)
    ensures !IsSparseContraction(k, tensors)
  {
  }
}
