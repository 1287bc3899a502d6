/** Axioms: conditions known to hold wherever control reaches an expression. */
module AxiomAnalysis {
  import opened Wrappers
  import opened Division
  import opened Qir
  import opened QirRun
  import opened ConstantFolding

  datatype Scope = Scope(axioms: seq<Expr>, subscopes: seq<Scope>)

  function UpperBoundAxiom(idx: VarId, lower: Expr, upper: Expr, increment: Expr): Expr {
    if increment.IntLit? && increment.value != 1 then
      Binary(Less, Ref(idx), FoldConstants(TightBound(lower, upper, increment)))
    else Binary(Less, Ref(idx), upper)
  }

  /** One past the last value the index takes. */
  function TightBound(lower: Expr, upper: Expr, increment: Expr): Expr {
    Binary(Minus, upper, Binary(Modulus, Binary(Minus, Binary(Minus, upper, lower), IntLit(1)), increment))
  }

  function StrideAxiom(idx: VarId, lower: Expr, increment: Expr): Expr {
    Binary(EqualTo, Binary(Modulus, Binary(Minus, Ref(idx), lower), increment), IntLit(0))
  }

  function LoopAxioms(idx: VarId, lower: Expr, upper: Expr, increment: Expr): seq<Expr> {
    [Binary(GreaterEqual, Ref(idx), lower),
     UpperBoundAxiom(idx, lower, upper, increment),
     StrideAxiom(idx, lower, increment),
     Binary(Less, lower, upper)]
  }

  /** Axioms that the parent `e` attaches to its child number `k`. */
  function ChildAxioms(e: Expr, k: nat): seq<Expr>
    requires k < |Children(e)|
  {
    match e
    case For(idx, lower, upper, increment, _) => if k == 3 then LoopAxioms(idx, lower, upper, increment) else []
    case If(cond, _, _) => if k == 1 then [cond] else if k == 2 then [Unary(LogicalNot, cond)] else []
    case _ => []
  }

  function GenerateScope(e: Expr, axioms: seq<Expr>): (s: Scope)
    ensures |s.subscopes| == |Children(e)|
    decreases e, |Children(e)| + 1
  {
    Scope(axioms, GenerateSubscopes(e, |Children(e)|))
  }

  function GenerateSubscopes(e: Expr, k: nat): (ss: seq<Scope>)
    requires k <= |Children(e)|
    ensures |ss| == k
    decreases e, k
  {
    if k == 0 then []
    else GenerateSubscopes(e, k - 1) + [GenerateScope(Children(e)[k - 1], ChildAxioms(e, k - 1))]
  }

  lemma {:induction false} SubscopeAt(e: Expr, k: nat, j: nat)
    requires j < k <= |Children(e)|
    ensures GenerateSubscopes(e, k)[j] == GenerateScope(Children(e)[j], ChildAxioms(e, j))
  {
    if j < k - 1 {
      SubscopeAt(e, k - 1, j);
    }
  }

  predicate IsPath(s: Scope, path: Path) {
    path == [] || (path[0] < |s.subscopes| && IsPath(s.subscopes[path[0]], path[1..]))
  }

  function Lookup(s: Scope, path: Path): Scope
    requires IsPath(s, path)
  {
    if path == [] then s else Lookup(s.subscopes[path[0]], path[1..])
  }

  /** The axioms of the scope at `path` and of all its ancestors, innermost first. */
  function AxiomsAt(s: Scope, path: Path): seq<Expr>
    requires IsPath(s, path)
  {
    if path == [] then s.axioms
    else AxiomsAt(s.subscopes[path[0]], path[1..]) + s.axioms
  }

  lemma {:induction false} LookupPrefix(s: Scope, path: Path, n: nat)
    requires IsPath(s, path) && n <= |path|
    ensures IsPath(s, path[..n])
    ensures n > 0 ==> IsPath(s, path[..n - 1]) &&
                      AxiomsAt(s, path[..n]) == Lookup(s, path[..n]).axioms + AxiomsAt(s, path[..n - 1])
  {
    if n > 0 {
      LookupPrefix(s.subscopes[path[0]], path[1..], n - 1);
      assert path[..n][1..] == path[1..][..n - 1];
      if n > 1 {
        assert path[..n - 1][1..] == path[1..][..n - 2];
      }
    }
  }

  /** `get_valid_axioms`: walks from the scope of the context up to the root. */
  method GetValidAxioms(root: Scope, context: Path) returns (axioms: seq<Expr>)
    requires IsPath(root, context)
    ensures axioms == AxiomsAt(root, context)
  {
    var n := |context|;
    assert context[..n] == context;
    axioms := Lookup(root, context).axioms;
    LookupPrefix(root, context, n);
    while n > 0
      invariant n <= |context| && IsPath(root, context[..n])
      invariant n == 0 ==> AxiomsAt(root, context) == axioms
      invariant n > 0 ==> IsPath(root, context[..n - 1]) && AxiomsAt(root, context) == axioms + AxiomsAt(root, context[..n - 1])
    {
      n := n - 1;
      LookupPrefix(root, context, n);
      axioms := axioms + Lookup(root, context[..n]).axioms;
    }
  }

  // The programs and the places where the axioms can be trusted.

  /** Nothing that a loop or branch was decided by is stored to inside it. */
  ghost predicate Stable(e: Expr) {
    match e
    case For(idx, lower, upper, increment, body) =>
      && Pure(lower) && Pure(upper) && Pure(increment) && Stable(body)
      && idx !in Writes(body) && idx !in Deciders(lower, upper, increment)
      && Writes(body) !! Deciders(lower, upper, increment)
    case If(cond, t, None) => Pure(cond) && Stable(t) && Writes(t) !! Reads(cond)
    case If(cond, t, Some(f)) =>
      Pure(cond) && Stable(t) && Stable(f) && Writes(t) !! Reads(cond) && Writes(f) !! Reads(cond)
    case Compound(exprs) => forall k :: 0 <= k < |exprs| ==> Stable(exprs[k])
    case Binary(Assign, a, b) => a.Access? && Pure(a) && Pure(b)
    case Binary(PlusAssign, a, b) => a.Access? && Pure(a) && Pure(b)
    case _ => Pure(e)
  }

  function Deciders(lower: Expr, upper: Expr, increment: Expr): set<VarId> {
    Reads(lower) + Reads(upper) + Reads(increment)
  }

  /** The loop counts upwards, or downwards and is in its first iteration. */
  predicate InOrder(e: Expr, mem: Memory)
    requires e.For?
  {
    match (Eval(e.lower, mem), Eval(e.increment, mem))
    case (Some(Int(l)), Some(Int(inc))) => inc > 0 || (inc < 0 && Load(mem, Scalar(e.idx)) == l)
    case _ => false
  }

  /** So do all loops of `e` around the expression at `path`. */
  predicate LoopsInOrder(e: Expr, path: Path, mem: Memory) {
    path == [] || path[0] >= |Children(e)| ||
    ((e.For? && path[0] == 3 ==> InOrder(e, mem)) && LoopsInOrder(Children(e)[path[0]], path[1..], mem))
  }

  ghost predicate Holds(axioms: seq<Expr>, mem: Memory) {
    forall k :: 0 <= k < |axioms| ==> Eval(axioms[k], mem) == Some(Bool(true))
  }

  ghost predicate SameOff(a: Memory, b: Memory, off: set<VarId>) {
    forall l: Location :: l.Dimension? || l.base !in off ==> Load(a, l) == Load(b, l)
  }

  ghost predicate Untouched(axioms: seq<Expr>, writes: set<VarId>) {
    forall k :: 0 <= k < |axioms| ==> Reads(axioms[k]) !! writes
  }

  lemma HoldsElsewhere(axioms: seq<Expr>, a: Memory, b: Memory, writes: set<VarId>)
    requires Holds(axioms, a) && Untouched(axioms, writes) && SameOff(a, b, writes)
    ensures Holds(axioms, b)
  {
    forall k | 0 <= k < |axioms|
      ensures Eval(axioms[k], b) == Some(Bool(true))
    {
      EvalSame(axioms[k], a, b);
    }
  }

  /** An evaluation below `e`, itself at `path`, at which all axioms from `e` downwards hold if and only
      if the loops around it are in order. */
  ghost predicate Valid(e: Expr, axioms: seq<Expr>, path: Path, ev: Event) {
    && path <= ev.path
    && IsPath(GenerateScope(e, axioms), ev.path[|path|..])
    && (Holds(AxiomsAt(GenerateScope(e, axioms), ev.path[|path|..]), ev.mem) <==>
        LoopsInOrder(e, ev.path[|path|..], ev.mem))
  }

  ghost predicate AllValid(e: Expr, axioms: seq<Expr>, path: Path, mem: Memory, off: set<VarId>, events: seq<Event>) {
    forall k :: 0 <= k < |events| ==> Valid(e, axioms, path, events[k]) && SameOff(mem, events[k].mem, off)
  }

  lemma PathFromChild(path: Path, k: nat, p: Path)
    requires path + [k] <= p
    ensures path <= p && p[|path|..] == [k] + p[|path| + 1..] && p[|path|..][1..] == p[|path| + 1..]
  {
    assert p == p[..|path| + 1] + p[|path| + 1..];
    assert p[..|path| + 1] == path + [k];
    assert p[..|path|] == path;
  }

  lemma EventFromChild(e: Expr, axioms: seq<Expr>, path: Path, k: nat, ev: Event)
    requires k < |Children(e)|
    requires Valid(Children(e)[k], ChildAxioms(e, k), path + [k], ev)
    requires Holds(axioms, ev.mem) && (e.For? && k == 3 ==> InOrder(e, ev.mem))
    ensures Valid(e, axioms, path, ev)
  {
    SubscopeAt(e, |Children(e)|, k);
    PathFromChild(path, k, ev.path);
    var inner := AxiomsAt(GenerateScope(Children(e)[k], ChildAxioms(e, k)), ev.path[|path| + 1..]);
    HoldsConcat(inner, axioms, ev.mem);
  }

  lemma HoldsConcat(a: seq<Expr>, b: seq<Expr>, mem: Memory)
    ensures Holds(a + b, mem) <==> Holds(a, mem) && Holds(b, mem)
  {
    if Holds(a + b, mem) {
      forall k | 0 <= k < |a|
        ensures Eval(a[k], mem) == Some(Bool(true))
      {
        assert (a + b)[k] == a[k];
      }
      forall k | 0 <= k < |b|
        ensures Eval(b[k], mem) == Some(Bool(true))
      {
        assert (a + b)[|a| + k] == b[k];
      }
    }
  }

  /** An evaluation in the body of a loop that is not in order. */
  lemma EventOutOfOrder(e: Expr, axioms: seq<Expr>, path: Path, ev: Event)
    requires e.For? && Valid(e.body, [], path + [3], ev)
    requires !Holds(ChildAxioms(e, 3), ev.mem) && !InOrder(e, ev.mem)
    ensures Valid(e, axioms, path, ev)
  {
    SubscopeAt(e, |Children(e)|, 3);
    PathFromChild(path, 3, ev.path);
    var rest, own := ev.path[|path| + 1..], ChildAxioms(e, 3);
    var s := GenerateScope(e.body, own);
    assert s.subscopes == GenerateScope(e.body, []).subscopes;
    assert IsPath(s, rest);
    assert AxiomsAt(s, rest) == (if rest == [] then [] else AxiomsAt(s.subscopes[rest[0]], rest[1..])) + own;
    HoldsConcat(if rest == [] then [] else AxiomsAt(s.subscopes[rest[0]], rest[1..]), own, ev.mem);
    HoldsConcat(AxiomsAt(s, rest), axioms, ev.mem);
  }

  /** From a child to its parent. */
  lemma ValidFromChild(e: Expr, axioms: seq<Expr>, path: Path, mem: Memory, k: nat, writes: set<VarId>, childMem: Memory, childOff: set<VarId>, events: seq<Event>)
    requires k < |Children(e)|
    requires AllValid(Children(e)[k], ChildAxioms(e, k), path + [k], childMem, childOff, events)
    requires SameOff(mem, childMem, writes) && childOff <= writes
    requires Holds(axioms, mem) && Untouched(axioms, writes)
    requires e.For? && k == 3 ==> forall j :: 0 <= j < |events| ==> InOrder(e, events[j].mem)
    ensures AllValid(e, axioms, path, mem, writes, events)
  {
    forall j | 0 <= j < |events|
      ensures Valid(e, axioms, path, events[j]) && SameOff(mem, events[j].mem, writes)
    {
      assert SameOff(childMem, events[j].mem, childOff);
      HoldsElsewhere(axioms, mem, events[j].mem, writes);
      EventFromChild(e, axioms, path, k, events[j]);
    }
  }

  lemma ValidHere(e: Expr, axioms: seq<Expr>, path: Path, mem: Memory, off: set<VarId>)
    requires Holds(axioms, mem)
    ensures AllValid(e, axioms, path, mem, off, [Event(path, mem)])
  {
    assert path[|path|..] == [];
  }

  lemma ValidConcat(e: Expr, axioms: seq<Expr>, path: Path, mem: Memory, off: set<VarId>, xs: seq<Event>, ys: seq<Event>)
    requires AllValid(e, axioms, path, mem, off, xs) && AllValid(e, axioms, path, mem, off, ys)
    ensures AllValid(e, axioms, path, mem, off, xs + ys)
  {
  }

  /** Inside an expression no axioms are added. */
  lemma {:induction false} EvaluationsValid(e: Expr, axioms: seq<Expr>, path: Path, mem: Memory)
    requires Pure(e) || (e.Binary? && Pure(e.lhs) && Pure(e.rhs))
    requires Holds(axioms, mem)
    ensures AllValid(e, axioms, path, mem, {}, Evaluations(e, path, mem))
    decreases e, 1, 0
  {
    ValidHere(e, axioms, path, mem, {});
    ChildEvaluationsValid(e, |Children(e)|, axioms, path, mem);
    ValidConcat(e, axioms, path, mem, {}, [Event(path, mem)], ChildEvaluations(e, |Children(e)|, path, mem));
  }

  lemma {:induction false} ChildEvaluationsValid(e: Expr, k: nat, axioms: seq<Expr>, path: Path, mem: Memory)
    requires Pure(e) || (e.Binary? && Pure(e.lhs) && Pure(e.rhs))
    requires k <= |Children(e)| && Holds(axioms, mem)
    ensures AllValid(e, axioms, path, mem, {}, ChildEvaluations(e, k, path, mem))
    decreases e, 0, k
  {
    if k > 0 {
      ChildEvaluationsValid(e, k - 1, axioms, path, mem);
      ChildValid(e, k - 1, axioms, path, mem);
      ValidConcat(e, axioms, path, mem, {}, ChildEvaluations(e, k - 1, path, mem),
                  Evaluations(Children(e)[k - 1], path + [k - 1], mem));
    }
  }

  lemma {:induction false} ChildValid(e: Expr, k: nat, axioms: seq<Expr>, path: Path, mem: Memory)
    requires Pure(e) || (e.Binary? && Pure(e.lhs) && Pure(e.rhs))
    requires k < |Children(e)| && Holds(axioms, mem)
    ensures AllValid(e, axioms, path, mem, {}, Evaluations(Children(e)[k], path + [k], mem))
    decreases e, 0, 0
  {
    EvaluationsValid(Children(e)[k], [], path + [k], mem);
    ValidFromChild(e, axioms, path, mem, k, {}, mem, {}, Evaluations(Children(e)[k], path + [k], mem));
  }

  // The axioms of a loop hold whenever its body is entered.

  lemma {:induction false} MultipleBelow(x: int, d: int, inc: int)
    requires 0 <= x <= d && inc != 0 && x % inc == 0
    ensures x <= d - d % inc
    decreases inc < 0
  {
    if inc < 0 {
      assert x == -(x / inc) * -inc && d == -(d / inc) * -inc + d % inc;
      DivisionIsUnique(x, -inc, -(x / inc), 0);
      DivisionIsUnique(d, -inc, -(d / inc), d % inc);
      MultipleBelow(x, d, -inc);
      return;
    }
    var k, q := x / inc, d / inc;
    assert x == k * inc && d == q * inc + d % inc;
    assert (k - q) * inc == k * inc - q * inc;
    if k > q {
      AtLeastOnce(k - q, inc);
    }
  }

  lemma {:induction false} FoldReads(e: Expr)
    ensures Reads(FoldConstants(e)) <= Reads(e)
    decreases e
  {
    match e
    case Access(_, indices) => FoldAllReads(indices);
    case Binary(_, a, b) => FoldReads(a); FoldReads(b);
    case Unary(_, a) => FoldReads(a);
    case Delta(_, a, b) => FoldReads(a); FoldReads(b);
    case _ =>
  }

  lemma {:induction false} FoldAllReads(es: seq<Expr>)
    ensures ReadsAll(FoldAll(es)) <= ReadsAll(es)
    decreases es
  {
    if es != [] {
      FoldReads(es[0]);
      FoldAllReads(es[1..]);
      assert FoldAll(es)[1..] == FoldAll(es[1..]);
    }
  }

  lemma LoopAxiomsRead(idx: VarId, lower: Expr, upper: Expr, increment: Expr, writes: set<VarId>)
    requires idx !in writes && Deciders(lower, upper, increment) !! writes
    ensures Untouched(LoopAxioms(idx, lower, upper, increment), writes)
  {
    var range := Binary(Minus, upper, lower);
    var last := Binary(Minus, range, IntLit(1));
    var excess := Binary(Modulus, last, increment);
    assert Reads(range) <= Deciders(lower, upper, increment);
    assert Reads(last) == Reads(range);
    assert Reads(excess) == Reads(last) + Reads(increment);
    assert Reads(TightBound(lower, upper, increment)) == Reads(upper) + Reads(excess);
    FoldReads(TightBound(lower, upper, increment));
    assert ReadsAll([]) == {} && Reads(Ref(idx)) == {idx};
    var offset := Binary(Minus, Ref(idx), lower);
    assert Reads(offset) == {idx} + Reads(lower);
    assert Reads(Binary(Modulus, offset, increment)) == Reads(offset) + Reads(increment);
    var axioms := LoopAxioms(idx, lower, upper, increment);
    assert Reads(axioms[0]) == {idx} + Reads(lower);
    assert Reads(axioms[1]) <= {idx} + Deciders(lower, upper, increment);
    assert Reads(axioms[2]) == Reads(Binary(Modulus, offset, increment)) + Reads(IntLit(0));
    assert Reads(axioms[3]) == Reads(lower) + Reads(upper);
  }

  lemma EvalDifference(a: Expr, b: Expr, mem: Memory, x: int, y: int)
    requires Eval(a, mem) == Some(Int(x)) && Eval(b, mem) == Some(Int(y))
    ensures Eval(Binary(Minus, a, b), mem) == Some(Int(x - y))
  {
  }

  lemma EvalModulus(a: Expr, b: Expr, mem: Memory, x: int, y: int)
    requires Eval(a, mem) == Some(Int(x)) && Eval(b, mem) == Some(Int(y)) && x >= 0 && y != 0
    ensures Eval(Binary(Modulus, a, b), mem) == Some(Int(x % y))
  {
    TruncatedIsEuclidean(x, y);
  }

  lemma ExcessValue(lower: Expr, upper: Expr, increment: Expr, mem: Memory, l: int, u: int, inc: int)
    requires Eval(lower, mem) == Some(Int(l)) && Eval(upper, mem) == Some(Int(u)) && Eval(increment, mem) == Some(Int(inc))
    requires inc != 0 && l < u
    ensures Eval(Binary(Modulus, Binary(Minus, Binary(Minus, upper, lower), IntLit(1)), increment), mem) ==
            Some(Int((u - l - 1) % inc))
  {
    EvalDifference(upper, lower, mem, u, l);
    EvalDifference(Binary(Minus, upper, lower), IntLit(1), mem, u - l, 1);
    EvalModulus(Binary(Minus, Binary(Minus, upper, lower), IntLit(1)), increment, mem, u - l - 1, inc);
  }

  lemma TightBoundValue(lower: Expr, upper: Expr, increment: Expr, mem: Memory, l: int, u: int, inc: int)
    requires Eval(lower, mem) == Some(Int(l)) && Eval(upper, mem) == Some(Int(u)) && Eval(increment, mem) == Some(Int(inc))
    requires inc != 0 && l < u
    ensures Eval(FoldConstants(TightBound(lower, upper, increment)), mem) == Some(Int(u - (u - l - 1) % inc))
  {
    ExcessValue(lower, upper, increment, mem, l, u, inc);
    FoldPreserves(TightBound(lower, upper, increment), mem);
  }

  lemma StrideHolds(idx: VarId, lower: Expr, increment: Expr, mem: Memory, l: int, inc: int)
    requires Eval(lower, mem) == Some(Int(l)) && Eval(increment, mem) == Some(Int(inc)) && inc != 0
    requires l <= Load(mem, Scalar(idx)) && (Load(mem, Scalar(idx)) - l) % inc == 0
    ensures Eval(StrideAxiom(idx, lower, increment), mem) == Some(Bool(true))
  {
    var i := Load(mem, Scalar(idx));
    RefValue(idx, mem);
    EvalDifference(Ref(idx), lower, mem, i, l);
    EvalModulus(Binary(Minus, Ref(idx), lower), increment, mem, i - l, inc);
  }

  lemma UpperBoundHolds(idx: VarId, lower: Expr, upper: Expr, increment: Expr, mem: Memory, l: int, u: int, inc: int)
    requires Eval(lower, mem) == Some(Int(l)) && Eval(upper, mem) == Some(Int(u)) && Eval(increment, mem) == Some(Int(inc))
    requires inc != 0 && l <= Load(mem, Scalar(idx)) < u && (Load(mem, Scalar(idx)) - l) % inc == 0
    ensures Eval(UpperBoundAxiom(idx, lower, upper, increment), mem) == Some(Bool(true))
  {
    RefValue(idx, mem);
    MultipleBelow(Load(mem, Scalar(idx)) - l, u - l - 1, inc);
    TightBoundValue(lower, upper, increment, mem, l, u, inc);
  }

  lemma LoopAxiomsHold(idx: VarId, lower: Expr, upper: Expr, increment: Expr, mem: Memory, l: int, u: int, inc: int)
    requires Eval(lower, mem) == Some(Int(l)) && Eval(upper, mem) == Some(Int(u)) && Eval(increment, mem) == Some(Int(inc))
    requires inc != 0 && l <= Load(mem, Scalar(idx)) < u && (Load(mem, Scalar(idx)) - l) % inc == 0
    ensures Holds(LoopAxioms(idx, lower, upper, increment), mem)
  {
    RefValue(idx, mem);
    UpperBoundHolds(idx, lower, upper, increment, mem, l, u, inc);
    StrideHolds(idx, lower, increment, mem, l, inc);
    var axioms := LoopAxioms(idx, lower, upper, increment);
    assert Eval(axioms[0], mem) == Some(Bool(true));
    assert Eval(axioms[3], mem) == Some(Bool(true));
  }

  /** Where the index of a loop that counts from `l` in steps of `inc` can be. */
  predicate OnTrack(i: int, l: int, inc: int) {
    (inc > 0 ==> l <= i) && (inc <= 0 ==> i <= l) && (inc != 0 ==> (i - l) % inc == 0)
  }

  /** In an iteration, the axioms of a loop hold exactly if the loop is in order. */
  lemma LoopAxiomsExact(e: Expr, mem: Memory, l: int, u: int, inc: int)
    requires e.For? && Eval(e.lower, mem) == Some(Int(l)) && Eval(e.upper, mem) == Some(Int(u)) && Eval(e.increment, mem) == Some(Int(inc))
    requires Load(mem, Scalar(e.idx)) < u && OnTrack(Load(mem, Scalar(e.idx)), l, inc)
    ensures Holds(LoopAxioms(e.idx, e.lower, e.upper, e.increment), mem) <==> InOrder(e, mem)
  {
    var i := Load(mem, Scalar(e.idx));
    var axioms := LoopAxioms(e.idx, e.lower, e.upper, e.increment);
    if InOrder(e, mem) {
      LoopAxiomsHold(e.idx, e.lower, e.upper, e.increment, mem, l, u, inc);
    } else if inc == 0 {
      assert Eval(axioms[2], mem) == None;
    } else {
      RefValue(e.idx, mem);
      assert Eval(axioms[0], mem) == Some(Bool(false));
    }
  }

  lemma TruncatedIsEuclidean(a: int, b: int)
    requires a >= 0 && b != 0
    ensures Remainder(a, b) == a % b
  {
  }

  // Runs.

  lemma {:induction false} ExecValid(fuel: nat, e: Expr, axioms: seq<Expr>, path: Path, mem: Memory)
    requires Stable(e) && Holds(axioms, mem) && Untouched(axioms, Writes(e))
    ensures AllValid(e, axioms, path, mem, Writes(e), Exec(fuel, e, path, mem).events)
    ensures Exec(fuel, e, path, mem).outcome.Done? ==> SameOff(mem, Exec(fuel, e, path, mem).outcome.mem, Writes(e))
    decreases e, fuel, 1
  {
    match e
    case For(idx, lower, upper, increment, body) => ForValid(fuel, e, axioms, path, mem);
    case If(cond, t, f) => IfValid(fuel, e, axioms, path, mem);
    case Compound(exprs) =>
      ValidHere(e, axioms, path, mem, Writes(e));
      AllOfCompoundValid(fuel, e, 0, axioms, path, mem, mem);
      ValidConcat(e, axioms, path, mem, Writes(e), [Event(path, mem)], ExecAll(fuel, exprs, 0, path, mem).events);
    case Binary(op, a, b) =>
      EvaluationsValid(e, axioms, path, mem);
    case _ => EvaluationsValid(e, axioms, path, mem);
  }

  lemma ForHeadValid(e: Expr, axioms: seq<Expr>, path: Path, mem: Memory)
    requires e.For? && Stable(e) && Holds(axioms, mem) && Untouched(axioms, Writes(e))
    ensures AllValid(e, axioms, path, mem, Writes(e),
                     [Event(path, mem)] + Evaluations(e.increment, path + [2], mem) +
                     Evaluations(e.lower, path + [0], mem) + Evaluations(e.upper, path + [1], mem))
  {
    ValidHere(e, axioms, path, mem, Writes(e));
    EvaluationsValid(e.increment, [], path + [2], mem);
    ValidFromChild(e, axioms, path, mem, 2, Writes(e), mem, {}, Evaluations(e.increment, path + [2], mem));
    EvaluationsValid(e.lower, [], path + [0], mem);
    ValidFromChild(e, axioms, path, mem, 0, Writes(e), mem, {}, Evaluations(e.lower, path + [0], mem));
    EvaluationsValid(e.upper, [], path + [1], mem);
    ValidFromChild(e, axioms, path, mem, 1, Writes(e), mem, {}, Evaluations(e.upper, path + [1], mem));
  }

  lemma {:induction false} ForValid(fuel: nat, e: Expr, axioms: seq<Expr>, path: Path, mem: Memory)
    requires e.For? && Stable(e) && Holds(axioms, mem) && Untouched(axioms, Writes(e))
    ensures AllValid(e, axioms, path, mem, Writes(e), Exec(fuel, e, path, mem).events)
    ensures Exec(fuel, e, path, mem).outcome.Done? ==> SameOff(mem, Exec(fuel, e, path, mem).outcome.mem, Writes(e))
    decreases e, fuel, 0
  {
    ForHeadValid(e, axioms, path, mem);
    match (Eval(e.lower, mem), Eval(e.upper, mem), Eval(e.increment, mem))
    case (Some(Int(l)), Some(Int(u)), Some(Int(inc))) =>
      var mem' := mem[Scalar(e.idx) := l];
      assert OnTrack(l, l, inc);
      LoopValid(fuel, e, axioms, path, mem, mem', l, u, inc);
    case _ =>
  }

  /** The loop `e`, entered with `mem`, is at its header with `now`. */
  ghost predicate AtHeader(e: Expr, axioms: seq<Expr>, mem: Memory, now: Memory, l: int, u: int, inc: int) {
    && e.For? && Stable(e) && Holds(axioms, mem) && Untouched(axioms, Writes(e))
    && Eval(e.lower, mem) == Some(Int(l)) && Eval(e.upper, mem) == Some(Int(u)) && Eval(e.increment, mem) == Some(Int(inc))
    && SameOff(mem, now, Writes(e)) && OnTrack(Load(now, Scalar(e.idx)), l, inc)
  }

  ghost predicate ValidRun(e: Expr, axioms: seq<Expr>, path: Path, mem: Memory, run: Run) {
    && AllValid(e, axioms, path, mem, Writes(e), run.events)
    && (run.outcome.Done? ==> SameOff(mem, run.outcome.mem, Writes(e)))
  }

  lemma {:induction false} LoopValid(fuel: nat, e: Expr, axioms: seq<Expr>, path: Path, mem: Memory, now: Memory, l: int, u: int, inc: int)
    requires AtHeader(e, axioms, mem, now, l, u, inc)
    ensures ValidRun(e, axioms, path, mem, Loop(fuel, e.idx, u, inc, e.body, path + [3], now))
    decreases e.body, fuel, 2
  {
    hide Exec, Eval, Holds, SameOff, Untouched, Stable, Writes;
    if Load(now, Scalar(e.idx)) < u && fuel > 0 {
      IterationValid(fuel - 1, e, axioms, path, mem, now, l, u, inc);
      var once := Exec(fuel - 1, e.body, path + [3], now);
      if once.outcome.Done? {
        var next := NextIteration(e, axioms, mem, now, once.outcome.mem, l, u, inc);
        LoopValid(fuel - 1, e, axioms, path, mem, next, l, u, inc);
        ValidConcat(e, axioms, path, mem, Writes(e), once.events, Loop(fuel - 1, e.idx, u, inc, e.body, path + [3], next).events);
      }
    }
  }

  lemma NextIteration(e: Expr, axioms: seq<Expr>, mem: Memory, now: Memory, after: Memory, l: int, u: int, inc: int) returns (next: Memory)
    requires AtHeader(e, axioms, mem, now, l, u, inc) && SameOff(now, after, Writes(e.body))
    ensures next == after[Scalar(e.idx) := Load(after, Scalar(e.idx)) + inc]
    ensures AtHeader(e, axioms, mem, next, l, u, inc)
  {
    var i := Load(now, Scalar(e.idx));
    next := after[Scalar(e.idx) := Load(after, Scalar(e.idx)) + inc];
    assert Load(after, Scalar(e.idx)) == i;
    if inc != 0 {
      StrideStep(i - l, inc);
      assert i + inc - l == i - l + inc;
    }
  }

  lemma StrideStep(x: int, inc: int)
    requires inc != 0 && x % inc == 0
    ensures (x + inc) % inc == 0
  {
    var k := x / inc;
    if inc > 0 {
      assert x + inc == (k + 1) * inc + 0;
      DivisionIsUnique(x + inc, inc, k + 1, 0);
    } else {
      assert x + inc == (-k - 1) * -inc + 0;
      DivisionIsUnique(x + inc, -inc, -k - 1, 0);
    }
  }

  lemma InOrderStays(e: Expr, a: Memory, b: Memory)
    requires e.For? && Stable(e) && SameOff(a, b, Writes(e.body))
    ensures InOrder(e, a) <==> InOrder(e, b)
  {
    EvalSame(e.lower, a, b);
    EvalSame(e.increment, a, b);
  }

  /** From the body of a loop to the loop. */
  lemma ValidFromBody(e: Expr, axioms: seq<Expr>, path: Path, mem: Memory, now: Memory, events: seq<Event>)
    requires e.For? && Stable(e) && Holds(axioms, mem) && Untouched(axioms, Writes(e)) && SameOff(mem, now, Writes(e))
    requires var own := ChildAxioms(e, 3);
             && (Holds(own, now) <==> InOrder(e, now)) && Untouched(own, Writes(e.body))
             && AllValid(e.body, if InOrder(e, now) then own else [], path + [3], now, Writes(e.body), events)
    ensures AllValid(e, axioms, path, mem, Writes(e), events)
  {
    var own := ChildAxioms(e, 3);
    hide Stable, Valid, InOrder, Holds, SameOff, Untouched;
    forall j | 0 <= j < |events|
      ensures InOrder(e, events[j].mem) <==> InOrder(e, now)
    {
      InOrderStays(e, now, events[j].mem);
    }
    if InOrder(e, now) {
      ValidFromChild(e, axioms, path, mem, 3, Writes(e), now, Writes(e.body), events);
    } else {
      forall j | 0 <= j < |events|
        ensures Valid(e, axioms, path, events[j]) && SameOff(mem, events[j].mem, Writes(e))
      {
        SameOffFurther(mem, now, events[j].mem, Writes(e), Writes(e.body));
        if Holds(own, events[j].mem) {
          SameOffBack(now, events[j].mem, Writes(e.body));
          HoldsElsewhere(own, events[j].mem, now, Writes(e.body));
        }
        EventOutOfOrder(e, axioms, path, events[j]);
      }
    }
  }

  lemma SameOffFurther(a: Memory, b: Memory, c: Memory, off: set<VarId>, inner: set<VarId>)
    requires SameOff(a, b, off) && SameOff(b, c, inner) && inner <= off
    ensures SameOff(a, c, off)
  {
  }

  lemma SameOffBack(a: Memory, b: Memory, off: set<VarId>)
    requires SameOff(a, b, off)
    ensures SameOff(b, a, off)
  {
  }

  lemma {:induction false} IterationValid(fuel: nat, e: Expr, axioms: seq<Expr>, path: Path, mem: Memory, now: Memory, l: int, u: int, inc: int)
    requires AtHeader(e, axioms, mem, now, l, u, inc) && Load(now, Scalar(e.idx)) < u
    ensures var once := Exec(fuel, e.body, path + [3], now);
            AllValid(e, axioms, path, mem, Writes(e), once.events) &&
            (once.outcome.Done? ==> SameOff(now, once.outcome.mem, Writes(e.body)))
    decreases e.body, fuel, 2
  {
    EvalSame(e.lower, mem, now);
    EvalSame(e.upper, mem, now);
    EvalSame(e.increment, mem, now);
    LoopAxiomsExact(e, now, l, u, inc);
    LoopAxiomsRead(e.idx, e.lower, e.upper, e.increment, Writes(e.body));
    hide Exec, Eval, LoopAxioms, InOrder, Reads;
    ExecValid(fuel, e.body, if InOrder(e, now) then ChildAxioms(e, 3) else [], path + [3], now);
    ValidFromBody(e, axioms, path, mem, now, Exec(fuel, e.body, path + [3], now).events);
  }

  lemma {:induction false} IfValid(fuel: nat, e: Expr, axioms: seq<Expr>, path: Path, mem: Memory)
    requires e.If? && Stable(e) && Holds(axioms, mem) && Untouched(axioms, Writes(e))
    ensures AllValid(e, axioms, path, mem, Writes(e), Exec(fuel, e, path, mem).events)
    ensures Exec(fuel, e, path, mem).outcome.Done? ==> SameOff(mem, Exec(fuel, e, path, mem).outcome.mem, Writes(e))
    decreases e, fuel, 0
  {
    ValidHere(e, axioms, path, mem, Writes(e));
    EvaluationsValid(e.cond, [], path + [0], mem);
    ValidFromChild(e, axioms, path, mem, 0, Writes(e), mem, {}, Evaluations(e.cond, path + [0], mem));
    var head := [Event(path, mem)] + Evaluations(e.cond, path + [0], mem);
    ValidConcat(e, axioms, path, mem, Writes(e), [Event(path, mem)], Evaluations(e.cond, path + [0], mem));
    match Eval(e.cond, mem)
    case Some(Bool(true)) =>
      ExecValid(fuel, e.thenBranch, [e.cond], path + [1], mem);
      ValidFromChild(e, axioms, path, mem, 1, Writes(e), mem, Writes(e.thenBranch), Exec(fuel, e.thenBranch, path + [1], mem).events);
      ValidConcat(e, axioms, path, mem, Writes(e), head, Exec(fuel, e.thenBranch, path + [1], mem).events);
    case Some(Bool(false)) =>
      if e.elseBranch.Some? {
        var f := e.elseBranch.value;
        ExecValid(fuel, f, [Unary(LogicalNot, e.cond)], path + [2], mem);
        ValidFromChild(e, axioms, path, mem, 2, Writes(e), mem, Writes(f), Exec(fuel, f, path + [2], mem).events);
        ValidConcat(e, axioms, path, mem, Writes(e), head, Exec(fuel, f, path + [2], mem).events);
      }
    case _ =>
  }

  lemma {:induction false} AllOfCompoundValid(fuel: nat, e: Expr, k: nat, axioms: seq<Expr>, path: Path, mem: Memory, mem': Memory)
    requires e.Compound? && Stable(e) && k <= |e.exprs|
    requires Holds(axioms, mem) && Untouched(axioms, Writes(e)) && SameOff(mem, mem', Writes(e))
    ensures var run := ExecAll(fuel, e.exprs, k, path, mem');
            AllValid(e, axioms, path, mem, Writes(e), run.events) &&
            (run.outcome.Done? ==> SameOff(mem, run.outcome.mem, Writes(e)))
    decreases e, fuel, 0, |e.exprs| - k
  {
    if k < |e.exprs| {
      var child := e.exprs[k];
      assert Writes(child) <= Writes(e);
      ExecValid(fuel, child, [], path + [k], mem');
      var first := Exec(fuel, child, path + [k], mem');
      ValidFromChild(e, axioms, path, mem, k, Writes(e), mem', Writes(child), first.events);
      if first.outcome.Done? {
        AllOfCompoundValid(fuel, e, k + 1, axioms, path, mem, first.outcome.mem);
        ValidConcat(e, axioms, path, mem, Writes(e), first.events, ExecAll(fuel, e.exprs, k + 1, path, first.outcome.mem).events);
      }
    }
  }

  /** Whenever a run of `root` reaches an expression, all axioms returned for it are true if and only
      if every loop around it counts upwards, or downwards and is in its first iteration. */
  lemma AxiomsHoldOverRuns(root: Expr, fuel: nat, mem: Memory, ev: Event)
    requires Stable(root) && ev in Exec(fuel, root, [], mem).events
    ensures IsPath(GenerateScope(root, []), ev.path)
    ensures (forall axiom :: axiom in AxiomsAt(GenerateScope(root, []), ev.path) ==> Eval(axiom, ev.mem) == Some(Bool(true))) <==>
            LoopsInOrder(root, ev.path, ev.mem)
  {
    ExecValid(fuel, root, [], [], mem);
    assert Valid(root, [], [], ev);
    assert ev.path[0..] == ev.path;
    hide Exec, Stable, LoopsInOrder, Eval, GenerateScope, AxiomsAt, Holds;
    HoldsForAll(AxiomsAt(GenerateScope(root, []), ev.path), ev.mem);
  }

  lemma HoldsForAll(axioms: seq<Expr>, mem: Memory)
    ensures (forall axiom :: axiom in axioms ==> Eval(axiom, mem) == Some(Bool(true))) <==> Holds(axioms, mem)
  {
    hide Eval;
    assert forall k :: 0 <= k < |axioms| ==> axioms[k] in axioms;
  }

  // What the axioms say, run or no run.

  /** The step from `e` to its child number `k` is one that control can take with `mem`. */
  predicate AdmitsHere(e: Expr, k: nat, mem: Memory) {
    match e
    case For(idx, lower, upper, increment, _) =>
      k == 3 ==>
        (match (Eval(lower, mem), Eval(upper, mem), Eval(increment, mem))
         case (Some(Int(l)), Some(Int(u)), Some(Int(inc))) =>
           inc != 0 && l <= Load(mem, Scalar(idx)) < u && (Load(mem, Scalar(idx)) - l) % inc == 0
         case _ => false)
    case If(cond, _, _) =>
      (k == 1 ==> Eval(cond, mem) == Some(Bool(true))) && (k == 2 ==> Eval(cond, mem) == Some(Bool(false)))
    case _ => true
  }

  /** So is every step on the way to `path`: each loop index is one that the loop counts through, and
      each condition decides for the branch that is taken. */
  predicate Admits(e: Expr, path: Path, mem: Memory) {
    path == [] || path[0] >= |Children(e)| ||
    (AdmitsHere(e, path[0], mem) && Admits(Children(e)[path[0]], path[1..], mem))
  }

  lemma StrideSays(e: Expr, mem: Memory, l: int)
    requires e.For? && Eval(e.lower, mem) == Some(Int(l)) && l <= Load(mem, Scalar(e.idx))
    requires Eval(StrideAxiom(e.idx, e.lower, e.increment), mem) == Some(Bool(true))
    ensures Eval(e.increment, mem).Some? && Eval(e.increment, mem).value.Int?
    ensures var inc := IntAt(e.increment, mem); inc != 0 && (Load(mem, Scalar(e.idx)) - l) % inc == 0
  {
    var i := Load(mem, Scalar(e.idx));
    RefValue(e.idx, mem);
    EvalDifference(Ref(e.idx), e.lower, mem, i, l);
    var offset := Binary(Minus, Ref(e.idx), e.lower);
    assert Eval(Binary(Modulus, offset, e.increment), mem) == ApplyBinary(Modulus, Some(Int(i - l)), Eval(e.increment, mem));
    var inc := IntAt(e.increment, mem);
    EvalModulus(offset, e.increment, mem, i - l, inc);
  }

  lemma UpperBoundSays(e: Expr, mem: Memory, l: int, u: int, inc: int)
    requires e.For? && Eval(e.lower, mem) == Some(Int(l)) && Eval(e.upper, mem) == Some(Int(u)) && Eval(e.increment, mem) == Some(Int(inc))
    requires inc != 0 && l < u && Eval(UpperBoundAxiom(e.idx, e.lower, e.upper, e.increment), mem) == Some(Bool(true))
    ensures Load(mem, Scalar(e.idx)) < u
  {
    RefValue(e.idx, mem);
    TightBoundValue(e.lower, e.upper, e.increment, mem, l, u, inc);
  }

  /** The axioms of a loop are true exactly for the values its index counts through. */
  lemma LoopAxiomsSay(e: Expr, mem: Memory)
    requires e.For?
    ensures Holds(ChildAxioms(e, 3), mem) <==> AdmitsHere(e, 3, mem)
  {
    var axioms := ChildAxioms(e, 3);
    if AdmitsHere(e, 3, mem) {
      LoopAxiomsHold(e.idx, e.lower, e.upper, e.increment, mem, IntAt(e.lower, mem), IntAt(e.upper, mem), IntAt(e.increment, mem));
    } else if Holds(axioms, mem) {
      RefValue(e.idx, mem);
      assert Eval(axioms[0], mem) == Some(Bool(true)) && Eval(axioms[3], mem) == Some(Bool(true));
      assert Eval(axioms[1], mem) == Some(Bool(true)) && Eval(axioms[2], mem) == Some(Bool(true));
      var l, u := IntAt(e.lower, mem), IntAt(e.upper, mem);
      StrideSays(e, mem, l);
      UpperBoundSays(e, mem, l, u, IntAt(e.increment, mem));
    }
  }

  lemma ChildAxiomsSay(e: Expr, k: nat, mem: Memory)
    requires k < |Children(e)|
    ensures Holds(ChildAxioms(e, k), mem) <==> AdmitsHere(e, k, mem)
  {
    var axioms := ChildAxioms(e, k);
    if e.For? && k == 3 {
      LoopAxiomsSay(e, mem);
    } else if e.If? && k > 0 {
      assert Holds(axioms, mem) <==> Eval(axioms[0], mem) == Some(Bool(true));
    }
  }

  /** The axioms returned for an expression leave nothing out and add nothing: they are all true in a
      memory exactly if the loops and branches around the expression admit it. */
  lemma {:induction false} AxiomsAreExact(e: Expr, axioms: seq<Expr>, path: Path, mem: Memory)
    requires IsSubexpression(e, path)
    ensures IsPath(GenerateScope(e, axioms), path)
    ensures Holds(AxiomsAt(GenerateScope(e, axioms), path), mem) <==> Holds(axioms, mem) && Admits(e, path, mem)
    decreases path
  {
    if path != [] {
      var k := path[0];
      SubscopeAt(e, |Children(e)|, k);
      AxiomsAreExact(Children(e)[k], ChildAxioms(e, k), path[1..], mem);
      HoldsConcat(AxiomsAt(GenerateScope(Children(e)[k], ChildAxioms(e, k)), path[1..]), axioms, mem);
      ChildAxiomsSay(e, k, mem);
    }
  }

  // A loop that counts downwards.

  lemma SecondIteration(idx: VarId)
    ensures var body, first, second := Compound([]), map[Scalar(idx) := 0], map[Scalar(idx) := -1];
            Event([3], second) in Loop(2, idx, 1, -1, body, [3], first).events
  {
    var body, first, second := Compound([]), map[Scalar(idx) := 0], map[Scalar(idx) := -1];
    assert Exec(0, body, [3], second) == Run([Event([3], second)], Done(second));
    assert Exec(1, body, [3], first) == Run([Event([3], first)], Done(first));
    hide Exec;
    assert first[Scalar(idx) := -1] == second;
    assert Event([3], second) in Loop(1, idx, 1, -1, body, [3], second).events;
  }

  function Downward(idx: VarId): Expr {
    For(idx, IntLit(0), IntLit(1), IntLit(-1), Compound([]))
  }

  lemma DownwardRun(idx: VarId)
    ensures Event([3], map[Scalar(idx) := -1]) in Exec(2, Downward(idx), [], map[]).events
  {
    var e, start: Memory := Downward(idx), map[];
    SecondIteration(idx);
    assert start[Scalar(idx) := 0] == map[Scalar(idx) := 0];
    assert Eval(e.lower, start) == Some(Int(0)) && Eval(e.upper, start) == Some(Int(1)) && Eval(e.increment, start) == Some(Int(-1));
    hide Loop, Eval, Evaluations;
    assert [] + [3] == [3];
  }

  lemma BodyAxioms(e: Expr)
    requires e.For?
    ensures IsPath(GenerateScope(e, []), [3]) && ChildAxioms(e, 3)[0] in AxiomsAt(GenerateScope(e, []), [3])
  {
    SubscopeAt(e, |Children(e)|, 3);
    assert [3][1..] == [];
    assert AxiomsAt(GenerateScope(e, []), [3]) == ChildAxioms(e, 3) + [];
  }

  /** A loop from 0 below 1 in steps of -1: in its second iteration the index is below the lower bound. */
  lemma DownwardExample(idx: VarId)
    ensures var scope, first := GenerateScope(Downward(idx), []), Binary(GreaterEqual, Ref(idx), IntLit(0));
            exists ev :: ev in Exec(2, Downward(idx), [], map[]).events && IsPath(scope, ev.path) &&
                         first in AxiomsAt(scope, ev.path) && Eval(first, ev.mem) == Some(Bool(false))
  {
    var second: Memory := map[Scalar(idx) := -1];
    hide Exec, GenerateScope, AxiomsAt, IsPath, UpperBoundAxiom, StrideAxiom;
    DownwardRun(idx);
    BodyAxioms(Downward(idx));
    RefValue(idx, second);
    assert Eval(Binary(GreaterEqual, Ref(idx), IntLit(0)), second) == Some(Bool(false));
    assert Event([3], second).path == [3];
  }
}
