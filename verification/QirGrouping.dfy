/** What becomes of printed expressions outside the fragment: operators of one level group to the
    right when they are read back, and some operators are not in the grammar as they are printed. */
module QirGrouping {
  import opened Wrappers
  import opened QirSyntax
  import opened QirRoundTrip

  /** Like the fragment, but operators of one level may be grouped in any way. */
  predicate Readable(e: Expr) {
    match e
    case Name(name) => IsName(name)
    case Number(_) => true
    case Truth(_) => true
    case Binary(op, a, b) => IsReadable(op) && !a.Range? && !b.Range? && Readable(a) && Readable(b)
    case Unary(op, a) => !op.Not? && !a.Range? && Readable(a)
    case Call(f, args) => IsName(f) && args != [] && forall k :: 0 <= k < |args| ==> Readable(args[k])
    case Subscription(a, indices) => !a.Range? && Readable(a) && forall k :: 0 <= k < |indices| ==> Readable(indices[k])
    case Member(a, member) => !a.Range? && !a.Number? && Readable(a) && IsId(member)
    case Range(a, c, b) => !a.Range? && !c.Range? && !b.Range? && Readable(a) && Readable(c) && Readable(b)
  }

  /** `x op y` with the operators of the level of `op` grouped to the right. */
  function Attach(x: Expr, op: BinaryOp, y: Expr): Expr {
    if x.Binary? && Level(x.op) == Level(op) then Binary(x.op, x.lhs, Attach(x.rhs, op, y)) else Binary(op, x, y)
  }

  function GroupRight(e: Expr): Expr {
    match e
    case Binary(op, a, b) => Attach(GroupRight(a), op, GroupRight(b))
    case Unary(op, a) => Unary(op, GroupRight(a))
    case Call(f, args) => Call(f, GroupAll(args))
    case Subscription(a, indices) => Subscription(GroupRight(a), GroupAll(indices))
    case Member(a, member) => Member(GroupRight(a), member)
    case Range(a, c, b) => Range(GroupRight(a), GroupRight(c), GroupRight(b))
    case _ => e
  }

  function GroupAll(es: seq<Expr>): (r: seq<Expr>)
    ensures |r| == |es| && forall k :: 0 <= k < |es| ==> r[k] == GroupRight(es[k])
  {
    if es == [] then [] else [GroupRight(es[0])] + GroupAll(es[1..])
  }

  lemma BinaryText(op: BinaryOp, a: Expr, b: Expr, printed: nat)
    ensures var e := Binary(op, a, b); var q := Level(op);
            && Body(e) == Print(a, q) + " " + OpText(op) + " " + Print(b, q)
            && Print(e, printed) == if q < printed then "(" + Body(e) + ")" else Body(e)
  {
  }

  lemma Infix(x: string, op: string, y: string)
    ensures x + " " + op + " " + y == x + (" " + op + " " + y)
  {
  }

  /** Operators of one level are printed without brackets however they are grouped. */
  lemma GroupingIsLost(op: BinaryOp, op': BinaryOp, a: Expr, b: Expr, c: Expr, printed: nat)
    requires Level(op) == Level(op')
    ensures Print(Binary(op', Binary(op, a, b), c), printed) == Print(Binary(op, a, Binary(op', b, c)), printed)
  {
    var q := Level(op);
    BinaryText(op, a, b, q);
    BinaryText(op', b, c, q);
    BinaryText(op', Binary(op, a, b), c, printed);
    BinaryText(op, a, Binary(op', b, c), printed);
    var left, y, z := Print(a, q) + " " + OpText(op) + " ", Print(b, q), Print(c, q);
    hide Print, OpText, Body;
    Infix(left + y, OpText(op'), z);
    Infix(y, OpText(op'), z);
    Assoc(left, y, " " + OpText(op') + " " + z);
  }

  lemma {:induction false} AttachPrints(x: Expr, op: BinaryOp, y: Expr, printed: nat)
    ensures Attach(x, op, y).Binary? && Level(Attach(x, op, y).op) == Level(op)
    ensures Print(Attach(x, op, y), printed) == Print(Binary(op, x, y), printed)
    decreases x
  {
    if x.Binary? && Level(x.op) == Level(op) {
      AttachPrints(x.rhs, op, y, Level(op));
      GroupingIsLost(x.op, op, x.lhs, x.rhs, y, printed);
      BinaryText(x.op, x.lhs, Attach(x.rhs, op, y), printed);
      BinaryText(x.op, x.lhs, Binary(op, x.rhs, y), printed);
    }
  }

  lemma {:induction false} AttachInFragment(x: Expr, op: BinaryOp, y: Expr)
    requires InFragment(x) && !x.Range? && InFragment(y) && !y.Range? && IsReadable(op)
    ensures InFragment(Attach(x, op, y))
    ensures Attach(x, op, y).Binary? && Level(Attach(x, op, y).op) == Level(op)
    decreases x
  {
    if x.Binary? && Level(x.op) == Level(op) {
      AttachInFragment(x.rhs, op, y);
    }
  }

  /** Grouping to the right leaves the kind of an expression as it is. */
  lemma {:induction false} SameKind(e: Expr)
    ensures Precedence(GroupRight(e)) == Precedence(e)
    ensures GroupRight(e).Range? == e.Range? && GroupRight(e).Number? == e.Number?
  {
    match e
    case Binary(op, a, b) => AttachPrints(GroupRight(a), op, GroupRight(b), 0);
    case _ =>
  }

  /** The printer does not tell an expression from its grouping to the right. */
  lemma {:induction false} GroupRightPrints(e: Expr, printed: nat)
    ensures Print(GroupRight(e), printed) == Print(e, printed) && Body(GroupRight(e)) == Body(e)
    decreases e, 1
  {
    SameKind(e);
    match e
    case Binary(op, a, b) =>
      var x, y := GroupRight(a), GroupRight(b);
      GroupRightPrints(a, Level(op));
      GroupRightPrints(b, Level(op));
      AttachPrints(x, op, y, 0);
      BinaryText(op, x, y, 0);
      BinaryText(op, a, b, 0);
    case Unary(_, a) => GroupRightPrints(a, UNARY);
    case Call(_, args) => GroupAllPrints(args);
    case Subscription(a, indices) => GroupRightPrints(a, QUALIFIER); GroupAllPrints(indices);
    case Member(a, _) => GroupRightPrints(a, QUALIFIER);
    case Range(a, c, b) => GroupRightPrints(a, 0); GroupRightPrints(c, 0); GroupRightPrints(b, 0);
    case _ =>
  }

  lemma {:induction false} GroupAllPrints(es: seq<Expr>)
    ensures PrintList(GroupAll(es)) == PrintList(es)
    decreases es, 0
  {
    if es != [] {
      GroupRightPrints(es[0], 0);
      GroupAllPrints(es[1..]);
      assert GroupAll(es)[1..] == GroupAll(es[1..]);
    }
  }

  lemma {:induction false} GroupRightInFragment(e: Expr)
    requires Readable(e)
    ensures InFragment(GroupRight(e))
  {
    SameKind(e);
    match e
    case Binary(op, a, b) =>
      GroupRightInFragment(a);
      GroupRightInFragment(b);
      SameKind(a);
      SameKind(b);
      AttachInFragment(GroupRight(a), op, GroupRight(b));
    case Unary(_, a) => GroupRightInFragment(a); SameKind(a);
    case Call(_, args) => forall k | 0 <= k < |args| { GroupRightInFragment(args[k]); }
    case Subscription(a, indices) =>
      GroupRightInFragment(a);
      SameKind(a);
      forall k | 0 <= k < |indices| { GroupRightInFragment(indices[k]); }
    case Member(a, _) => GroupRightInFragment(a); SameKind(a);
    case Range(a, c, b) =>
      GroupRightInFragment(a);
      GroupRightInFragment(c);
      GroupRightInFragment(b);
      SameKind(a);
      SameKind(c);
      SameKind(b);
    case _ =>
  }

  lemma {:induction false} FragmentIsGrouped(e: Expr)
    requires InFragment(e)
    ensures Readable(e) && GroupRight(e) == e
  {
    match e
    case Binary(_, a, b) => FragmentIsGrouped(a); FragmentIsGrouped(b);
    case Unary(_, a) => FragmentIsGrouped(a);
    case Call(_, args) =>
      forall k | 0 <= k < |args| ensures Readable(args[k]) && GroupRight(args[k]) == args[k] { FragmentIsGrouped(args[k]); }
      assert GroupAll(args) == args;
    case Subscription(a, indices) =>
      FragmentIsGrouped(a);
      forall k | 0 <= k < |indices| ensures Readable(indices[k]) && GroupRight(indices[k]) == indices[k] { FragmentIsGrouped(indices[k]); }
      assert GroupAll(indices) == indices;
    case Member(a, _) => FragmentIsGrouped(a);
    case Range(a, c, b) => FragmentIsGrouped(a); FragmentIsGrouped(c); FragmentIsGrouped(b);
    case _ =>
  }

  /** Whatever the grouping, the grammar reads the one to the right; so an expression comes back as
      it was exactly if no left operand stands at the level of its operator. */
  lemma RoundTripExactly(e: Expr, level: nat, printed: nat, k: string)
    requires Readable(e) && !e.Range? && Fits(e, level, printed) && Stops(level, k)
    ensures Parse(level, Print(e, printed) + k) == Some((GroupRight(e), k))
    ensures Parse(level, Print(e, printed) + k) == Some((e, k)) <==> InFragment(e)
  {
    SameKind(e);
    GroupRightInFragment(e);
    GroupRightPrints(e, printed);
    hide Print, Parse, Stops;
    RoundTrip(GroupRight(e), level, printed, k);
    if InFragment(e) {
      FragmentIsGrouped(e);
    }
  }

  // Operators that the grammar does not have.

  /** What follows the text of a binary operator that has no operand in the grammar. */
  lemma UnreadableStops(op: BinaryOp, k: string)
    requires !IsReadable(op)
    ensures Stops(LOGICAL, " " + OpText(op) + (" " + k))
  {
    var s := OpText(op) + (" " + k);
    var rest := " " + OpText(op) + (" " + k);
    assert rest == " " + s;
    SkipSpace(s);
    assert s[0] == OpText(op)[0] && Skip(s) == s;
    forall level | LOGICAL <= level < UNARY
      ensures NoOperation(level, rest)
    {
      SameAlternatives(rest, s, Operators(level));
      if level == Level(op) && !op.And? && !op.Or? {
        ShorterOperator(op, k);
      } else {
        forall i | 0 <= i < |Operators(level)|
          ensures Lit(s, Operators(level)[i].0) == None
        {
          LitNot(s, Operators(level)[i].0);
        }
        NoOperators(level, s);
      }
    }
  }

  /** `<`, `>` and `/` are tried before `<=`, `>=` and `//`, and what is left is no operand. */
  lemma ShorterOperator(op: BinaryOp, k: string)
    requires op.LessEqual? || op.GreaterEqual? || op.FloorDivide?
    ensures NoOperation(Level(op), OpText(op) + (" " + k))
  {
    var s := OpText(op) + (" " + k);
    var tail := [OpText(op)[1]] + (" " + k);
    assert s == [OpText(op)[0]] + tail;
    LitHere([OpText(op)[0]], tail);
    assert Skip(s) == s && Skip(tail) == tail;
    var i := if op.LessEqual? then 2 else if op.GreaterEqual? then 3 else 1;
    assert Operators(Level(op))[i].0 == [OpText(op)[0]];
    forall j | 0 <= j < i
      ensures Lit(s, Operators(Level(op))[j].0) == None
    {
      LitNot(s, Operators(Level(op))[j].0);
    }
    FoundAt(s, Operators(Level(op)), i);
    NothingParses(Level(op), tail);
  }

  /** An operator that the grammar lacks is never read: only the left operand is. */
  lemma UnreadableIsNotRead(op: BinaryOp, a: Expr, b: Expr, k: string)
    requires !IsReadable(op) && InFragment(a) && !a.Range?
    ensures Parse(LOGICAL, Print(Binary(op, a, b), 0) + k) == Some((a, " " + OpText(op) + (" " + (Print(b, Level(op)) + k))))
  {
    var right := Print(b, Level(op)) + k;
    BinaryJoins(Binary(op, a, b), k);
    UnreadableStops(op, right);
    assert Print(Binary(op, a, b), 0) == Body(Binary(op, a, b));
    hide Print, Body, Parse, Stops, OpText;
    RoundTrip(a, LOGICAL, Level(op), " " + OpText(op) + (" " + right));
  }

  /** Neither is a negation. */
  lemma NotIsNotRead(a: Expr, level: nat, k: string)
    requires LOGICAL <= level <= QUALIFIER
    ensures Parse(level, Print(Unary(UnaryOp.Not, a), 0) + k) == None
  {
    var s := Print(Unary(UnaryOp.Not, a), 0) + k;
    assert Body(Unary(UnaryOp.Not, a)) == "!" + Print(a, UNARY);
    Assoc("!", Print(a, UNARY), k);
    assert Skip(s) == s;
    NothingParses(level, s);
  }

  // Names that the grammar takes apart.

  /** `note` is read as `not e`. */
  lemma NoteIsNegated(w: string, k: string)
    requires IsName(w) && Separated(k) && !Opens(k)
    ensures Parse(UNARY, Print(Name("not" + w), UNARY) + k) == Some((Unary(UnaryOp.Not, Name(w)), k))
  {
    var s := "not" + (w + k);
    assert Print(Name("not" + w), UNARY) + k == s;
    LitHere("not", w + k);
    assert Skip(s) == s;
    LitNot(s, "+");
    LitNot(s, "-");
    FoundAt(s, [("+", Identity), ("-", Negate), ("not", UnaryOp.Not)], 2);
    RoundTrip(Name(w), UNARY, UNARY, k);
  }

  /** A line that starts with `order` continues the expression on the line before. */
  lemma OrderContinues(a: Expr, w: string, k: string)
    requires InFragment(a) && !a.Range? && IsName(w) && Stops(LOGICAL, k)
    ensures Parse(LOGICAL, Print(a, 0) + ("\n" + (Print(Name("or" + w), 0) + k))) == Some((Binary(Or, a, Name(w)), k))
  {
    var s := "or" + (w + k);
    var rest := "\n" + s;
    assert Print(Name("or" + w), 0) + k == s;
    assert rest[1..] == s && Skip(s) == s && Skip(rest) == s;
    forall l | COMPARISON <= l < UNARY
      ensures NoOperation(l, rest)
    {
      forall i | 0 <= i < |Operators(l)|
        ensures Lit(rest, Operators(l)[i].0) == None
      {
        LitNot(rest, Operators(l)[i].0);
      }
      NoOperators(l, rest);
    }
    assert Stops(COMPARISON, rest);
    LitHere("or", w + k);
    LitNot(s, "and");
    SameAlternatives(rest, s, Operators(LOGICAL));
    FoundAt(s, Operators(LOGICAL), 1);
    assert Operator(LOGICAL, rest) == Some((Or, w + k));
    RoundTrip(Name(w), LOGICAL, 0, k);
    assert Precedence(a) >= COMPARISON;
    hide Print, Stops;
    RoundTrip(a, COMPARISON, 0, rest);
  }
}
