/** The language of the grammar: every tree that it can make has a text in the grammar's own words, also where
    the printer has other words or none. */
module QirGrammar {
  import opened Wrappers
  import opened QirSyntax
  import opened QirRoundTrip

  /** The operators of the grammar; `<=`, `>=` and `//` are never read. */
  predicate IsOperator(op: BinaryOp) { !op.LessEqual? && !op.GreaterEqual? && !op.FloorDivide? }

  predicate IsTree(e: Expr) {
    match e
    case Name(name) => IsId(name)
    case Number(_) => true
    case Truth(_) => true
    case Binary(op, a, b) => IsOperator(op) && IsTree(a) && IsTree(b)
    case Unary(_, a) => IsTree(a)
    case Call(f, args) => IsId(f) && args != [] && forall k :: 0 <= k < |args| ==> IsTree(args[k])
    case Subscription(a, indices) => IsTree(a) && forall k :: 0 <= k < |indices| ==> IsTree(indices[k])
    case Member(a, member) => IsTree(a) && IsId(member)
    case Range(a, c, b) => IsTree(a) && IsTree(c) && IsTree(b)
  }

  /** No variable and no function has a name that begins with the word for negation. */
  predicate NoNot(e: Expr) {
    match e
    case Name(name) => !("not" <= name)
    case Number(_) => true
    case Truth(_) => true
    case Binary(_, a, b) => NoNot(a) && NoNot(b)
    case Unary(_, a) => NoNot(a)
    case Call(f, args) => !("not" <= f) && forall k :: 0 <= k < |args| ==> NoNot(args[k])
    case Subscription(a, indices) => NoNot(a) && forall k :: 0 <= k < |indices| ==> NoNot(indices[k])
    case Member(a, _) => NoNot(a)
    case Range(a, c, b) => NoNot(a) && NoNot(c) && NoNot(b)
  }

  predicate Writable(e: Expr) { IsTree(e) && NoNot(e) }

  // Texts, each in front of the text that follows it.

  function OperatorWord(op: BinaryOp): string {
    match op
    case And => "and"
    case Or => "or"
    case _ => OpText(op)
  }

  function UnaryWord(op: UnaryOp): string { if op.Not? then "not " else UnaryText(op) }

  /** Ranges, numbers before a qualifier, and what binds too weakly. */
  predicate Bracketed(e: Expr, level: nat) { e.Range? || (e.Number? && level == QUALIFIER) || Precedence(e) < level }

  function Write(e: Expr, level: nat, k: string): string
    decreases e, 1
  {
    if Bracketed(e, level) then "(" + Text(e, ")" + k) else Text(e, k)
  }

  /** Left operands are bracketed on the level of their operator, and a stride of one is left out. */
  function Text(e: Expr, k: string): string
    decreases e, 0
  {
    match e
    case Binary(op, a, b) => Write(a, Level(op) + 1, " " + OperatorWord(op) + (" " + Write(b, Level(op), k)))
    case Unary(op, a) => UnaryWord(op) + Write(a, UNARY, k)
    case Call(f, args) => f + ("(" + WriteList(args, ")" + k))
    case Subscription(a, indices) => Write(a, QUALIFIER, "[" + WriteList(indices, "]" + k))
    case Member(a, member) => Write(a, QUALIFIER, "." + (member + k))
    case Range(a, c, b) =>
      var upper := Write(b, LOGICAL, k);
      Write(a, LOGICAL, ":" + if c == Number(1) then upper else Write(c, LOGICAL, ":" + upper))
    case _ => Body(e) + k
  }

  function WriteList(es: seq<Expr>, k: string): string
    decreases es, 0
  {
    if es == [] then k
    else if |es| == 1 then Text(es[0], k)
    else Text(es[0], "," + (" " + WriteList(es[1..], k)))
  }

  /** Every tree has one text, whatever follows it. */
  lemma {:induction false} WriteAppends(e: Expr, level: nat, k: string)
    ensures Text(e, k) == Text(e, "") + k && Write(e, level, k) == Write(e, level, "") + k
    decreases e, 2
  {
    TextAppends(e, k);
    TextAppends(e, ")" + k);
    TextAppends(e, ")" + "");
    hide Text;
  }

  lemma {:induction false} TextAppends(e: Expr, k: string)
    ensures Text(e, k) == Text(e, "") + k
    decreases e, 1
  {
    match e
    case Binary(_, _, _) => BinaryAppends(e, k);
    case Unary(_, a) => WriteAppends(a, UNARY, k);
    case Call(_, args) => ListAppends(args, ")" + ""); ListAppends(args, ")" + k);
    case Subscription(_, _) => SubscriptionAppends(e, k);
    case Member(a, member) => WriteAppends(a, QUALIFIER, "." + (member + "")); WriteAppends(a, QUALIFIER, "." + (member + k));
    case Range(_, _, _) => RangeAppends(e, k);
    case _ =>
  }

  lemma {:induction false} BinaryAppends(e: Expr, k: string)
    requires e.Binary?
    ensures Text(e, k) == Text(e, "") + k
    decreases e, 0
  {
    var q, word := Level(e.op), " " + OperatorWord(e.op);
    var right, full := word + (" " + Write(e.rhs, q, "")), word + (" " + Write(e.rhs, q, k));
    assert Text(e, "") == Write(e.lhs, q + 1, right) && Text(e, k) == Write(e.lhs, q + 1, full);
    hide Write, Text, OperatorWord;
    WriteAppends(e.rhs, q, k);
    WriteAppends(e.lhs, q + 1, right);
    WriteAppends(e.lhs, q + 1, full);
    assert full == right + k;
  }

  lemma {:induction false} SubscriptionAppends(e: Expr, k: string)
    requires e.Subscription?
    ensures Text(e, k) == Text(e, "") + k
    decreases e, 0
  {
    var right, full := "[" + WriteList(e.indices, "]" + ""), "[" + WriteList(e.indices, "]" + k);
    assert Text(e, "") == Write(e.tensor, QUALIFIER, right) && Text(e, k) == Write(e.tensor, QUALIFIER, full);
    hide Write, Text, WriteList;
    ListAppends(e.indices, "]" + "");
    ListAppends(e.indices, "]" + k);
    WriteAppends(e.tensor, QUALIFIER, right);
    WriteAppends(e.tensor, QUALIFIER, full);
    assert full == right + k;
  }

  /** What follows the lower bound of a range. */
  function RangeRest(e: Expr, k: string): string
    requires e.Range?
  {
    if e.stride == Number(1) then ":" + Write(e.upper, LOGICAL, k)
    else ":" + Write(e.stride, LOGICAL, ":" + Write(e.upper, LOGICAL, k))
  }

  lemma {:induction false} RangeAppends(e: Expr, k: string)
    requires e.Range?
    ensures Text(e, k) == Text(e, "") + k
    decreases e, 0, 1
  {
    assert Text(e, k) == Write(e.lower, LOGICAL, RangeRest(e, k));
    assert Text(e, "") == Write(e.lower, LOGICAL, RangeRest(e, ""));
    hide Write, Text, RangeRest;
    RestAppends(e, k);
    WriteAppends(e.lower, LOGICAL, RangeRest(e, ""));
    WriteAppends(e.lower, LOGICAL, RangeRest(e, k));
    Assoc(Write(e.lower, LOGICAL, ""), RangeRest(e, ""), k);
  }

  lemma {:induction false} RestAppends(e: Expr, k: string)
    requires e.Range?
    ensures RangeRest(e, k) == RangeRest(e, "") + k
    decreases e, 0, 0
  {
    var upper, full := ":" + Write(e.upper, LOGICAL, ""), ":" + Write(e.upper, LOGICAL, k);
    hide Write;
    WriteAppends(e.upper, LOGICAL, k);
    assert full == upper + k;
    if e.stride != Number(1) {
      WriteAppends(e.stride, LOGICAL, upper);
      WriteAppends(e.stride, LOGICAL, full);
      var stride := Write(e.stride, LOGICAL, "");
      Regroup(":", stride, upper, k);
      Assoc(":", stride, upper);
    }
  }

  lemma {:induction false} ListAppends(es: seq<Expr>, k: string)
    ensures WriteList(es, k) == WriteList(es, "") + k
    decreases es, 0
  {
    if |es| == 1 {
      TextAppends(es[0], k);
    } else if es != [] {
      var others, full := "," + (" " + WriteList(es[1..], "")), "," + (" " + WriteList(es[1..], k));
      ListAppends(es[1..], k);
      TextAppends(es[0], others);
      TextAppends(es[0], full);
      hide Text;
      assert full == others + k;
    }
  }

  // Every text is read as the tree it was written for.

  lemma {:induction false} WriteIsRead(e: Expr, level: nat, printed: nat, k: string)
    requires Writable(e) && LOGICAL <= level <= QUALIFIER && printed <= QUALIFIER && Stops(level, k)
    requires Bracketed(e, printed) || level <= Precedence(e)
    ensures Parse(level, Write(e, printed, k)) == Some((e, k))
    decreases e, 5
  {
    if Bracketed(e, printed) {
      var s := "(" + Text(e, ")" + k);
      BracketsAreRead(e, k);
      NoQualifiers(e, k);
      NoUnaryOperator(s);
      Lift(level, QUALIFIER, s, e, k);
    } else {
      TextIsRead(e, level, k);
    }
  }

  lemma {:induction false} BracketsAreRead(e: Expr, k: string)
    requires Writable(e)
    ensures ParseBase("(" + Text(e, ")" + k)) == Some((e, k))
    decreases e, 4
  {
    LitHere("(", Text(e, ")" + k));
    EnderStops(")" + k);
    ItemIsRead(e, ")" + k);
    LitHere(")", k);
  }

  /** An item of a list, or what stands in brackets. */
  lemma {:induction false} ItemIsRead(e: Expr, k: string)
    requires Writable(e) && StopsItem(k)
    ensures ParseNonTask(Text(e, k)) == Some((e, k)) && (e.Range? ==> ParseRange(Text(e, k)) == Some((e, k)))
    decreases e, 3
  {
    if e.Range? {
      RangeIsRead(e, k);
    } else {
      TextIsRead(e, LOGICAL, k);
      NoRange(Text(e, k), e, k);
    }
  }

  lemma {:induction false} RangeIsRead(e: Expr, k: string)
    requires e.Range? && Writable(e) && StopsItem(k)
    ensures ParseRange(Text(e, k)) == Some((e, k))
    decreases e, 0
  {
    var upper := Write(e.upper, LOGICAL, k);
    var tail := if e.stride == Number(1) then upper else Write(e.stride, LOGICAL, ":" + upper);
    assert Text(e, k) == Write(e.lower, LOGICAL, ":" + tail);
    EnderStops(":" + tail);
    EnderStops(":" + upper);
    LitHere(":", tail);
    LitHere(":", upper);
    hide Write, Text, Parse, Stops, Skip, Lit;
    WriteIsRead(e.lower, LOGICAL, LOGICAL, ":" + tail);
    WriteIsRead(e.upper, LOGICAL, LOGICAL, k);
    if e.stride != Number(1) {
      WriteIsRead(e.stride, LOGICAL, LOGICAL, ":" + upper);
    }
    assert ParseRangeTail(e.lower, ":" + tail) == Some((e, k));
  }

  lemma {:induction false} ListIsRead(es: seq<Expr>, k: string)
    requires es != [] && (forall i :: 0 <= i < |es| ==> Writable(es[i])) && StopsItem(k) && Lit(k, ",") == None
    ensures ParseList(WriteList(es, k)) == Some((es, k))
    decreases es, 6
  {
    if |es| == 1 {
      ItemIsRead(es[0], k);
      assert es == [es[0]];
    } else {
      var others := WriteList(es[1..], k);
      var rest := "," + (" " + others);
      assert WriteList(es, k) == Text(es[0], rest);
      hide Text, WriteList, Skip, Lit, Writable;
      EnderStops(rest);
      LitHere(",", " " + others);
      EndsItem(rest);
      ItemIsRead(es[0], rest);
      ListIsRead(es[1..], k);
      SkipSpace(others);
      SameNonTask(" " + others, others);
      hide ParseNonTask;
      assert es == [es[0]] + es[1..];
    }
  }

  lemma EndsItem(k: string)
    requires k != "" && Ender(k[0]) && k[0] != ':'
    ensures StopsItem(k)
  {
    EnderStops(k);
  }

  /** What is not bracketed. */
  lemma {:induction false} TextIsRead(e: Expr, level: nat, k: string)
    requires Writable(e) && !e.Range? && LOGICAL <= level <= Precedence(e) && Stops(level, k)
    ensures Parse(level, Text(e, k)) == Some((e, k))
    decreases e, 2
  {
    if e.Binary? {
      BinaryIsRead(e, level, k);
    } else if e.Unary? {
      UnaryIsRead(e, level, k);
    } else {
      var base, rest := PrefixIsRead(e, k);
      NoQualifiers(e, k);
      Lift(level, QUALIFIER, Text(e, k), e, k);
    }
  }

  lemma {:induction false} BinaryIsRead(e: Expr, level: nat, k: string)
    requires e.Binary? && Writable(e) && LOGICAL <= level <= Level(e.op) && Stops(level, k)
    ensures Parse(level, Text(e, k)) == Some((e, k))
    decreases e, 0
  {
    var q := Level(e.op);
    var right := Write(e.rhs, q, k);
    var middle := " " + OperatorWord(e.op) + (" " + right);
    var s := Text(e, k);
    assert s == Write(e.lhs, q + 1, middle);
    assert Parse(q, s) == Some((e, k)) by {
      hide Write, Text, OperatorWord, Stops, Skip;
      WordIsRead(e.op, right);
      StopsAbove(level, q, k);
      WriteIsRead(e.lhs, q + 1, q + 1, middle);
      WriteIsRead(e.rhs, q, q, k);
      SkipSpace(right);
      SameParse(q, " " + right, right);
    }
    hide Write, Text, Stops, Parse;
    Lift(level, q, s, e, k);
  }

  lemma WordIsRead(op: BinaryOp, k: string)
    requires IsOperator(op)
    ensures Operator(Level(op), " " + OperatorWord(op) + (" " + k)) == Some((op, " " + k))
    ensures Stops(Level(op) + 1, " " + OperatorWord(op) + (" " + k))
  {
    if IsReadable(op) {
      OperatorRead(op, k);
    } else {
      var s := OperatorWord(op) + (" " + k);
      var rest := " " + OperatorWord(op) + (" " + k);
      assert rest == " " + s;
      SkipSpace(s);
      assert Skip(s) == s && s[0] == OperatorWord(op)[0];
      forall l | COMPARISON <= l < UNARY
        ensures NoOperation(l, rest)
      {
        forall i | 0 <= i < |Operators(l)|
          ensures Lit(rest, Operators(l)[i].0) == None
        {
          LitNot(rest, Operators(l)[i].0);
        }
        NoOperators(l, rest);
      }
      LitHere(OperatorWord(op), " " + k);
      if op.Or? {
        LitNot(s, "and");
      }
      FoundAt(rest, Operators(LOGICAL), if op.And? then 0 else 1);
    }
  }

  lemma {:induction false} UnaryIsRead(e: Expr, level: nat, k: string)
    requires e.Unary? && Writable(e) && LOGICAL <= level <= UNARY && Stops(level, k)
    ensures Parse(level, Text(e, k)) == Some((e, k))
    decreases e, 0
  {
    var operand := Write(e.arg, UNARY, k);
    var s := UnaryWord(e.uop) + operand;
    assert Text(e, k) == s;
    WriteIsRead(e.arg, UNARY, UNARY, k);
    if e.uop.Not? {
      assert s == "not" + (" " + operand);
      LitHere("not", " " + operand);
      assert Skip(s) == s;
      LitNot(s, "+");
      LitNot(s, "-");
      FoundAt(s, [("+", Identity), ("-", Negate), ("not", UnaryOp.Not)], 2);
      SkipSpace(operand);
      SameParse(UNARY, " " + operand, operand);
    } else {
      UnaryRead(e.uop, operand);
    }
    hide Text, Write;
    assert Parse(UNARY, s) == Some((e, k));
    Lift(level, UNARY, s, e, k);
  }

  /** The qualifiers are read one after the other, from the inside out. */
  lemma {:induction false} PrefixIsRead(e: Expr, k: string) returns (base: Expr, rest: string)
    requires Writable(e) && !e.Range? && Precedence(e) == QUALIFIER && MayFollow(e, k)
    ensures ParseBase(Text(e, k)) == Some((base, rest)) && ParseQualifiers(base, rest) == ParseQualifiers(e, k)
    ensures UnaryOperator(Text(e, k)) == None
    decreases e, 1
  {
    match e
    case Name(name) =>
      NameStart(name, k);
      LitNot(k, "(");
      base, rest := e, k;
    case Number(_) => NumberBase(e, k); base, rest := e, k;
    case Truth(_) => TruthBase(e, k); base, rest := e, k;
    case Call(_, _) => CallIsRead(e, k); base, rest := e, k;
    case Subscription(a, indices) =>
      var tail := "[" + WriteList(indices, "]" + k);
      assert Skip(tail) == tail;
      base, rest := OperandIsRead(a, tail);
      IndicesAreRead(a, indices, k);
    case Member(a, member) =>
      var tail := "." + (member + k);
      assert Skip(tail) == tail;
      base, rest := OperandIsRead(a, tail);
      LitNot(tail, "[");
      LitHere(".", member + k);
      IdRoundTrip(member, k);
  }

  lemma {:induction false} OperandIsRead(e: Expr, k: string) returns (base: Expr, rest: string)
    requires Writable(e) && k != "" && (k[0] == '[' || k[0] == '.')
    ensures ParseBase(Write(e, QUALIFIER, k)) == Some((base, rest)) && ParseQualifiers(base, rest) == ParseQualifiers(e, k)
    ensures UnaryOperator(Write(e, QUALIFIER, k)) == None
    decreases e, 5
  {
    if Bracketed(e, QUALIFIER) {
      BracketsAreRead(e, k);
      NoUnaryOperator("(" + Text(e, ")" + k));
      base, rest := e, k;
    } else {
      assert Skip(k) == k;
      base, rest := PrefixIsRead(e, k);
    }
  }

  lemma {:induction false} CallIsRead(e: Expr, k: string)
    requires e.Call? && Writable(e)
    ensures ParseBase(Text(e, k)) == Some((e, k)) && UnaryOperator(Text(e, k)) == None
    decreases e, 0
  {
    var list := WriteList(e.args, ")" + k);
    var s := e.function_ + ("(" + list);
    assert Text(e, k) == s;
    NameStart(e.function_, "(" + list);
    LitHere("(", list);
    EndsItem(")" + k);
    ListIsRead(e.args, ")" + k);
    LitHere(")", k);
    assert ParseBracketed(s) == None;
    assert ParseCall(s) == Some((Call(e.function_, e.args), k));
  }

  lemma {:induction false} IndicesAreRead(a: Expr, indices: seq<Expr>, k: string)
    requires forall i :: 0 <= i < |indices| ==> Writable(indices[i])
    ensures ParseQualifier(a, "[" + WriteList(indices, "]" + k)) == Some((Subscription(a, indices), k))
    decreases indices, 7
  {
    LitHere("[", WriteList(indices, "]" + k));
    LitHere("]", k);
    if indices == [] {
      NothingAt("]" + k);
    } else {
      EndsItem("]" + k);
      ListIsRead(indices, "]" + k);
    }
  }

  // Nothing else is read.

  lemma {:induction false} IdLengthChars(s: string)
    ensures forall i :: 0 <= i < IdLength(s) ==> IsIdChar(s[i])
  {
    if s != "" && IsIdChar(s[0]) {
      IdLengthChars(s[1..]);
      forall i | 0 < i < IdLength(s) ensures IsIdChar(s[i]) { assert s[i] == s[1..][i - 1]; }
    }
  }

  lemma KeywordPrefix(name: string, t: string)
    requires name <= t && KeywordAt(name)
    ensures KeywordAt(t)
  {
    var i :| 0 <= i < |KEYWORDS| && KEYWORDS[i] <= name;
    assert KEYWORDS[i] <= t;
  }

  lemma ReadIdIsId(s: string)
    ensures ParseId(s).Some? ==> IsId(ParseId(s).value.0)
  {
    if ParseId(s).Some? {
      var t, name := Skip(s), ParseId(s).value.0;
      IdLengthChars(t);
      assert name == t[..IdLength(t)];
      if KeywordAt(name) {
        KeywordPrefix(name, t);
      }
    }
  }

  lemma {:induction false} FoundIsListed<T>(s: string, alternatives: seq<(string, T)>) returns (i: nat)
    requires (forall k :: 0 <= k < |alternatives| ==> alternatives[k].0 != "") && FirstOf(s, alternatives).Some?
    ensures i < |alternatives| && FirstOf(s, alternatives).value.0 == alternatives[i].1
    ensures forall j :: 0 <= j < i ==> Lit(s, alternatives[j].0) == None
    ensures Lit(s, alternatives[i].0).Some?
  {
    if Lit(s, alternatives[0].0).Some? {
      i := 0;
    } else {
      i := FoundIsListed(s, alternatives[1..]);
      i := i + 1;
    }
  }

  lemma LitPrefix(s: string, short: string, long: string)
    requires short != "" && short <= long
    ensures Lit(s, long).Some? ==> Lit(s, short).Some?
  {
  }

  /** Where `<=` could be read, `<` is read before it. */
  lemma ReadOperatorIsOperator(level: nat, s: string)
    ensures Operator(level, s).Some? ==> IsOperator(Operator(level, s).value.0)
  {
    if Operator(level, s).Some? {
      var i := FoundIsListed(s, Operators(level));
      LitPrefix(s, "<", "<=");
      LitPrefix(s, ">", ">=");
      assert level == COMPARISON ==> Operators(level)[2].0 == "<" && Operators(level)[3].0 == ">";
    }
  }

  /** What is read is a tree of the grammar. */
  predicate ReadsTree(r: Option<(Expr, string)>) { r.Some? ==> IsTree(r.value.0) }

  lemma {:induction false} ParseReadsTrees(level: nat, s: string)
    requires LOGICAL <= level <= QUALIFIER
    ensures ReadsTree(Parse(level, s))
    decreases |s|, 10 - level
  {
    if level < UNARY {
      ParseReadsTrees(level + 1, s);
      if Parse(level + 1, s).Some? {
        var rest := Parse(level + 1, s).value.1;
        ReadOperatorIsOperator(level, rest);
        if Operator(level, rest).Some? {
          ParseReadsTrees(level, Operator(level, rest).value.1);
        }
      }
    } else if level == UNARY {
      if UnaryOperator(s).Some? {
        ParseReadsTrees(UNARY, UnaryOperator(s).value.1);
      }
      ParseReadsTrees(QUALIFIER, s);
    } else {
      BaseReadsTrees(s);
      if ParseBase(s).Some? {
        QualifiersReadTrees(ParseBase(s).value.0, ParseBase(s).value.1);
      }
    }
  }

  lemma {:induction false} BaseReadsTrees(s: string)
    ensures ReadsTree(ParseBase(s))
    decreases |s|, 2
  {
    ReadIdIsId(s);
    if Lit(s, "(").Some? {
      ItemReadsTrees(Lit(s, "(").value);
    }
    if ParseCall(s).Some? {
      ListReadsTrees(Lit(ParseId(s).value.1, "(").value);
    }
  }

  lemma {:induction false} QualifiersReadTrees(e: Expr, s: string)
    requires IsTree(e)
    ensures IsTree(ParseQualifiers(e, s).0)
    decreases |s|, 2
  {
    if ParseQualifier(e, s).Some? {
      if Lit(s, "[").Some? {
        ListReadsTrees(Lit(s, "[").value);
      } else {
        ReadIdIsId(Lit(s, ".").value);
      }
      QualifiersReadTrees(ParseQualifier(e, s).value.0, ParseQualifier(e, s).value.1);
    }
  }

  lemma {:induction false} ListReadsTrees(s: string)
    ensures ParseList(s).Some? ==> ParseList(s).value.0 != [] && forall k :: 0 <= k < |ParseList(s).value.0| ==> IsTree(ParseList(s).value.0[k])
    decreases |s|, 12
  {
    ItemReadsTrees(s);
    if ParseNonTask(s).Some? && Lit(ParseNonTask(s).value.1, ",").Some? {
      ListReadsTrees(Lit(ParseNonTask(s).value.1, ",").value);
    }
  }

  lemma {:induction false} ItemReadsTrees(s: string)
    ensures ReadsTree(ParseNonTask(s)) && ReadsTree(ParseRange(s)) && (ParseRange(s).Some? ==> ParseRange(s).value.0.Range?)
    decreases |s|, 11
  {
    ParseReadsTrees(LOGICAL, s);
    if Parse(LOGICAL, s).Some? {
      RangeReadsTrees(Parse(LOGICAL, s).value.0, Parse(LOGICAL, s).value.1);
    }
  }

  lemma {:induction false} RangeReadsTrees(a: Expr, s: string)
    requires IsTree(a)
    ensures ReadsTree(ParseRangeTail(a, s)) && (ParseRangeTail(a, s).Some? ==> ParseRangeTail(a, s).value.0.Range?)
    decreases |s|, 11
  {
    if Lit(s, ":").Some? {
      var after := Lit(s, ":").value;
      ParseReadsTrees(LOGICAL, after);
      if Parse(LOGICAL, after).Some? && Lit(Parse(LOGICAL, after).value.1, ":").Some? {
        ParseReadsTrees(LOGICAL, Lit(Parse(LOGICAL, after).value.1, ":").value);
      }
    }
  }

  lemma NothingStopsItem()
    ensures StopsItem("")
  {
    LineEnds("");
  }

  /** Apart from names that begin with the word for negation, exactly the trees of the grammar can be written. */
  lemma ExactlyTheTrees(e: Expr)
    requires NoNot(e)
    ensures (exists s, k :: ParseNonTask(s) == Some((e, k))) <==> IsTree(e)
  {
    if IsTree(e) {
      NothingStopsItem();
      ItemIsRead(e, "");
    }
    forall s, k | ParseNonTask(s) == Some((e, k))
      ensures IsTree(e)
    {
      ItemReadsTrees(s);
    }
  }

  // Ranges and loops as they are written by hand.

  /** The stride of a range of two parts is one, and its first part is the lower bound. */
  lemma TwoPartsAreRead(a: Expr, b: Expr, k: string)
    requires InFragment(a) && !a.Range? && InFragment(b) && !b.Range? && StopsItem(k)
    ensures ParseRange(Print(a, 0) + (":" + (Print(b, 0) + k))) == Some((Range(a, Number(1), b), k))
    ensures ParseNonTask(Print(a, 0) + (":" + (Print(b, 0) + k))) == Some((Range(a, Number(1), b), k))
  {
    var tail := Print(b, 0) + k;
    hide Print, Parse, Stops, Skip;
    EnderStops(":" + tail);
    RoundTrip(a, LOGICAL, 0, ":" + tail);
    LitHere(":", tail);
    RoundTrip(b, LOGICAL, 0, k);
  }

  /** A second colon has to be followed by a bound. */
  lemma ThirdPartIsNeeded(a: Expr, b: Expr, k: string)
    requires InFragment(a) && !a.Range? && InFragment(b) && !b.Range? && Parse(LOGICAL, k) == None
    ensures ParseRange(Print(a, 0) + (":" + (Print(b, 0) + (":" + k)))) == None
  {
    var tail := Print(b, 0) + (":" + k);
    hide Print, Stops, Skip;
    EnderStops(":" + tail);
    RoundTrip(a, LOGICAL, 0, ":" + tail);
    LitHere(":", tail);
    EnderStops(":" + k);
    RoundTrip(b, LOGICAL, 0, ":" + k);
    LitHere(":", k);
  }

  /** A loop with any range and any text behind it. */
  function LoopText(order: Order, i: string, t: string, range: string): string {
    Head(order) + (" " + (i + (" ::" + (" " + (t + (" in" + (" " + range)))))))
  }

  /** After its head a loop consists of a block and the closing word, or it is an error. */
  lemma LoopIsRead(order: Order, i: string, t: string, text: string, range: Expr, rest: string)
    requires IsId(i) && IsId(t) && ParseRange(text) == Some((range, rest))
    ensures ParseStmt(LoopText(order, i, t, text)) ==
            match ParseBlock(rest)
            case Match(body, closing) =>
              (match Lit(closing, "end")
               case Some(after) => Match(For(order, i, t, range, body), after)
               case None => Error)
            case _ => Error
  {
    LoopHeadRead(For(order, i, t, range, []), text);
    SkipSpace(text);
    SameNonTask(" " + text, text);
    hide ParseStmt, ParseRange, ParseBlock, ParseDeclaration, Lit, Head, Skip;
  }

  /** `for i :: T in a:b` */
  lemma LoopOverRange(order: Order, i: string, t: string, a: Expr, b: Expr, body: seq<Stmt>, indent: nat, k: string)
    requires IsId(i) && IsId(t) && InFragment(a) && !a.Range? && InFragment(b) && !b.Range? && InFragmentBlock(body)
    ensures var range := Print(a, 0) + (":" + (Print(b, 0) + Inside(body, indent, Closing(indent, k))));
            ParseStmt(LoopText(order, i, t, range)) == Match(For(order, i, t, Range(a, Number(1), b), body), "\n" + k)
  {
    var closing := Closing(indent, k);
    var rest := Inside(body, indent, closing);
    ClosingWord(indent, "end", "\n" + k);
    hide Inside, Closing, ParseStmt, ParseRange, ParseBlock, Skip, Lit, InFragment, LoopText, Print;
    InsideRead(body, indent, closing);
    TwoPartsAreRead(a, b, rest);
    LoopIsRead(order, i, t, Print(a, 0) + (":" + (Print(b, 0) + rest)), Range(a, Number(1), b), rest);
  }

  // Blocks.

  /** Exactly these statements, one after the other, are read from `s`, and `rest` is left. */
  predicate Reads(b: seq<Stmt>, s: string, rest: string) {
    if b == [] then s == rest
    else ParseStmt(s).Match? && ParseStmt(s).value == b[0] && Reads(b[1..], ParseStmt(s).rest, rest)
  }

  /** A block goes on to where no statement begins, and is an error where a statement is one. */
  lemma {:induction false} BlockIsMaximal(s: string) returns (b: seq<Stmt>, rest: string)
    ensures Reads(b, s, rest) && !ParseStmt(rest).Match?
    ensures ParseBlock(s) == if ParseStmt(rest).Miss? then Match(b, rest) else Error
    decreases |s|
  {
    if ParseStmt(s).Match? {
      var others;
      others, rest := BlockIsMaximal(ParseStmt(s).rest);
      b := [ParseStmt(s).value] + others;
    } else {
      b, rest := [], s;
    }
  }

  /** After a keyword, or after an expression and the sign of an assignment, there is no way back. */
  lemma NoWayBack(s: string)
    ensures ParseStmt(s).Miss? <==>
            && Lit(s, "if") == None && ParseForHead(s) == None && Lit(s, "let") == None
            && (ParseNonTask(s) == None || FirstOf(ParseNonTask(s).value.1, [("=", false), ("+=", true)]) == None)
  {
    hide ParseNonTask, ParseForHead, ParseBlock, ParseRange, ParseDeclaration, Lit, FirstOf;
  }
}
