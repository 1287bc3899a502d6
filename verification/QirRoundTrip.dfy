/** Parsing what was printed gives back the same program. */
module QirRoundTrip {
  import opened Wrappers
  import opened QirSyntax

  // Names and numbers.

  predicate IsWord(s: string) { s != "" && IsAlpha(s[0]) && forall k :: 0 <= k < |s| ==> IsIdChar(s[k]) }

  /** An identifier begins with no keyword. */
  predicate IsId(s: string) { IsWord(s) && !KeywordAt(s) }

  /** An identifier that does not begin with the unary operator either, as `notes` does. */
  predicate IsName(s: string) { IsId(s) && !("not" <= s) }

  /** After the end of a line, `order` would be taken for an operator and its operand. */
  predicate StartsLine(s: string) { !("and" <= s) && !("or" <= s) }

  /** The text goes on with nothing that could belong to an identifier or number before it. */
  predicate Separated(k: string) { k == "" || (!IsIdChar(k[0]) && k[0] != '.') }

  lemma {:induction false} IdLengthStops(s: string, k: string)
    requires (forall i :: 0 <= i < |s| ==> IsIdChar(s[i])) && (k == "" || !IsIdChar(k[0]))
    ensures IdLength(s + k) == |s|
  {
    if s == "" {
      assert s + k == k;
    } else {
      assert (s + k)[1..] == s[1..] + k;
      IdLengthStops(s[1..], k);
    }
  }

  lemma KeywordsAreLetters(k: nat, i: nat)
    requires k < |KEYWORDS| && i < |KEYWORDS[k]|
    ensures IsAlpha(KEYWORDS[k][i])
  {
    assert KEYWORDS[0] == "for" && KEYWORDS[1] == "if" && KEYWORDS[2] == "else" && KEYWORDS[3] == "end";
    assert KEYWORDS[4] == "module" && KEYWORDS[5] == "struct" && KEYWORDS[6] == "function" && KEYWORDS[7] == "let";
    assert KEYWORDS[8] == "parallel" && KEYWORDS[9] == "unordered" && KEYWORDS[10] == "true" && KEYWORDS[11] == "false";
  }

  lemma NoKeyword(s: string, k: string)
    requires !KeywordAt(s) && (k == "" || !IsAlpha(k[0]))
    ensures !KeywordAt(s + k)
  {
    forall i | 0 <= i < |KEYWORDS|
      ensures !(KEYWORDS[i] <= s + k)
    {
      var w := KEYWORDS[i];
      assert w <= s ==> KeywordAt(s);
      if |w| <= |s| {
        assert (s + k)[..|w|] == s[..|w|];
      } else if |w| <= |s + k| {
        KeywordsAreLetters(i, |s|);
        assert (s + k)[|s|] == k[0];
      }
    }
  }

  /** A word is read as an identifier exactly if it begins with no keyword. */
  lemma IdRoundTrip(s: string, k: string)
    requires IsWord(s) && (k == "" || !IsIdChar(k[0]))
    ensures ParseId(s + k) == Some((s, k)) <==> !KeywordAt(s)
  {
    assert Skip(s + k) == s + k by { assert (s + k)[0] == s[0]; }
    if KeywordAt(s) {
      var i :| 0 <= i < |KEYWORDS| && KEYWORDS[i] <= s;
      assert KEYWORDS[i] <= s + k;
    } else {
      NoKeyword(s, k);
      IdLengthStops(s, k);
      assert (s + k)[..|s|] == s && (s + k)[|s|..] == k;
    }
  }

  lemma {:induction false} DecimalDigits(n: nat)
    ensures Decimal(n) != "" && forall i :: 0 <= i < |Decimal(n)| ==> IsDigit(Decimal(n)[i])
    ensures ValueOf(Decimal(n)) == n
  {
    if n < 10 {
      assert [Digit(n)][..0] == "";
    } else {
      DecimalDigits(n / 10);
      var s := Decimal(n / 10) + [Digit(n % 10)];
      assert s[..|s| - 1] == Decimal(n / 10);
    }
  }

  lemma {:induction false} DigitLengthStops(s: string, k: string)
    requires (forall i :: 0 <= i < |s| ==> IsDigit(s[i])) && (k == "" || !IsDigit(k[0]))
    ensures DigitLength(s + k) == |s|
  {
    if s == "" {
      assert s + k == k;
    } else {
      assert (s + k)[1..] == s[1..] + k;
      DigitLengthStops(s[1..], k);
    }
  }

  lemma NumberRoundTrip(n: nat, k: string)
    requires Separated(k)
    ensures ParseLiteral(Decimal(n) + k) == Some((Number(n), k))
  {
    var s := Decimal(n);
    DecimalDigits(n);
    DigitLengthStops(s, k);
    assert Skip(s + k) == s + k by { assert (s + k)[0] == s[0]; }
    assert (s + k)[..|s|] == s && (s + k)[|s|..] == k;
  }

  // Literal texts.

  lemma LitHere(text: string, k: string)
    requires text != "" && !IsSpace(text[0])
    ensures Lit(text + k, text) == Some(k)
  {
    assert Skip(text + k) == text + k by { assert (text + k)[0] == text[0]; }
    assert (text + k)[|text|..] == k;
  }

  /** The next character is not the first one of `text`. */
  lemma LitNot(s: string, text: string)
    requires text != "" && (Skip(s) == "" || Skip(s)[0] != text[0])
    ensures Lit(s, text) == None
  {
  }

  /** Everything starts by skipping space. */
  lemma {:induction false} SameAlternatives<T>(s: string, s': string, alternatives: seq<(string, T)>)
    requires Skip(s) == Skip(s') && forall k :: 0 <= k < |alternatives| ==> alternatives[k].0 != ""
    ensures FirstOf(s, alternatives) == FirstOf(s', alternatives)
  {
    if alternatives != [] {
      SameAlternatives(s, s', alternatives[1..]);
    }
  }

  lemma SameBase(s: string, s': string)
    requires Skip(s) == Skip(s')
    ensures ParseBase(s) == ParseBase(s')
  {
    hide Skip, ParseNonTask, ParseList, KeywordAt, IdLength, DigitLength, ValueOf;
    assert ParseId(s) == ParseId(s');
    assert Lit(s, "(") == Lit(s', "(") && Lit(s, "true") == Lit(s', "true") && Lit(s, "false") == Lit(s', "false");
    assert ParseBracketed(s) == ParseBracketed(s');
    assert ParseCall(s) == ParseCall(s');
    assert ParseLiteral(s) == ParseLiteral(s');
  }

  lemma {:induction false} SameParse(level: nat, s: string, s': string)
    requires LOGICAL <= level <= QUALIFIER && Skip(s) == Skip(s')
    ensures Parse(level, s) == Parse(level, s')
    decreases 10 - level
  {
    if level < UNARY {
      SameParse(level + 1, s, s');
    } else if level == UNARY {
      SameAlternatives(s, s', [("+", Identity), ("-", Negate), ("not", UnaryOp.Not)]);
      SameParse(QUALIFIER, s, s');
    } else {
      SameBase(s, s');
    }
  }

  lemma SameNonTask(s: string, s': string)
    requires Skip(s) == Skip(s')
    ensures ParseNonTask(s) == ParseNonTask(s') && ParseRange(s) == ParseRange(s')
  {
    SameParse(LOGICAL, s, s');
  }

  lemma SkipSpace(s: string)
    ensures Skip(" " + s) == Skip(s)
  {
    assert (" " + s)[1..] == s;
  }

  // Where an expression ends.

  /** No operator of the level is next, or no operand after it. */
  predicate NoOperation(level: nat, k: string)
    requires LOGICAL <= level <= QUALIFIER
  {
    match Operator(level, k)
    case None => true
    case Some((_, rest)) => Parse(level, rest) == None
  }

  predicate Opens(k: string) { Skip(k) != "" && (Skip(k)[0] == '[' || Skip(k)[0] == '.' || Skip(k)[0] == '(') }

  /** What follows an expression of the level does not continue it. */
  predicate Stops(level: nat, k: string)
    requires LOGICAL <= level <= QUALIFIER
  {
    Separated(k) && !Opens(k) && forall l :: level <= l < UNARY ==> NoOperation(l, k)
  }

  /** What follows an expression that may be a range. */
  predicate StopsItem(k: string) { Stops(LOGICAL, k) && Lit(k, ":") == None }

  lemma NoOperators(level: nat, k: string)
    requires LOGICAL <= level <= QUALIFIER && forall i :: 0 <= i < |Operators(level)| ==> Lit(k, Operators(level)[i].0) == None
    ensures Operator(level, k) == None
  {
    NoAlternative(k, Operators(level));
  }

  lemma {:induction false} NoAlternative<T>(s: string, alternatives: seq<(string, T)>)
    requires forall k :: 0 <= k < |alternatives| ==> alternatives[k].0 != "" && Lit(s, alternatives[k].0) == None
    ensures FirstOf(s, alternatives) == None
  {
    if alternatives != [] {
      NoAlternative(s, alternatives[1..]);
    }
  }

  /** The first character rules all operators out. */
  predicate Ender(c: char) { c == ')' || c == ']' || c == ',' || c == ':' }

  lemma EnderStops(k: string)
    requires k != "" && Ender(k[0])
    ensures Stops(LOGICAL, k)
  {
    assert Skip(k) == k;
    forall level | LOGICAL <= level < UNARY
      ensures NoOperation(level, k)
    {
      forall i | 0 <= i < |Operators(level)|
        ensures Lit(k, Operators(level)[i].0) == None
      {
        LitNot(k, Operators(level)[i].0);
      }
      NoOperators(level, k);
    }
  }

  // Lifting to lower levels of precedence.

  lemma {:induction false} Lift(level: nat, n: nat, s: string, e: Expr, k: string)
    requires LOGICAL <= level <= n <= QUALIFIER && Parse(n, s) == Some((e, k)) && Stops(level, k)
    requires level < QUALIFIER == n ==> UnaryOperator(s) == None
    ensures Parse(level, s) == Some((e, k))
    decreases n - level
  {
    if level < n {
      Lift(level + 1, n, s, e, k);
      assert level < UNARY ==> NoOperation(level, k);
    }
  }

  // The fragment that printer and grammar agree on.

  /** What begins with a name: variables, calls, and their elements and members. */
  predicate IsAccess(e: Expr) {
    e.Name? || e.Call? || (e.Subscription? && IsAccess(e.tensor)) || (e.Member? && IsAccess(e.struct_))
  }

  function Root(e: Expr): string
    requires IsAccess(e)
  {
    match e
    case Name(name) => name
    case Call(f, _) => f
    case Subscription(a, _) => Root(a)
    case Member(a, _) => Root(a)
  }

  /** The operators that the grammar has in the printed form. */
  predicate IsReadable(op: BinaryOp) { !op.And? && !op.Or? && !op.LessEqual? && !op.GreaterEqual? && !op.FloorDivide? }

  /** Operands of binary operators bind tighter on the left, or are bracketed; ranges are no
      operands; calls have arguments; no point follows a number. */
  predicate InFragment(e: Expr) {
    match e
    case Name(name) => IsName(name)
    case Number(_) => true
    case Truth(_) => true
    case Binary(op, a, b) =>
      IsReadable(op) && Precedence(a) != Level(op) && !a.Range? && !b.Range? && InFragment(a) && InFragment(b)
    case Unary(op, a) => !op.Not? && !a.Range? && InFragment(a)
    case Call(f, args) => IsName(f) && args != [] && forall k :: 0 <= k < |args| ==> InFragment(args[k])
    case Subscription(a, indices) => !a.Range? && InFragment(a) && forall k :: 0 <= k < |indices| ==> InFragment(indices[k])
    case Member(a, member) => !a.Range? && !a.Number? && InFragment(a) && IsId(member)
    case Range(a, c, b) => !a.Range? && !c.Range? && !b.Range? && InFragment(a) && InFragment(c) && InFragment(b)
  }

  /** The parser is at the level of `e` or below, or `e` is bracketed. */
  predicate Fits(e: Expr, level: nat, printed: nat) {
    LOGICAL <= level <= QUALIFIER && printed <= QUALIFIER && (Precedence(e) < printed || level <= Precedence(e))
  }

  lemma {:induction false} RoundTrip(e: Expr, level: nat, printed: nat, k: string)
    requires InFragment(e) && !e.Range? && Fits(e, level, printed) && Stops(level, k)
    ensures Parse(level, Print(e, printed) + k) == Some((e, k))
    decreases e, 3
  {
    if Precedence(e) < printed {
      BracketedRoundTrip(e, k);
      assert "(" + Body(e) + ")" + k == "(" + (Body(e) + (")" + k));
      var s := "(" + Body(e) + ")" + k;
      NoQualifiers(e, k);
      NoUnaryOperator(s);
      Lift(level, QUALIFIER, s, e, k);
    } else {
      BodyRoundTrip(e, level, k);
    }
  }

  lemma NoUnaryOperator(s: string)
    requires s != "" && !IsSpace(s[0]) && s[0] != '+' && s[0] != '-' && !("not" <= s)
    ensures UnaryOperator(s) == None
  {
    assert Skip(s) == s;
    NoAlternative(s, [("+", Identity), ("-", Negate), ("not", UnaryOp.Not)]);
  }

  lemma NoQualifiers(e: Expr, k: string)
    requires !Opens(k)
    ensures ParseQualifiers(e, k) == (e, k)
  {
    LitNot(k, "[");
    LitNot(k, ".");
  }

  lemma {:induction false} BracketedRoundTrip(e: Expr, k: string)
    requires InFragment(e) && !e.Range?
    ensures ParseBase("(" + (Body(e) + (")" + k))) == Some((e, k))
    decreases e, 2
  {
    var s := "(" + (Body(e) + (")" + k));
    LitHere("(", Body(e) + (")" + k));
    EnderStops(")" + k);
    RoundTripBody(e, ")" + k);
    LitHere(")", k);
  }

  /** An item that is printed without brackets. */
  lemma {:induction false} RoundTripBody(e: Expr, k: string)
    requires InFragment(e) && !e.Range? && Stops(LOGICAL, k) && Lit(k, ":") == None
    ensures ParseNonTask(Body(e) + k) == Some((e, k))
    decreases e, 1
  {
    BodyRoundTrip(e, LOGICAL, k);
    NoRange(Body(e) + k, e, k);
  }

  /** Without a colon an item is no range. */
  lemma NoRange(s: string, e: Expr, k: string)
    requires Parse(LOGICAL, s) == Some((e, k)) && Lit(k, ":") == None
    ensures ParseNonTask(s) == Some((e, k))
  {
    assert ParseRangeTail(e, k) == None;
  }

  lemma {:induction false} BodyRoundTrip(e: Expr, level: nat, k: string)
    requires InFragment(e) && !e.Range? && LOGICAL <= level <= Precedence(e) <= QUALIFIER && Stops(level, k)
    ensures Parse(level, Body(e) + k) == Some((e, k))
    decreases e, 0
  {
    var s := Body(e) + k;
    if e.Binary? {
      BinaryRoundTrip(e, level, k);
    } else if e.Unary? {
      UnaryRoundTrip(e, level, k);
    } else {
      QualifiedRoundTrip(e, k);
      Lift(level, QUALIFIER, s, e, k);
    }
  }

  lemma NumberBase(e: Expr, k: string)
    requires e.Number? && Separated(k)
    ensures ParseBase(Body(e) + k) == Some((e, k)) && UnaryOperator(Body(e) + k) == None
  {
    var s := Body(e) + k;
    DecimalDigits(e.value);
    NumberRoundTrip(e.value, k);
    assert IsDigit(s[0]) && Skip(s) == s;
    LitNot(s, "(");
    assert ParseId(s) == None && ParseBracketed(s) == None && ParseCall(s) == None;
    NoUnaryOperator(s);
  }

  lemma TruthBase(e: Expr, k: string)
    requires e.Truth?
    ensures ParseBase(Body(e) + k) == Some((e, k)) && UnaryOperator(Body(e) + k) == None
  {
    var s := Body(e) + k;
    assert s[0] == 't' || s[0] == 'f';
    assert Skip(s) == s;
    assert KEYWORDS[10] == "true" && KEYWORDS[11] == "false";
    assert KeywordAt(s) by {
      assert (if e.truth then KEYWORDS[10] else KEYWORDS[11]) <= s;
    }
    LitNot(s, "(");
    LitHere(Body(e), k);
    if !e.truth {
      LitNot(s, "true");
    }
    assert ParseId(s) == None && ParseBracketed(s) == None && ParseCall(s) == None;
    assert DigitLength(s) == 0;
    assert ParseLiteral(s) == Some((e, k));
    NoUnaryOperator(s);
  }

  lemma NotNot(name: string, k: string)
    requires IsName(name) && (k == "" || !IsIdChar(k[0]))
    ensures !("not" <= name + k)
  {
    if |name| >= 3 {
      assert (name + k)[..3] == name[..3];
    } else if |name + k| >= 3 {
      assert (name + k)[|name|] == k[0] && IsAlpha("not"[|name|]);
    }
  }

  lemma NameStart(name: string, k: string)
    requires IsName(name) && (k == "" || !IsIdChar(k[0]))
    ensures ParseId(name + k) == Some((name, k)) && Lit(name + k, "(") == None && UnaryOperator(name + k) == None
  {
    var s := name + k;
    assert s[0] == name[0] && Skip(s) == s;
    IdRoundTrip(name, k);
    LitNot(s, "(");
    NotNot(name, k);
    NoUnaryOperator(s);
  }

  lemma {:induction false} CallBase(e: Expr, k: string)
    requires e.Call? && InFragment(e)
    ensures ParseBase(Body(e) + k) == Some((e, k)) && UnaryOperator(Body(e) + k) == None
    decreases e, 0, 0
  {
    var afterName := "(" + (PrintList(e.args) + (")" + k));
    assert Body(e) + k == e.function_ + afterName;
    NameStart(e.function_, afterName);
    LitHere("(", PrintList(e.args) + (")" + k));
    EnderStops(")" + k);
    ListRoundTrip(e.args, ")" + k);
    LitHere(")", k);
    var s := e.function_ + afterName;
    assert ParseBracketed(s) == None;
    assert ParseCall(s) == Some((Call(e.function_, e.args), k));
  }

  lemma {:induction false} BracketedBase(e: Expr, k: string)
    requires InFragment(e) && (e.Binary? || e.Unary?)
    ensures ParseBase(Print(e, QUALIFIER) + k) == Some((e, k)) && UnaryOperator(Print(e, QUALIFIER) + k) == None
    decreases e, 3
  {
    var s := "(" + Body(e) + ")" + k;
    assert s == "(" + (Body(e) + (")" + k));
    BracketedRoundTrip(e, k);
    NoUnaryOperator(s);
  }

  /** Literals, names, calls, brackets, and their elements and members. */
  lemma {:induction false} QualifiedRoundTrip(e: Expr, k: string)
    requires InFragment(e) && !e.Range? && Precedence(e) == QUALIFIER && Separated(k) && !Opens(k)
    ensures Parse(QUALIFIER, Body(e) + k) == Some((e, k)) && UnaryOperator(Body(e) + k) == None
    decreases e, 0, 2
  {
    var base, rest := AccessPrefix(e, k);
    NoQualifiers(e, k);
  }

  /** The text may go on with a qualifier; a number has to end before it. */
  predicate MayFollow(e: Expr, k: string) {
    (k == "" || !IsIdChar(k[0])) && (Skip(k) == "" || Skip(k)[0] != '(') && (e.Number? ==> Separated(k))
  }

  /** The qualifiers are read one after the other, from the inside out. */
  lemma {:induction false} AccessPrefix(e: Expr, k: string) returns (base: Expr, rest: string)
    requires InFragment(e) && !e.Range? && Precedence(e) == QUALIFIER && MayFollow(e, k)
    ensures ParseBase(Body(e) + k) == Some((base, rest)) && ParseQualifiers(base, rest) == ParseQualifiers(e, k)
    ensures UnaryOperator(Body(e) + k) == None
    decreases e, 0, 1
  {
    match e
    case Name(name) =>
      NameStart(name, k);
      LitNot(k, "(");
      base, rest := e, k;
    case Number(_) => NumberBase(e, k); base, rest := e, k;
    case Truth(_) => TruthBase(e, k); base, rest := e, k;
    case Call(_, _) => CallBase(e, k); base, rest := e, k;
    case Subscription(a, indices) =>
      var tail := "[" + (PrintList(indices) + ("]" + k));
      SubscriptText(a, indices, k);
      assert Skip(tail) == tail;
      base, rest := OperandPrefix(a, tail);
      SubscriptRead(a, indices, k);
    case Member(a, member) =>
      var tail := "." + (member + k);
      MemberText(a, member, k);
      assert Skip(tail) == tail;
      base, rest := OperandPrefix(a, tail);
      LitNot(tail, "[");
      LitHere(".", member + k);
      IdRoundTrip(member, k);
  }

  lemma {:induction false} OperandPrefix(e: Expr, k: string) returns (base: Expr, rest: string)
    requires InFragment(e) && !e.Range? && MayFollow(e, k)
    ensures ParseBase(Print(e, QUALIFIER) + k) == Some((base, rest)) && ParseQualifiers(base, rest) == ParseQualifiers(e, k)
    ensures UnaryOperator(Print(e, QUALIFIER) + k) == None
    decreases e, 4
  {
    if e.Binary? || e.Unary? {
      BracketedBase(e, k);
      base, rest := e, k;
    } else {
      base, rest := AccessPrefix(e, k);
    }
  }

  lemma SubscriptText(a: Expr, indices: seq<Expr>, k: string)
    ensures Body(Subscription(a, indices)) + k == Print(a, QUALIFIER) + ("[" + (PrintList(indices) + ("]" + k)))
  {
    assert Body(Subscription(a, indices)) == Print(a, QUALIFIER) + "[" + PrintList(indices) + "]";
    hide PrintList;
    Regroup(Print(a, QUALIFIER) + "[", PrintList(indices), "]", k);
    Assoc(Print(a, QUALIFIER), "[", PrintList(indices) + ("]" + k));
  }

  lemma MemberText(a: Expr, member: string, k: string)
    ensures Body(Member(a, member)) + k == Print(a, QUALIFIER) + ("." + (member + k))
  {
    assert Body(Member(a, member)) == Print(a, QUALIFIER) + "." + member;
    Regroup(Print(a, QUALIFIER), ".", member, k);
  }

  lemma {:induction false} SubscriptRead(a: Expr, indices: seq<Expr>, k: string)
    requires forall i :: 0 <= i < |indices| ==> InFragment(indices[i])
    ensures ParseQualifier(a, "[" + (PrintList(indices) + ("]" + k))) == Some((Subscription(a, indices), k))
    decreases indices, 6
  {
    LitHere("[", PrintList(indices) + ("]" + k));
    LitHere("]", k);
    if indices == [] {
      assert PrintList(indices) + ("]" + k) == "]" + k;
      NothingAt("]" + k);
    } else {
      EnderStops("]" + k);
      ListRoundTrip(indices, "]" + k);
    }
  }

  /** No expression starts with these characters. */
  predicate NoOperand(t: string) { t == "" || KeywordStart(t) || t[0] == ']' || t[0] == '=' || t[0] == '/' || t[0] == '!' }

  lemma {:induction false} NothingParses(level: nat, s: string)
    requires LOGICAL <= level <= QUALIFIER
    requires NoOperand(Skip(s))
    ensures Parse(level, s) == None
    decreases 10 - level
  {
    if level < UNARY {
      NothingParses(level + 1, s);
    } else if level == UNARY {
      NothingParses(QUALIFIER, s);
      LitNot(s, "+");
      LitNot(s, "-");
      LitNot(s, "not");
      NoAlternative(s, [("+", Identity), ("-", Negate), ("not", UnaryOp.Not)]);
    } else {
      LitNot(s, "(");
      NoIdentifier(s);
      LitNot(s, "true");
      LitNot(s, "false");
      assert ParseBracketed(s) == None && ParseCall(s) == None;
      assert DigitLength(Skip(s)) == 0;
      assert ParseBase(s) == None;
    }
  }

  /** The keywords that end a block. */
  predicate KeywordStart(t: string) { "end" <= t || "else" <= t }

  lemma NoIdentifier(s: string)
    requires NoOperand(Skip(s))
    ensures ParseId(s) == None
  {
    assert KEYWORDS[2] == "else" && KEYWORDS[3] == "end";
  }

  lemma NothingAt(s: string)
    requires NoOperand(Skip(s))
    ensures ParseNonTask(s) == None && ParseList(s) == None
  {
    NothingParses(LOGICAL, s);
  }

  lemma {:induction false} UnaryRoundTrip(e: Expr, level: nat, k: string)
    requires e.Unary? && InFragment(e) && LOGICAL <= level <= UNARY && Stops(level, k)
    ensures Parse(level, Body(e) + k) == Some((e, k))
    decreases e, 0, 0
  {
    var operand := Print(e.arg, UNARY) + k;
    var s := UnaryText(e.uop) + operand;
    assert Body(e) + k == s;
    RoundTrip(e.arg, UNARY, UNARY, k);
    UnaryRead(e.uop, operand);
    assert Parse(UNARY, s) == Some((e, k));
    Lift(level, UNARY, s, e, k);
  }

  lemma UnaryRead(op: UnaryOp, k: string)
    requires !op.Not?
    ensures UnaryOperator(UnaryText(op) + k) == Some((op, k))
  {
    LitHere(UnaryText(op), k);
    if op.Negate? {
      assert Skip("-" + k) == "-" + k;
      LitNot("-" + k, "+");
    }
    FoundAt(UnaryText(op) + k, [("+", Identity), ("-", Negate), ("not", UnaryOp.Not)], if op.Negate? then 1 else 0);
  }

  // Binary operators.

  lemma OperatorRead(op: BinaryOp, k: string)
    requires IsReadable(op)
    ensures Operator(Level(op), " " + OpText(op) + (" " + k)) == Some((op, " " + k))
    ensures Stops(Level(op) + 1, " " + OpText(op) + (" " + k))
  {
    var s := OpText(op) + (" " + k);
    Assoc(" ", OpText(op), " " + k);
    SkipSpace(s);
    assert s[0] == OpText(op)[0] && Skip(s) == s;
    assert Separated(" " + s) && !Opens(" " + s);
    OperatorFirst(op, k);
    hide Operators, Lit, OpText;
    SameAlternatives(" " + s, s, Operators(Level(op)));
    forall l | Level(op) + 1 <= l < UNARY
      ensures NoOperation(l, " " + s)
    {
      SameAlternatives(" " + s, s, Operators(l));
      HigherOperators(op, l, k);
    }
  }

  /** Operators of different levels begin with different characters. */
  lemma HigherOperators(op: BinaryOp, level: nat, k: string)
    requires IsReadable(op) && LOGICAL <= level <= QUALIFIER && level != Level(op)
    ensures Operator(level, OpText(op) + (" " + k)) == None
  {
    var s := OpText(op) + (" " + k);
    assert s[0] == OpText(op)[0] && Skip(s) == s;
    forall i | 0 <= i < |Operators(level)|
      ensures Lit(s, Operators(level)[i].0) == None
    {
      LitNot(s, Operators(level)[i].0);
    }
    NoOperators(level, s);
  }

  lemma OperatorFirst(op: BinaryOp, k: string)
    requires IsReadable(op)
    ensures FirstOf(OpText(op) + (" " + k), Operators(Level(op))) == Some((op, " " + k))
  {
    var s := OpText(op) + (" " + k);
    assert s[0] == OpText(op)[0] && Skip(s) == s;
    LitHere(OpText(op), " " + k);
    var i := match op
             case Plus => 0
             case Minus => 1
             case Times => 0
             case Divide => 1
             case Modulo => 2
             case Equal => 0
             case NotEqual => 1
             case Less => 2
             case _ => 3;
    assert Operators(Level(op))[i] == (OpText(op), op);
    forall j | 0 <= j < i
      ensures Lit(s, Operators(Level(op))[j].0) == None
    {
      LitNot(s, Operators(Level(op))[j].0);
    }
    FoundAt(s, Operators(Level(op)), i);
  }

  lemma {:induction false} FoundAt<T>(s: string, alternatives: seq<(string, T)>, i: nat)
    requires i < |alternatives| && forall k :: 0 <= k < |alternatives| ==> alternatives[k].0 != ""
    requires Lit(s, alternatives[i].0).Some? && forall j :: 0 <= j < i ==> Lit(s, alternatives[j].0) == None
    ensures FirstOf(s, alternatives) == Some((alternatives[i].1, Lit(s, alternatives[i].0).value))
  {
    if i > 0 {
      FoundAt(s, alternatives[1..], i - 1);
    }
  }

  lemma {:induction false} BinaryRoundTrip(e: Expr, level: nat, k: string)
    requires e.Binary? && InFragment(e) && LOGICAL <= level <= Level(e.op) && Stops(level, k)
    ensures Parse(level, Body(e) + k) == Some((e, k))
    decreases e, 0, 0
  {
    var q := Level(e.op);
    var right := Print(e.rhs, q) + k;
    var middle := " " + OpText(e.op) + (" " + right);
    var s := Print(e.lhs, q) + middle;
    BinaryJoins(e, k);
    assert Parse(q, s) == Some((e, k)) by {
      hide Print, OpText, Stops, Body, Skip;
      OperatorRead(e.op, right);
      StopsAbove(level, q, k);
      RoundTrip(e.lhs, q + 1, q, middle);
      RoundTrip(e.rhs, q, q, k);
      SkipSpace(right);
      SameParse(q, " " + right, right);
    }
    hide Print, OpText, Stops, Body, Parse;
    Lift(level, q, s, e, k);
  }

  lemma StopsAbove(level: nat, n: nat, k: string)
    requires LOGICAL <= level <= n <= QUALIFIER && Stops(level, k)
    ensures Stops(n, k)
  {
  }

  lemma BinaryJoins(e: Expr, k: string)
    requires e.Binary?
    ensures var q := Level(e.op);
            Body(e) + k == Print(e.lhs, q) + (" " + OpText(e.op) + (" " + (Print(e.rhs, q) + k)))
  {
    var q := Level(e.op);
    var a, o, b := Print(e.lhs, q), OpText(e.op), Print(e.rhs, q);
    assert Body(e) == a + " " + o + " " + b;
    hide Print, OpText, Body;
    Regroup(a + " " + o, " ", b, k);
    Regroup(a, " ", o, " " + (b + k));
    Assoc(" ", o, " " + (b + k));
  }

  // Items and lists.

  lemma {:induction false} ItemRoundTrip(e: Expr, printed: nat, k: string)
    requires InFragment(e) && printed <= 1 && StopsItem(k)
    ensures ParseNonTask(Print(e, printed) + k) == Some((e, k))
    ensures e.Range? ==> ParseRange(Print(e, printed) + k) == Some((e, k))
    decreases e, 4
  {
    if e.Range? {
      var last := Print(e.upper, 0) + k;
      var middle := Print(e.stride, 0) + (":" + last);
      RangeText(e.lower, e.stride, e.upper, k);
      assert Print(e, printed) == Body(e);
      hide Print, Body, Parse, Stops, Skip;
      EnderStops(":" + middle);
      RoundTrip(e.lower, LOGICAL, 0, ":" + middle);
      LitHere(":", middle);
      EnderStops(":" + last);
      RoundTrip(e.stride, LOGICAL, 0, ":" + last);
      LitHere(":", last);
      RoundTrip(e.upper, LOGICAL, 0, k);
      hide Lit;
      assert ParseRangeTail(e.lower, ":" + middle) == Some((e, k));
    } else {
      RoundTrip(e, LOGICAL, printed, k);
      NoRange(Print(e, printed) + k, e, k);
    }
  }

  lemma RangeText(a: Expr, c: Expr, b: Expr, k: string)
    ensures Body(Range(a, c, b)) + k == Print(a, 0) + (":" + (Print(c, 0) + (":" + (Print(b, 0) + k))))
  {
    var x, y, z := Print(a, 0), Print(c, 0), Print(b, 0);
    assert Body(Range(a, c, b)) == x + ":" + y + ":" + z;
    hide Print, Body;
    Regroup(x + ":" + y, ":", z, k);
    Regroup(x, ":", y, ":" + (z + k));
  }

  lemma {:induction false} ListRoundTrip(es: seq<Expr>, k: string)
    requires es != [] && (forall i :: 0 <= i < |es| ==> InFragment(es[i]))
    requires StopsItem(k) && Lit(k, ",") == None
    ensures ParseList(PrintList(es) + k) == Some((es, k))
    decreases es, 5
  {
    if |es| == 1 {
      ItemRoundTrip(es[0], 0, k);
      assert es == [es[0]];
    } else {
      var others := PrintList(es[1..]) + k;
      var rest := "," + (" " + others);
      ListText(es, k);
      hide Print, PrintList, Skip, Lit;
      EnderStops(rest);
      ItemRoundTrip(es[0], 0, rest);
      LitHere(",", " " + others);
      ListRoundTrip(es[1..], k);
      SkipSpace(others);
      SameNonTask(" " + others, others);
      hide InFragment, ParseNonTask;
      assert es == [es[0]] + es[1..];
    }
  }

  lemma ListText(es: seq<Expr>, k: string)
    requires |es| > 1
    ensures PrintList(es) + k == Print(es[0], 0) + ("," + (" " + (PrintList(es[1..]) + k)))
  {
    assert PrintList(es) == Print(es[0], 0) + ", " + PrintList(es[1..]);
    hide Print, PrintList;
    Regroup(Print(es[0], 0), ", ", PrintList(es[1..]), k);
    assert ", " == "," + " ";
    Assoc(",", " ", PrintList(es[1..]) + k);
  }

  // Statements.

  predicate InFragmentStmt(s: Stmt) {
    match s
    case Assign(_, a, b) => IsAccess(a) && StartsLine(Root(a)) && InFragment(a) && InFragment(b)
    case Let(x, t, e) => IsId(x) && IsId(t) && InFragment(e)
    case For(_, i, t, range, body) => IsId(i) && IsId(t) && range.Range? && InFragment(range) && InFragmentBlock(body)
    case If(c, a, hasElse, b) => InFragment(c) && InFragmentBlock(a) && InFragmentBlock(b) && (!hasElse ==> b == [])
  }

  predicate InFragmentBlock(b: seq<Stmt>) { forall k :: 0 <= k < |b| ==> InFragmentStmt(b[k]) }

  predicate AllSpace(s: string) { forall k :: 0 <= k < |s| ==> IsSpace(s[k]) }

  lemma {:induction false} SkipAll(pre: string, s: string)
    requires AllSpace(pre)
    ensures Skip(pre + s) == Skip(s)
  {
    if pre == "" {
      assert pre + s == s;
    } else {
      assert (pre + s)[1..] == pre[1..] + s;
      SkipAll(pre[1..], s);
    }
  }

  lemma {:induction false} SpacesAreSpace(n: nat)
    ensures AllSpace(Spaces(n))
  {
    if n > 0 {
      SpacesAreSpace(n - 1);
    }
  }

  /** The beginning of a line: a word that continues no expression before it. */
  predicate LineStart(t: string) { t == "" || (IsAlpha(t[0]) && !("and" <= t) && !("or" <= t)) }

  lemma LineEnds(k: string)
    requires LineStart(Skip(k)) && Separated(k)
    ensures StopsItem(k)
  {
    forall level | LOGICAL <= level < UNARY
      ensures NoOperation(level, k)
    {
      forall i | 0 <= i < |Operators(level)|
        ensures Lit(k, Operators(level)[i].0) == None
      {
        if level != LOGICAL {
          LitNot(k, Operators(level)[i].0);
        }
      }
      NoOperators(level, k);
    }
    LitNot(k, ":");
  }

  /** `=` or `+=` ends the expression before it. */
  lemma AssignStops(plus: bool, x: string)
    ensures var k := (if plus then " +=" else " =") + (" " + x);
            StopsItem(k) && FirstOf(k, [("=", false), ("+=", true)]) == Some((plus, " " + x))
  {
    var text := if plus then "+=" else "=";
    var s := text + (" " + x);
    var k := (if plus then " +=" else " =") + (" " + x);
    assert k == " " + s;
    SkipSpace(s);
    assert Skip(s) == s;
    LitHere(text, " " + x);
    assert Lit(k, text) == Lit(s, text);
    if plus {
      LitNot(k, "=");
    }
    FoundAt(k, [("=", false), ("+=", true)], if plus then 1 else 0);
    LitNot(k, ":");
    forall level | LOGICAL <= level < UNARY
      ensures NoOperation(level, k)
    {
      AssignIsNoOperation(level, plus, x);
    }
  }

  lemma AssignIsNoOperation(level: nat, plus: bool, x: string)
    requires LOGICAL <= level < UNARY
    ensures NoOperation(level, (if plus then " +=" else " =") + (" " + x))
  {
    var s := (if plus then "+=" else "=") + (" " + x);
    var k := (if plus then " +=" else " =") + (" " + x);
    assert k == " " + s;
    SkipSpace(s);
    assert Skip(s) == s && s[1] == if plus then '=' else ' ';
    SameAlternatives(k, s, Operators(level));
    if plus && level == ADDITION {
      var rest := "=" + (" " + x);
      assert s == "+" + rest;
      LitHere("+", rest);
      FoundAt(s, Operators(ADDITION), 0);
      assert Skip(rest) == rest;
      NothingParses(ADDITION, rest);
    } else {
      forall i | 0 <= i < |Operators(level)|
        ensures Lit(s, Operators(level)[i].0) == None
      {
        var w := Operators(level)[i].0;
        assert w[0] != s[0] || (|w| == 2 && w[1] != s[1]);
      }
      NoOperators(level, s);
    }
  }

  /** What the text of an access begins with. */
  lemma {:induction false} AccessStart(e: Expr, k: string) returns (name: string, rest: string)
    requires IsAccess(e) && InFragment(e) && (k == "" || !IsIdChar(k[0]))
    ensures IsName(name) && name == Root(e) && Body(e) + k == name + rest && (rest == "" || !IsIdChar(rest[0]))
  {
    match e
    case Name(n) => name, rest := n, k;
    case Call(f, args) =>
      name, rest := f, "(" + (PrintList(args) + (")" + k));
      assert Body(e) == f + "(" + PrintList(args) + ")";
      hide PrintList;
      Regroup(f + "(", PrintList(args), ")", k);
      Assoc(f, "(", PrintList(args) + (")" + k));
    case Subscription(a, indices) =>
      SubscriptText(a, indices, k);
      name, rest := AccessStart(a, "[" + (PrintList(indices) + ("]" + k)));
    case Member(a, member) =>
      MemberText(a, member, k);
      name, rest := AccessStart(a, "." + (member + k));
  }

  lemma NoPrefix(word: string, name: string, k: string)
    requires (k == "" || !IsIdChar(k[0])) && !(word <= name) && forall i :: 0 <= i < |word| ==> IsAlpha(word[i])
    ensures !(word <= name + k)
  {
    if |word| <= |name| {
      assert (name + k)[..|word|] == name[..|word|];
    } else if |word| <= |name + k| {
      assert (name + k)[|name|] == k[0];
    }
  }

  /** A line that begins with a name is no `if`, loop or declaration. */
  lemma NameLine(name: string, rest: string)
    requires IsName(name) && StartsLine(name) && (rest == "" || !IsIdChar(rest[0]))
    ensures var s := name + rest;
            LineStart(s) && Skip(s) == s && ParseStmt(s) == ParseAssignment(s)
  {
    var s := name + rest;
    assert s[0] == name[0] && Skip(s) == s;
    NoPrefix("and", name, rest);
    NoPrefix("or", name, rest);
    NoKeyword(name, rest);
    assert KEYWORDS[0] == "for" && KEYWORDS[1] == "if" && KEYWORDS[7] == "let" && KEYWORDS[8] == "parallel" && KEYWORDS[9] == "unordered";
    assert !("for" <= s) && !("if" <= s) && !("let" <= s) && !("parallel" <= s) && !("unordered" <= s);
    NoAlternative(s, [("parallel", Parallel), ("unordered", Unordered)]);
  }

  lemma AssignRoundTrip(s: Stmt, indent: nat, k: string)
    requires s.Assign? && InFragmentStmt(s) && LineStart(Skip("\n" + k))
    ensures ParseStmt(PrintStmt(s, indent) + k) == Match(s, "\n" + k)
    ensures LineStart(PrintStmt(s, indent) + k) && Skip(PrintStmt(s, indent) + k) == PrintStmt(s, indent) + k
  {
    var right := Print(s.source, 1) + ("\n" + k);
    var tail := (if s.plus then " +=" else " =") + (" " + right);
    AssignText(s, indent, k);
    var name, rest := AccessStart(s.target, tail);
    NameLine(name, rest);
    hide ParseStmt, Print, Body, PrintStmt, Skip, Lit, InFragment, ParseNonTask, IsAccess, Stops;
    AssignStops(s.plus, right);
    ItemRoundTrip(s.target, 1, tail);
    LineEnds("\n" + k);
    ItemRoundTrip(s.source, 1, "\n" + k);
    SkipSpace(right);
    SameNonTask(" " + right, right);
  }

  lemma AssignText(s: Stmt, indent: nat, k: string)
    requires s.Assign? && IsAccess(s.target)
    ensures PrintStmt(s, indent) + k == Body(s.target) + ((if s.plus then " +=" else " =") + (" " + (Print(s.source, 1) + ("\n" + k))))
    ensures Print(s.target, 1) == Body(s.target)
  {
    var sign, right := if s.plus then " +=" else " =", Print(s.source, 1);
    assert PrintStmt(s, indent) == Body(s.target) + (sign + " ") + right + "\n";
    hide PrintStmt, Print, Body;
    Regroup(Body(s.target) + (sign + " "), right, "\n", k);
    Assoc(Body(s.target), sign + " ", right + ("\n" + k));
    Assoc(sign, " ", right + ("\n" + k));
  }

  lemma DeclarationRoundTrip(x: string, t: string, k: string)
    requires IsId(x) && IsId(t) && k != "" && !IsIdChar(k[0])
    ensures ParseDeclaration(" " + (x + (" ::" + (" " + (t + k))))) == Some((x, t, k))
  {
    var typed := t + k;
    var tail := " ::" + (" " + typed);
    SkipSpace(x + tail);
    IdRoundTrip(x, tail);
    assert ParseId(" " + (x + tail)) == ParseId(x + tail);
    assert tail == " " + ("::" + (" " + typed));
    SkipSpace("::" + (" " + typed));
    LitHere("::", " " + typed);
    assert Lit(tail, "::") == Some(" " + typed);
    SkipSpace(typed);
    IdRoundTrip(t, k);
    assert ParseId(" " + typed) == ParseId(typed);
  }

  lemma WordLine(s: string, word: string)
    requires word in ["if ", "let ", "for ", "unordered for ", "parallel for "] && word <= s
    ensures LineStart(s) && Skip(s) == s && s[0] == word[0]
  {
    assert s[0] == word[0] && s[1] == word[1];
  }

  lemma LetRoundTrip(s: Stmt, indent: nat, k: string)
    requires s.Let? && InFragmentStmt(s) && LineStart(Skip("\n" + k))
    ensures ParseStmt(PrintStmt(s, indent) + k) == Match(s, "\n" + k)
    ensures LineStart(PrintStmt(s, indent) + k) && Skip(PrintStmt(s, indent) + k) == PrintStmt(s, indent) + k
  {
    var right := Print(s.init, 0) + ("\n" + k);
    var equals := " =" + (" " + right);
    var decl := " " + (s.variable + (" ::" + (" " + (s.type_ + equals))));
    var text := "let" + decl;
    LetText(s, indent, k);
    assert "let " <= text;
    WordLine(text, "let ");
    LitNot(text, "if");
    NoForHead(text);
    LitHere("let", decl);
    assert ParseStmt(text) == ParseLetTail(decl);
    hide Print, PrintStmt, ParseStmt, ParseForHead, ParseNonTask, ParseDeclaration, InFragment, Skip;
    DeclarationRoundTrip(s.variable, s.type_, equals);
    EqualsRead(right);
    LineEnds("\n" + k);
    CondRead(s.init, "\n" + k);
  }

  lemma EqualsRead(k: string)
    ensures Lit(" =" + (" " + k), "=") == Some(" " + k)
  {
    assert " =" + (" " + k) == " " + ("=" + (" " + k));
    SkipSpace("=" + (" " + k));
    LitHere("=", " " + k);
  }

  lemma LetText(s: Stmt, indent: nat, k: string)
    requires s.Let?
    ensures PrintStmt(s, indent) + k ==
            "let" + (" " + (s.variable + (" ::" + (" " + (s.type_ + (" =" + (" " + (Print(s.init, 0) + ("\n" + k)))))))))
  {
    var x, t, right := s.variable, s.type_, Print(s.init, 0);
    assert PrintStmt(s, indent) == "let " + x + " :: " + t + " = " + right + "\n";
    hide PrintStmt, Print;
    var p1 := "let " + x;
    var p2 := p1 + " :: " + t;
    var value := right + ("\n" + k);
    var equals := " =" + (" " + value);
    assert p2 + " = " + right + "\n" + k == p2 + equals by {
      assert " = " == " =" + " ";
      Regroup(p2 + " = ", right, "\n", k);
      Regroup(p2, " =", " ", value);
    }
    var decl := " ::" + (" " + (t + equals));
    assert p2 + equals == p1 + decl by {
      assert " :: " == " ::" + " ";
      Regroup(p1, " :: ", t, equals);
      Assoc(" ::", " ", t + equals);
    }
    assert "let " == "let" + " ";
    Regroup("let", " ", x, decl);
  }

  lemma NoForHead(s: string)
    requires Skip(s) == "" || (Skip(s)[0] != 'p' && Skip(s)[0] != 'u' && Skip(s)[0] != 'f')
    ensures ParseForHead(s) == None
  {
    LitNot(s, "parallel");
    LitNot(s, "unordered");
    LitNot(s, "for");
    NoAlternative(s, [("parallel", Parallel), ("unordered", Unordered)]);
  }

  lemma SameStmt(s: string, s': string)
    requires Skip(s) == Skip(s')
    ensures ParseStmt(s) == ParseStmt(s')
  {
    SameForHead(s, s');
    SameNonTask(s, s');
    assert Lit(s, "if") == Lit(s', "if") && Lit(s, "let") == Lit(s', "let");
    hide Lit, Skip, ParseNonTask, ParseForHead, ParseIfTail, ParseForTail, ParseLetTail, FirstOf;
  }

  lemma SameForHead(s: string, s': string)
    requires Skip(s) == Skip(s')
    ensures ParseForHead(s) == ParseForHead(s')
  {
    SameAlternatives(s, s', [("parallel", Parallel), ("unordered", Unordered)]);
  }

  /** The end of a block. */
  predicate BlockEnd(k: string) { Skip(k) == "" || KeywordStart(Skip(k)) }

  lemma EndIsMiss(s: string)
    requires BlockEnd(s)
    ensures ParseStmt(s) == Miss
  {
    LitNot(s, "if");
    LitNot(s, "let");
    NoForHead(s);
    NothingAt(s);
  }

  /** What follows the first statement of a block begins a line. */
  lemma BlockStarts(b: seq<Stmt>, indent: nat, k: string)
    requires InFragmentBlock(b) && BlockEnd(k)
    ensures LineStart(Skip("\n" + (PrintBlock(b, indent) + k)))
  {
    SkipAll("\n", PrintBlock(b, indent) + k);
    if b == [] {
      assert PrintBlock(b, indent) + k == k;
    } else {
      var rest := PrintBlock(b[1..], indent) + k;
      Regroup(Spaces(indent), PrintStmt(b[0], indent), PrintBlock(b[1..], indent), k);
      assert Spaces(indent) + PrintStmt(b[0], indent) + PrintBlock(b[1..], indent) == PrintBlock(b, indent);
      hide PrintBlock, PrintStmt, Skip;
      SpacesAreSpace(indent);
      SkipAll(Spaces(indent), PrintStmt(b[0], indent) + rest);
      StmtStarts(b[0], indent, rest);
    }
  }

  lemma StmtStarts(s: Stmt, indent: nat, k: string)
    requires InFragmentStmt(s)
    ensures LineStart(PrintStmt(s, indent) + k) && Skip(PrintStmt(s, indent) + k) == PrintStmt(s, indent) + k
  {
    var text := PrintStmt(s, indent) + k;
    if s.Assign? {
      var tail := (if s.plus then " += " else " = ") + Print(s.source, 1) + "\n" + k;
      assert text == Body(s.target) + tail;
      var name, rest := AccessStart(s.target, tail);
      NameLine(name, rest);
    } else {
      var word := if s.Let? then "let " else if s.If? then "if " else OrderText(s.order);
      assert word <= PrintStmt(s, indent);
      assert word <= text;
      WordLine(text, word);
    }
  }

  /** Reading what was printed. */
  lemma {:induction false} StmtRoundTrip(s: Stmt, indent: nat, k: string)
    requires InFragmentStmt(s) && LineStart(Skip("\n" + k))
    ensures ParseStmt(PrintStmt(s, indent) + k) == Match(s, "\n" + k)
    decreases s, 1
  {
    match s
    case Assign(_, _, _) => AssignRoundTrip(s, indent, k);
    case Let(_, _, _) => LetRoundTrip(s, indent, k);
    case For(_, _, _, _, _) => ForRoundTrip(s, indent, k);
    case If(_, _, _, _) => IfRoundTrip(s, indent, k);
  }

  /** The closing word of a statement. */
  lemma ClosingWord(indent: nat, word: string, k: string)
    requires word == "end" || word == "else"
    ensures var s := Spaces(indent) + (word + k);
            BlockEnd(s) && Lit("\n" + s, word) == Some(k) && (word == "end" ==> Lit("\n" + s, "else") == None)
  {
    var s := Spaces(indent) + (word + k);
    SpacesAreSpace(indent);
    SkipAll(Spaces(indent), word + k);
    SkipAll("\n", s);
    assert Skip(word + k) == word + k by { assert (word + k)[0] == word[0]; }
    LitHere(word, k);
    if word == "end" {
      assert (word + k)[1] == 'n';
    }
  }

  lemma ForHeadRead(order: Order, k: string)
    requires k != "" && k[0] == ' '
    ensures ParseForHead(Head(order) + k) == Some((order, k))
  {
    var alternatives := [("parallel", Parallel), ("unordered", Unordered)];
    LitHere("for", k);
    SkipSpace("for" + k);
    match order
    case Sequential =>
      assert Skip("for" + k) == "for" + k;
      LitNot("for" + k, "parallel");
      LitNot("for" + k, "unordered");
      NoAlternative("for" + k, alternatives);
    case Unordered =>
      assert "unordered for" + k == "unordered" + (" " + ("for" + k));
      LitHere("unordered", " " + ("for" + k));
      LitNot("unordered for" + k, "parallel");
      FoundAt("unordered for" + k, alternatives, 1);
    case Parallel =>
      assert "parallel for" + k == "parallel" + (" " + ("for" + k));
      LitHere("parallel", " " + ("for" + k));
      FoundAt("parallel for" + k, alternatives, 0);
  }

  function Closing(indent: nat, k: string): string { Spaces(indent) + ("end" + ("\n" + k)) }

  function Inside(b: seq<Stmt>, indent: nat, k: string): string { "\n" + (PrintBlock(b, indent + INDENTATION) + k) }

  /** An indented block with what closes it. */
  lemma {:induction false} InsideRead(b: seq<Stmt>, indent: nat, k: string)
    requires InFragmentBlock(b) && BlockEnd(k)
    ensures ParseBlock(Inside(b, indent, k)) == Match(b, "\n" + k) && StopsItem(Inside(b, indent, k))
    decreases b, 3
  {
    BlockStarts(b, indent + INDENTATION, k);
    LineEnds(Inside(b, indent, k));
    BlockRoundTrip(b, indent + INDENTATION, "\n", k);
    Assoc("\n", PrintBlock(b, indent + INDENTATION), k);
  }

  lemma RangeRead(range: Expr, k: string)
    requires range.Range? && InFragment(range) && StopsItem(k)
    ensures ParseRange(" " + (Print(range, 0) + k)) == Some((range, k))
  {
    ItemRoundTrip(range, 0, k);
    SkipSpace(Print(range, 0) + k);
    SameNonTask(" " + (Print(range, 0) + k), Print(range, 0) + k);
  }

  function Head(order: Order): string {
    match order
    case Sequential => "for"
    case Unordered => "unordered for"
    case Parallel => "parallel for"
  }

  lemma LoopHeadRead(s: Stmt, range: string)
    requires s.For? && IsId(s.index) && IsId(s.type_)
    ensures var inRange := " in" + (" " + range);
            var decl := " " + (s.index + (" ::" + (" " + (s.type_ + inRange))));
            && ParseStmt(Head(s.order) + decl) == ParseForTail(s.order, decl)
            && ParseDeclaration(decl) == Some((s.index, s.type_, inRange)) && Lit(inRange, "in") == Some(" " + range)
  {
    var inRange := " in" + (" " + range);
    var decl := " " + (s.index + (" ::" + (" " + (s.type_ + inRange))));
    var text := Head(s.order) + decl;
    ForHeadRead(s.order, decl);
    assert text[0] != 'i' && Skip(text) == text;
    LitNot(text, "if");
    assert ParseStmt(text) == ParseForTail(s.order, decl);
    hide ParseStmt, ParseForTail, ParseForHead, Head;
    DeclarationRoundTrip(s.index, s.type_, inRange);
    assert inRange == " " + ("in" + (" " + range));
    SkipSpace("in" + (" " + range));
    LitHere("in", " " + range);
  }

  lemma {:induction false} ForRoundTrip(s: Stmt, indent: nat, k: string)
    requires s.For? && InFragmentStmt(s) && LineStart(Skip("\n" + k))
    ensures ParseStmt(PrintStmt(s, indent) + k) == Match(s, "\n" + k)
    decreases s, 0
  {
    var closing := Closing(indent, k);
    var body := Inside(s.body, indent, closing);
    var range := Print(s.range, 0) + body;
    var inRange := " in" + (" " + range);
    var decl := " " + (s.index + (" ::" + (" " + (s.type_ + inRange))));
    ForText(s, indent, k);
    ClosingWord(indent, "end", "\n" + k);
    hide PrintStmt, Inside, Closing, ParseStmt, ParseForTail, ParseRange, ParseBlock, ParseDeclaration, Skip, Lit, Head, InFragment;
    InsideRead(s.body, indent, closing);
    RangeRead(s.range, body);
    LoopHeadRead(s, range);
    ForTailRead(s, decl, inRange, range, body, closing, k);
  }

  lemma ForText(s: Stmt, indent: nat, k: string)
    requires s.For?
    ensures var body := Inside(s.body, indent, Closing(indent, k));
            PrintStmt(s, indent) + k ==
            Head(s.order) + (" " + (s.index + (" ::" + (" " + (s.type_ + (" in" + (" " + (Print(s.range, 0) + body))))))))
  {
    var block, range, spaces := PrintBlock(s.body, indent + INDENTATION), Print(s.range, 0), Spaces(indent);
    hide PrintBlock, Print, Spaces;
    var head := Head(s.order);
    var p1 := head + " " + s.index;
    var p2 := p1 + " :: " + s.type_;
    var p3 := p2 + " in " + range;
    assert OrderText(s.order) == head + " ";
    assert PrintStmt(s, indent) == p3 + "\n" + block + spaces + "end\n";
    var closing := spaces + ("end" + ("\n" + k));
    var body := "\n" + (block + closing);
    assert "end\n" + k == "end" + ("\n" + k);
    assert PrintStmt(s, indent) + k == p3 + body by {
      Regroup(p3 + "\n" + block, spaces, "end\n", k);
      Regroup(p3, "\n", block, closing);
    }
    var inRange := " in" + (" " + (range + body));
    assert p3 + body == p2 + inRange by {
      assert " in " == " in" + " ";
      Regroup(p2, " in ", range, body);
      Assoc(" in", " ", range + body);
    }
    var decl := " ::" + (" " + (s.type_ + inRange));
    assert p2 + inRange == p1 + decl by {
      assert " :: " == " ::" + " ";
      Regroup(p1, " :: ", s.type_, inRange);
      Assoc(" ::", " ", s.type_ + inRange);
    }
    Regroup(head, " ", s.index, decl);
  }

  lemma Assoc(a: string, b: string, c: string)
    ensures (a + b) + c == a + (b + c)
  {
  }

  lemma Regroup(a: string, b: string, c: string, d: string)
    ensures a + b + c + d == a + (b + (c + d))
  {
  }

  lemma ForTailRead(s: Stmt, decl: string, inRange: string, range: string, body: string, closing: string, k: string)
    requires s.For? && ParseDeclaration(decl) == Some((s.index, s.type_, inRange)) && Lit(inRange, "in") == Some(" " + range)
    requires ParseRange(" " + range) == Some((s.range, body)) && ParseBlock(body) == Match(s.body, "\n" + closing)
    requires Lit("\n" + closing, "end") == Some("\n" + k)
    ensures ParseForTail(s.order, decl) == Match(s, "\n" + k)
  {
    hide ParseDeclaration, ParseRange, ParseBlock, Lit;
  }

  /** What stands between the first block of an `if` and its end. */
  function Middle(s: Stmt, indent: nat, k: string): string
    requires s.If?
  {
    if s.hasElse then Spaces(indent) + ("else" + Inside(s.elseBranch, indent, Closing(indent, k))) else Closing(indent, k)
  }

  lemma MiddleRead(s: Stmt, indent: nat, k: string)
    requires s.If?
    ensures BlockEnd(Middle(s, indent, k)) && BlockEnd(Closing(indent, k))
    ensures Lit("\n" + Closing(indent, k), "end") == Some("\n" + k)
    ensures Lit("\n" + Middle(s, indent, k), "else") == if s.hasElse then Some(Inside(s.elseBranch, indent, Closing(indent, k))) else None
  {
    ClosingWord(indent, "end", "\n" + k);
    ClosingWord(indent, "else", Inside(s.elseBranch, indent, Closing(indent, k)));
  }

  lemma CondRead(e: Expr, k: string)
    requires InFragment(e) && StopsItem(k)
    ensures ParseNonTask(" " + (Print(e, 0) + k)) == Some((e, k))
  {
    ItemRoundTrip(e, 0, k);
    SkipSpace(Print(e, 0) + k);
    SameNonTask(" " + (Print(e, 0) + k), Print(e, 0) + k);
  }

  lemma {:induction false} IfRoundTrip(s: Stmt, indent: nat, k: string)
    requires s.If? && InFragmentStmt(s) && LineStart(Skip("\n" + k))
    ensures ParseStmt(PrintStmt(s, indent) + k) == Match(s, "\n" + k)
    decreases s, 0
  {
    var closing, middle := Closing(indent, k), Middle(s, indent, k);
    var second, first := Inside(s.elseBranch, indent, closing), Inside(s.thenBranch, indent, middle);
    var cond := Print(s.cond, 0) + first;
    IfText(s, indent, k);
    LitHere("if", " " + cond);
    assert ParseStmt("if" + (" " + cond)) == ParseIfTail(" " + cond);
    MiddleRead(s, indent, k);
    assert !s.hasElse ==> middle == closing;
    hide PrintStmt, Inside, Middle, Closing, ParseNonTask, ParseBlock, ParseIfTail, ParseStmt, Skip, Lit, InFragment;
    InsideRead(s.thenBranch, indent, middle);
    InsideRead(s.elseBranch, indent, closing);
    CondRead(s.cond, first);
    IfTailRead(s, cond, first, middle, second, closing, k);
  }

  lemma IfText(s: Stmt, indent: nat, k: string)
    requires s.If?
    ensures PrintStmt(s, indent) + k == "if" + (" " + (Print(s.cond, 0) + Inside(s.thenBranch, indent, Middle(s, indent, k))))
  {
    var cond, a, b, spaces := Print(s.cond, 0), PrintBlock(s.thenBranch, indent + INDENTATION), PrintBlock(s.elseBranch, indent + INDENTATION), Spaces(indent);
    hide PrintBlock, Print, Spaces;
    var other := if s.hasElse then "else\n" + b + spaces else "";
    var p := "if " + cond;
    assert PrintStmt(s, indent) == p + "\n" + a + spaces + other + "end\n";
    assert "end\n" + k == "end" + ("\n" + k);
    var closing := spaces + ("end" + ("\n" + k));
    var middle := if s.hasElse then spaces + ("else" + ("\n" + (b + closing))) else closing;
    assert spaces + (other + ("end\n" + k)) == middle by {
      if s.hasElse {
        assert "else\n" == "else" + "\n";
        Regroup("else\n", b, spaces, "end\n" + k);
        Assoc("else", "\n", b + closing);
      } else {
        assert "" + ("end\n" + k) == "end\n" + k;
      }
    }
    Regroup(p + "\n" + a, spaces, other, "end\n" + k);
    Assoc(p + "\n" + a + spaces + other, "end\n", k);
    Regroup(p, "\n", a, middle);
    assert "if " == "if" + " ";
    Regroup("if", " ", cond, "\n" + (a + middle));
  }

  lemma IfTailRead(s: Stmt, cond: string, first: string, middle: string, second: string, closing: string, k: string)
    requires s.If? && (!s.hasElse ==> s.elseBranch == [] && middle == closing)
    requires ParseNonTask(" " + cond) == Some((s.cond, first)) && ParseBlock(first) == Match(s.thenBranch, "\n" + middle)
    requires s.hasElse ==> Lit("\n" + middle, "else") == Some(second) && ParseBlock(second) == Match(s.elseBranch, "\n" + closing)
    requires !s.hasElse ==> Lit("\n" + middle, "else") == None
    requires Lit("\n" + closing, "end") == Some("\n" + k)
    ensures ParseIfTail(" " + cond) == Match(s, "\n" + k)
  {
    hide ParseNonTask, ParseBlock, Lit;
  }

  /** A block, after some space: all statements are read, and what ends the block is left. */
  lemma {:induction false} BlockRoundTrip(b: seq<Stmt>, indent: nat, pre: string, k: string)
    requires InFragmentBlock(b) && AllSpace(pre) && BlockEnd(k)
    ensures ParseBlock(pre + PrintBlock(b, indent) + k) == Match(b, (if b == [] then pre else "\n") + k)
    decreases b, 2
  {
    if b == [] {
      assert pre + PrintBlock(b, indent) + k == pre + k;
      SkipAll(pre, k);
      EndIsMiss(pre + k);
    } else {
      var rest := PrintBlock(b[1..], indent) + k;
      var line := PrintStmt(b[0], indent) + rest;
      var text := pre + PrintBlock(b, indent) + k;
      assert Spaces(indent) + PrintStmt(b[0], indent) + PrintBlock(b[1..], indent) == PrintBlock(b, indent);
      Regroup(Spaces(indent), PrintStmt(b[0], indent), PrintBlock(b[1..], indent), k);
      Assoc(pre, PrintBlock(b, indent), k);
      assert text == pre + (Spaces(indent) + line);
      Assoc("\n", PrintBlock(b[1..], indent), k);
      assert [b[0]] + b[1..] == b;
      hide PrintBlock, PrintStmt, Skip, Spaces;
      SpacesAreSpace(indent);
      SkipAll(pre, Spaces(indent) + line);
      SkipAll(Spaces(indent), line);
      SameStmt(text, line);
      BlockStarts(b[1..], indent, k);
      StmtRoundTrip(b[0], indent, rest);
      BlockRoundTrip(b[1..], indent, "\n", k);
    }
  }

  /** The body of a function: what was printed is read back completely, as the same statements. */
  lemma PrintedProgramIsParsed(b: seq<Stmt>, indent: nat)
    requires InFragmentBlock(b)
    ensures exists rest :: ParseBlock(PrintBlock(b, indent)) == Match(b, rest) && AllSpace(rest)
  {
    BlockRoundTrip(b, indent, "", "");
    assert "" + PrintBlock(b, indent) + "" == PrintBlock(b, indent);
    var rest := (if b == [] then "" else "\n") + "";
    assert AllSpace(rest);
  }
}
