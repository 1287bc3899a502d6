/** QIR as text: what is printed, and what the grammar makes of a text, character by character. */
module QirSyntax {
  import opened Wrappers

  datatype BinaryOp = Plus | Minus | Times | Divide | Modulo | FloorDivide | Equal | NotEqual | Less | Greater | LessEqual | GreaterEqual | And | Or

  datatype UnaryOp = Identity | Negate | Not

  datatype Expr =
    | Name(name: string)
    | Number(value: nat)
    | Truth(truth: bool)
    | Binary(op: BinaryOp, lhs: Expr, rhs: Expr)
    | Unary(uop: UnaryOp, arg: Expr)
    | Call(function_: string, args: seq<Expr>)
    | Subscription(tensor: Expr, indices: seq<Expr>)
    | Member(struct_: Expr, member: string)
    | Range(lower: Expr, stride: Expr, upper: Expr)

  datatype Order = Sequential | Unordered | Parallel

  datatype Stmt =
    | Assign(plus: bool, target: Expr, source: Expr)
    | Let(variable: string, type_: string, init: Expr)
    | For(order: Order, index: string, type_: string, range: Expr, body: seq<Stmt>)
    | If(cond: Expr, thenBranch: seq<Stmt>, hasElse: bool, elseBranch: seq<Stmt>)

  // Printing.

  const LOGICAL: nat := 2
  const COMPARISON: nat := 3
  const ADDITION: nat := 4
  const MULTIPLICATION: nat := 5
  const UNARY: nat := 6
  const QUALIFIER: nat := 7

  function Level(op: BinaryOp): nat {
    match op
    case And => LOGICAL
    case Or => LOGICAL
    case Plus => ADDITION
    case Minus => ADDITION
    case Times => MULTIPLICATION
    case Divide => MULTIPLICATION
    case Modulo => MULTIPLICATION
    case FloorDivide => MULTIPLICATION
    case _ => COMPARISON
  }

  function OpText(op: BinaryOp): string {
    match op
    case Plus => "+"
    case Minus => "-"
    case Times => "*"
    case Divide => "/"
    case Modulo => "%"
    case FloorDivide => "//"
    case Equal => "=="
    case NotEqual => "!="
    case Less => "<"
    case Greater => ">"
    case LessEqual => "<="
    case GreaterEqual => ">="
    case And => "&&"
    case Or => "||"
  }

  function UnaryText(op: UnaryOp): string {
    match op
    case Identity => "+"
    case Negate => "-"
    case Not => "!"
  }

  function Digit(n: nat): char
    requires n < 10
  {
    ('0' as int + n) as char
  }

  function Decimal(n: nat): string {
    if n < 10 then [Digit(n)] else Decimal(n / 10) + [Digit(n % 10)]
  }

  /** The precedence of what is not bracketed. */
  function Precedence(e: Expr): nat {
    match e
    case Binary(op, _, _) => Level(op)
    case Unary(_, _) => UNARY
    case _ => QUALIFIER
  }

  function Print(e: Expr, level: nat): string
    decreases e, 1
  {
    if Precedence(e) < level then "(" + Body(e) + ")" else Body(e)
  }

  function Body(e: Expr): string
    decreases e, 0
  {
    match e
    case Name(name) => name
    case Number(n) => Decimal(n)
    case Truth(b) => if b then "true" else "false"
    case Binary(op, a, b) => Print(a, Level(op)) + " " + OpText(op) + " " + Print(b, Level(op))
    case Unary(op, a) => UnaryText(op) + Print(a, UNARY)
    case Call(f, args) => f + "(" + PrintList(args) + ")"
    case Subscription(a, indices) => Print(a, QUALIFIER) + "[" + PrintList(indices) + "]"
    case Member(a, member) => Print(a, QUALIFIER) + "." + member
    case Range(a, c, b) => Print(a, 0) + ":" + Print(c, 0) + ":" + Print(b, 0)
  }

  function PrintList(es: seq<Expr>): string
    decreases es, 0
  {
    if es == [] then ""
    else if |es| == 1 then Print(es[0], 0)
    else Print(es[0], 0) + ", " + PrintList(es[1..])
  }

  function Spaces(n: nat): string { if n == 0 then "" else " " + Spaces(n - 1) }

  function OrderText(order: Order): string {
    match order
    case Sequential => "for "
    case Unordered => "unordered for "
    case Parallel => "parallel for "
  }

  const INDENTATION: nat := 4

  /** A statement on its own lines, after an indentation that is already there. */
  function PrintStmt(s: Stmt, indent: nat): string
    decreases s, 0
  {
    match s
    case Assign(plus, a, b) => Print(a, 1) + (if plus then " += " else " = ") + Print(b, 1) + "\n"
    case Let(x, t, e) => "let " + x + " :: " + t + " = " + Print(e, 0) + "\n"
    case For(order, i, t, range, body) =>
      OrderText(order) + i + " :: " + t + " in " + Print(range, 0) + "\n" +
      PrintBlock(body, indent + INDENTATION) + Spaces(indent) + "end\n"
    case If(c, a, hasElse, b) =>
      "if " + Print(c, 0) + "\n" + PrintBlock(a, indent + INDENTATION) + Spaces(indent) +
      (if hasElse then "else\n" + PrintBlock(b, indent + INDENTATION) + Spaces(indent) else "") + "end\n"
  }

  function PrintBlock(b: seq<Stmt>, indent: nat): string
    decreases b, 1
  {
    if b == [] then "" else Spaces(indent) + PrintStmt(b[0], indent) + PrintBlock(b[1..], indent)
  }

  // Parsing.

  predicate IsSpace(c: char) { c == ' ' || '\t' <= c <= '\r' }

  predicate IsAlpha(c: char) { 'a' <= c <= 'z' || 'A' <= c <= 'Z' }

  predicate IsDigit(c: char) { '0' <= c <= '9' }

  predicate IsIdChar(c: char) { IsAlpha(c) || IsDigit(c) || c == '_' }

  /** The skipper. */
  function Skip(s: string): (r: string)
    ensures |r| <= |s| && (r != "" ==> !IsSpace(r[0]))
  {
    if s != "" && IsSpace(s[0]) then Skip(s[1..]) else s
  }

  /** A literal text after skipped space. */
  function Lit(s: string, text: string): (r: Option<string>)
    requires text != ""
    ensures r.Some? ==> |r.value| < |s|
  {
    var t := Skip(s);
    if text <= t then Some(t[|text|..]) else None
  }

  const KEYWORDS: seq<string> :=
    ["for", "if", "else", "end", "module", "struct", "function", "let", "parallel", "unordered", "true", "false"]

  predicate KeywordAt(s: string) { exists k :: 0 <= k < |KEYWORDS| && KEYWORDS[k] <= s }

  function IdLength(s: string): (n: nat)
    ensures n <= |s|
  {
    if s != "" && IsIdChar(s[0]) then 1 + IdLength(s[1..]) else 0
  }

  /** An identifier must not even begin with a keyword. */
  function ParseId(s: string): (r: Option<(string, string)>)
    ensures r.Some? ==> |r.value.1| < |s|
  {
    var t := Skip(s);
    if t == "" || !IsAlpha(t[0]) || KeywordAt(t) then None
    else
      var n := IdLength(t);
      Some((t[..n], t[n..]))
  }

  function DigitLength(s: string): (n: nat)
    ensures n <= |s| && forall k :: 0 <= k < n ==> IsDigit(s[k])
  {
    if s != "" && IsDigit(s[0]) then 1 + DigitLength(s[1..]) else 0
  }

  function ValueOf(s: string): nat
    requires forall k :: 0 <= k < |s| ==> IsDigit(s[k])
  {
    if s == "" then 0
    else
      assert IsDigit(s[|s| - 1]);
      ValueOf(s[..|s| - 1]) * 10 + (s[|s| - 1] as int - '0' as int)
  }

  /** Integer and boolean literals; digits followed by a point would be a floating literal. */
  function ParseLiteral(s: string): (r: Option<(Expr, string)>)
    ensures r.Some? ==> |r.value.1| < |s|
  {
    var t := Skip(s);
    var n := DigitLength(t);
    if n > 0 then (if n < |t| && t[n] == '.' then None else Some((Number(ValueOf(t[..n])), t[n..])))
    else if Lit(s, "true").Some? then Some((Truth(true), Lit(s, "true").value))
    else if Lit(s, "false").Some? then Some((Truth(false), Lit(s, "false").value))
    else None
  }

  /** The first alternative of the list whose text comes next. */
  function FirstOf<T>(s: string, alternatives: seq<(string, T)>): (r: Option<(T, string)>)
    requires forall k :: 0 <= k < |alternatives| ==> alternatives[k].0 != ""
    ensures r.Some? ==> |r.value.1| < |s|
  {
    if alternatives == [] then None
    else
      var first := Lit(s, alternatives[0].0);
      if first.Some? then Some((alternatives[0].1, first.value)) else FirstOf(s, alternatives[1..])
  }

  function Operators(level: nat): (r: seq<(string, BinaryOp)>)
    ensures forall k :: 0 <= k < |r| ==> r[k].0 != ""
  {
    if level == LOGICAL then [("and", And), ("or", Or)]
    else if level == COMPARISON then
      [("==", Equal), ("!=", NotEqual), ("<", Less), (">", Greater), ("<=", LessEqual), (">=", GreaterEqual)]
    else if level == ADDITION then [("+", Plus), ("-", Minus)]
    else if level == MULTIPLICATION then [("*", Times), ("/", Divide), ("%", Modulo)]
    else []
  }

  function Operator(level: nat, s: string): (r: Option<(BinaryOp, string)>)
    ensures r.Some? ==> |r.value.1| < |s|
  {
    FirstOf(s, Operators(level))
  }

  function UnaryOperator(s: string): (r: Option<(UnaryOp, string)>)
    ensures r.Some? ==> |r.value.1| < |s|
  {
    FirstOf(s, [("+", Identity), ("-", Negate), ("not", UnaryOp.Not)])
  }

  /** The rule for a level of precedence.  Binary operators are right-recursive; if what follows an
      operator is no operand, the operator is left alone. */
  function Parse(level: nat, s: string): (r: Option<(Expr, string)>)
    requires LOGICAL <= level <= QUALIFIER
    ensures r.Some? ==> |r.value.1| < |s|
    decreases |s|, 10 - level
  {
    if level < UNARY then
      match Parse(level + 1, s)
      case None => None
      case Some((a, rest)) =>
        match Operator(level, rest)
        case None => Some((a, rest))
        case Some((op, rest')) =>
          match Parse(level, rest')
          case None => Some((a, rest))
          case Some((b, rest'')) => Some((Binary(op, a, b), rest''))
    else if level == UNARY then
      var signed := (match UnaryOperator(s)
                     case None => None
                     case Some((op, rest)) =>
                       match Parse(UNARY, rest)
                       case None => None
                       case Some((a, rest')) => Some((Unary(op, a), rest')));
      if signed.Some? then signed else Parse(QUALIFIER, s)
    else
      match ParseBase(s)
      case None => None
      case Some((a, rest)) => Some(ParseQualifiers(a, rest))
  }

  function ParseBase(s: string): (r: Option<(Expr, string)>)
    ensures r.Some? ==> |r.value.1| < |s|
    decreases |s|, 2
  {
    if ParseBracketed(s).Some? then ParseBracketed(s)
    else if ParseCall(s).Some? then ParseCall(s)
    else
      match ParseId(s)
      case Some((name, rest)) => Some((Name(name), rest))
      case None => ParseLiteral(s)
  }

  function ParseBracketed(s: string): (r: Option<(Expr, string)>)
    ensures r.Some? ==> |r.value.1| < |s|
    decreases |s|, 1
  {
    match Lit(s, "(")
    case None => None
    case Some(rest) =>
      match ParseNonTask(rest)
      case None => None
      case Some((a, rest')) =>
        match Lit(rest', ")")
        case None => None
        case Some(rest'') => Some((a, rest''))
  }

  function ParseCall(s: string): (r: Option<(Expr, string)>)
    ensures r.Some? ==> |r.value.1| < |s|
    decreases |s|, 1
  {
    match ParseId(s)
    case None => None
    case Some((f, rest)) =>
      match Lit(rest, "(")
      case None => None
      case Some(rest') =>
        match ParseList(rest')
        case None => None
        case Some((args, rest'')) =>
          match Lit(rest'', ")")
          case None => None
          case Some(rest''') => Some((Call(f, args), rest'''))
  }

  /** One or more expressions with commas between them. */
  function ParseList(s: string): (r: Option<(seq<Expr>, string)>)
    ensures r.Some? ==> |r.value.1| < |s|
    decreases |s|, 12
  {
    match ParseNonTask(s)
    case None => None
    case Some((a, rest)) =>
      match Lit(rest, ",")
      case None => Some(([a], rest))
      case Some(rest') =>
        match ParseList(rest')
        case None => Some(([a], rest))
        case Some((others, rest'')) => Some(([a] + others, rest''))
  }

  function ParseQualifiers(e: Expr, s: string): (r: (Expr, string))
    ensures |r.1| <= |s|
    decreases |s|, 2
  {
    match ParseQualifier(e, s)
    case None => (e, s)
    case Some((e', rest)) => ParseQualifiers(e', rest)
  }

  function ParseQualifier(e: Expr, s: string): (r: Option<(Expr, string)>)
    ensures r.Some? ==> |r.value.1| < |s|
    decreases |s|, 1
  {
    match Lit(s, "[")
    case Some(rest) =>
      var (indices, rest') := (match ParseList(rest)
                               case None => ([], rest)
                               case Some((es, after)) => (es, after));
      (match Lit(rest', "]")
       case None => None
       case Some(rest'') => Some((Subscription(e, indices), rest'')))
    case None =>
      match Lit(s, ".")
      case None => None
      case Some(rest) =>
        match ParseId(rest)
        case None => None
        case Some((member, rest')) => Some((Member(e, member), rest'))
  }

  /** The rest of a range after its lower bound; the stride is 1 if it is left out. */
  function ParseRangeTail(a: Expr, s: string): (r: Option<(Expr, string)>)
    ensures r.Some? ==> |r.value.1| < |s|
    decreases |s|, 1
  {
    match Lit(s, ":")
    case None => None
    case Some(rest) =>
      match Parse(LOGICAL, rest)
      case None => None
      case Some((c, rest')) =>
        match Lit(rest', ":")
        case None => Some((Range(a, Number(1), c), rest'))
        case Some(rest'') =>
          match Parse(LOGICAL, rest'')
          case None => None
          case Some((b, rest''')) => Some((Range(a, c, b), rest'''))
  }

  function ParseRange(s: string): (r: Option<(Expr, string)>)
    ensures r.Some? ==> |r.value.1| < |s|
    decreases |s|, 10
  {
    match Parse(LOGICAL, s)
    case None => None
    case Some((a, rest)) => ParseRangeTail(a, rest)
  }

  function ParseNonTask(s: string): (r: Option<(Expr, string)>)
    ensures r.Some? ==> |r.value.1| < |s|
    decreases |s|, 11
  {
    if ParseRange(s).Some? then ParseRange(s) else Parse(LOGICAL, s)
  }

  // Statements.  After the keyword of a statement there is no way back: what does not fit is an error.

  datatype Outcome<+T> = Match(value: T, rest: string) | Miss | Error

  /** `name :: type` */
  function ParseDeclaration(s: string): (r: Option<(string, string, string)>)
    ensures r.Some? ==> |r.value.2| < |s|
  {
    match ParseId(s)
    case None => None
    case Some((name, s1)) =>
      match Lit(s1, "::")
      case None => None
      case Some(s2) =>
        match ParseId(s2)
        case None => None
        case Some((t, s3)) => Some((name, t, s3))
  }

  /** The head of a loop, if there is one. */
  function ParseForHead(s: string): (r: Option<(Order, string)>)
    ensures r.Some? ==> |r.value.1| < |s|
  {
    var ordering := FirstOf(s, [("parallel", Parallel), ("unordered", Unordered)]);
    var (order, s1) := if ordering.Some? then ordering.value else (Sequential, s);
    match Lit(s1, "for")
    case None => None
    case Some(s2) => Some((order, s2))
  }

  function ParseStmt(s: string): (r: Outcome<Stmt>)
    ensures r.Match? ==> |r.rest| < |s|
    decreases |s|, 1
  {
    match Lit(s, "if")
    case Some(s1) => ParseIfTail(s1)
    case None =>
      match ParseForHead(s)
      case Some((order, s1)) => ParseForTail(order, s1)
      case None =>
        match Lit(s, "let")
        case Some(s1) => ParseLetTail(s1)
        case None => ParseAssignment(s)
  }

  function ParseIfTail(s: string): (r: Outcome<Stmt>)
    ensures r.Match? ==> |r.rest| < |s|
    decreases |s|, 3
  {
    match ParseNonTask(s)
    case None => Error
    case Some((c, s1)) =>
      match ParseBlock(s1)
      case Miss => Error
      case Error => Error
      case Match(a, s2) =>
        match Lit(s2, "else")
        case None => (match Lit(s2, "end")
                      case None => Error
                      case Some(s3) => Match(If(c, a, false, []), s3))
        case Some(s3) =>
          match ParseBlock(s3)
          case Miss => Error
          case Error => Error
          case Match(b, s4) =>
            match Lit(s4, "end")
            case None => Error
            case Some(s5) => Match(If(c, a, true, b), s5)
  }

  function ParseForTail(order: Order, s: string): (r: Outcome<Stmt>)
    ensures r.Match? ==> |r.rest| < |s|
    decreases |s|, 3
  {
    match ParseDeclaration(s)
    case None => Error
    case Some((i, t, s1)) =>
      match Lit(s1, "in")
      case None => Error
      case Some(s2) =>
        match ParseRange(s2)
        case None => Error
        case Some((range, s3)) =>
          match ParseBlock(s3)
          case Miss => Error
          case Error => Error
          case Match(body, s4) =>
            match Lit(s4, "end")
            case None => Error
            case Some(s5) => Match(For(order, i, t, range, body), s5)
  }

  function ParseLetTail(s: string): (r: Outcome<Stmt>)
    ensures r.Match? ==> |r.rest| < |s|
  {
    match ParseDeclaration(s)
    case None => Error
    case Some((x, t, s1)) =>
      match Lit(s1, "=")
      case None => Error
      case Some(s2) =>
        match ParseNonTask(s2)
        case None => Error
        case Some((e, s3)) => Match(Let(x, t, e), s3)
  }

  function ParseAssignment(s: string): (r: Outcome<Stmt>)
    ensures r.Match? ==> |r.rest| < |s|
  {
    match ParseNonTask(s)
    case None => Miss
    case Some((a, s1)) =>
      match FirstOf(s1, [("=", false), ("+=", true)])
      case None => Miss
      case Some((plus, s2)) =>
        match ParseNonTask(s2)
        case None => Error
        case Some((b, s3)) => Match(Assign(plus, a, b), s3)
  }

  /** As many statements as there are. */
  function ParseBlock(s: string): (r: Outcome<seq<Stmt>>)
    ensures !r.Miss? && (r.Match? ==> |r.rest| <= |s|)
    decreases |s|, 2
  {
    match ParseStmt(s)
    case Miss => Match([], s)
    case Error => Error
    case Match(first, s1) =>
      match ParseBlock(s1)
      case Miss => Error
      case Error => Error
      case Match(others, s2) => Match([first] + others, s2)
  }
}
