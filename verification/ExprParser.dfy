/** The expression rules of the C parser (src/parser): binary operators by precedence climbing,
    conditional, assignment and comma expressions, over identifiers, parentheses, the prefix
    operators, casts and `sizeof` for types behind a typedef, and postfix increments, indexing, calls and
    member access.  A position is the text that is left. */
module ExprParser {
  import opened Wrappers
  import opened Scanning
  import opened ExprSyntax

  datatype Parsed = Parsed(e: Expr, rest: string)

  datatype Step = Step(op: InfixOp, right: Expr, rest: string)

  /** An identifier or a parenthesised expression. */
  function ParsePrimary(env: Env, s: string): (r: Option<Parsed>)
    ensures r.Some? ==> |r.value.rest| < |s| && WellFormed(env, r.value.e)
    decreases |s|, 1
  {
    match ParseIdentifier(env, s)
    case Some((name, rest)) => Some(Parsed(Name(name), rest))
    case None => Enclosed(env, s, "(", ")")
  }

  /** An expression between two brackets. */
  function Enclosed(env: Env, s: string, open: string, close: string): (r: Option<Parsed>)
    requires open != ""
    ensures r.Some? ==> |r.value.rest| < |s| && WellFormed(env, r.value.e)
    decreases |s|, 0
  {
    match Strip(s, open)
    case None => None
    case Some(s1) =>
      match ParseExpression(env, Skip(s1))
      case None => None
      case Some(p) =>
        match Strip(Skip(p.rest), close)
        case None => None
        case Some(rest) => Some(Parsed(p.e, rest))
  }

  /** The arguments of a call: any number of assignment expressions between commas. */
  function Arguments(env: Env, s: string): (r: (seq<Expr>, string))
    ensures |r.1| <= |s| && forall e :: e in r.0 ==> WellFormed(env, e)
    decreases |s|, 8
  {
    match ParseAssignment(env, s)
    case None => ([], s)
    case Some(p) =>
      var (more, rest) := CommaParts(env, p.rest, false);
      ([p.e] + more, rest)
  }

  function CallSuffix(env: Env, s: string): (r: Option<(Suffix, string)>)
    ensures r.Some? ==> |r.value.1| < |s| && SuffixFormed(env, r.value.0)
    decreases |s|, 0
  {
    match Strip(s, "(")
    case None => None
    case Some(s1) =>
      var (arguments, s2) := Arguments(env, Skip(s1));
      match Strip(Skip(s2), ")")
      case None => None
      case Some(rest) => Some((Call(arguments), rest))
  }

  function MemberSuffix(env: Env, s: string): (r: Option<(Suffix, string)>)
    ensures r.Some? ==> |r.value.1| < |s| && SuffixFormed(env, r.value.0)
  {
    match MatchMember(s)
    case None => None
    case Some((indirect, s1)) =>
      match ParseIdentifier(env, Skip(s1))
      case None => None
      case Some((name, rest)) => Some((Member(indirect, name), rest))
  }

  /** Indexing, a call, member access, or an increment or decrement, tried in this order. */
  function ParseSuffix(env: Env, s: string): (r: Option<(Suffix, string)>)
    ensures r.Some? ==> |r.value.1| < |s| && SuffixFormed(env, r.value.0)
    decreases |s|, 1
  {
    match Enclosed(env, s, "[", "]")
    case Some(p) => Some((Index(p.e), p.rest))
    case None =>
      match CallSuffix(env, s)
      case Some(found) => Some(found)
      case None =>
        match MemberSuffix(env, s)
        case Some(found) => Some(found)
        case None => MatchPostfix(s)
  }

  /** The repetition of suffixes; white space separates all but the first. */
  function Tail(env: Env, e: Expr, s: string, first: bool): (r: Parsed)
    requires WellFormed(env, e)
    ensures |r.rest| <= |s| && WellFormed(env, r.e)
    decreases |s|, 2
  {
    match ParseSuffix(env, if first then s else Skip(s))
    case None => Parsed(e, s)
    case Some((suffix, rest)) => Tail(env, Postfix(e, suffix), rest, false)
  }

  function ParsePostfix(env: Env, s: string): (r: Option<Parsed>)
    ensures r.Some? ==> |r.value.rest| < |s| && WellFormed(env, r.value.e)
    decreases |s|, 2
  {
    match ParsePrimary(env, s)
    case None => None
    case Some(p) => Some(Tail(env, p.e, Skip(p.rest), true))
  }

  /** `++` or `--` before a unary expression. */
  function Incremented(env: Env, s: string): (r: Option<Parsed>)
    ensures r.Some? ==> |r.value.rest| < |s| && WellFormed(env, r.value.e)
    decreases |s|, 1
  {
    match MatchIncrement(s)
    case None => None
    case Some((op, rest)) =>
      match ParseUnary(env, Skip(rest))
      case None => None
      case Some(p) => Some(Parsed(Prefix(op, p.e), p.rest))
  }

  /** Another prefix operator before a cast expression. */
  function Operated(env: Env, s: string): (r: Option<Parsed>)
    ensures r.Some? ==> |r.value.rest| < |s| && WellFormed(env, r.value.e)
    decreases |s|, 1
  {
    match MatchUnary(s)
    case None => None
    case Some((op, rest)) =>
      match ParseCast(env, Skip(rest))
      case None => None
      case Some(p) => Some(Parsed(Prefix(op, p.e), p.rest))
  }

  /** `sizeof`, of a type in parentheses if there is one, and otherwise of a unary expression. */
  function Measured(env: Env, s: string): (r: Option<Parsed>)
    ensures r.Some? ==> |r.value.rest| < |s| && WellFormed(env, r.value.e)
    decreases |s|, 1
  {
    match MatchWord(s, SIZEOF)
    case None => None
    case Some(s1) =>
      match TypeInParentheses(env, Skip(s1))
      case Some((t, rest)) => Some(Parsed(SizeOfType(t), rest))
      case None =>
        match ParseUnary(env, Skip(s1))
        case None => None
        case Some(p) => Some(Parsed(SizeOfValue(p.e), p.rest))
  }

  /** A unary expression: a postfix expression, an increment or decrement, another prefix operator and its
      operand, or `sizeof`. */
  function ParseUnary(env: Env, s: string): (r: Option<Parsed>)
    ensures r.Some? ==> |r.value.rest| < |s| && WellFormed(env, r.value.e)
    decreases |s|, 3
  {
    match ParsePostfix(env, s)
    case Some(p) => Some(p)
    case None =>
      match Incremented(env, s)
      case Some(p) => Some(p)
      case None => match Operated(env, s) case Some(p) => Some(p) case None => Measured(env, s)
  }

  /** A type in parentheses and the expression it is applied to. */
  function Converted(env: Env, s: string): (r: Option<Parsed>)
    ensures r.Some? ==> |r.value.rest| < |s| && WellFormed(env, r.value.e)
    decreases |s|, 1
  {
    match TypeInParentheses(env, s)
    case None => None
    case Some((t, rest)) =>
      match ParseCast(env, Skip(rest))
      case None => None
      case Some(p) => Some(Parsed(Cast(t, p.e), p.rest))
  }

  /** A cast is tried before the unary expressions, parentheses among them. */
  function ParseCast(env: Env, s: string): (r: Option<Parsed>)
    ensures r.Some? ==> |r.value.rest| < |s| && WellFormed(env, r.value.e)
    decreases |s|, 4
  {
    match Converted(env, s)
    case Some(p) => Some(p)
    case None => ParseUnary(env, s)
  }

  /** One entry of the table: white space, operator, white space, right operand one level up. */
  function Candidate(env: Env, op: InfixOp, s: string): (r: Option<Step>)
    ensures r.Some? ==> |r.value.rest| < |s| && WellFormed(env, r.value.right)
    decreases |s|, 0
  {
    match MatchOp(op, Skip(s))
    case None => None
    case Some(rest) =>
      match ParseInfix(env, Level(op) + 1, Skip(rest))
      case None => None
      case Some(p) => Some(Step(op, p.e, p.rest))
  }

  /** The first entry from `k` on that is allowed at `min` and whose right operand parses. */
  function TryOps(env: Env, min: nat, s: string, k: nat): (r: Option<Step>)
    requires k <= |TABLE|
    ensures r.Some? ==> |r.value.rest| < |s| && WellFormed(env, r.value.right)
    decreases |s|, 1, |TABLE| - k
  {
    if k == |TABLE| then None
    else
      var found := if Level(TABLE[k]) >= min then Candidate(env, TABLE[k], s) else None;
      if found.Some? then found else TryOps(env, min, s, k + 1)
  }

  function InfixLoop(env: Env, min: nat, e: Expr, s: string): (r: Parsed)
    requires WellFormed(env, e)
    ensures |r.rest| <= |s| && WellFormed(env, r.e)
    decreases |s|, 2
  {
    match TryOps(env, min, s, 0)
    case None => Parsed(e, s)
    case Some(step) => InfixLoop(env, min, Infix(step.op, e, step.right), step.rest)
  }

  function ParseInfix(env: Env, min: nat, s: string): (r: Option<Parsed>)
    ensures r.Some? ==> |r.value.rest| < |s| && WellFormed(env, r.value.e)
    decreases |s|, 5
  {
    match ParseCast(env, s)
    case None => None
    case Some(p) => Some(InfixLoop(env, min, p.e, p.rest))
  }

  /** `? expression : conditional-expression`. */
  function Branches(env: Env, s: string): (r: Option<(Expr, Expr, string)>)
    ensures r.Some? ==> |r.value.2| < |s| && WellFormed(env, r.value.0) && WellFormed(env, r.value.1)
    decreases |s|, 0
  {
    match Strip(s, "?")
    case None => None
    case Some(s1) =>
      match ParseExpression(env, Skip(s1))
      case None => None
      case Some(p) =>
        match Strip(Skip(p.rest), ":")
        case None => None
        case Some(s2) =>
          match ParseConditional(env, Skip(s2))
          case None => None
          case Some(q) => Some((p.e, q.e, q.rest))
  }

  function ParseConditional(env: Env, s: string): (r: Option<Parsed>)
    ensures r.Some? ==> |r.value.rest| < |s| && WellFormed(env, r.value.e)
    decreases |s|, 6
  {
    match ParseInfix(env, 0, s)
    case None => None
    case Some(p) =>
      var s1 := Skip(p.rest);
      match Branches(env, s1)
      case None => Some(Parsed(p.e, s1))
      case Some((t, f, rest)) => Some(Parsed(Conditional(p.e, t, f), rest))
  }

  /** Assignment operator and right-hand side. */
  function AssignTail(env: Env, s: string): (r: Option<(AssignOp, Parsed)>)
    ensures r.Some? ==> |r.value.1.rest| < |s| && WellFormed(env, r.value.1.e)
    decreases |s|, 0
  {
    match MatchAssign(s, 0)
    case None => None
    case Some((op, s1)) =>
      match ParseAssignment(env, Skip(s1))
      case None => None
      case Some(p) => Some((op, p))
  }

  /** `unary-expression assignment-operator assignment-expression`. */
  function AssignInner(env: Env, s: string): (r: Option<Parsed>)
    ensures r.Some? ==> |r.value.rest| < |s| && WellFormed(env, r.value.e)
    decreases |s|, 4
  {
    match ParseUnary(env, s)
    case None => None
    case Some(p) =>
      match AssignTail(env, Skip(p.rest))
      case None => None
      case Some((op, q)) => Some(Parsed(Assignment(op, p.e, q.e), q.rest))
  }

  function ParseAssignment(env: Env, s: string): (r: Option<Parsed>)
    ensures r.Some? ==> |r.value.rest| < |s| && WellFormed(env, r.value.e)
    decreases |s|, 7
  {
    match AssignInner(env, s)
    case Some(p) => Some(p)
    case None => ParseConditional(env, s)
  }

  /** `, assignment-expression`. */
  function CommaPart(env: Env, s: string): (r: Option<Parsed>)
    ensures r.Some? ==> |r.value.rest| < |s| && WellFormed(env, r.value.e)
    decreases |s|, 0
  {
    match Strip(s, ",")
    case None => None
    case Some(s1) => ParseAssignment(env, Skip(s1))
  }

  /** The repetition of comma parts; white space separates all but the first from what is before. */
  function CommaParts(env: Env, s: string, first: bool): (r: (seq<Expr>, string))
    ensures |r.1| <= |s| && forall e :: e in r.0 ==> WellFormed(env, e)
    decreases |s|, 1
  {
    match CommaPart(env, if first then s else Skip(s))
    case None => ([], s)
    case Some(p) =>
      var (more, rest) := CommaParts(env, p.rest, false);
      ([p.e] + more, rest)
  }

  function ParseExpression(env: Env, s: string): (r: Option<Parsed>)
    ensures r.Some? ==> |r.value.rest| < |s| && WellFormed(env, r.value.e)
    decreases |s|, 8
  {
    match ParseAssignment(env, s)
    case None => None
    case Some(p) =>
      var (more, rest) := CommaParts(env, Skip(p.rest), true);
      Some(Parsed(if more == [] then p.e else Comma([p.e] + more), rest))
  }
}
