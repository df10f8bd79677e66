/** Expression trees and the operators of the C parser (src/parser): their spellings, levels and how one
    operator is matched at the front of a text. */
module ExprSyntax {
  import opened Wrappers
  import opened Scanning

  /** The words that are no identifiers, and the names that are types here. */
  datatype Words = Words(reserved: set<string>, types: set<string>)

  const SIZEOF := "sizeof"

  type Env = w: Words | SIZEOF in w.reserved witness Words({SIZEOF}, {})

  datatype InfixOp =
    | LogicalOr | LogicalAnd | BitwiseOr | BitwiseXor | BitwiseAnd
    | Equals | NotEquals | Less | Greater | LessOrEqual | GreaterOrEqual
    | ShiftLeft | ShiftRight | Plus | Minus | Multiply | Divide | Modulo

  datatype AssignOp =
    | Assign | AssignMultiply | AssignDivide | AssignModulo | AssignPlus | AssignMinus
    | AssignShiftLeft | AssignShiftRight | AssignBitwiseAnd | AssignBitwiseXor | AssignBitwiseOr

  datatype PrefixOp =
    | PreIncrement | PreDecrement | Address | Indirection | UnaryPlus | UnaryMinus | Complement | Negate

  /** `Operation`: what may follow a postfix expression. */
  datatype Suffix =
    | PostIncrement
    | PostDecrement
    | Index(index: Expr)
    | Call(arguments: seq<Expr>)
    | Member(indirect: bool, member: string)

  /** A type behind a typedef, and pointers to it. */
  datatype TypeName = TypeName(alias: string, stars: nat)

  datatype Expr =
    | Name(name: string)
    | SizeOfType(measured: TypeName)
    | SizeOfValue(value: Expr)
    | Cast(to: TypeName, inner: Expr)
    | Postfix(base: Expr, suffix: Suffix)
    | Prefix(prefix: PrefixOp, operand: Expr)
    | Infix(op: InfixOp, left: Expr, right: Expr)
    | Conditional(condition: Expr, thenBranch: Expr, elseBranch: Expr)
    | Assignment(assign: AssignOp, target: Expr, source: Expr)
    | Comma(parts: seq<Expr>)

  /** The operators in the order in which the loop tries them. */
  const TABLE: seq<InfixOp> :=
    [LogicalOr, LogicalAnd, BitwiseOr, BitwiseXor, BitwiseAnd, Equals, NotEquals, Less, Greater,
     LessOrEqual, GreaterOrEqual, ShiftLeft, ShiftRight, Plus, Minus, Multiply, Divide, Modulo]

  const ASSIGNS: seq<AssignOp> :=
    [Assign, AssignMultiply, AssignDivide, AssignModulo, AssignPlus, AssignMinus,
     AssignShiftLeft, AssignShiftRight, AssignBitwiseAnd, AssignBitwiseXor, AssignBitwiseOr]

  /** Ten binary levels, then cast, unary, postfix and primary expressions. */
  const LEVELS := 10
  const UNARY := 11
  const POSTFIX := 12
  const PRIMARY := 13

  function Level(op: InfixOp): (n: nat)
    ensures n < LEVELS
  {
    match op
    case LogicalOr => 0
    case LogicalAnd => 1
    case BitwiseOr => 2
    case BitwiseXor => 3
    case BitwiseAnd => 4
    case Equals | NotEquals => 5
    case Less | Greater | LessOrEqual | GreaterOrEqual => 6
    case ShiftLeft | ShiftRight => 7
    case Plus | Minus => 8
    case Multiply | Divide | Modulo => 9
  }

  function First(op: InfixOp): char {
    match op
    case LogicalOr | BitwiseOr => '|'
    case LogicalAnd | BitwiseAnd => '&'
    case BitwiseXor => '^'
    case Equals => '='
    case NotEquals => '!'
    case Less | LessOrEqual | ShiftLeft => '<'
    case Greater | GreaterOrEqual | ShiftRight => '>'
    case Plus => '+'
    case Minus => '-'
    case Multiply => '*'
    case Divide => '/'
    case Modulo => '%'
  }

  function Second(op: InfixOp): Option<char> {
    match op
    case LogicalOr => Some('|')
    case LogicalAnd => Some('&')
    case Equals | NotEquals | LessOrEqual | GreaterOrEqual => Some('=')
    case ShiftLeft => Some('<')
    case ShiftRight => Some('>')
    case _ => None
  }

  function Spelling(op: InfixOp): string {
    [First(op)] + if Second(op).Some? then [Second(op).value] else []
  }

  function PrefixSpelling(op: PrefixOp): string {
    match op
    case PreIncrement => "++"
    case PreDecrement => "--"
    case Address => "&"
    case Indirection => "*"
    case UnaryPlus => "+"
    case UnaryMinus => "-"
    case Complement => "~"
    case Negate => "!"
  }

  function AssignSpelling(op: AssignOp): string {
    match op
    case Assign => "="
    case AssignMultiply => "*="
    case AssignDivide => "/="
    case AssignModulo => "%="
    case AssignPlus => "+="
    case AssignMinus => "-="
    case AssignShiftLeft => "<<="
    case AssignShiftRight => ">>="
    case AssignBitwiseAnd => "&="
    case AssignBitwiseXor => "^="
    case AssignBitwiseOr => "|="
  }

  // ----- well-formed trees ---------------------------------------------------------------

  predicate IsName(env: Env, name: string) {
    name != "" && NameStart(name[0]) && NameLength(name) == |name| && name !in env.reserved
  }

  predicate IsType(env: Env, t: TypeName) { IsName(env, t.alias) && t.alias in env.types }

  predicate WellFormed(env: Env, e: Expr) {
    match e
    case Name(name) => IsName(env, name)
    case SizeOfType(t) => IsType(env, t)
    case SizeOfValue(x) => WellFormed(env, x)
    case Cast(t, x) => IsType(env, t) && WellFormed(env, x)
    case Postfix(x, suffix) => WellFormed(env, x) && SuffixFormed(env, suffix)
    case Prefix(_, x) => WellFormed(env, x)
    case Infix(_, l, r) => WellFormed(env, l) && WellFormed(env, r)
    case Conditional(c, t, f) => WellFormed(env, c) && WellFormed(env, t) && WellFormed(env, f)
    case Assignment(_, l, r) => WellFormed(env, l) && WellFormed(env, r)
    case Comma(parts) => |parts| >= 2 && forall p :: p in parts ==> WellFormed(env, p)
  }

  predicate SuffixFormed(env: Env, suffix: Suffix) {
    match suffix
    case PostIncrement | PostDecrement => true
    case Index(index) => WellFormed(env, index)
    case Call(arguments) => forall e :: e in arguments ==> WellFormed(env, e)
    case Member(_, name) => IsName(env, name)
  }

  // ----- one token -----------------------------------------------------------------------

  /** An identifier and the text behind it. */
  function ParseIdentifier(env: Env, s: string): (r: Option<(string, string)>)
    ensures r.Some? ==> |r.value.1| < |s| && IsName(env, r.value.0)
  {
    if s == "" || !NameStart(s[0]) then None
    else
      var n := NameLength(s);
      if s[..n] in env.reserved then None else NameSplit(s); Some((s[..n], s[n..]))
  }

  /** A word that no name character follows. */
  function MatchWord(s: string, word: string): (r: Option<string>)
    ensures r.Some? ==> |r.value| == |s| - |word|
  {
    match Strip(s, word)
    case Some(rest) => if rest != "" && NameChar(rest[0]) then None else Some(rest)
    case None => None
  }

  function MatchStars(s: string): (r: (nat, string))
    ensures |r.1| <= |s|
    decreases |s|
  {
    match Strip(Skip(s), "*")
    case None => (0, s)
    case Some(rest) => var (more, behind) := MatchStars(rest); (more + 1, behind)
  }

  /** A typedef name and the stars behind it; any other name is no type. */
  function MatchTypeName(env: Env, s: string): (r: Option<(TypeName, string)>)
    ensures r.Some? ==> |r.value.1| < |s| && IsType(env, r.value.0)
  {
    match ParseIdentifier(env, s)
    case None => None
    case Some((name, rest)) =>
      if name in env.types then var (stars, behind) := MatchStars(rest); Some((TypeName(name, stars), behind))
      else None
  }

  /** `( type-name )`. */
  function TypeInParentheses(env: Env, s: string): (r: Option<(TypeName, string)>)
    ensures r.Some? ==> |r.value.1| < |s| && IsType(env, r.value.0)
  {
    match Strip(s, "(")
    case None => None
    case Some(s1) =>
      match MatchTypeName(env, Skip(s1))
      case None => None
      case Some((t, s2)) => match Strip(Skip(s2), ")") case None => None case Some(rest) => Some((t, rest))
  }

  function MatchMember(s: string): (r: Option<(bool, string)>)
    ensures r.Some? ==> |r.value.1| < |s|
  {
    match Strip(s, ".")
    case Some(rest) => Some((false, rest))
    case None => match Strip(s, "->") case Some(rest) => Some((true, rest)) case None => None
  }

  function MatchPostfix(s: string): (r: Option<(Suffix, string)>)
    ensures r.Some? ==> |r.value.1| < |s| && (r.value.0.PostIncrement? || r.value.0.PostDecrement?)
  {
    match Strip(s, "++")
    case Some(rest) => Some((PostIncrement, rest))
    case None => match Strip(s, "--") case Some(rest) => Some((PostDecrement, rest)) case None => None
  }

  function MatchIncrement(s: string): (r: Option<(PrefixOp, string)>)
    ensures r.Some? ==> |r.value.1| < |s|
  {
    match Strip(s, "++")
    case Some(rest) => Some((PreIncrement, rest))
    case None => match Strip(s, "--") case Some(rest) => Some((PreDecrement, rest)) case None => None
  }

  /** The unary operators; a single `&` must not be followed by another. */
  function MatchUnary(s: string): (r: Option<(PrefixOp, string)>)
    ensures r.Some? ==> |r.value.1| < |s|
  {
    if s == "" then None
    else
      match s[0]
      case '&' => if "&&" <= s then None else Some((Address, s[1..]))
      case '*' => Some((Indirection, s[1..]))
      case '+' => Some((UnaryPlus, s[1..]))
      case '-' => Some((UnaryMinus, s[1..]))
      case '~' => Some((Complement, s[1..]))
      case '!' => Some((Negate, s[1..]))
      case _ => None
  }

  /** One operator with the lookahead of a single `&`. */
  function MatchOp(op: InfixOp, s: string): (r: Option<string>)
    ensures r.Some? ==> |r.value| < |s|
  {
    match Strip(s, Spelling(op))
    case None => None
    case Some(rest) => if op == BitwiseAnd && rest != "" && rest[0] == '&' then None else Some(rest)
  }

  /** The first assignment operator from `k` on that the text starts with. */
  function MatchAssign(s: string, k: nat): (r: Option<(AssignOp, string)>)
    requires k <= |ASSIGNS|
    ensures r.Some? ==> Strip(s, AssignSpelling(r.value.0)) == Some(r.value.1)
    decreases |ASSIGNS| - k
  {
    if k == |ASSIGNS| then None
    else
      match Strip(s, AssignSpelling(ASSIGNS[k]))
      case Some(rest) => Some((ASSIGNS[k], rest))
      case None => MatchAssign(s, k + 1)
  }
}
