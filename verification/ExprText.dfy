/** Expression trees as text: a printer with minimal parentheses, and what the parser's operator
    tables (src/parser) make of printed operators. */
module ExprText {
  import opened Wrappers
  import opened Scanning
  import opened ExprSyntax
  import opened ExprParser

  // ----- trees and their text ------------------------------------------------------------

  /** The grammar level of a tree: comma, assignment, conditional, the ten binary levels, cast, unary,
      postfix, primary. */
  function Own(e: Expr): int {
    match e
    case Comma(_) => -3
    case Assignment(_, _, _) => -2
    case Conditional(_, _, _) => -1
    case Infix(op, _, _) => Level(op)
    case Cast(_, _) => LEVELS
    case Prefix(_, _) => UNARY
    case SizeOfType(_) => UNARY
    case SizeOfValue(_) => UNARY
    case Postfix(_, _) => POSTFIX
    case Name(_) => PRIMARY
  }

  /** Parentheses exactly where the grammar needs them. */
  function Print(e: Expr, level: int): string
    decreases e, 1
  {
    if Own(e) < level then "(" + Body(e) + ")" else Body(e)
  }

  function Body(e: Expr): string
    decreases e, 0
  {
    match e
    case Name(name) => name
    case Postfix(x, suffix) => Print(x, POSTFIX) + SuffixText(suffix)
    case Prefix(op, x) => PrefixSpelling(op) + (" " + Print(x, OperandLevel(op)))
    case SizeOfType(t) => SIZEOF + (" " + TypeText(t))
    case SizeOfValue(x) => SIZEOF + (" " + Print(x, UNARY))
    case Cast(t, x) => TypeText(t) + (" " + Print(x, LEVELS))
    case Infix(op, l, r) => Print(l, Level(op)) + (" " + Spelling(op) + (" " + Print(r, Level(op) + 1)))
    case Conditional(c, t, f) => Print(c, 0) + (" ? " + (Print(t, -3) + (" : " + Print(f, -1))))
    case Assignment(op, l, r) => Print(l, UNARY) + (" " + AssignSpelling(op) + (" " + Print(r, -2)))
    case Comma(parts) => PrintList(parts)
  }

  /** `++` and `--` take no cast. */
  function OperandLevel(op: PrefixOp): nat { if op == PreIncrement || op == PreDecrement then UNARY else LEVELS }

  function Stars(n: nat): string { if n == 0 then "" else "*" + Stars(n - 1) }

  function TypeText(t: TypeName): string { "(" + (t.alias + (Stars(t.stars) + ")")) }

  function SuffixText(suffix: Suffix): string
    decreases suffix, 0
  {
    match suffix
    case PostIncrement => "++"
    case PostDecrement => "--"
    case Index(index) => "[" + (Print(index, -3) + "]")
    case Call(arguments) => "(" + (PrintList(arguments) + ")")
    case Member(indirect, name) => (if indirect then "->" else ".") + name
  }

  function PrintList(parts: seq<Expr>): string
    decreases parts, 2
  {
    if parts == [] then "" else Print(parts[0], -2) + PrintParts(parts[1..])
  }

  function PrintParts(parts: seq<Expr>): string
    decreases parts, 0
  {
    if parts == [] then "" else ", " + (Print(parts[0], -2) + PrintParts(parts[1..]))
  }

  // ----- white space ---------------------------------------------------------------------

  lemma SkipBlank(s: string)
    ensures Skip(" " + s) == Skip(s)
  {
    assert (" " + s)[0] == ' ' && (" " + s)[1..] == s;
  }

  /** What an operand can start with. */
  predicate OperandStart(c: char) { NameStart(c) || c in "(&*+-~!" }

  /** A printed tree starts like an operand. */
  lemma {:induction false} PrintStarts(env: Env, e: Expr, level: int)
    requires WellFormed(env, e)
    ensures Print(e, level) != "" && OperandStart(Print(e, level)[0])
    decreases e
  {
    match e
    case Name(_) =>
    case SizeOfType(_) =>
    case SizeOfValue(_) =>
    case Cast(_, _) =>
    case Postfix(x, _) => PrintStarts(env, x, POSTFIX);
    case Prefix(op, _) => assert OperandStart(PrefixSpelling(op)[0]);
    case Infix(op, l, _) => PrintStarts(env, l, Level(op));
    case Conditional(c, _, _) => PrintStarts(env, c, 0);
    case Assignment(_, l, _) => PrintStarts(env, l, UNARY);
    case Comma(parts) =>
      PrintStarts(env, parts[0], -2);
      assert Body(e) == Print(parts[0], -2) + PrintParts(parts[1..]);
  }

  lemma PrintSkips(env: Env, e: Expr, level: int, rest: string)
    requires WellFormed(env, e)
    ensures Skip(Print(e, level) + rest) == Print(e, level) + rest
    ensures Skip(" " + (Print(e, level) + rest)) == Print(e, level) + rest
  {
    PrintStarts(env, e, level);
    assert (Print(e, level) + rest)[0] == Print(e, level)[0];
    SkipBlank(Print(e, level) + rest);
  }

  // ----- no operand, no operator ---------------------------------------------------------

  lemma StripFirst(s: string, prefix: string)
    requires prefix != ""
    ensures s == "" || s[0] != prefix[0] ==> Strip(s, prefix) == None
  {
  }

  lemma NothingParses(env: Env, min: nat, s: string)
    requires s == "" || !OperandStart(s[0])
    ensures ParseCast(env, s) == None && ParseInfix(env, min, s) == None && ParseAssignment(env, s) == None
  {
    StripFirst(s, "(");
    assert ParsePrimary(env, s) == None;
    StripFirst(s, "++");
    StripFirst(s, "--");
    StripFirst(s, SIZEOF);
    assert TypeInParentheses(env, s) == None;
    assert MatchIncrement(s) == None && MatchUnary(s) == None && MatchWord(s, SIZEOF) == None;
    assert ParseUnary(env, s) == None && ParseCast(env, s) == None;
    assert ParseInfix(env, 0, s) == None;
    assert AssignInner(env, s) == None;
  }

  const OPERATOR_STARTS := "|&^=!<>+-*/%?([."

  /** The text does not go on with a name, an operator, a suffix or `?`. */
  predicate Ended(s: string) {
    (s != "" ==> !NameChar(s[0])) && (Skip(s) != "" ==> Skip(s)[0] !in OPERATOR_STARTS)
  }

  /** No suffix can start here. */
  predicate NoSuffix(s: string) {
    s != "" ==> s[0] !in "([." && !("->" <= s) && !("++" <= s) && !("--" <= s)
  }

  predicate NoTail(s: string) { NoSuffix(Skip(s)) }

  lemma NoSuffixRead(env: Env, s: string)
    requires NoSuffix(s)
    ensures ParseSuffix(env, s) == None
  {
    StripFirst(s, "[");
    StripFirst(s, "(");
    StripFirst(s, ".");
    assert Enclosed(env, s, "[", "]") == None && CallSuffix(env, s) == None;
    assert MemberSuffix(env, s) == None && MatchPostfix(s) == None;
  }

  /** No table entry of level `min` or more applies here. */
  predicate Stops(env: Env, min: nat, s: string) {
    TryOps(env, min, Skip(s), 0) == None
  }

  lemma {:induction false} FewerOps(env: Env, low: nat, high: nat, s: string, k: nat)
    requires low <= high && k <= |TABLE| && TryOps(env, low, s, k) == None
    ensures TryOps(env, high, s, k) == None
    decreases |TABLE| - k
  {
    if k < |TABLE| { FewerOps(env, low, high, s, k + 1); }
  }

  lemma {:induction false} NoOperator(env: Env, min: nat, s: string, k: nat)
    requires k <= |TABLE| && Skip(s) == s && (s != "" ==> s[0] !in OPERATOR_STARTS)
    ensures TryOps(env, min, s, k) == None
    decreases |TABLE| - k
  {
    if k < |TABLE| {
      assert Spelling(TABLE[k])[0] == First(TABLE[k]);
      assert First(TABLE[k]) in OPERATOR_STARTS;
      NoOperator(env, min, s, k + 1);
    }
  }

  lemma {:induction false} NoAssign(s: string, k: nat)
    requires k <= |ASSIGNS| && (s != "" ==> s[0] !in OPERATOR_STARTS)
    ensures MatchAssign(s, k) == None
    decreases |ASSIGNS| - k
  {
    hide AssignSpelling;
    if k < |ASSIGNS| {
      AssignStarts(ASSIGNS[k]);
      StripFirst(s, AssignSpelling(ASSIGNS[k]));
      NoAssign(s, k + 1);
    }
  }

  lemma AssignStarts(op: AssignOp)
    ensures AssignSpelling(op) != "" && AssignSpelling(op)[0] in OPERATOR_STARTS
  {
  }

  lemma EndedStops(env: Env, min: nat, s: string)
    requires Ended(s)
    ensures Stops(env, min, s) && AssignTail(env, Skip(s)) == None && Branches(env, Skip(s)) == None
    ensures NoTail(s)
  {
    SkipIdempotent(s);
    NoOperator(env, min, Skip(s), 0);
    NoAssign(Skip(s), 0);
    StripFirst(Skip(s), "?");
  }

  // ----- the table on the text of one operator -------------------------------------------

  /** Every operator is spelled differently. */
  lemma SpellingsDiffer(a: InfixOp, b: InfixOp)
    requires First(a) == First(b) && Second(a) == Second(b)
    ensures a == b
  {
  }

  /** What may follow an operator so that the two do not run together. */
  predicate Apart(t: string) { t != "" && t[0] !in "|&=<>+-" }

  /** An operator and the text behind it. */
  function Behind(op: InfixOp, t: string): string { Spelling(op) + t }

  /** What follows the operator `op` when it is printed with its right operand. */
  function After(op: InfixOp, tail: string): string { Behind(op, " " + tail) }

  lemma AfterAt(op: InfixOp, tail: string)
    ensures After(op, tail)[0] == First(op)
    ensures After(op, tail)[1] == (if Second(op).Some? then Second(op).value else ' ')
    ensures Second(op).None? ==> After(op, tail)[1..] == " " + tail
    ensures Second(op).Some? ==> After(op, tail)[1..] == [Second(op).value] + (" " + tail)
    ensures Skip(After(op, tail)) == After(op, tail)
  {
  }

  lemma BehindAt(op: InfixOp, t: string)
    requires Apart(t)
    ensures Behind(op, t)[0] == First(op)
    ensures Behind(op, t)[1] == (if Second(op).Some? then Second(op).value else t[0])
    ensures Second(op).None? ==> Behind(op, t)[1..] == t
    ensures Second(op).Some? ==> Behind(op, t)[1..] == [Second(op).value] + t
    ensures Skip(Behind(op, t)) == Behind(op, t)
  {
  }

  lemma SecondIsNoOperand(env: Env, min: nat, op: InfixOp, t: string)
    requires Apart(t) && Second(op).Some? && op != LogicalAnd
    ensures ParseInfix(env, min, Skip(Behind(op, t)[1..])) == None
  {
    BehindAt(op, t);
    var rest := Behind(op, t)[1..];
    assert rest[0] == Second(op).value && Skip(rest) == rest;
    NothingParses(env, min, rest);
  }

  lemma SecondApart(op: InfixOp, t: string)
    requires Apart(t) && Second(op).Some?
    ensures t[0] != Second(op).value
  {
  }

  /** Another operator matches only with its one character, the first of two. */
  lemma OtherMatches(other: InfixOp, op: InfixOp, t: string)
    requires Apart(t) && other != op && Spelling(other) <= Behind(op, t)
    ensures Second(other).None? && Second(op).Some? && First(other) == First(op)
    ensures Behind(op, t)[1..] == Behind(op, t)[|Spelling(other)|..]
  {
    hide Apart, Behind, First, Second;
    BehindAt(op, t);
    var text, spelling := Behind(op, t), Spelling(other);
    assert text[0] == spelling[0];
    if Second(other).Some? {
      SecondApart(other, t);
      assert text[1] == spelling[1];
      SpellingsDiffer(other, op);
    } else if Second(op).None? {
      SpellingsDiffer(other, op);
    }
  }

  /** Another operator either does not match or leaves the second character of `op`, with which
      no operand starts. */
  lemma OtherFails(env: Env, other: InfixOp, op: InfixOp, t: string)
    requires Apart(t) && other != op
    ensures Candidate(env, other, Behind(op, t)) == None
  {
    hide ParseInfix, Skip, Apart, Level, Behind, Spelling;
    BehindAt(op, t);
    var text := Behind(op, t);
    if Spelling(other) <= text {
      OtherMatches(other, op, t);
      if op == LogicalAnd {
        assert other == BitwiseAnd && text[1..][0] == '&';
        assert MatchOp(other, text) == None;
      } else {
        SecondIsNoOperand(env, Level(other) + 1, op, t);
      }
    }
  }

  lemma PassEntry(env: Env, min: nat, s: string, k: nat)
    requires k < |TABLE| && (Level(TABLE[k]) < min || Candidate(env, TABLE[k], s) == None)
    ensures TryOps(env, min, s, k) == TryOps(env, min, s, k + 1)
  {
  }

  lemma {:induction false} SkipOthers(env: Env, min: nat, op: InfixOp, t: string, k: nat)
    requires Apart(t)
    requires k <= |TABLE| && (Level(op) < min || forall i :: 0 <= i < k ==> TABLE[i] != op)
    ensures TryOps(env, min, Behind(op, t), 0) == TryOps(env, min, Behind(op, t), k)
    decreases k
  {
    hide TryOps, Candidate;
    if k > 0 {
      SkipOthers(env, min, op, t, k - 1);
      if TABLE[k - 1] != op { OtherFails(env, TABLE[k - 1], op, t); }
      PassEntry(env, min, Behind(op, t), k - 1);
    }
  }

  function Index(op: InfixOp): (k: nat)
    ensures k < |TABLE| && TABLE[k] == op && forall i :: 0 <= i < k ==> TABLE[i] != op
  {
    match op
    case LogicalOr => 0 case LogicalAnd => 1 case BitwiseOr => 2 case BitwiseXor => 3 case BitwiseAnd => 4
    case Equals => 5 case NotEquals => 6 case Less => 7 case Greater => 8 case LessOrEqual => 9
    case GreaterOrEqual => 10 case ShiftLeft => 11 case ShiftRight => 12 case Plus => 13 case Minus => 14
    case Multiply => 15 case Divide => 16 case Modulo => 17
  }

  /** Nothing of a higher level applies to the text of `op`. */
  lemma TooLow(env: Env, min: nat, op: InfixOp, t: string)
    requires Apart(t) && Level(op) < min
    ensures TryOps(env, min, Behind(op, t), 0) == None
  {
    SkipOthers(env, min, op, t, |TABLE|);
  }

  lemma OwnMatch(op: InfixOp, t: string)
    requires Apart(t)
    ensures MatchOp(op, Behind(op, t)) == Some(t)
  {
    BehindAt(op, t);
    var rest := Behind(op, t)[|Spelling(op)|..];
    assert rest == t;
  }

  /** The table picks exactly the printed operator. */
  lemma TablePicks(env: Env, min: nat, op: InfixOp, t: string, right: Parsed)
    requires Apart(t) && min <= Level(op) && ParseInfix(env, Level(op) + 1, Skip(t)) == Some(right)
    ensures TryOps(env, min, Behind(op, t), 0) == Some(Step(op, right.e, right.rest))
  {
    hide Candidate;
    SkipOthers(env, min, op, t, Index(op));
    OwnCandidate(env, op, t, right);
  }

  lemma OwnCandidate(env: Env, op: InfixOp, t: string, right: Parsed)
    requires Apart(t) && ParseInfix(env, Level(op) + 1, Skip(t)) == Some(right)
    ensures Candidate(env, op, Behind(op, t)) == Some(Step(op, right.e, right.rest))
  {
    BehindAt(op, t);
    OwnMatch(op, t);
  }

  lemma AssignShape(op: AssignOp)
    ensures var t := AssignSpelling(op);
            && 1 <= |t| <= 3 && t[|t| - 1] == '='
            && (|t| == 2 ==> t[0] in "*/%+-&^|")
            && (|t| == 3 ==> t[0] == t[1] && t[0] in "<>")
            && (op == Assign <==> |t| == 1)
  {
  }

  /** Only `==` starts with an assignment operator. */
  lemma OnlyEquals(op: InfixOp, t: string, a: AssignOp)
    requires Apart(t)
    requires AssignSpelling(a) <= Behind(op, t)
    ensures a == Assign && Behind(op, t)[1] == '='
  {
    BehindAt(op, t);
    AssignShape(a);
    var text, u := Behind(op, t), AssignSpelling(a);
    assert text[0] == u[0];
    if |u| > 1 { assert false; }
  }

  /** No assignment is read off a binary operator: what `=` leaves of `==` is no operand. */
  lemma NotAssignment(env: Env, op: InfixOp, t: string)
    requires Apart(t)
    ensures AssignTail(env, Behind(op, t)) == None
  {
    var text := Behind(op, t);
    var m := MatchAssign(text, 0);
    if m.Some? {
      OnlyEquals(op, t, m.value.0);
      var rest := m.value.1;
      assert rest == text[1..] && rest[0] == '=' && Skip(rest) == rest;
      NothingParses(env, 0, rest);
    }
  }

  /** Among the assignment operators none starts another. */
  lemma NotBoth(a: AssignOp, b: AssignOp, t: string)
    requires Apart(t)
    requires AssignSpelling(a) <= AssignSpelling(b) + t
    ensures a == b
  {
    AssignShape(a);
    AssignShape(b);
    var v, u := AssignSpelling(a), AssignSpelling(b);
    var text := u + t;
    assert text[0] == v[0];
    assert |v| > 1 ==> text[1] == v[1];
    assert |v| > 2 ==> text[2] == v[2];
  }

  function AssignIndex(op: AssignOp): (k: nat)
    ensures k < |ASSIGNS| && ASSIGNS[k] == op
  {
    match op
    case Assign => 0 case AssignMultiply => 1 case AssignDivide => 2 case AssignModulo => 3 case AssignPlus => 4
    case AssignMinus => 5 case AssignShiftLeft => 6 case AssignShiftRight => 7 case AssignBitwiseAnd => 8
    case AssignBitwiseXor => 9 case AssignBitwiseOr => 10
  }

  /** The assignment table picks exactly the printed operator. */
  lemma {:induction false} AssignPicks(op: AssignOp, t: string, k: nat)
    requires Apart(t)
    requires k <= AssignIndex(op)
    ensures MatchAssign(AssignSpelling(op) + t, k) == Some((op, t))
    decreases |ASSIGNS| - k
  {
    hide AssignSpelling;
    var text, other := AssignSpelling(op) + t, ASSIGNS[k];
    if other == op {
      assert text[|AssignSpelling(op)|..] == t;
    } else {
      if AssignSpelling(other) <= text { NotBoth(other, op, t); }
      AssignPicks(op, t, k + 1);
    }
  }
}
