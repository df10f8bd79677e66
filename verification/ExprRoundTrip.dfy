/** Parsing undoes printing, and operators group as the grammar says (src/parser). */
module ExprRoundTrip {
  import opened Wrappers
  import opened Scanning
  import opened ExprSyntax
  import opened ExprParser
  import opened ExprText
  import opened ExprTypes
  import opened ExprCasts

  // ----- parsing undoes printing ---------------------------------------------------------

  lemma NoIdentifier(env: Env, inner: string)
    ensures ParseIdentifier(env, "(" + inner) == None
  {
    assert ("(" + inner)[0] == '(';
  }

  lemma {:induction false} PrimaryParses(env: Env, e: Expr, rest: string)
    requires WellFormed(env, e) && (rest != "" ==> !NameChar(rest[0]))
    ensures ParsePrimary(env, Print(e, PRIMARY) + rest) == Some(Parsed(e, rest))
    decreases e, if e.Name? then 0 else 20
  {
    hide ParseExpression, Skip, Enclosed, ParseIdentifier, Ended, NoComma;
    if e.Name? {
      IdentifierRead(env, e.name, rest);
    } else {
      ClosingAhead(")", rest);
      ExpressionParses(env, e, ")" + rest);
      EnclosedRead(env, "(", e, ")", rest);
      NoIdentifier(env, Print(e, -3) + (")" + rest));
      assert Print(e, PRIMARY) + rest == "(" + (Print(e, -3) + (")" + rest));
    }
  }

  /** The tree ends with a suffix or a type; then the white space behind is not yet read. */
  predicate Ends(e: Expr, level: int)
    decreases e
  {
    Own(e) >= level
    && match e
       case Postfix(_, _) => true
       case Prefix(op, x) => Ends(x, OperandLevel(op))
       case Cast(_, x) => Ends(x, LEVELS)
       case SizeOfType(_) => true
       case SizeOfValue(x) => Ends(x, UNARY)
       case Infix(op, _, r) => Ends(r, Level(op) + 1)
       case _ => false
  }

  /** What a tree printed at a level leaves of the text behind it. */
  function Left(e: Expr, level: int, rest: string): string {
    if Ends(e, level) then rest else Skip(rest)
  }

  lemma LeftSkips(e: Expr, level: int, rest: string)
    ensures Skip(Left(e, level, rest)) == Skip(rest)
  {
    SkipIdempotent(rest);
  }

  lemma EnclosedRead(env: Env, open: string, e: Expr, close: string, rest: string)
    requires |open| == |close| == 1 && close[0] in ")]" && WellFormed(env, e)
    requires ParseExpression(env, Print(e, -3) + (close + rest)) == Some(Parsed(e, Skip(close + rest)))
    ensures Enclosed(env, open + (Print(e, -3) + (close + rest)), open, close) == Some(Parsed(e, rest))
  {
    var inner := Print(e, -3) + (close + rest);
    PrintSkips(env, e, -3, close + rest);
    assert Strip(open + inner, open) == Some(inner);
    assert (close + rest)[0] == close[0] && (close + rest)[1..] == rest;
    assert Skip(close + rest) == close + rest;
  }

  lemma ClosingAhead(close: string, rest: string)
    requires close == ")" || close == "]"
    ensures var s := close + rest;
            && Skip(s) == s && Strip(s, close) == Some(rest) && Ended(s) && NoComma(s) && !NameChar(s[0])
            && !OperandStart(s[0])
  {
    var s := close + rest;
    assert s[0] == close[0] && s[1..] == rest;
  }

  lemma {:induction false} ArgumentsParse(env: Env, arguments: seq<Expr>, rest: string)
    requires forall e :: e in arguments ==> WellFormed(env, e)
    ensures Arguments(env, Skip(PrintList(arguments) + (")" + rest))) == (arguments, ")" + rest)
    decreases arguments, 41
  {
    var behind := ")" + rest;
    ClosingAhead(")", rest);
    if arguments == [] {
      assert PrintList(arguments) + behind == behind;
      NothingParses(env, 0, behind);
    } else {
      var more := PrintParts(arguments[1..]) + behind;
      assert PrintList(arguments) + behind == Print(arguments[0], -2) + more;
      PartsParse(env, arguments[1..], behind, false);
      AssignmentParses(env, arguments[0], more);
      PrintSkips(env, arguments[0], -2, more);
      assert [arguments[0]] + arguments[1..] == arguments;
    }
  }

  lemma CallRead(env: Env, arguments: seq<Expr>, rest: string)
    requires forall e :: e in arguments ==> WellFormed(env, e)
    requires Arguments(env, Skip(PrintList(arguments) + (")" + rest))) == (arguments, ")" + rest)
    ensures ParseSuffix(env, SuffixText(Call(arguments)) + rest) == Some((Call(arguments), rest))
  {
    hide Arguments, Skip, PrintList, Ended, NoComma, OperandStart;
    var s, inner := SuffixText(Call(arguments)) + rest, PrintList(arguments) + (")" + rest);
    assert s == "(" + inner && s[0] == '(' && s[1..] == inner;
    ClosingAhead(")", rest);
    StripFirst(s, "[");
    assert Strip(s, "(") == Some(inner);
    assert CallSuffix(env, s) == Some((Call(arguments), rest));
  }

  lemma IndexRead(env: Env, index: Expr, rest: string)
    requires WellFormed(env, index)
    requires ParseExpression(env, Print(index, -3) + ("]" + rest)) == Some(Parsed(index, Skip("]" + rest)))
    ensures ParseSuffix(env, SuffixText(Index(index)) + rest) == Some((Index(index), rest))
  {
    hide ParseExpression, Enclosed, CallSuffix, MemberSuffix, Print, Skip, WellFormed;
    EnclosedRead(env, "[", index, "]", rest);
    IndexText(index, rest);
    IndexTaken(env, SuffixText(Index(index)) + rest, index, rest);
  }

  lemma IndexText(index: Expr, rest: string)
    ensures SuffixText(Index(index)) + rest == "[" + (Print(index, -3) + ("]" + rest))
  {
    hide Print;
  }

  /** What stands in brackets is taken as an index before anything else is tried. */
  lemma IndexTaken(env: Env, s: string, index: Expr, rest: string)
    requires Enclosed(env, s, "[", "]") == Some(Parsed(index, rest))
    ensures ParseSuffix(env, s) == Some((Index(index), rest))
  {
    hide Enclosed, CallSuffix, MemberSuffix;
  }

  lemma MemberRead(env: Env, indirect: bool, name: string, rest: string)
    requires IsName(env, name) && (rest != "" ==> !NameChar(rest[0]))
    ensures ParseSuffix(env, SuffixText(Member(indirect, name)) + rest) == Some((Member(indirect, name), rest))
  {
    var operator := if indirect then "->" else ".";
    var s := operator + (name + rest);
    assert SuffixText(Member(indirect, name)) + rest == s && s[0] == operator[0];
    StripFirst(s, "[");
    StripFirst(s, "(");
    assert Enclosed(env, s, "[", "]") == None && CallSuffix(env, s) == None;
    if indirect { StripFirst(s, "."); }
    assert s[|operator|..] == name + rest;
    IdentifierRead(env, name, rest);
  }

  /** A printed suffix is read back, with the expressions inside it. */
  lemma {:induction false} SuffixParses(env: Env, suffix: Suffix, rest: string)
    requires SuffixFormed(env, suffix) && (rest != "" ==> !NameChar(rest[0]))
    ensures ParseSuffix(env, SuffixText(suffix) + rest) == Some((suffix, rest))
    decreases suffix, 50
  {
    match suffix
    case PostIncrement | PostDecrement => IncrementRead(env, suffix, rest);
    case Index(index) =>
      ClosingAhead("]", rest);
      ExpressionParses(env, index, "]" + rest);
      IndexRead(env, index, rest);
    case Call(arguments) =>
      ArgumentsParse(env, arguments, rest);
      CallRead(env, arguments, rest);
    case Member(indirect, name) => MemberRead(env, indirect, name, rest);
  }

  /** A chain of suffixes is read from the left, and the repetition goes on with it. */
  lemma {:induction false} PostfixChain(env: Env, e: Expr, rest: string)
    requires WellFormed(env, e) && (rest != "" ==> !NameChar(rest[0]))
    ensures ParsePostfix(env, Print(e, POSTFIX) + rest)
         == Some(Tail(env, e, Left(e, POSTFIX, rest), !Ends(e, POSTFIX)))
    decreases e, if Own(e) < POSTFIX then 21 else 1
  {
    if e.Postfix? {
      var behind := SuffixText(e.suffix) + rest;
      assert Print(e, POSTFIX) + rest == Print(e.base, POSTFIX) + behind;
      SuffixStarts(e.suffix, rest);
      SuffixParses(env, e.suffix, rest);
      PostfixChain(env, e.base, behind);
      assert Left(e.base, POSTFIX, behind) == behind;
    } else {
      assert Print(e, POSTFIX) == Print(e, PRIMARY);
      PrimaryParses(env, e, rest);
    }
  }

  /** A printed unary expression is read back. */
  lemma {:induction false} UnaryParses(env: Env, e: Expr, rest: string)
    requires WellFormed(env, e) && (rest != "" ==> !NameChar(rest[0])) && NoTail(rest)
    ensures ParseUnary(env, Print(e, UNARY) + rest) == Some(Parsed(e, Left(e, UNARY, rest)))
    decreases e, if Own(e) < UNARY then 22 else 2
  {
    hide ParseUnary, ParseCast, ParsePostfix, TypeInParentheses, NoTail;
    if e.Prefix? {
      PrefixParses(env, e, rest);
    } else if e.SizeOfType? {
      assert Print(e, UNARY) + rest == SIZEOF + (" " + (TypeText(e.measured) + rest));
      SizeOfTypeRead(env, e.measured, rest);
    } else if e.SizeOfValue? {
      var text := Print(e.value, UNARY) + rest;
      assert Print(e, UNARY) + rest == SIZEOF + (" " + text);
      PrintSkips(env, e.value, UNARY, rest);
      NotAType(env, e.value, UNARY, rest);
      UnaryParses(env, e.value, rest);
      SizeOfValueRead(env, text, Parsed(e.value, Left(e.value, UNARY, rest)));
    } else {
      PostfixChain(env, e, rest);
      PostfixRead(env, e, rest);
    }
  }

  lemma {:induction false} PrefixParses(env: Env, e: Expr, rest: string)
    requires e.Prefix? && WellFormed(env, e) && (rest != "" ==> !NameChar(rest[0])) && NoTail(rest)
    ensures ParseUnary(env, Print(e, UNARY) + rest) == Some(Parsed(e, Left(e, UNARY, rest)))
    decreases e, 1
  {
    hide ParseUnary, ParseCast, NoTail;
    var own := OperandLevel(e.prefix);
    var behind := Print(e.operand, own) + rest;
    assert Print(e, UNARY) + rest == PrefixSpelling(e.prefix) + (" " + behind);
    PrintSkips(env, e.operand, own, rest);
    if own == UNARY { UnaryParses(env, e.operand, rest); } else { CastParses(env, e.operand, rest); }
    PrefixRead(env, e.prefix, behind, Parsed(e.operand, Left(e.operand, own, rest)));
  }

  lemma PostfixRead(env: Env, e: Expr, rest: string)
    requires WellFormed(env, e) && !e.Prefix? && !e.SizeOfType? && !e.SizeOfValue? && NoTail(rest)
    requires ParsePostfix(env, Print(e, POSTFIX) + rest)
          == Some(Tail(env, e, Left(e, POSTFIX, rest), !Ends(e, POSTFIX)))
    ensures ParseUnary(env, Print(e, UNARY) + rest) == Some(Parsed(e, Left(e, UNARY, rest)))
  {
    assert Print(e, UNARY) == Print(e, POSTFIX) && Left(e, UNARY, rest) == Left(e, POSTFIX, rest);
    LeftSkips(e, POSTFIX, rest);
    NoSuffixRead(env, Skip(rest));
  }

  /** A printed cast expression is read back: a cast as a cast, and nothing else as one. */
  lemma {:induction false} CastParses(env: Env, e: Expr, rest: string)
    requires WellFormed(env, e) && (rest != "" ==> !NameChar(rest[0])) && NoTail(rest)
    ensures ParseCast(env, Print(e, LEVELS) + rest) == Some(Parsed(e, Left(e, LEVELS, rest)))
    decreases e, if Own(e) < LEVELS then 23 else 3
  {
    hide ParseUnary, ParseCast, TypeInParentheses, NoTail, TypeText;
    if e.Cast? {
      var behind := Print(e.inner, LEVELS) + rest;
      assert Print(e, LEVELS) + rest == TypeText(e.to) + (" " + behind);
      PrintSkips(env, e.inner, LEVELS, rest);
      CastParses(env, e.inner, rest);
      CastRead(env, e.to, behind, Parsed(e.inner, Left(e.inner, LEVELS, rest)));
    } else {
      assert Print(e, LEVELS) == Print(e, UNARY) && Left(e, LEVELS, rest) == Left(e, UNARY, rest);
      NotAType(env, e, UNARY, rest);
      UnaryParses(env, e, rest);
      NotCast(env, Print(e, UNARY) + rest);
    }
  }

  /** Only the text behind the white space matters to the table. */
  lemma {:induction false} SkipFirst(env: Env, min: nat, s: string, k: nat)
    requires k <= |TABLE|
    ensures TryOps(env, min, s, k) == TryOps(env, min, Skip(s), k)
    decreases |TABLE| - k
  {
    if k < |TABLE| {
      SkipIdempotent(s);
      assert Candidate(env, TABLE[k], s) == Candidate(env, TABLE[k], Skip(s));
      SkipFirst(env, min, s, k + 1);
    }
  }

  /** One turn of the loop, on the text of an operator and its right operand. */
  lemma OneTurn(env: Env, min: nat, text: string, l: Expr, s: string, op: InfixOp, tail: string,
                right: Parsed)
    requires WellFormed(env, l) && WellFormed(env, right.e) && min <= Level(op)
    requires ParseInfix(env, min, text) == Some(InfixLoop(env, min, l, s)) && Skip(s) == After(op, tail)
    requires ParseInfix(env, Level(op) + 1, Skip(tail)) == Some(right)
    ensures ParseInfix(env, min, text) == Some(InfixLoop(env, min, Infix(op, l, right.e), right.rest))
  {
    SkipBlank(tail);
    TablePicks(env, min, op, " " + tail, right);
    SkipFirst(env, min, s, 0);
  }

  lemma InfixText(e: Expr, level: int, rest: string)
    requires e.Infix? && level <= Level(e.op)
    ensures Print(e, level) + rest
         == Print(e.left, Level(e.op)) + (" " + After(e.op, Print(e.right, Level(e.op) + 1) + rest))
  {
  }

  /** What follows the left operand of `op`. */
  lemma OperatorAhead(env: Env, op: InfixOp, tail: string)
    ensures Skip(" " + After(op, tail)) == After(op, tail) && !NameChar((" " + After(op, tail))[0])
    ensures Stops(env, Level(op) + 1, " " + After(op, tail)) && NoTail(" " + After(op, tail))
    ensures AssignTail(env, Skip(" " + After(op, tail))) == None
  {
    AfterAt(op, tail);
    SkipBlank(After(op, tail));
    TooLow(env, Level(op) + 1, op, " " + tail);
    NotAssignment(env, op, " " + tail);
  }

  /** The loop ends where nothing of its level applies. */
  lemma LoopEnds(env: Env, low: nat, min: nat, e: Expr, s: string, rest: string)
    requires WellFormed(env, e) && low <= min && Stops(env, low, rest) && Skip(s) == Skip(rest)
    ensures Stops(env, min, rest) && InfixLoop(env, min, e, s) == Parsed(e, s)
  {
    FewerOps(env, low, min, Skip(rest), 0);
    SkipFirst(env, min, s, 0);
  }

  /** At every level the operand and the operators of the tree are read, and the loop goes on
      with the whole tree as its left operand. */
  lemma {:induction false} InfixParses(env: Env, e: Expr, level: nat, min: nat, rest: string)
    requires WellFormed(env, e) && min <= level <= LEVELS
    requires (rest != "" ==> !NameChar(rest[0])) && NoTail(rest)
    requires level < LEVELS ==> Stops(env, level + 1, rest)
    ensures ParseInfix(env, min, Print(e, level) + rest) == Some(InfixLoop(env, min, e, Left(e, level, rest)))
    decreases e, if Own(e) < level then 26 else 6
  {
    hide Skip, ParseInfix, InfixLoop, TryOps, Print, After, NoTail, Stops, Left, Spelling, NameChar, Level;
    if Own(e) < level || !e.Infix? {
      OperandFirst(env, e, level, min, rest);
    } else {
      hide Own, WellFormed;
      InfixFormed(env, e, level);
      var own, tail := Level(e.op), Print(e.right, Level(e.op) + 1) + rest;
      var ahead := " " + After(e.op, tail);
      InfixText(e, level, rest);
      OperatorAhead(env, e.op, tail);
      InfixParses(env, e.left, own, min, ahead);
      LeftSkips(e.left, own, ahead);
      RightParses(env, e, level, rest);
      OneTurn(env, min, Print(e, level) + rest, e.left, Left(e.left, own, ahead), e.op, tail,
              Parsed(e.right, Left(e, level, rest)));
      assert e == Infix(e.op, e.left, e.right);
    }
  }

  lemma InfixFormed(env: Env, e: Expr, level: nat)
    requires WellFormed(env, e) && e.Infix? && Own(e) >= level
    ensures WellFormed(env, e.left) && WellFormed(env, e.right) && level <= Level(e.op) < LEVELS
  {
  }

  lemma {:induction false} RightParses(env: Env, e: Expr, level: nat, rest: string)
    requires WellFormed(env, e) && e.Infix? && level <= Level(e.op)
    requires (rest != "" ==> !NameChar(rest[0])) && NoTail(rest) && Stops(env, level + 1, rest)
    ensures ParseInfix(env, Level(e.op) + 1, Skip(Print(e.right, Level(e.op) + 1) + rest))
         == Some(Parsed(e.right, Left(e, level, rest)))
    decreases e, 5
  {
    hide Skip, ParseInfix, InfixLoop, TryOps, Print;
    var own, left := Level(e.op), Left(e.right, Level(e.op) + 1, rest);
    LeftSkips(e.right, own + 1, rest);
    LoopEnds(env, level + 1, own + 1, e.right, left, rest);
    LoopEnds(env, level + 1, own + 2, e.right, left, rest);
    InfixParses(env, e.right, own + 1, own + 1, rest);
    PrintSkips(env, e.right, own + 1, rest);
  }

  /** A tree that is printed as an operand. */
  lemma {:induction false} OperandFirst(env: Env, e: Expr, level: int, min: nat, rest: string)
    requires WellFormed(env, e) && level <= LEVELS && (Own(e) < level || Own(e) >= LEVELS)
    requires (rest != "" ==> !NameChar(rest[0])) && NoTail(rest)
    ensures ParseInfix(env, min, Print(e, level) + rest) == Some(InfixLoop(env, min, e, Left(e, level, rest)))
    decreases e, if Own(e) < LEVELS then 25 else 5
  {
    hide ParseCast, NoTail;
    assert Print(e, level) == Print(e, LEVELS) && Left(e, level, rest) == Left(e, LEVELS, rest);
    CastParses(env, e, rest);
  }

  /** The pieces of a conditional expression put together. */
  lemma BranchesRead(env: Env, text: string, c: Expr, s: string, middle: string, t: Expr, last: string,
                     f: Parsed)
    requires ParseInfix(env, 0, text) == Some(Parsed(c, s)) && Skip(s) == "? " + middle
    requires ParseExpression(env, Skip(" " + middle)) == Some(Parsed(t, ": " + last))
    requires ParseConditional(env, Skip(" " + last)) == Some(f)
    ensures ParseConditional(env, text) == Some(Parsed(Conditional(c, t, f.e), f.rest))
  {
    QuestionMark(env, middle);
    ColonAhead(last);
    assert Strip("? " + middle, "?") == Some(" " + middle);
    assert Branches(env, "? " + middle) == Some((t, f.e, f.rest));
  }

  lemma NoBranches(env: Env, text: string, e: Expr, s: string)
    requires ParseInfix(env, 0, text) == Some(Parsed(e, s)) && Branches(env, Skip(s)) == None
    ensures ParseConditional(env, text) == Some(Parsed(e, Skip(s)))
  {
  }

  lemma ConditionalText(e: Expr, level: int, rest: string)
    requires e.Conditional? && level <= -1
    ensures Print(e, level) + rest == Print(e.condition, 0)
         + (" ? " + (Print(e.thenBranch, -3) + (" : " + (Print(e.elseBranch, -1) + rest))))
  {
  }

  lemma SamePrint(e: Expr)
    ensures !e.Conditional? ==> Print(e, -1) == Print(e, 0)
    ensures !e.Assignment? ==> Print(e, -2) == Print(e, -1)
    ensures !e.Comma? ==> Print(e, -3) == Print(e, -2)
  {
  }

  lemma {:induction false} ConditionalParses(env: Env, e: Expr, rest: string)
    requires WellFormed(env, e) && Ended(rest)
    ensures ParseConditional(env, Print(e, -1) + rest) == Some(Parsed(e, Skip(rest)))
    decreases e, if Own(e) < -1 then 28 else 7
  {
    hide Skip, ParseInfix, ParseExpression, ParseConditional, TryOps, InfixLoop, Print;
    hide Branches, AssignTail, Stops, NoTail, Left, WellFormed;
    if e.Conditional? {
      BranchesParse(env, e, rest);
    } else {
      SamePrint(e);
      EndedStops(env, 0, rest);
      EndedStops(env, 1, rest);
      InfixParses(env, e, 0, 0, rest);
      LeftSkips(e, 0, rest);
      LoopEnds(env, 0, 0, e, Left(e, 0, rest), rest);
      NoBranches(env, Print(e, -1) + rest, e, Left(e, 0, rest));
    }
  }

  lemma {:induction false} BranchesParse(env: Env, e: Expr, rest: string)
    requires WellFormed(env, e) && Ended(rest) && e.Conditional?
    ensures ParseConditional(env, Print(e, -1) + rest) == Some(Parsed(e, Skip(rest)))
    decreases e, 5
  {
    hide Skip, ParseInfix, ParseExpression, ParseConditional, TryOps, InfixLoop, Print;
    var Conditional(c, t, f) := e;
    var last := Print(f, -1) + rest;
    var middle := Print(t, -3) + (" : " + last);
    ConditionalText(e, -1, rest);
    QuestionMark(env, middle);
    InfixParses(env, c, 0, 0, " ? " + middle);
    var left := Left(c, 0, " ? " + middle);
    LeftSkips(c, 0, " ? " + middle);
    LoopEnds(env, 0, 0, c, left, " ? " + middle);
    PrintSkips(env, t, -3, " : " + last);
    ColonAhead(last);
    ExpressionParses(env, t, " : " + last);
    PrintSkips(env, f, -1, rest);
    ConditionalParses(env, f, rest);
    BranchesRead(env, Print(e, -1) + rest, c, left, middle, t, last, Parsed(f, Skip(rest)));
  }

  lemma QuestionMark(env: Env, middle: string)
    ensures Skip(" ? " + middle) == "? " + middle && ("? " + middle)[1..] == " " + middle
    ensures Stops(env, 0, " ? " + middle) && Stops(env, 1, " ? " + middle)
    ensures AssignTail(env, "? " + middle) == None && NoTail(" ? " + middle)
  {
    var text := "? " + middle;
    assert text[0] == '?' && text[1..] == " " + middle && Skip(text) == text;
    assert " ? " + middle == " " + text;
    SkipBlank(text);
    NoQuestion(env, text, 0);
    FewerOps(env, 0, 1, text, 0);
    NoAssignAtQuestion(text, 0);
  }

  lemma {:induction false} NoQuestion(env: Env, s: string, k: nat)
    requires k <= |TABLE| && Skip(s) == s && s != "" && s[0] == '?'
    ensures TryOps(env, 0, s, k) == None
    decreases |TABLE| - k
  {
    if k < |TABLE| {
      StripFirst(s, Spelling(TABLE[k]));
      NoQuestion(env, s, k + 1);
    }
  }

  lemma ColonAhead(last: string)
    ensures Skip(" : " + last) == ": " + last && Ended(" : " + last)
    ensures Strip(": " + last, ":") == Some(" " + last)
    ensures Skip(": " + last) == ": " + last
  {
    var text := ": " + last;
    assert text[0] == ':' && text[1..] == " " + last && Skip(text) == text;
    assert " : " + last == " " + text;
    SkipBlank(text);
  }

  /** Behind a parenthesis read as an operand, what a cast applies to is read as suffixes, as far as it can be,
      and no assignment follows. */
  lemma {:induction false} OperandBlocks(env: Env, x: Expr, level: int, rest: string)
    requires WellFormed(env, x) && LEVELS <= level <= POSTFIX
    requires Blocked(env, rest) && (rest != "" ==> !NameChar(rest[0]))
    ensures Blocked(env, Print(x, level) + rest)
    decreases x, if Own(x) < level then 24 else 4
  {
    hide Blocked, ParseExpression, TypeText;
    var text := Print(x, level) + rest;
    if Own(x) < level {
      var inner := Print(x, -3) + (")" + rest);
      assert text == "(" + inner;
      ClosingAhead(")", rest);
      PrintSkips(env, x, -3, ")" + rest);
      ExpressionParses(env, x, ")" + rest);
      SkipIdempotent(")" + rest);
      BlockedCall(env, inner, Parsed(x, Skip(")" + rest)), rest);
    } else {
      PrintsBody(x, level);
      match x
      case Name(name) =>
        assert text[0] == name[0];
        BlockedName(env, text);
      case SizeOfType(_) =>
        assert text[0] == 's';
        BlockedName(env, text);
      case SizeOfValue(_) =>
        assert text[0] == 's';
        BlockedName(env, text);
      case Prefix(op, y) => PrefixBlocks(env, x, rest);
      case Cast(t, y) =>
        var behind := Print(y, LEVELS) + rest;
        assert text == TypeText(t) + (" " + behind);
        PrintSkips(env, y, LEVELS, rest);
        OperandBlocks(env, y, LEVELS, rest);
        BlockedType(env, t, behind);
      case Postfix(base, suffix) => SuffixBlocks(env, x, rest);
    }
  }

  lemma {:induction false} PrefixBlocks(env: Env, x: Expr, rest: string)
    requires x.Prefix? && WellFormed(env, x) && Blocked(env, rest) && (rest != "" ==> !NameChar(rest[0]))
    ensures Blocked(env, Body(x) + rest)
    decreases x, 3
  {
    hide Blocked, PrefixSpelling;
    var own := OperandLevel(x.prefix);
    var behind := Print(x.operand, own) + rest;
    assert Body(x) + rest == PrefixSpelling(x.prefix) + (" " + behind);
    if own == UNARY {
      PrintSkips(env, x.operand, UNARY, rest);
      OperandBlocks(env, x.operand, UNARY, rest);
      BlockedIncrement(env, x.prefix, behind);
    } else {
      BlockedOperator(env, x.prefix, behind);
    }
  }

  lemma {:induction false} SuffixBlocks(env: Env, x: Expr, rest: string)
    requires x.Postfix? && WellFormed(env, x) && Blocked(env, rest) && (rest != "" ==> !NameChar(rest[0]))
    ensures Blocked(env, Body(x) + rest)
    decreases x, 3
  {
    hide Blocked, ParseSuffix, SuffixText;
    var behind := SuffixText(x.suffix) + rest;
    assert Body(x) + rest == Print(x.base, POSTFIX) + behind;
    SuffixParses(env, x.suffix, rest);
    SuffixStarts(x.suffix, rest);
    BlockedSuffix(env, behind, x.suffix, rest);
    OperandBlocks(env, x.base, POSTFIX, behind);
  }

  lemma CastText(e: Expr, level: int, rest: string)
    requires e.Cast? && level <= LEVELS
    ensures Print(e, level) + rest == TypeText(e.to) + (" " + (Print(e.inner, LEVELS) + rest))
  {
    hide TypeText;
    PrintsBody(e, level);
  }

  /** The assignment rule, which reads a unary expression first, fails on a cast. */
  lemma {:induction false} CastNotAssigned(env: Env, e: Expr, level: int, rest: string)
    requires e.Cast? && WellFormed(env, e) && level <= LEVELS && (rest != "" ==> !NameChar(rest[0]))
    requires NoTail(rest) && AssignTail(env, Skip(rest)) == None
    ensures AssignInner(env, Print(e, level) + rest) == None
    decreases e, 3
  {
    hide Blocked, AssignInner, NoTail, AssignTail, Skip, ParseSuffix;
    var behind := Print(e.inner, LEVELS) + rest;
    CastText(e, level, rest);
    assert ParseSuffix(env, Skip(rest)) == None by { NoTailRead(env, rest); }
    BlockedHere(env, rest);
    PrintSkips(env, e.inner, LEVELS, rest);
    OperandBlocks(env, e.inner, LEVELS, rest);
    TypeNotAssigned(env, e.to, behind);
  }

  lemma SameUnary(e: Expr, level: int)
    requires level <= LEVELS && (Own(e) < level || Own(e) >= UNARY)
    ensures Print(e, level) == Print(e, UNARY)
  {
  }

  lemma UnaryNotAssigned(env: Env, text: string, p: Parsed)
    requires ParseUnary(env, text) == Some(p) && AssignTail(env, Skip(p.rest)) == None
    ensures AssignInner(env, text) == None
  {
  }

  /** The assignment rule fails on the text of a tree that is not an assignment: its leftmost
      operand is not followed by an assignment. */
  lemma {:induction false} NoAssignmentRead(env: Env, e: Expr, level: int, rest: string)
    requires WellFormed(env, e) && -1 <= level <= LEVELS
    requires (rest != "" ==> !NameChar(rest[0])) && NoTail(rest) && AssignTail(env, Skip(rest)) == None
    ensures AssignInner(env, Print(e, level) + rest) == None
    decreases e, if Own(e) < level then 27 else 7
  {
    hide AssignInner, AssignTail, Skip, NoTail, NameChar, Stops, ParseUnary;
    if Own(e) < level || Own(e) >= UNARY {
      SameUnary(e, level);
      UnaryParses(env, e, rest);
      LeftSkips(e, UNARY, rest);
      UnaryNotAssigned(env, Print(e, UNARY) + rest, Parsed(e, Left(e, UNARY, rest)));
    } else if e.Cast? {
      CastNotAssigned(env, e, level, rest);
    } else if e.Infix? {
      var tail := Print(e.right, Level(e.op) + 1) + rest;
      InfixText(e, level, rest);
      OperatorAhead(env, e.op, tail);
      NoAssignmentRead(env, e.left, Level(e.op), " " + After(e.op, tail));
    } else {
      var middle := Print(e.thenBranch, -3) + (" : " + (Print(e.elseBranch, -1) + rest));
      ConditionalText(e, level, rest);
      QuestionMark(env, middle);
      BlankIsNoName("? " + middle);
      assert " ? " + middle == " " + ("? " + middle);
      NoAssignmentRead(env, e.condition, 0, " ? " + middle);
    }
  }

  lemma {:induction false} NoAssignAtQuestion(s: string, k: nat)
    requires k <= |ASSIGNS| && s != "" && s[0] == '?'
    ensures MatchAssign(s, k) == None
    decreases |ASSIGNS| - k
  {
    if k < |ASSIGNS| {
      StripFirst(s, AssignSpelling(ASSIGNS[k]));
      NoAssignAtQuestion(s, k + 1);
    }
  }

  lemma AssignmentText(e: Expr, rest: string)
    requires e.Assignment?
    ensures Print(e, -2) + rest
         == Print(e.target, UNARY) + (" " + (AssignSpelling(e.assign) + (" " + (Print(e.source, -2) + rest))))
  {
  }

  /** The pieces of an assignment put together. */
  lemma AssignmentRead(env: Env, text: string, l: Expr, s: string, op: AssignOp, tail: string, r: Parsed)
    requires ParseUnary(env, text) == Some(Parsed(l, s)) && Skip(s) == AssignSpelling(op) + (" " + tail)
    requires ParseAssignment(env, Skip(tail)) == Some(r)
    ensures ParseAssignment(env, text) == Some(Parsed(Assignment(op, l, r.e), r.rest))
  {
    OperatorText(op, tail);
    SkipBlank(tail);
    assert AssignTail(env, AssignSpelling(op) + (" " + tail)) == Some((op, r));
    assert AssignInner(env, text) == Some(Parsed(Assignment(op, l, r.e), r.rest));
  }

  lemma OperatorText(op: AssignOp, tail: string)
    ensures var text := AssignSpelling(op) + (" " + tail);
            && Skip(text) == text && Skip(" " + text) == text && MatchAssign(text, 0) == Some((op, " " + tail))
            && NoTail(" " + text)
  {
    var text := AssignSpelling(op) + (" " + tail);
    AssignShape(op);
    assert text[0] == AssignSpelling(op)[0];
    NoBlank(text);
    AssignPicks(op, " " + tail, 0);
  }

  lemma NoBlank(text: string)
    requires text != "" && text[0] !in " \t\n\r"
    ensures Skip(text) == text && Skip(" " + text) == text
  {
    SkipBlank(text);
  }

  lemma {:induction false} AssignmentParses(env: Env, e: Expr, rest: string)
    requires WellFormed(env, e) && Ended(rest)
    ensures ParseAssignment(env, Print(e, -2) + rest) == Some(Parsed(e, Skip(rest)))
    decreases e, if Own(e) < -2 then 30 else 8
  {
    if e.Assignment? {
      var tail := Print(e.source, -2) + rest;
      AssignmentText(e, rest);
      OperatorText(e.assign, tail);
      var ahead := " " + (AssignSpelling(e.assign) + (" " + tail));
      UnaryParses(env, e.target, ahead);
      LeftSkips(e.target, UNARY, ahead);
      PrintSkips(env, e.source, -2, rest);
      AssignmentParses(env, e.source, rest);
      AssignmentRead(env, Print(e, -2) + rest, e.target, Left(e.target, UNARY, ahead), e.assign, tail,
                     Parsed(e.source, Skip(rest)));
    } else {
      SamePrint(e);
      EndedStops(env, 0, rest);
      NoAssignmentRead(env, e, -1, rest);
      ConditionalParses(env, e, rest);
    }
  }

  lemma PartsText(parts: seq<Expr>, rest: string)
    requires parts != []
    ensures PrintParts(parts) + rest == ", " + (Print(parts[0], -2) + (PrintParts(parts[1..]) + rest))
  {
    hide Print;
    var a, b := Print(parts[0], -2), PrintParts(parts[1..]);
    assert PrintParts(parts) == ", " + (a + b);
    hide PrintParts;
    Shifted(", ", a, b, rest);
  }

  lemma Shifted(a: string, b: string, c: string, d: string)
    ensures (a + (b + c)) + d == a + (b + (c + d))
  {
  }

  lemma CommaAhead(text: string)
    ensures var s := ", " + text; Skip(s) == s && Strip(s, ",") == Some(" " + text) && Ended(s)
  {
    var s := ", " + text;
    assert s[0] == ',' && s[1..] == " " + text;
  }

  /** One comma part and the parts after it. */
  lemma PartRead(env: Env, s: string, text: string, first: bool, part: Parsed, more: seq<Expr>,
      rest: string)
    requires Skip(s) == s && Strip(s, ",") == Some(" " + text)
    requires ParseAssignment(env, Skip(text)) == Some(part)
    requires CommaParts(env, part.rest, false) == (more, rest)
    ensures CommaParts(env, s, first) == ([part.e] + more, rest)
  {
    SkipBlank(text);
    assert CommaPart(env, s) == Some(part);
  }

  lemma {:induction false} PartsParse(env: Env, parts: seq<Expr>, rest: string, first: bool)
    requires forall p :: p in parts ==> WellFormed(env, p)
    requires Ended(rest) && NoComma(rest)
    ensures Ended(PrintParts(parts) + rest)
    ensures CommaParts(env, Skip(PrintParts(parts) + rest), first) == (parts, Skip(rest))
    decreases parts, 40
  {
    hide Skip;
    if parts == [] {
      assert PrintParts(parts) + rest == rest;
      NoParts(env, rest, first);
    } else {
      var more := PrintParts(parts[1..]) + rest;
      PartsText(parts, rest);
      CommaAhead(Print(parts[0], -2) + more);
      PartsParse(env, parts[1..], rest, false);
      AssignmentParses(env, parts[0], more);
      PrintSkips(env, parts[0], -2, more);
      PartRead(env, PrintParts(parts) + rest, Print(parts[0], -2) + more, first,
               Parsed(parts[0], Skip(more)), parts[1..], Skip(rest));
      assert [parts[0]] + parts[1..] == parts;
    }
  }

  lemma NoParts(env: Env, rest: string, first: bool)
    requires NoComma(rest)
    ensures CommaParts(env, Skip(rest), first) == ([], Skip(rest))
  {
    SkipIdempotent(rest);
    StripFirst(Skip(rest), ",");
    assert CommaPart(env, Skip(rest)) == None;
  }

  lemma {:induction false} ExpressionParses(env: Env, e: Expr, rest: string)
    requires WellFormed(env, e) && Ended(rest) && NoComma(rest)
    ensures ParseExpression(env, Print(e, -3) + rest) == Some(Parsed(e, Skip(rest)))
    decreases e, 9
  {
    hide ParseAssignment, Skip, CommaParts, Ended, NoComma;
    if e.Comma? {
      var more := PrintParts(e.parts[1..]) + rest;
      assert Print(e, -3) == PrintList(e.parts);
      assert PrintList(e.parts) + rest == Print(e.parts[0], -2) + more;
      PartsParse(env, e.parts[1..], rest, true);
      AssignmentParses(env, e.parts[0], more);
      SkipIdempotent(more);
      assert [e.parts[0]] + e.parts[1..] == e.parts;
    } else {
      SamePrint(e);
      AssignmentParses(env, e, rest);
      SkipIdempotent(rest);
      NoParts(env, rest, true);
    }
  }

  /** Parsing undoes printing, for every tree. */
  lemma ParsePrint(env: Env, e: Expr)
    requires WellFormed(env, e)
    ensures ParseExpression(env, Print(e, -3)) == Some(Parsed(e, ""))
  {
    ExpressionParses(env, e, "");
    assert Print(e, -3) + "" == Print(e, -3);
  }

  /** Whatever the parser reads, printing it and parsing again reads the same tree; and the tree
      is the only one with that text. */
  lemma PrintParse(env: Env, s: string, other: Expr)
    requires ParseExpression(env, s).Some?
    ensures var e := ParseExpression(env, s).value.e;
            && ParseExpression(env, Print(e, -3)) == Some(Parsed(e, ""))
            && (WellFormed(env, other) && Print(other, -3) == Print(e, -3) ==> other == e)
  {
    ParsePrint(env, ParseExpression(env, s).value.e);
    if WellFormed(env, other) { ParsePrint(env, other); }
  }

  // ----- the levels of the language ------------------------------------------------------

  /** Sections 6.5.14 down to 6.5.5 of ISO/IEC 9899:2011, loosest first. */
  const GRAMMAR: seq<set<string>> :=
    [{"||"}, {"&&"}, {"|"}, {"^"}, {"&"}, {"==", "!="}, {"<", ">", "<=", ">="}, {"<<", ">>"}, {"+", "-"},
     {"*", "/", "%"}]

  lemma LevelsOfTheGrammar(op: InfixOp)
    ensures |GRAMMAR| == LEVELS && Spelling(op) in GRAMMAR[Level(op)]
  {
    assert Spelling(LogicalOr) == "||" && Spelling(LogicalAnd) == "&&" && Spelling(BitwiseOr) == "|";
    assert Spelling(BitwiseXor) == "^" && Spelling(BitwiseAnd) == "&";
    assert Spelling(Equals) == "==" && Spelling(NotEquals) == "!=";
    assert Spelling(Less) == "<" && Spelling(Greater) == ">";
    assert Spelling(LessOrEqual) == "<=" && Spelling(GreaterOrEqual) == ">=";
    assert Spelling(ShiftLeft) == "<<" && Spelling(ShiftRight) == ">>";
    assert Spelling(Plus) == "+" && Spelling(Minus) == "-";
    assert Spelling(Multiply) == "*" && Spelling(Divide) == "/" && Spelling(Modulo) == "%";
  }

  /** Two operators in a row group by the grammar, and from the left at one level. */
  lemma TwoOperators(env: Env, x: string, a: InfixOp, y: string, b: InfixOp, z: string)
    requires IsName(env, x) && IsName(env, y) && IsName(env, z)
    ensures var text := x + (" " + Spelling(a) + (" " + (y + (" " + Spelling(b) + (" " + z)))));
            var e := if Level(b) > Level(a) then Infix(a, Name(x), Infix(b, Name(y), Name(z)))
                     else Infix(b, Infix(a, Name(x), Name(y)), Name(z));
            ParseExpression(env, text) == Some(Parsed(e, ""))
  {
    hide ParseExpression, Spelling, Level;
    var e := if Level(b) > Level(a) then Infix(a, Name(x), Infix(b, Name(y), Name(z)))
             else Infix(b, Infix(a, Name(x), Name(y)), Name(z));
    ParsePrint(env, e);
    NamePrints(x, Level(a));
    NamePrints(y, Level(a) + 1);
    NamePrints(y, Level(b));
    NamePrints(z, Level(b) + 1);
    if Level(b) > Level(a) {
      assert Print(e, -3) == x + (" " + Spelling(a) + (" " + Print(e.right, Level(a) + 1)));
      assert Print(e.right, Level(a) + 1) == y + (" " + Spelling(b) + (" " + z));
    } else {
      assert Print(e, -3) == Print(e.left, Level(b)) + (" " + Spelling(b) + (" " + z));
      assert Print(e.left, Level(b)) == x + (" " + Spelling(a) + (" " + y));
      Regroup(x, " " + Spelling(a), y, " " + Spelling(b) + (" " + z));
    }
  }

  lemma Regroup(x: string, a: string, y: string, rest: string)
    ensures x + (a + (" " + y)) + rest == x + (a + (" " + (y + rest)))
  {
  }

  lemma NamePrints(x: string, level: int)
    requires level <= PRIMARY
    ensures Print(Name(x), level) == x
  {
  }

  /** Assignments group from the right. */
  lemma TwoAssignments(env: Env, x: string, a: AssignOp, y: string, b: AssignOp, z: string)
    requires IsName(env, x) && IsName(env, y) && IsName(env, z)
    ensures var text := x + (" " + AssignSpelling(a) + (" " + (y + (" " + AssignSpelling(b) + (" " + z)))));
            ParseExpression(env, text)
            == Some(Parsed(Assignment(a, Name(x), Assignment(b, Name(y), Name(z))), ""))
  {
    hide ParseExpression, AssignSpelling;
    var inner := Assignment(b, Name(y), Name(z));
    var e := Assignment(a, Name(x), inner);
    ParsePrint(env, e);
    NamePrints(x, UNARY);
    NamePrints(y, UNARY);
    NamePrints(z, -2);
    assert Print(inner, -2) == y + (" " + AssignSpelling(b) + (" " + z));
    assert Print(e, -3) == x + (" " + AssignSpelling(a) + (" " + Print(inner, -2)));
  }

  // ----- what only the types decide ------------------------------------------------------

  /** `(n) op x`, where `op` is a binary and a prefix operator. */
  function Ambiguous(n: string, op: InfixOp, x: string): string {
    "(" + (n + (")" + (" " + After(op, x))))
  }

  /** The same text is a cast of an operation on `x` when `n` is a type, and otherwise an operation on both. */
  lemma CastOrOperator(env: Env, n: string, x: string, op: InfixOp, prefix: PrefixOp)
    requires IsName(env, n) && IsName(env, x) && Spelling(op) == PrefixSpelling(prefix)
    ensures var e := if n in env.types then Cast(TypeName(n, 0), Prefix(prefix, Name(x)))
                     else Infix(op, Name(n), Name(x));
            ParseExpression(env, Ambiguous(n, op, x)) == Some(Parsed(e, ""))
  {
    hide ParseExpression, ParsePrimary, Spelling, PrefixSpelling;
    OneOrTwo(op, prefix);
    if n in env.types {
      var e := Cast(TypeName(n, 0), Prefix(prefix, Name(x)));
      AmbiguousCast(n, x, op, prefix);
      ParsePrint(env, e);
    } else {
      NotACast(env, n, x, op);
    }
  }

  lemma AmbiguousCast(n: string, x: string, op: InfixOp, prefix: PrefixOp)
    requires Spelling(op) == PrefixSpelling(prefix)
    ensures Print(Cast(TypeName(n, 0), Prefix(prefix, Name(x))), -3) == Ambiguous(n, op, x)
  {
    hide Spelling;
    var e := Cast(TypeName(n, 0), Prefix(prefix, Name(x)));
    OneOrTwo(op, prefix);
    NamePrints(x, LEVELS);
    assert Print(e.inner, LEVELS) == After(op, x);
    assert TypeText(e.to) == "(" + (n + ("" + ")"));
    PrintsBody(e, -3);
  }

  lemma OneOrTwo(op: InfixOp, prefix: PrefixOp)
    requires Spelling(op) == PrefixSpelling(prefix)
    ensures OperandLevel(prefix) == LEVELS && Second(op) == None && First(op) in "+-*&"
  {
    assert Spelling(op)[0] == PrefixSpelling(prefix)[0];
    assert Spelling(op)[|Spelling(op)| - 1] == PrefixSpelling(prefix)[|PrefixSpelling(prefix)| - 1];
  }

  /** The parentheses hold the operand alone. */
  lemma NameInParentheses(env: Env, n: string, rest: string)
    requires IsName(env, n) && n !in env.types
    ensures ParsePrimary(env, "(" + (n + (")" + rest))) == Some(Parsed(Name(n), rest))
    ensures TypeInParentheses(env, "(" + (n + (")" + rest))) == None
  {
    hide ParseExpression, TryOps, Branches, AssignTail, Stops;
    var close := ")" + rest;
    var inner := n + close;
    ClosingAhead(")", rest);
    EndedStops(env, 0, close);
    NameAlone(env, n, close);
    IdentifierRead(env, n, close);
    NameEnclosed(env, inner, Parsed(Name(n), close), rest);
    assert ("(" + inner)[0] == '(' && ("(" + inner)[1..] == inner;
    assert MatchTypeName(env, inner) == None;
  }

  lemma AfterBehind(op: InfixOp, x: string)
    ensures After(op, x) == Behind(op, " " + x) && Apart(" " + x) && Skip(" " + x) == Skip(x)
  {
    SkipBlank(x);
  }

  lemma NotACast(env: Env, n: string, x: string, op: InfixOp)
    requires IsName(env, n) && IsName(env, x) && n !in env.types && Second(op) == None && First(op) in "+-*&"
    ensures ParseExpression(env, Ambiguous(n, op, x)) == Some(Parsed(Infix(op, Name(n), Name(x)), ""))
  {
    hide ParseExpression, ParseInfix, ParsePrimary, TypeInParentheses, TryOps, AssignTail, InfixLoop, After, Behind;
    hide Spelling;
    var text, ahead := Ambiguous(n, op, x), After(op, x);
    NameInParentheses(env, n, " " + ahead);
    OperatorAhead(env, op, x);
    NoTailRead(env, " " + ahead);
    OperandAlone(env, text, Name(n), ahead);
    RightName(env, op, x);
    AfterBehind(op, x);
    TablePicks(env, 0, op, " " + x, Parsed(Name(x), ""));
    assert Skip("") == "";
    EndedStops(env, 0, "");
    LoopTurns(env, Name(n), ahead, Infix(op, Name(n), Name(x)));
    WholeInfix(env, text, Name(n), ahead, Infix(op, Name(n), Name(x)));
  }

  lemma OperandAlone(env: Env, text: string, e: Expr, ahead: string)
    requires ParsePrimary(env, text) == Some(Parsed(e, " " + ahead)) && TypeInParentheses(env, text) == None
    requires Skip(" " + ahead) == ahead && ParseSuffix(env, ahead) == None && WellFormed(env, e)
    ensures ParseUnary(env, text) == Some(Parsed(e, ahead)) && ParseCast(env, text) == Some(Parsed(e, ahead))
  {
    hide ParsePrimary, ParseSuffix, TypeInParentheses, Skip;
    assert ParsePostfix(env, text) == Some(Parsed(e, ahead));
  }

  lemma RightName(env: Env, op: InfixOp, x: string)
    requires IsName(env, x)
    ensures ParseInfix(env, Level(op) + 1, Skip(x)) == Some(Parsed(Name(x), ""))
  {
    hide ParseInfix, TryOps, InfixLoop, Level;
    var own := Level(op) + 1;
    EndedStops(env, own + 1, "");
    EndedStops(env, own, "");
    InfixParses(env, Name(x), own, own, "");
    PrintSkips(env, Name(x), own, "");
    NamePrints(x, own);
    assert x + "" == x && Left(Name(x), own, "") == "";
    LoopEnds(env, own, own, Name(x), "", "");
  }

  lemma LoopTurns(env: Env, l: Expr, ahead: string, whole: Expr)
    requires whole.Infix? && whole.left == l && WellFormed(env, whole)
    requires TryOps(env, 0, ahead, 0) == Some(Step(whole.op, whole.right, "")) && TryOps(env, 0, "", 0) == None
    ensures InfixLoop(env, 0, l, ahead) == Parsed(whole, "")
  {
    hide TryOps;
    assert InfixLoop(env, 0, whole, "") == Parsed(whole, "");
  }

  lemma WholeInfix(env: Env, text: string, l: Expr, ahead: string, whole: Expr)
    requires WellFormed(env, l) && ParseCast(env, text) == Some(Parsed(l, ahead))
    requires ParseUnary(env, text) == Some(Parsed(l, ahead)) && AssignTail(env, Skip(ahead)) == None
    requires InfixLoop(env, 0, l, ahead) == Parsed(whole, "")
    ensures ParseExpression(env, text) == Some(Parsed(whole, ""))
  {
    hide ParseUnary, ParseCast, InfixLoop, AssignTail;
    assert Skip("") == "";
    assert ParseInfix(env, 0, text) == Some(Parsed(whole, "")) && AssignInner(env, text) == None;
    assert Branches(env, "") == None && ParseConditional(env, text) == Some(Parsed(whole, ""));
    assert CommaParts(env, "", true) == ([], "");
  }
}
