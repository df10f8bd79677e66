/** Types in expressions (src/parser): a written type in parentheses is read as one, and the parentheses of a
    printed operand never are, whatever names are types. */
module ExprTypes {
  import opened Wrappers
  import opened Scanning
  import opened ExprSyntax
  import opened ExprParser
  import opened ExprText

  // ----- names and types -----------------------------------------------------------------

  lemma {:induction false} NameParses(name: string, rest: string)
    requires NameLength(name) == |name| && (rest != "" ==> !NameChar(rest[0]))
    ensures NameLength(name + rest) == |name|
  {
    if name == "" {
      assert name + rest == rest;
    } else {
      assert (name + rest)[0] == name[0] && (name + rest)[1..] == name[1..] + rest;
      NameParses(name[1..], rest);
    }
  }

  lemma IdentifierRead(env: Env, name: string, rest: string)
    requires IsName(env, name) && (rest != "" ==> !NameChar(rest[0]))
    ensures Skip(name + rest) == name + rest && ParseIdentifier(env, name + rest) == Some((name, rest))
  {
    var text := name + rest;
    NameParses(name, rest);
    assert text[0] == name[0] && text[..|name|] == name && text[|name|..] == rest;
  }

  /** `sizeof` is no name. */
  lemma SizeOfAhead(env: Env, rest: string)
    ensures var s := SIZEOF + (" " + rest);
            && ParseIdentifier(env, s) == None && MatchWord(s, SIZEOF) == Some(" " + rest) && Skip(s) == s
            && s[0] == 's'
  {
    var s := SIZEOF + (" " + rest);
    assert NameLength("f") == 1 && NameLength("of") == 2 && NameLength("eof") == 3;
    assert NameLength("zeof") == 4 && NameLength("izeof") == 5 && NameLength(SIZEOF) == 6;
    NameParses(SIZEOF, " " + rest);
    assert s[..6] == SIZEOF && s[6..] == " " + rest && s[0] == 's';
  }

  lemma {:induction false} StarsRead(n: nat, rest: string)
    requires Skip(rest) == rest && (rest != "" ==> rest[0] != '*')
    ensures MatchStars(Stars(n) + rest) == (n, rest)
    decreases n
  {
    var s := Stars(n) + rest;
    if n == 0 {
      assert s == rest;
    } else {
      assert s[0] == '*' && s[1..] == Stars(n - 1) + rest;
      StarsRead(n - 1, rest);
    }
  }

  /** A written type is read back. */
  lemma TypeRead(env: Env, t: TypeName, rest: string)
    requires IsType(env, t)
    ensures TypeInParentheses(env, TypeText(t) + rest) == Some((t, rest))
    ensures Skip(TypeText(t) + rest) == TypeText(t) + rest
  {
    hide MatchStars, ParseIdentifier;
    var close := ")" + rest;
    var behind := Stars(t.stars) + close;
    var s := TypeText(t) + rest;
    assert s == "(" + (t.alias + behind) && s[0] == '(' && s[1..] == t.alias + behind;
    assert close[0] == ')' && close[1..] == rest && Skip(close) == close;
    assert t.stars > 0 ==> behind[0] == '*';
    StarsRead(t.stars, close);
    IdentifierRead(env, t.alias, behind);
  }

  // ----- no type -------------------------------------------------------------------------

  predicate NotClosed(s: string) { Skip(s) == "" || Skip(s)[0] != ')' }

  /** Behind a name and whatever stars follow it, the parenthesis is not closed here. */
  predicate OpenEnded(s: string) { NotClosed(MatchStars(s).1) }

  predicate NoType(env: Env, s: string) {
    match MatchTypeName(env, s) case None => true case Some((_, rest)) => NotClosed(rest)
  }

  lemma NoStar(s: string)
    requires Skip(s) == "" || Skip(s)[0] !in "*)"
    ensures OpenEnded(s)
  {
    StripFirst(Skip(s), "*");
  }

  lemma OneStar(s: string, behind: string)
    requires Skip(s) == "*" + behind
    ensures MatchStars(s) == (MatchStars(behind).0 + 1, MatchStars(behind).1)
  {
    assert ("*" + behind)[0] == '*' && ("*" + behind)[1..] == behind;
  }

  lemma {:induction false} PostfixStarts(env: Env, e: Expr)
    requires WellFormed(env, e)
    ensures Print(e, POSTFIX) != "" && (NameStart(Print(e, POSTFIX)[0]) || Print(e, POSTFIX)[0] == '(')
    decreases e
  {
    if e.Postfix? { PostfixStarts(env, e.base); }
  }

  /** Stars before an operand: those of the operand are not the last thing in the parentheses either. */
  lemma {:induction false} StarsThrough(env: Env, e: Expr, rest: string)
    requires WellFormed(env, e)
    ensures OpenEnded(" " + (Print(e, LEVELS) + rest))
    decreases e
  {
    hide MatchStars;
    var text := Print(e, LEVELS) + rest;
    PrintSkips(env, e, LEVELS, rest);
    PrintStarts(env, e, LEVELS);
    if e.Prefix? && e.prefix == Indirection {
      var behind := " " + (Print(e.operand, LEVELS) + rest);
      assert text == "*" + behind;
      OneStar(" " + text, behind);
      StarsThrough(env, e.operand, rest);
    } else {
      if e.Postfix? { PostfixStarts(env, e); }
      assert text[0] == Print(e, LEVELS)[0];
      NoStar(" " + text);
    }
  }

  lemma SuffixOpen(suffix: Suffix, rest: string)
    ensures OpenEnded(SuffixText(suffix) + rest)
    ensures var s := SuffixText(suffix) + rest; Skip(s) == s && s != "" && !NameChar(s[0])
  {
    hide MatchStars;
    var s := SuffixText(suffix) + rest;
    assert s[0] == SuffixText(suffix)[0];
    NoStar(s);
  }

  lemma OperatorOpen(env: Env, op: InfixOp, right: Expr, rest: string)
    requires WellFormed(env, right)
    ensures var s := " " + After(op, Print(right, Level(op) + 1) + rest); OpenEnded(s) && !NameChar(s[0])
  {
    hide MatchStars, Print;
    var tail := Print(right, Level(op) + 1) + rest;
    var s := " " + After(op, tail);
    AfterAt(op, tail);
    SkipBlank(After(op, tail));
    if op == Multiply {
      assert After(op, tail) == "*" + (" " + tail);
      OneStar(s, " " + tail);
      StarsThrough(env, right, rest);
    } else {
      NoStar(s);
    }
  }

  lemma AssignOpen(op: AssignOp, tail: string)
    ensures var s := " " + (AssignSpelling(op) + (" " + tail)); OpenEnded(s) && !NameChar(s[0])
  {
    hide MatchStars, OpenEnded, NameChar;
    var text := AssignSpelling(op) + (" " + tail);
    if op == AssignMultiply {
      var behind := "=" + (" " + tail);
      assert text == "*" + behind && behind[0] == '=';
      OneStar(" " + text, behind) by { BlankStar(behind); }
      NoStar(behind) by { assert Skip(behind) == behind; }
      assert OpenEnded(" " + text) by { StarOpen(" " + text, behind); }
    } else {
      AssignShape(op);
      assert text[0] == AssignSpelling(op)[0];
      SkipBlank(text);
      assert Skip(text) == text;
      NoStar(" " + text);
    }
    BlankIsNoName(text);
  }

  lemma BlankStar(behind: string)
    ensures Skip(" " + ("*" + behind)) == "*" + behind
  {
    SkipBlank("*" + behind);
  }

  lemma StarOpen(s: string, behind: string)
    requires MatchStars(s).1 == MatchStars(behind).1 && OpenEnded(behind)
    ensures OpenEnded(s)
  {
  }

  lemma BlankIsNoName(s: string)
    ensures !NameChar((" " + s)[0])
  {
  }

  lemma FirstOpen(s: string)
    requires s != "" && s[0] in ",?"
    ensures OpenEnded(s) && OpenEnded(" " + s) && !NameChar(s[0]) && !NameChar((" " + s)[0])
  {
    hide MatchStars;
    SkipBlank(s);
    NoStar(s);
    NoStar(" " + s);
  }

  lemma NoName(env: Env, s: string)
    requires s == "" || !NameStart(s[0])
    ensures NoType(env, s)
  {
  }

  /** The first operand of a tree that is not in parentheses, its level, and what follows it. */
  function Lead(e: Expr, rest: string): (Expr, int, string)
    requires Led(e)
  {
    match e
    case Postfix(base, suffix) => (base, POSTFIX, SuffixText(suffix) + rest)
    case Infix(op, l, r) => (l, Level(op), " " + After(op, Print(r, Level(op) + 1) + rest))
    case Conditional(c, t, f) => (c, 0, " " + ("? " + (Print(t, -3) + (" : " + (Print(f, -1) + rest)))))
    case Assignment(op, l, r) => (l, UNARY, " " + (AssignSpelling(op) + (" " + (Print(r, -2) + rest))))
    case Comma(parts) => (parts[0], -2, PrintParts(parts[1..]) + rest)
  }

  predicate Led(e: Expr) {
    e.Postfix? || e.Infix? || e.Conditional? || e.Assignment? || (e.Comma? && |e.parts| >= 2)
  }

  lemma LeadText(e: Expr, level: int, rest: string)
    requires Led(e) && Own(e) >= level
    ensures var (first, own, behind) := Lead(e, rest); Print(e, level) + rest == Print(first, own) + behind
  {
    hide Print, PrintList, PrintParts, SuffixText, After, AssignSpelling, Level;
    PrintsBody(e, level);
    match e
    case Postfix(base, suffix) =>
    case Infix(op, l, r) => InfixBody(e);
    case Conditional(c, t, f) =>
    case Assignment(op, l, r) =>
    case Comma(parts) => ListText(parts);
  }

  lemma PrintsBody(e: Expr, level: int)
    requires Own(e) >= level
    ensures Print(e, level) == Body(e)
  {
  }

  lemma InfixBody(e: Expr)
    requires e.Infix?
    ensures Body(e) == Print(e.left, Level(e.op)) + (" " + After(e.op, Print(e.right, Level(e.op) + 1)))
    ensures forall s, rest :: After(e.op, s) + rest == After(e.op, s + rest)
  {
  }

  lemma ListText(parts: seq<Expr>)
    requires parts != []
    ensures PrintList(parts) == Print(parts[0], -2) + PrintParts(parts[1..])
  {
  }

  lemma LeadOpen(env: Env, e: Expr, rest: string)
    requires Led(e) && WellFormed(env, e)
    ensures var (first, own, behind) := Lead(e, rest);
            OpenEnded(behind) && behind != "" && !NameChar(behind[0]) && WellFormed(env, first) && first < e
  {
    hide OpenEnded, Print, After, NameChar;
    match e
    case Postfix(base, suffix) => SuffixOpen(suffix, rest);
    case Infix(op, l, r) => OperatorOpen(env, op, r, rest);
    case Conditional(c, t, f) => FirstOpen("? " + (Print(t, -3) + (" : " + (Print(f, -1) + rest))));
    case Assignment(op, l, r) => AssignOpen(op, Print(r, -2) + rest);
    case Comma(parts) =>
      assert (PrintParts(parts[1..]) + rest)[0] == ',';
      FirstOpen(PrintParts(parts[1..]) + rest);
  }

  /** No printed tree but a bare name is, with what follows it, a type that ends at `)`. */
  lemma {:induction false} LeadsNoType(env: Env, e: Expr, level: int, rest: string)
    requires WellFormed(env, e) && (rest != "" ==> !NameChar(rest[0]))
    requires e.Name? && Own(e) >= level ==> OpenEnded(rest)
    ensures NoType(env, Print(e, level) + rest)
    decreases e
  {
    hide NoType, OpenEnded, NameChar, Lead;
    if Own(e) >= level && Led(e) {
      var (first, own, behind) := Lead(e, rest);
      LeadText(e, level, rest);
      LeadOpen(env, e, rest);
      LeadsNoType(env, first, own, behind);
    } else {
      LeafLeads(env, e, level, rest);
    }
  }

  lemma LeafLeads(env: Env, e: Expr, level: int, rest: string)
    requires WellFormed(env, e) && (rest != "" ==> !NameChar(rest[0])) && (Own(e) < level || !Led(e))
    requires e.Name? && Own(e) >= level ==> OpenEnded(rest)
    ensures NoType(env, Print(e, level) + rest)
  {
    hide NoType, OpenEnded, ParseIdentifier;
    var text := Print(e, level) + rest;
    if Own(e) < level {
      assert text[0] == '(';
      NoName(env, text);
    } else {
      assert Print(e, level) == Body(e);
      match e
      case Name(name) => NameLeads(env, name, rest);
      case SizeOfType(t) => SizeOfLeads(env, TypeText(t) + rest, text);
      case SizeOfValue(x) => SizeOfLeads(env, Print(x, UNARY) + rest, text);
      case Cast(_, _) =>
        assert text[0] == '(';
        NoName(env, text);
      case Prefix(op, _) =>
        assert text[0] == PrefixSpelling(op)[0];
        NoName(env, text);
      case _ =>
    }
  }

  lemma NameLeads(env: Env, name: string, rest: string)
    requires IsName(env, name) && (rest != "" ==> !NameChar(rest[0])) && OpenEnded(rest)
    ensures NoType(env, name + rest)
  {
    hide ParseIdentifier, MatchStars;
    IdentifierRead(env, name, rest);
  }

  lemma SizeOfLeads(env: Env, behind: string, text: string)
    requires text == SIZEOF + (" " + behind)
    ensures NoType(env, text)
  {
    hide ParseIdentifier, MatchStars;
    SizeOfAhead(env, behind);
  }

  lemma NotClosedHere(env: Env, s: string)
    requires Skip(s) == s && NoType(env, s)
    ensures TypeInParentheses(env, "(" + s) == None
  {
    hide MatchTypeName;
    assert ("(" + s)[0] == '(' && ("(" + s)[1..] == s;
    assert Strip("(" + s, "(") == Some(s);
    if MatchTypeName(env, s).Some? {
      StripFirst(Skip(MatchTypeName(env, s).value.1), ")");
    }
  }

  /** The parentheses of a printed operand are not read as those of a type. */
  lemma {:induction false} NotAType(env: Env, e: Expr, level: int, rest: string)
    requires WellFormed(env, e) && LEVELS <= level <= PRIMARY && !(e.Cast? && level == LEVELS)
    ensures TypeInParentheses(env, Print(e, level) + rest) == None
    decreases e
  {
    hide TypeInParentheses;
    var text := Print(e, level) + rest;
    if Own(e) < level {
      var body := Print(e, -3) + (")" + rest);
      assert text == "(" + body;
      PrintSkips(env, e, -3, ")" + rest);
      LeadsNoType(env, e, -3, ")" + rest);
      NotClosedHere(env, body);
    } else if e.Postfix? {
      assert Print(e, level) == Body(e);
      NotAType(env, e.base, POSTFIX, SuffixText(e.suffix) + rest);
      assert text == Print(e.base, POSTFIX) + (SuffixText(e.suffix) + rest);
    } else {
      NoParenthesis(env, e, level, rest);
    }
  }

  lemma NoParenthesis(env: Env, e: Expr, level: int, rest: string)
    requires WellFormed(env, e) && Own(e) >= level && (e.Name? || e.SizeOfType? || e.SizeOfValue? || e.Prefix?)
    ensures TypeInParentheses(env, Print(e, level) + rest) == None
  {
    var text := Print(e, level) + rest;
    assert Print(e, level) == Body(e);
    if e.Prefix? { assert text[0] == PrefixSpelling(e.prefix)[0]; }
    if e.Name? { assert text[0] == e.name[0]; }
    if e.SizeOfType? || e.SizeOfValue? { assert text[0] == 's'; }
    StripFirst(text, "(");
  }

  // ----- a type in parentheses read as something else --------------------------------------

  predicate NoComma(s: string) { Skip(s) != "" ==> Skip(s)[0] != ',' }

  /** A name before something that cannot continue it, read by the rules above the casts. */
  lemma NameAlone(env: Env, name: string, rest: string)
    requires IsName(env, name) && Skip(rest) == rest && (rest != "" ==> !NameChar(rest[0]))
    requires NoSuffix(rest) && TryOps(env, 0, rest, 0) == None && AssignTail(env, rest) == None
    requires Branches(env, rest) == None && NoComma(rest)
    ensures ParseUnary(env, name + rest) == Some(Parsed(Name(name), rest))
    ensures ParseAssignment(env, name + rest) == Some(Parsed(Name(name), rest))
    ensures ParseExpression(env, name + rest) == Some(Parsed(Name(name), rest))
  {
    hide TryOps, Branches, AssignTail, ParseIdentifier, IsName, ParseSuffix, NoSuffix;
    var text, e := name + rest, Parsed(Name(name), rest);
    IdentifierRead(env, name, rest);
    NoSuffixRead(env, rest);
    assert ParsePostfix(env, text) == Some(e);
    NameIsNoType(env, name, rest);
    assert ParseCast(env, text) == Some(e) && ParseInfix(env, 0, text) == Some(e);
    assert AssignInner(env, text) == None && ParseAssignment(env, text) == Some(e);
    StripFirst(rest, ",");
    assert CommaParts(env, rest, true) == ([], rest);
  }

  lemma NameIsNoType(env: Env, name: string, rest: string)
    requires IsName(env, name)
    ensures TypeInParentheses(env, name + rest) == None && Converted(env, name + rest) == None
  {
    assert (name + rest)[0] == name[0];
    StripFirst(name + rest, "(");
  }

  lemma StarsFirst(n: nat, rest: string)
    requires n > 0
    ensures var s := Stars(n) + (")" + rest);
            && Skip(s) == s && s[0] == '*' && s[1..] == Stars(n - 1) + (")" + rest) && s[1] in "*)"
  {
    var s := Stars(n) + (")" + rest);
    assert s[0] == '*' && s[1..] == Stars(n - 1) + (")" + rest);
    if n > 1 { assert s[1] == Stars(n - 1)[0]; }
  }

  /** Stars and a closing parenthesis are no operand. */
  lemma {:induction false} StarsNothing(env: Env, n: nat, rest: string)
    ensures var s := Stars(n) + (")" + rest); Skip(s) == s && ParseCast(env, s) == None
    decreases n
  {
    var s := Stars(n) + (")" + rest);
    if n == 0 {
      assert s == ")" + rest && s[0] == ')' && Skip(s) == s;
      NothingParses(env, 0, s);
      assert ParseCast(env, s) == None;
    } else {
      var behind := Stars(n - 1) + (")" + rest);
      StarsFirst(n, rest);
      StarsNothing(env, n - 1, rest);
      StripFirst(s, "(");
      StripFirst(s, "++");
      StripFirst(s, "--");
      StripFirst(s, SIZEOF);
      assert ParsePrimary(env, s) == None;
      assert TypeInParentheses(env, s) == None && MatchIncrement(s) == None && MatchWord(s, SIZEOF) == None;
      assert MatchUnary(s) == Some((Indirection, behind)) && Operated(env, s) == None;
      assert ParseUnary(env, s) == None;
      assert Converted(env, s) == None;
    }
  }

  lemma {:induction false} StarsNoOperator(env: Env, n: nat, rest: string, k: nat)
    requires n > 0 && k <= |TABLE|
    ensures TryOps(env, 0, Stars(n) + (")" + rest), k) == None
    decreases |TABLE| - k
  {
    var s := Stars(n) + (")" + rest);
    var behind := Stars(n - 1) + (")" + rest);
    StarsFirst(n, rest);
    if k < |TABLE| {
      StarsNoOperator(env, n, rest, k + 1);
      StarsNoCandidate(env, n, rest, TABLE[k]);
    }
  }

  lemma StarsNoCandidate(env: Env, n: nat, rest: string, op: InfixOp)
    requires n > 0
    ensures Candidate(env, op, Stars(n) + (")" + rest)) == None
  {
    hide ParseCast;
    var s := Stars(n) + (")" + rest);
    var behind := Stars(n - 1) + (")" + rest);
    StarsFirst(n, rest);
    if op == Multiply {
      StarsNothing(env, n - 1, rest);
    } else {
      StripFirst(s, Spelling(op));
    }
  }

  /** An assignment operator of more than one character does not go on with one of these. */
  lemma NoAssignHere(s: string, op: AssignOp)
    requires |s| >= 2 && s[0] != '=' && s[1] !in "=<>"
    ensures Strip(s, AssignSpelling(op)) == None
  {
    hide AssignSpelling;
    AssignShape(op);
  }

  lemma {:induction false} NoAssignAhead(s: string, k: nat)
    requires |s| >= 2 && s[0] != '=' && s[1] !in "=<>" && k <= |ASSIGNS|
    ensures MatchAssign(s, k) == None
    decreases |ASSIGNS| - k
  {
    hide AssignSpelling;
    if k < |ASSIGNS| {
      NoAssignHere(s, ASSIGNS[k]);
      NoAssignAhead(s, k + 1);
    }
  }

  /** A type's name before its stars and the parenthesis, read as an expression. */
  lemma NameBeforeStars(env: Env, t: TypeName, rest: string)
    requires IsType(env, t)
    ensures var behind := Stars(t.stars) + (")" + rest);
            && ParseAssignment(env, t.alias + behind) == Some(Parsed(Name(t.alias), behind))
            && ParseExpression(env, t.alias + behind) == Some(Parsed(Name(t.alias), behind))
            && Skip(behind) == behind && Skip(t.alias + behind) == t.alias + behind && NoComma(behind)
            && Strip(behind, ")") == if t.stars == 0 then Some(rest) else None
  {
    hide ParseExpression, ParseAssignment, TryOps, Branches, AssignTail, ParseCast;
    var behind := Stars(t.stars) + (")" + rest);
    if t.stars == 0 {
      assert behind == ")" + rest && behind[0] == ')' && behind[1..] == rest;
      EndedStops(env, 0, behind);
    } else {
      StarsFirst(t.stars, rest);
      StarsNoOperator(env, t.stars, rest, 0);
      StarsNoAssignTail(env, t.stars, rest);
    }
    IdentifierRead(env, t.alias, behind);
    NameAlone(env, t.alias, behind);
  }

  lemma StarsNoAssignTail(env: Env, n: nat, rest: string)
    requires n > 0
    ensures AssignTail(env, Stars(n) + (")" + rest)) == None && Branches(env, Stars(n) + (")" + rest)) == None
  {
    StarsFirst(n, rest);
    NoAssignAhead(Stars(n) + (")" + rest), 0);
    StripFirst(Stars(n) + (")" + rest), "?");
  }
}
