/** The pieces of unary and cast expressions (src/parser), and why a cast, which the assignment rule meets as
    a unary expression first, is never read as an assignment. */
module ExprCasts {
  import opened Wrappers
  import opened Scanning
  import opened ExprSyntax
  import opened ExprParser
  import opened ExprText
  import opened ExprTypes

  // ----- the pieces ----------------------------------------------------------------------

  /** A printed suffix is no continuation of a name, and no white space. */
  lemma SuffixStarts(suffix: Suffix, rest: string)
    ensures var s := SuffixText(suffix) + rest; Skip(s) == s && s != "" && !NameChar(s[0])
  {
    var s := SuffixText(suffix) + rest;
    assert s[0] == SuffixText(suffix)[0];
  }

  lemma IncrementRead(env: Env, suffix: Suffix, rest: string)
    requires suffix.PostIncrement? || suffix.PostDecrement?
    ensures ParseSuffix(env, SuffixText(suffix) + rest) == Some((suffix, rest))
  {
    var s := SuffixText(suffix) + rest;
    assert s[0] == s[1] == SuffixText(suffix)[0] && s[2..] == rest;
    StripFirst(s, "[");
    StripFirst(s, "(");
    StripFirst(s, ".");
    assert Enclosed(env, s, "[", "]") == None && CallSuffix(env, s) == None;
    if suffix.PostDecrement? { StripFirst(s, "++"); }
  }

  lemma ParenthesisNoMember(s: string)
    requires s != "" && s[0] == '('
    ensures MatchMember(s) == None && MatchPostfix(s) == None
  {
    StripFirst(s, ".");
    StripFirst(s, "->");
    StripFirst(s, "++");
    StripFirst(s, "--");
  }

  lemma PrefixAhead(env: Env, op: PrefixOp, behind: string)
    ensures var s := PrefixSpelling(op) + (" " + behind);
            && ParsePostfix(env, s) == None
            && (MatchIncrement(s) == Some((op, " " + behind))
                || (MatchIncrement(s) == None && MatchUnary(s) == Some((op, " " + behind))))
  {
    var s := PrefixSpelling(op) + (" " + behind);
    assert s[0] == PrefixSpelling(op)[0];
    assert ParsePrimary(env, s) == None;
    if op == PreIncrement || op == PreDecrement {
      assert s[2..] == " " + behind;
      if op == PreDecrement { StripFirst(s, "++"); }
    } else {
      assert s[1] == ' ' && s[1..] == " " + behind;
      assert !("++" <= s) && !("--" <= s) && !("&&" <= s);
    }
  }

  /** The pieces of a prefix operator and its operand put together. */
  lemma PrefixRead(env: Env, op: PrefixOp, behind: string, x: Parsed)
    requires if OperandLevel(op) == UNARY then ParseUnary(env, Skip(behind)) == Some(x)
             else ParseCast(env, Skip(behind)) == Some(x)
    ensures ParseUnary(env, PrefixSpelling(op) + (" " + behind)) == Some(Parsed(Prefix(op, x.e), x.rest))
  {
    hide ParsePostfix, ParseCast, MatchIncrement, MatchUnary, PrefixSpelling;
    PrefixAhead(env, op, behind);
    SkipBlank(behind);
    MatchesApart(PrefixSpelling(op) + (" " + behind));
  }

  lemma MatchesApart(s: string)
    ensures MatchIncrement(s).Some? ==> OperandLevel(MatchIncrement(s).value.0) == UNARY
    ensures MatchUnary(s).Some? ==> OperandLevel(MatchUnary(s).value.0) == LEVELS
  {
  }

  lemma SizeOfUnary(env: Env, behind: string)
    ensures var s := SIZEOF + (" " + behind);
            ParsePostfix(env, s) == None && Incremented(env, s) == None && Operated(env, s) == None
  {
    hide ParseIdentifier;
    var s := SIZEOF + (" " + behind);
    SizeOfAhead(env, behind);
    StripFirst(s, "(");
    StripFirst(s, "++");
    StripFirst(s, "--");
    assert ParsePrimary(env, s) == None && MatchIncrement(s) == None && MatchUnary(s) == None;
  }

  lemma SizeOfTypeRead(env: Env, t: TypeName, rest: string)
    requires IsType(env, t)
    ensures ParseUnary(env, SIZEOF + (" " + (TypeText(t) + rest))) == Some(Parsed(SizeOfType(t), rest))
  {
    hide ParsePostfix, Incremented, Operated, TypeInParentheses, TypeText, MatchWord;
    SizeOfUnary(env, TypeText(t) + rest);
    SizeOfAhead(env, TypeText(t) + rest);
    SkipBlank(TypeText(t) + rest);
    TypeRead(env, t, rest);
  }

  lemma SizeOfValueRead(env: Env, text: string, x: Parsed)
    requires Skip(text) == text && TypeInParentheses(env, text) == None && ParseUnary(env, text) == Some(x)
    ensures ParseUnary(env, SIZEOF + (" " + text)) == Some(Parsed(SizeOfValue(x.e), x.rest))
  {
    hide ParsePostfix, Incremented, Operated, TypeInParentheses, MatchWord;
    SizeOfUnary(env, text);
    SizeOfAhead(env, text);
    SkipBlank(text);
  }

  lemma CastRead(env: Env, t: TypeName, behind: string, x: Parsed)
    requires IsType(env, t) && Skip(behind) == behind && ParseCast(env, behind) == Some(x)
    ensures ParseCast(env, TypeText(t) + (" " + behind)) == Some(Parsed(Cast(t, x.e), x.rest))
  {
    hide TypeInParentheses, TypeText;
    TypeRead(env, t, " " + behind);
    SkipBlank(behind);
  }

  lemma NotCast(env: Env, s: string)
    requires TypeInParentheses(env, s) == None
    ensures ParseCast(env, s) == ParseUnary(env, s)
  {
  }

  // ----- casts are no assignments --------------------------------------------------------

  /** Whatever suffixes a postfix expression goes on with here, no assignment operator follows. */
  ghost predicate Blocked(env: Env, s: string) {
    forall e :: WellFormed(env, e) ==> AssignTail(env, Skip(Tail(env, e, s, false).rest)) == None
  }

  lemma BlockedBlank(env: Env, s: string)
    requires Blocked(env, s) && Skip(s) == s
    ensures Blocked(env, " " + s)
  {
    hide Tail, AssignTail, WellFormed, Skip;
    assert Skip(" " + s) == s by { SkipBlank(s); }
    forall e | WellFormed(env, e) ensures AssignTail(env, Skip(Tail(env, e, " " + s, false).rest)) == None {
      assert AssignTail(env, Skip(Tail(env, e, s, false).rest)) == None;
      TailBlank(env, e, s);
    }
  }

  lemma TailBlank(env: Env, e: Expr, s: string)
    requires WellFormed(env, e) && Skip(s) == s && Skip(" " + s) == s
    ensures Skip(Tail(env, e, " " + s, false).rest) == Skip(Tail(env, e, s, false).rest)
  {
    hide ParseSuffix, Skip;
  }

  lemma BlockedHere(env: Env, s: string)
    requires ParseSuffix(env, Skip(s)) == None && AssignTail(env, Skip(s)) == None
    ensures Blocked(env, s)
  {
    hide ParseSuffix, AssignTail;
  }

  lemma BlockedSuffix(env: Env, s: string, suffix: Suffix, rest: string)
    requires Skip(s) == s && ParseSuffix(env, s) == Some((suffix, rest)) && Blocked(env, rest)
    ensures Blocked(env, s)
  {
    hide ParseSuffix, AssignTail;
    forall e | WellFormed(env, e) ensures AssignTail(env, Skip(Tail(env, e, s, false).rest)) == None {
      assert Tail(env, e, s, false) == Tail(env, Postfix(e, suffix), rest, false);
    }
  }

  lemma BlockedName(env: Env, s: string)
    requires s != "" && NameStart(s[0])
    ensures Blocked(env, s)
  {
    hide ParseSuffix, AssignTail;
    assert Skip(s) == s;
    NoSuffixRead(env, s);
    NoAssignName(env, s);
    BlockedHere(env, s);
  }

  lemma NoAssignName(env: Env, s: string)
    requires s != "" && NameStart(s[0])
    ensures AssignTail(env, s) == None
  {
    NoAssign(s, 0);
  }

  /** The parentheses of an operand are read as a call. */
  lemma BlockedCall(env: Env, inner: string, p: Parsed, rest: string)
    requires Skip(inner) == inner && ParseExpression(env, inner) == Some(p) && Skip(p.rest) == ")" + rest
    requires Blocked(env, rest)
    ensures Blocked(env, "(" + inner)
  {
    hide ParseSuffix, Blocked;
    var s := "(" + inner;
    CallOfExpression(env, inner, p, rest);
    assert s[0] == '(' && Skip(s) == s;
    var arguments :| ParseSuffix(env, s) == Some((Call(arguments), rest));
    BlockedSuffix(env, s, Call(arguments), rest);
  }

  lemma CallOfExpression(env: Env, inner: string, p: Parsed, rest: string)
    requires Skip(inner) == inner && ParseExpression(env, inner) == Some(p) && Skip(p.rest) == ")" + rest
    ensures exists arguments :: ParseSuffix(env, "(" + inner) == Some((Call(arguments), rest))
  {
    hide ParseAssignment, Skip;
    var s := "(" + inner;
    assert s[0] == '(' && s[1..] == inner;
    StripFirst(s, "[");
    assert (")" + rest)[0] == ')' && (")" + rest)[1..] == rest;
    ArgumentsLikeExpression(env, inner);
    assert CallSuffix(env, s) == Some((Call(Arguments(env, inner).0), rest));
    assert ParseSuffix(env, s) == Some((Call(Arguments(env, inner).0), rest));
  }

  /** Arguments end where a comma expression does. */
  lemma ArgumentsLikeExpression(env: Env, s: string)
    requires ParseExpression(env, s).Some?
    ensures Skip(Arguments(env, s).1) == Skip(ParseExpression(env, s).value.rest)
  {
    hide ParseAssignment, CommaPart, Skip;
    var p := ParseAssignment(env, s).value;
    SkipIdempotent(p.rest);
  }

  lemma BlockedOperator(env: Env, op: PrefixOp, behind: string)
    requires OperandLevel(op) == LEVELS
    ensures Blocked(env, PrefixSpelling(op) + (" " + behind))
  {
    hide ParseSuffix, AssignTail;
    var s := PrefixSpelling(op) + (" " + behind);
    assert s[0] == PrefixSpelling(op)[0] && s[1] == ' ' && Skip(s) == s;
    NoSuffixRead(env, s);
    NoAssignOperator(env, s);
    BlockedHere(env, s);
  }

  lemma NoAssignOperator(env: Env, s: string)
    requires |s| >= 2 && s[0] != '=' && s[1] == ' '
    ensures AssignTail(env, s) == None
  {
    NoAssignAhead(s, 0);
  }

  lemma BlockedIncrement(env: Env, op: PrefixOp, behind: string)
    requires OperandLevel(op) == UNARY && Skip(behind) == behind && Blocked(env, behind)
    ensures Blocked(env, PrefixSpelling(op) + (" " + behind))
  {
    hide ParseSuffix, Blocked;
    var suffix := if op == PreIncrement then PostIncrement else PostDecrement;
    var s := PrefixSpelling(op) + (" " + behind);
    assert s == SuffixText(suffix) + (" " + behind);
    IncrementRead(env, suffix, " " + behind);
    SuffixStarts(suffix, " " + behind);
    BlockedBlank(env, behind);
    BlockedSuffix(env, s, suffix, " " + behind);
  }

  /** A type in parentheses is read as a call of its name, or stops at its stars. */
  lemma BlockedType(env: Env, t: TypeName, behind: string)
    requires IsType(env, t) && Skip(behind) == behind && Blocked(env, behind)
    ensures Blocked(env, TypeText(t) + (" " + behind))
  {
    hide ParseSuffix, Blocked, ParseExpression, IsType, Stars;
    var rest := " " + behind;
    var stars := Stars(t.stars) + (")" + rest);
    var s := TypeText(t) + rest;
    assert s == "(" + (t.alias + stars);
    NameBeforeStars(env, t, rest);
    if t.stars == 0 {
      NoStars(rest);
      BlockedBlank(env, behind);
      BlockedCall(env, t.alias + stars, Parsed(Name(t.alias), stars), rest);
    } else {
      StarsNoCall(env, t, rest);
      assert s[0] == '(' && Skip(s) == s;
      NoAssignParenthesis(env, s);
      BlockedHere(env, s);
    }
  }

  lemma NoStars(rest: string)
    ensures Stars(0) + (")" + rest) == ")" + rest
  {
  }

  lemma NoAssignParenthesis(env: Env, s: string)
    requires s != "" && s[0] == '('
    ensures AssignTail(env, s) == None
  {
    NoAssignAtParenthesis(s, 0);
  }

  lemma {:induction false} NoAssignAtParenthesis(s: string, k: nat)
    requires k <= |ASSIGNS| && s != "" && s[0] == '('
    ensures MatchAssign(s, k) == None
    decreases |ASSIGNS| - k
  {
    hide AssignSpelling;
    if k < |ASSIGNS| {
      AssignShape(ASSIGNS[k]);
      AssignFirst(ASSIGNS[k]);
      StripFirst(s, AssignSpelling(ASSIGNS[k]));
      NoAssignAtParenthesis(s, k + 1);
    }
  }

  lemma AssignFirst(op: AssignOp)
    ensures AssignSpelling(op) != "" && AssignSpelling(op)[0] != '('
  {
  }

  /** With stars it is neither a call nor a parenthesised expression. */
  lemma StarsNoCall(env: Env, t: TypeName, rest: string)
    requires IsType(env, t) && t.stars > 0
    ensures ParseSuffix(env, TypeText(t) + rest) == None && ParsePrimary(env, TypeText(t) + rest) == None
  {
    hide ParseExpression, ParseAssignment, IsType, MatchMember, Skip, Stars;
    var stars := Stars(t.stars) + (")" + rest);
    var s := TypeText(t) + rest;
    assert s == "(" + (t.alias + stars) && s[0] == '(' && s[1..] == t.alias + stars;
    NameBeforeStars(env, t, rest);
    StripFirst(s, "[");
    StripFirst(s, ".");
    StripFirst(stars, ",");
    assert CommaPart(env, Skip(stars)) == None;
    assert CommaParts(env, stars, false) == ([], stars) && [Name(t.alias)] + [] == [Name(t.alias)];
    assert Arguments(env, t.alias + stars) == ([Name(t.alias)], stars);
    assert CallSuffix(env, s) == None && Enclosed(env, s, "(", ")") == None;
    assert MatchMember(s) == None && MatchPostfix(s) == None by { ParenthesisNoMember(s); }
  }

  lemma NoTailRead(env: Env, rest: string)
    requires NoTail(rest)
    ensures ParseSuffix(env, Skip(rest)) == None
  {
    NoSuffixRead(env, Skip(rest));
  }

  lemma TypeNotAssigned(env: Env, t: TypeName, behind: string)
    requires IsType(env, t) && Skip(behind) == behind && Blocked(env, behind)
    ensures AssignInner(env, TypeText(t) + (" " + behind)) == None
  {
    hide ParseExpression, ParseSuffix, AssignTail, IsType, Stars, TypeText;
    var rest := " " + behind;
    var s := TypeText(t) + rest;
    if t.stars == 0 {
      TypeAsName(env, t, rest);
      SkipBlank(behind);
      assert ParsePostfix(env, s) == Some(Tail(env, Name(t.alias), behind, true));
      assert Tail(env, Name(t.alias), behind, true) == Tail(env, Name(t.alias), behind, false);
    } else {
      StarsNoUnary(env, t, rest);
    }
  }

  lemma TypeAsName(env: Env, t: TypeName, rest: string)
    requires IsType(env, t) && t.stars == 0
    ensures ParsePrimary(env, TypeText(t) + rest) == Some(Parsed(Name(t.alias), rest)) && WellFormed(env, Name(t.alias))
  {
    hide ParseExpression, Skip, ParseIdentifier;
    var inner := t.alias + (")" + rest);
    assert Stars(0) + (")" + rest) == ")" + rest;
    NameBeforeStars(env, t, rest);
    assert TypeText(t) + rest == "(" + inner;
    NameEnclosed(env, inner, Parsed(Name(t.alias), ")" + rest), rest);
  }

  lemma NameEnclosed(env: Env, inner: string, p: Parsed, rest: string)
    requires Skip(inner) == inner && ParseExpression(env, inner) == Some(p)
    requires Skip(p.rest) == p.rest && Strip(p.rest, ")") == Some(rest)
    ensures ParsePrimary(env, "(" + inner) == Some(Parsed(p.e, rest))
  {
    hide ParseExpression, Skip;
    assert ("(" + inner)[0] == '(' && ("(" + inner)[1..] == inner;
  }

  lemma StarsNoUnary(env: Env, t: TypeName, rest: string)
    requires IsType(env, t) && t.stars > 0
    ensures ParseUnary(env, TypeText(t) + rest) == None
  {
    hide ParsePrimary, IsType;
    var s := TypeText(t) + rest;
    StarsNoCall(env, t, rest);
    assert s[0] == '(';
    StripFirst(s, "++");
    StripFirst(s, "--");
    StripFirst(s, SIZEOF);
    assert MatchIncrement(s) == None && MatchUnary(s) == None && MatchWord(s, SIZEOF) == None;
  }
}
