/** Every operator of section 6.5 of ISO/IEC 9899:2011 between names, in its own characters and with any white
    space around it: the one tree that the parser reads. */
module ExprReading {
  import opened Wrappers
  import opened Scanning
  import opened ExprSyntax
  import opened ExprParser
  import opened ExprText
  import opened ExprTypes
  import opened ExprCasts
  import opened ExprRoundTrip
  import opened ExprTokens

  // ----- one name and what follows it ------------------------------------------------------

  /** What cannot continue an expression. */
  predicate Closing(t: string) { t != "" ==> t[0] in ")]:," }

  lemma WhiteStart(w: string, s: string)
    requires White(w) && (s != "" ==> !NameChar(s[0]) && s[0] != '#')
    ensures w + s != "" ==> !NameChar((w + s)[0])
    ensures Skip(w + s) == Skip(s)
  {
    hide Skip;
    WhiteSkipped(w, s);
    if w != "" { assert (w + s)[0] == w[0]; } else { assert w + s == s; }
  }

  lemma NameStands(env: Env, x: string, s: string)
    requires Identifier(env, x)
    ensures IsName(env, x) && !("#" <= x) && Skip(x + s) == x + s && (x + s)[0] == x[0] && NameStart(x[0])
  {
    NameExactly(env, x);
    LetterExactly(x[0]);
  }

  lemma WhiteName(env: Env, w: string, x: string, s: string)
    requires White(w) && Identifier(env, x)
    ensures Skip(w + (x + s)) == x + s && Apart(w + (x + s))
  {
    NameStands(env, x, s);
    WhiteSkipped(w, x + s);
    if w == "" { assert w + (x + s) == x + s; } else { assert (w + (x + s))[0] == w[0]; }
  }

  lemma ClosingStands(t: string)
    requires Closing(t)
    ensures t != "" ==> !NameChar(t[0]) && t[0] != '#' && t[0] !in OPERATOR_STARTS && t[0] !in " \t\n\r"
  {
  }

  lemma ClosingEnds(w: string, t: string)
    requires White(w) && Closing(t)
    ensures Ended(w + t) && Skip(w + t) == t
  {
    hide NameChar, Closing, White;
    ClosingStands(t);
    WhiteStart(w, t);
    SkipStops(t);
  }

  /** A name that no suffix follows. */
  lemma NameAhead(env: Env, x: string, s: string)
    requires Identifier(env, x) && (s != "" ==> !NameChar(s[0])) && NoSuffix(Skip(s))
    ensures ParsePostfix(env, x + s) == Some(Parsed(Name(x), Skip(s)))
    ensures ParseUnary(env, x + s) == Some(Parsed(Name(x), Skip(s)))
    ensures ParseCast(env, x + s) == Some(Parsed(Name(x), Skip(s)))
  {
    hide IsName, ParseIdentifier, ParseSuffix, NoSuffix, Skip;
    NameExactly(env, x);
    IdentifierRead(env, x, s);
    NoSuffixRead(env, Skip(s));
    NameIsNoType(env, x, s);
  }

  /** A name at the end of an expression. */
  lemma NameLast(env: Env, x: string, w: string, t: string, min: nat)
    requires Identifier(env, x) && White(w) && Closing(t)
    ensures Skip(x + (w + t)) == x + (w + t)
    ensures ParseUnary(env, x + (w + t)) == ParseCast(env, x + (w + t)) == Some(Parsed(Name(x), t))
    ensures ParseInfix(env, min, x + (w + t)) == Some(Parsed(Name(x), t))
    ensures ParseConditional(env, x + (w + t)) == ParseAssignment(env, x + (w + t)) == Some(Parsed(Name(x), t))
    ensures (t != "" ==> t[0] != ',') ==> ParseExpression(env, x + (w + t)) == Some(Parsed(Name(x), t))
  {
    hide ParseUnary, ParseCast, AssignTail, Branches, TryOps, IsName, Identifier;
    NameStands(env, x, w + t);
    ClosingEnds(w, t);
    ClosingEnds("", t);
    assert "" + t == t;
    EndedStops(env, min, t);
    EndedStops(env, 0, t);
    NameAhead(env, x, w + t);
    assert InfixLoop(env, min, Name(x), t) == InfixLoop(env, 0, Name(x), t) == Parsed(Name(x), t);
    assert AssignInner(env, x + (w + t)) == None;
    if t != "" && t[0] != ',' { StripFirst(t, ","); }
    assert t == "" || t[0] != ',' ==> CommaParts(env, t, true) == ([], t);
  }

  // ----- binary and assignment operators ---------------------------------------------------

  lemma OperatorFollows(env: Env, op: InfixOp, w: string, t: string)
    requires White(w) && Apart(t)
    ensures var s := w + Behind(op, t);
            && !NameChar(s[0]) && Skip(s) == Behind(op, t) && Skip(Behind(op, t)) == Behind(op, t)
            && NoSuffix(Behind(op, t)) && AssignTail(env, Behind(op, t)) == None
  {
    hide AssignTail, Apart;
    BehindAt(op, t);
    NotAssignment(env, op, t);
    WhiteSkipped(w, Behind(op, t));
    OperatorIsNoName(op);
    if w != "" { assert (w + Behind(op, t))[0] == w[0]; }
    NotASuffix(op, t);
  }

  lemma OperatorIsNoName(op: InfixOp)
    ensures !NameChar(First(op)) && First(op) != '#' && First(op) !in "([.?"
  {
  }

  lemma NotASuffix(op: InfixOp, t: string)
    requires Apart(t)
    ensures NoSuffix(Behind(op, t))
  {
    BehindAt(op, t);
  }

  lemma OperatorRead(env: Env, x: string, w: string, op: InfixOp, t: string, y: string)
    requires Identifier(env, x) && Identifier(env, y) && White(w) && Apart(t) && Skip(t) == y
    ensures ParseExpression(env, x + (w + Behind(op, t))) == Some(Parsed(Infix(op, Name(x), Name(y)), ""))
  {
    hide ParseExpression, ParseInfix, ParseUnary, ParseCast, TryOps, AssignTail, InfixLoop, Behind, Spelling, Skip;
    hide Apart, Identifier, White, NoSuffix, NameChar, Level, ParseConditional, ParseAssignment, IsName;
    var ahead := Behind(op, t);
    var text := x + (w + ahead);
    assert y + "" == y && "" + "" == "";
    OperatorFollows(env, op, w, t);
    NameAhead(env, x, w + ahead);
    EmptyWhite();
    ClosingNothing();
    NameLast(env, y, "", "", Level(op) + 1);
    TablePicks(env, 0, op, t, Parsed(Name(y), ""));
    EmptyStops(env);
    NamesFormed(env, op, x, y);
    LoopTurns(env, Name(x), ahead, Infix(op, Name(x), Name(y)));
    WholeInfix(env, text, Name(x), ahead, Infix(op, Name(x), Name(y)));
  }

  lemma NamesFormed(env: Env, op: InfixOp, x: string, y: string)
    requires Identifier(env, x) && Identifier(env, y)
    ensures WellFormed(env, Name(x)) && WellFormed(env, Name(y)) && WellFormed(env, Infix(op, Name(x), Name(y)))
  {
    NameExactly(env, x);
    NameExactly(env, y);
  }

  /** Any binary operator between two names. */
  lemma BinaryRead(env: Env, x: string, w: string, k: nat, v: string, y: string)
    requires Identifier(env, x) && Identifier(env, y) && White(w) && White(v) && k < |BINARY|
    ensures ParseExpression(env, x + (w + (BINARY[k].text + (v + y))))
         == Some(Parsed(Infix(BINARY[k].op, Name(x), Name(y)), ""))
  {
    hide ParseExpression, Behind, Spelling, Skip, Apart, Identifier, White, Level;
    assert y + "" == y;
    WhiteName(env, v, y, "");
    BinaryTokens(k);
    BehindText(BINARY[k].op, v + y);
    OperatorRead(env, x, w, BINARY[k].op, v + y, y);
  }

  lemma BehindText(op: InfixOp, t: string)
    ensures Behind(op, t) == Spelling(op) + t
  {
  }

  lemma EmptyWhite()
    ensures White("")
  {
  }

  lemma EmptyStops(env: Env)
    ensures TryOps(env, 0, "", 0) == None && Skip("") == ""
  {
    EndedStops(env, 0, "");
  }

  /** Any assignment operator between two names. */
  lemma AssignRead(env: Env, x: string, w: string, k: nat, v: string, y: string)
    requires Identifier(env, x) && Identifier(env, y) && White(w) && White(v) && k < |ASSIGNMENT|
    ensures ParseExpression(env, x + (w + (ASSIGNMENT[k].0 + (v + y))))
         == Some(Parsed(Assignment(ASSIGNMENT[k].1, Name(x), Name(y)), ""))
  {
    hide ParseUnary, ParseCast, ParseAssignment, MatchAssign, Apart, Identifier, White, NoSuffix, NameChar, ParseInfix;
    hide ParseConditional;
    var op, t := ASSIGNMENT[k].1, v + y;
    var ahead := AssignSpelling(op) + t;
    var text := x + (w + ahead);
    AssignmentTokens(k);
    assert y + "" == y && "" + "" == "";
    WhiteName(env, v, y, "");
    AssignmentFollows(op, w, t);
    NameAhead(env, x, w + ahead);
    EmptyWhite();
    NameLast(env, y, "", "", 0);
    AssignPicks(op, t, 0);
    assert Skip("") == "";
    assert AssignTail(env, ahead) == Some((op, Parsed(Name(y), "")));
    WholeAssignment(env, text, Name(x), ahead, op, Name(y));
  }

  lemma AssignmentStands(op: AssignOp, t: string)
    requires Apart(t)
    ensures var s := AssignSpelling(op) + t;
            && s != "" && !NameChar(s[0]) && s[0] !in "#([. \t\n\r" && NoSuffix(s)
  {
    hide NameChar, Apart;
    var s := AssignSpelling(op) + t;
    AssignSigns(op);
    ApartSigns(t);
    assert |s| == |AssignSpelling(op)| + |t|;
    assert s[0] == AssignSpelling(op)[0];
    assert s[1] == if |AssignSpelling(op)| > 1 then AssignSpelling(op)[1] else t[0];
  }

  lemma ApartSigns(t: string)
    requires Apart(t)
    ensures t != "" && t[0] !in "+->"
  {
  }

  lemma AssignSigns(op: AssignOp)
    ensures var u := AssignSpelling(op);
            u != "" && !NameChar(u[0]) && u[0] !in "#([. \t\n\r" && (|u| > 1 ==> u[1] in "=<>")
    ensures var u := AssignSpelling(op); |u| > 1 ==> u[1] !in "+-" && (u[0] == '-' ==> u[1] == '=')
  {
  }

  lemma AssignmentFollows(op: AssignOp, w: string, t: string)
    requires White(w) && Apart(t)
    ensures var s := w + (AssignSpelling(op) + t);
            && !NameChar(s[0]) && Skip(s) == AssignSpelling(op) + t && NoSuffix(AssignSpelling(op) + t)
            && Skip(AssignSpelling(op) + t) == AssignSpelling(op) + t
  {
    hide AssignSpelling, NameChar, Apart, NoSuffix;
    var ahead := AssignSpelling(op) + t;
    AssignmentStands(op, t);
    SkipStops(ahead);
    WhiteStart(w, ahead);
  }

  lemma WholeAssignment(env: Env, text: string, l: Expr, ahead: string, op: AssignOp, r: Expr)
    requires ParseUnary(env, text) == Some(Parsed(l, ahead)) && Skip(ahead) == ahead
    requires AssignTail(env, ahead) == Some((op, Parsed(r, "")))
    ensures ParseExpression(env, text) == Some(Parsed(Assignment(op, l, r), ""))
  {
    hide ParseUnary, AssignTail;
    assert AssignInner(env, text) == Some(Parsed(Assignment(op, l, r), ""));
    assert Skip("") == "" && CommaParts(env, "", true) == ([], "");
  }

  // ----- prefix operators ------------------------------------------------------------------

  lemma WholeUnary(env: Env, text: string, e: Expr)
    requires ParseUnary(env, text) == Some(Parsed(e, "")) && Converted(env, text) == None
    ensures ParseExpression(env, text) == Some(Parsed(e, ""))
  {
    hide ParseUnary, Converted, TryOps, AssignTail, Branches;
    EmptyStops(env);
    EndedStops(env, 0, "");
    assert ParseCast(env, text) == ParseInfix(env, 0, text) == Some(Parsed(e, ""));
    assert AssignInner(env, text) == None && ParseAssignment(env, text) == Some(Parsed(e, ""));
    assert CommaParts(env, "", true) == ([], "");
  }

  lemma NoParentheses(env: Env, s: string)
    requires s == "" || s[0] != '('
    ensures TypeInParentheses(env, s) == None && Converted(env, s) == None
  {
    StripFirst(s, "(");
  }

  lemma PrefixPicked(env: Env, op: PrefixOp, t: string)
    requires Apart(t)
    ensures var s := PrefixSpelling(op) + t;
            && s[0] != '(' && ParsePostfix(env, s) == None
            && (if op == PreIncrement || op == PreDecrement then MatchIncrement(s) == Some((op, t))
                else MatchIncrement(s) == None && MatchUnary(s) == Some((op, t)))
  {
    var s := PrefixSpelling(op) + t;
    assert s[|PrefixSpelling(op)|..] == t && s[0] == PrefixSpelling(op)[0];
    ApartSigns(t);
    StripFirst(s, "(");
    assert ParsePrimary(env, s) == None;
  }

  /** Any prefix operator before a name. */
  lemma PrefixTokenRead(env: Env, k: nat, w: string, x: string)
    requires Identifier(env, x) && White(w) && k < |PREFIX|
    ensures ParseExpression(env, PREFIX[k].0 + (w + x)) == Some(Parsed(Prefix(PREFIX[k].1, Name(x)), ""))
  {
    hide ParseExpression, ParsePostfix, ParseCast, ParseUnary, Apart, Identifier, White, Skip;
    hide MatchIncrement, MatchUnary, ParseInfix, ParseConditional, ParseAssignment, TypeInParentheses, PrefixSpelling;
    var op, t := PREFIX[k].1, w + x;
    var text := PrefixSpelling(op) + t;
    PrefixTokens(k);
    assert x + "" == x && "" + "" == "";
    WhiteName(env, w, x, "");
    EmptyWhite();
    NameLast(env, x, "", "", 0);
    PrefixPicked(env, op, t);
    NoParentheses(env, text);
    PrefixWhole(env, op, text, t, x);
    WholeUnary(env, text, Prefix(op, Name(x)));
  }

  lemma PrefixWhole(env: Env, op: PrefixOp, s: string, t: string, x: string)
    requires ParsePostfix(env, s) == None && |t| < |s| && Skip(t) == x
    requires if op == PreIncrement || op == PreDecrement then MatchIncrement(s) == Some((op, t))
             else MatchIncrement(s) == None && MatchUnary(s) == Some((op, t))
    requires ParseUnary(env, x) == ParseCast(env, x) == Some(Parsed(Name(x), ""))
    ensures ParseUnary(env, s) == Some(Parsed(Prefix(op, Name(x)), ""))
  {
    hide ParsePostfix, ParseCast, MatchIncrement, MatchUnary, Skip;
    if op == PreIncrement || op == PreDecrement {
      assert Incremented(env, s) == Some(Parsed(Prefix(op, Name(x)), ""));
    } else {
      assert Incremented(env, s) == None;
      assert Operated(env, s) == Some(Parsed(Prefix(op, Name(x)), ""));
    }
  }

  /** `&&` starts no expression: it is not two addresses. */
  lemma DoubleAmpersand(env: Env, t: string)
    ensures ParseExpression(env, "&&" + t) == None
  {
    var s := "&&" + t;
    assert s[0] == '&' && "&&" <= s;
    NoParentheses(env, s);
    StripFirst(s, "(");
    StripFirst(s, "++");
    StripFirst(s, "--");
    StripFirst(s, SIZEOF);
    assert ParsePrimary(env, s) == None && ParsePostfix(env, s) == None;
    assert Incremented(env, s) == None && Operated(env, s) == None && Measured(env, s) == None;
    assert ParseUnary(env, s) == None && ParseCast(env, s) == None && ParseInfix(env, 0, s) == None;
    assert AssignInner(env, s) == None && ParseAssignment(env, s) == None;
  }

  /** `sizeof` before a name. */
  lemma SizeOfNameRead(env: Env, w: string, x: string)
    requires Identifier(env, x) && White(w) && w != ""
    ensures ParseExpression(env, "sizeof" + (w + x)) == Some(Parsed(SizeOfValue(Name(x)), ""))
  {
    hide ParseUnary, Identifier, White, TypeInParentheses;
    hide ParseExpression, ParseInfix, ParseConditional, ParseAssignment, ParseCast;
    var text := "sizeof" + (w + x);
    assert x + "" == x && "" + "" == "";
    WhiteName(env, w, x, "");
    EmptyWhite();
    NameLast(env, x, "", "", 0);
    NameStands(env, x, "");
    WhiteNoName(w);
    assert (w + x)[0] == w[0];
    SizeOfWord(env, w, x);
    NoParentheses(env, x);
    NoParentheses(env, text);
    SizeOfWhole(env, text, w + x, x);
    WholeUnary(env, text, SizeOfValue(Name(x)));
  }

  lemma WhiteNoName(w: string)
    requires White(w) && w != ""
    ensures !NameChar(w[0])
  {
  }

  lemma SizeOfWord(env: Env, w: string, s: string)
    requires (w + s != "" ==> !NameChar((w + s)[0]))
    ensures var text := "sizeof" + (w + s);
            && MatchWord(text, SIZEOF) == Some(w + s) && text[0] == 's' && ParseUnary(env, text) == Measured(env, text)
  {
    hide Measured;
    var text := "sizeof" + (w + s);
    assert text[6..] == w + s;
    assert text[0] == 's';
    assert NameLength("f") == 1 && NameLength("of") == 2 && NameLength("eof") == 3;
    assert NameLength("zeof") == 4 && NameLength("izeof") == 5 && NameLength("sizeof") == 6;
    NameParses("sizeof", w + s);
    assert text[..6] == SIZEOF;
    assert ParseIdentifier(env, text) == None;
    StripFirst(text, "(");
    StripFirst(text, "++");
    StripFirst(text, "--");
    assert ParsePrimary(env, text) == None && ParsePostfix(env, text) == None;
    assert Incremented(env, text) == None && Operated(env, text) == None;
  }

  lemma SizeOfWhole(env: Env, text: string, s: string, x: string)
    requires MatchWord(text, SIZEOF) == Some(s) && ParseUnary(env, text) == Measured(env, text)
    requires TypeInParentheses(env, Skip(s)) == None && ParseUnary(env, Skip(s)) == Some(Parsed(Name(x), ""))
    ensures ParseUnary(env, text) == Some(Parsed(SizeOfValue(Name(x)), ""))
  {
    hide ParseUnary, TypeInParentheses, MatchWord, Skip;
  }

  // ----- lists, brackets and suffixes ------------------------------------------------------

  /** A name and the white space before and behind it. */
  datatype Item = Item(before: string, name: string, behind: string)

  predicate IsItem(env: Env, i: Item) { White(i.before) && Identifier(env, i.name) && White(i.behind) }

  /** The names after the first one, and the text behind them. */
  function Listed(items: seq<Item>, close: string): string {
    if items == [] then close
    else "," + (items[0].before + (items[0].name + (items[0].behind + Listed(items[1..], close))))
  }

  function Named(items: seq<Item>): seq<Expr> { seq(|items|, i requires 0 <= i < |items| => Name(items[i].name)) }

  lemma ListedStands(items: seq<Item>, close: string)
    requires Closing(close)
    ensures Closing(Listed(items, close)) && Skip(Listed(items, close)) == Listed(items, close)
  {
    ClosingStands(Listed(items, close));
    SkipStops(Listed(items, close));
  }

  lemma ItemRead(env: Env, i: Item, more: string)
    requires IsItem(env, i) && Closing(more)
    ensures ParseAssignment(env, Skip(i.before + (i.name + (i.behind + more)))) == Some(Parsed(Name(i.name), more))
  {
    hide Closing, ParseAssignment, Identifier, White, Skip, ParseUnary, ParseCast, ParseInfix, ParseConditional;
    hide ParseExpression;
    WhiteName(env, i.before, i.name, i.behind + more);
    NameLast(env, i.name, i.behind, more, 0);
  }

  lemma ListedUnfolds(items: seq<Item>, close: string)
    requires items != []
    ensures var more := Listed(items[1..], close);
            var s := items[0].before + (items[0].name + (items[0].behind + more));
            Strip(Listed(items, close), ",") == Some(s)
    ensures Named(items) == [Name(items[0].name)] + Named(items[1..])
  {
    var text := Listed(items, close);
    var s := items[0].before + (items[0].name + (items[0].behind + Listed(items[1..], close)));
    assert text == "," + s && text[0] == ',' && text[1..] == s;
  }

  lemma {:induction false} ListedRead(env: Env, items: seq<Item>, close: string, first: bool)
    requires (forall i :: i in items ==> IsItem(env, i)) && Closing(close) && (close != "" ==> close[0] != ',')
    ensures CommaParts(env, Listed(items, close), first) == (Named(items), close)
    decreases |items|
  {
    hide Closing, ParseAssignment, IsItem, Skip, Listed, Strip;
    var text := Listed(items, close);
    ListedStands(items, close);
    if items == [] {
      StripFirst(close, ",");
      ListedNone(close);
      assert CommaPart(env, text) == None && Named(items) == [];
    } else {
      var more := Listed(items[1..], close);
      ListedUnfolds(items, close);
      ListedStands(items[1..], close);
      assert IsItem(env, items[0]);
      ItemRead(env, items[0], more);
      ListedRead(env, items[1..], close, false);
      assert CommaPart(env, text) == Some(Parsed(Name(items[0].name), more));
    }
  }

  /** The comma operator between names. */
  lemma CommaRead(env: Env, x: string, w: string, items: seq<Item>)
    requires Identifier(env, x) && White(w) && items != [] && (forall i :: i in items ==> IsItem(env, i))
    ensures ParseExpression(env, x + (w + Listed(items, ""))) == Some(Parsed(Comma([Name(x)] + Named(items)), ""))
  {
    hide ParseAssignment, CommaParts, Listed, Identifier, White;
    var more := Listed(items, "");
    ListedStands(items, "");
    NameLast(env, x, w, more, 0);
    ListedRead(env, items, "", true);
  }

  /** A suffix behind a name. */
  lemma SuffixTokenRead(env: Env, x: string, w: string, text: string, suffix: Suffix)
    requires Identifier(env, x) && White(w) && text != "" && !NameChar(text[0]) && text[0] != '#'
    requires Skip(text) == text && ParseSuffix(env, text) == Some((suffix, "")) && SuffixFormed(env, suffix)
    ensures ParseExpression(env, x + (w + text)) == Some(Parsed(Postfix(Name(x), suffix), ""))
  {
    hide ParseSuffix, Identifier, White, IsName, ParseIdentifier, TypeInParentheses, Converted;
    WhiteStart(w, text);
    NameExactly(env, x);
    NameStands(env, x, w + text);
    IdentifierRead(env, x, w + text);
    assert ParsePrimary(env, x + (w + text)) == Some(Parsed(Name(x), w + text));
    NoSuffixRead(env, "");
    assert Skip("") == "";
    assert Tail(env, Postfix(Name(x), suffix), "", false) == Parsed(Postfix(Name(x), suffix), "");
    assert ParsePostfix(env, x + (w + text)) == Some(Parsed(Postfix(Name(x), suffix), ""));
    NameIsNoType(env, x, w + text);
    WholeUnary(env, x + (w + text), Postfix(Name(x), suffix));
  }

  lemma BracketCloses(close: string, rest: string)
    requires close == ")" || close == "]" || close == ":"
    ensures var s := close + rest;
            && Closing(s) && s[0] != ',' && Skip(s) == s && Strip(s, close) == Some(rest)
  {
    var s := close + rest;
    assert s[0] == close[0] && s[1..] == rest;
    SkipStops(s);
  }

  lemma EnclosedName(env: Env, open: string, i: Item, close: string, rest: string)
    requires |open| == 1 && (close == ")" || close == "]") && IsItem(env, i)
    ensures Enclosed(env, open + (i.before + (i.name + (i.behind + (close + rest)))), open, close)
         == Some(Parsed(Name(i.name), rest))
  {
    hide ParseExpression, Identifier, White, Closing, Skip, ParseUnary, ParseCast, ParseInfix, ParseAssignment;
    hide ParseConditional;
    var s := i.before + (i.name + (i.behind + (close + rest)));
    assert (open + s)[1..] == s && open <= open + s;
    BracketCloses(close, rest);
    WhiteName(env, i.before, i.name, i.behind + (close + rest));
    NameLast(env, i.name, i.behind, close + rest, 0);
  }

  /** A name in parentheses is that name, whether or not it is a type. */
  lemma ParenthesesRead(env: Env, i: Item)
    requires IsItem(env, i)
    ensures ParseExpression(env, "(" + (i.before + (i.name + (i.behind + ")")))) == Some(Parsed(Name(i.name), ""))
  {
    hide ParseExpression, Enclosed, Identifier, White, TypeInParentheses;
    var text := "(" + (i.before + (i.name + (i.behind + ")")));
    assert ")" + "" == ")";
    EnclosedName(env, "(", i, ")", "");
    assert text[0] == '(';
    assert ParsePrimary(env, text) == Some(Parsed(Name(i.name), ""));
    NoSuffixRead(env, "");
    assert Skip("") == "";
    assert ParsePostfix(env, text) == Some(Parsed(Name(i.name), ""));
    NameNotCast(env, i);
    WholeUnary(env, text, Name(i.name));
  }

  lemma NameNotCast(env: Env, i: Item)
    requires IsItem(env, i)
    ensures Converted(env, "(" + (i.before + (i.name + (i.behind + ")")))) == None
  {
    hide ParseExpression, Identifier, White, ParseIdentifier, Skip, IsName;
    var s := i.before + (i.name + (i.behind + ")"));
    assert ("(" + s)[1..] == s && ("(" + s)[0] == '(';
    WhiteName(env, i.before, i.name, i.behind + ")");
    ClosingEnds(i.behind, ")");
    NameExactly(env, i.name);
    IdentifierRead(env, i.name, i.behind + ")");
    StripFirst(")", "*");
    assert MatchStars(i.behind + ")") == (0, i.behind + ")");
    NothingParses(env, 0, "");
    assert Skip("") == "" by { SkipStops(""); }
  }

  /** An index. */
  lemma IndexTokenRead(env: Env, x: string, w: string, i: Item)
    requires Identifier(env, x) && White(w) && IsItem(env, i)
    ensures ParseExpression(env, x + (w + ("[" + (i.before + (i.name + (i.behind + "]"))))))
         == Some(Parsed(Postfix(Name(x), Index(Name(i.name))), ""))
  {
    hide ParseExpression, Enclosed, Identifier, White;
    var text := "[" + (i.before + (i.name + (i.behind + "]")));
    assert "]" + "" == "]" && text[0] == '[';
    EnclosedName(env, "[", i, "]", "");
    SkipStops(text);
    NameExactly(env, i.name);
    assert SuffixFormed(env, Index(Name(i.name)));
    SuffixTokenRead(env, x, w, text, Index(Name(i.name)));
  }

  /** A call with any number of names as arguments. */
  lemma CallTokenRead(env: Env, x: string, w: string, i: Item, items: seq<Item>)
    requires Identifier(env, x) && White(w) && IsItem(env, i) && (forall j :: j in items ==> IsItem(env, j))
    ensures ParseExpression(env, x + (w + ("(" + (i.before + (i.name + (i.behind + Listed(items, ")")))))))
         == Some(Parsed(Postfix(Name(x), Call([Name(i.name)] + Named(items))), ""))
  {
    hide ParseExpression, Enclosed, Identifier, White, Listed, Skip, CommaParts, ParseAssignment;
    var more := Listed(items, ")");
    var s := i.before + (i.name + (i.behind + more));
    var text := "(" + s;
    assert text[0] == '(' && text[1..] == s;
    ListedStands(items, ")");
    ListedStands([], ")");
    assert Listed([], ")") == ")" by { ListedNone(")"); }
    WhiteName(env, i.before, i.name, i.behind + more);
    NameLast(env, i.name, i.behind, more, 0);
    ListedRead(env, items, ")", false);
    NameExactly(env, i.name);
    StripFirst(text, "[");
    SkipStops(text);
    var call := Call([Name(i.name)] + Named(items));
    assert Enclosed(env, text, "[", "]") == None by { NotOpened(env, text); }
    assert CallSuffix(env, text) == Some((call, ""));
    SuffixTokenRead(env, x, w, text, call);
  }

  lemma ListedNone(close: string)
    ensures Listed([], close) == close
  {
  }

  lemma NotOpened(env: Env, s: string)
    requires s != "" && s[0] != '['
    ensures Enclosed(env, s, "[", "]") == None
  {
    StripFirst(s, "[");
  }

  /** A call without arguments. */
  lemma EmptyCallRead(env: Env, x: string, w: string, v: string)
    requires Identifier(env, x) && White(w) && White(v)
    ensures ParseExpression(env, x + (w + ("(" + (v + ")")))) == Some(Parsed(Postfix(Name(x), Call([])), ""))
  {
    hide ParseExpression, Identifier, White, Skip, ParseAssignment;
    var s := v + ")";
    var text := "(" + s;
    assert text[0] == '(' && text[1..] == s;
    ClosingEnds(v, ")");
    SkipStops(")");
    SkipStops(text);
    NothingParses(env, 0, ")");
    NotOpened(env, text);
    assert CallSuffix(env, text) == Some((Call([]), ""));
    SuffixTokenRead(env, x, w, text, Call([]));
  }

  /** A member, of the value or of what it points to. */
  lemma MemberTokenRead(env: Env, x: string, w: string, k: nat, v: string, m: string)
    requires Identifier(env, x) && White(w) && White(v) && Identifier(env, m) && k < |MEMBERS|
    ensures ParseExpression(env, x + (w + (MEMBERS[k].0 + (v + m))))
         == Some(Parsed(Postfix(Name(x), Member(MEMBERS[k].1, m)), ""))
  {
    hide ParseExpression, Identifier, White, Skip, ParseIdentifier, IsName;
    var s := v + m;
    var text := MEMBERS[k].0 + s;
    assert m + "" == m;
    assert text[|MEMBERS[k].0|..] == s && text[0] == MEMBERS[k].0[0];
    WhiteName(env, v, m, "");
    NameExactly(env, m);
    IdentifierRead(env, m, "");
    SkipStops(text);
    NotOpened(env, text);
    StripFirst(text, "(");
    assert MatchMember(text) == Some((MEMBERS[k].1, s));
    SuffixTokenRead(env, x, w, text, Member(MEMBERS[k].1, m));
  }

  /** An increment or decrement behind a name. */
  lemma PostfixTokenRead(env: Env, x: string, w: string, k: nat)
    requires Identifier(env, x) && White(w) && k < |POSTFIXES|
    ensures ParseExpression(env, x + (w + POSTFIXES[k].0)) == Some(Parsed(Postfix(Name(x), POSTFIXES[k].1), ""))
  {
    hide ParseExpression, Identifier, White, Skip;
    var text := POSTFIXES[k].0;
    SkipStops(text);
    NotOpened(env, text);
    StripFirst(text, "(");
    StripFirst(text, ".");
    StripFirst(text, "->");
    assert MemberSuffix(env, text) == None;
    assert text[2..] == "";
    SuffixTokenRead(env, x, w, text, POSTFIXES[k].1);
  }

  // ----- the conditional operator ----------------------------------------------------------

  lemma ConditionalRead(env: Env, x: string, a: string, i: Item, d: string, z: string)
    requires Identifier(env, x) && White(a) && IsItem(env, i) && White(d) && Identifier(env, z)
    ensures ParseExpression(env, x + (a + ("?" + (i.before + (i.name + (i.behind + (":" + (d + z))))))))
         == Some(Parsed(Conditional(Name(x), Name(i.name), Name(z)), ""))
  {
    hide ParseExpression, ParseUnary, ParseCast, Identifier, White, Skip, Branches, IsName;
    var ahead := "?" + (i.before + (i.name + (i.behind + (":" + (d + z)))));
    QuestionStands(ahead);
    BranchesOfNames(env, i, d, z);
    WhiteStart(a, ahead);
    NameExactly(env, x);
    NameAhead(env, x, a + ahead);
    ConditionalWhole(env, x + (a + ahead), x, ahead, Name(i.name), Name(z));
  }

  lemma QuestionStands(s: string)
    requires s != "" && s[0] == '?'
    ensures !NameChar(s[0]) && s[0] != '#' && Skip(s) == s && NoSuffix(s)
  {
    SkipStops(s);
  }

  lemma BranchesOfNames(env: Env, i: Item, d: string, z: string)
    requires IsItem(env, i) && White(d) && Identifier(env, z)
    ensures Branches(env, "?" + (i.before + (i.name + (i.behind + (":" + (d + z))))))
         == Some((Name(i.name), Name(z), ""))
  {
    hide ParseExpression, ParseConditional, ParseUnary, ParseCast, Identifier, White, Skip, Closing, ParseInfix;
    hide ParseAssignment;
    var last := ":" + (d + z);
    var s := i.before + (i.name + (i.behind + last));
    assert ("?" + s)[1..] == s && "?" <= "?" + s;
    assert z + "" == z && "" + "" == "";
    BracketCloses(":", d + z);
    WhiteName(env, i.before, i.name, i.behind + last);
    WhiteName(env, d, z, "");
    EmptyWhite();
    ClosingNothing();
    NameLast(env, z, "", "", 0);
    NameLast(env, i.name, i.behind, last, 0);
  }

  lemma ClosingNothing()
    ensures Closing("")
  {
  }

  lemma ConditionalWhole(env: Env, text: string, x: string, ahead: string, t: Expr, f: Expr)
    requires ParseUnary(env, text) == ParseCast(env, text) == Some(Parsed(Name(x), ahead)) && IsName(env, x)
    requires ahead != "" && ahead[0] == '?' && Skip(ahead) == ahead && Branches(env, ahead) == Some((t, f, ""))
    ensures ParseExpression(env, text) == Some(Parsed(Conditional(Name(x), t, f), ""))
  {
    hide ParseUnary, ParseCast, TryOps, MatchAssign, Branches;
    NoQuestion(env, ahead, 0);
    NoAssignAtQuestion(ahead, 0);
    assert AssignInner(env, text) == None;
    assert ParseInfix(env, 0, text) == Some(Parsed(Name(x), ahead));
    assert ParseAssignment(env, text) == Some(Parsed(Conditional(Name(x), t, f), ""));
    assert Skip("") == "" && CommaParts(env, "", true) == ([], "");
  }

  // ----- types in parentheses --------------------------------------------------------------

  /** One star for each gap, with the gap before it. */
  function Starred(gaps: seq<string>, close: string): string {
    if gaps == [] then close else gaps[0] + ("*" + Starred(gaps[1..], close))
  }

  lemma {:induction false} StarredRead(gaps: seq<string>, close: string)
    requires (forall g :: g in gaps ==> White(g)) && Skip(close) != "" && Skip(close)[0] == ')'
    ensures MatchStars(Starred(gaps, close)) == (|gaps|, close)
    decreases |gaps|
  {
    hide Skip, White;
    if gaps == [] {
      StripFirst(Skip(close), "*");
    } else {
      var more := Starred(gaps[1..], close);
      assert ("*" + more)[0] == '*' && ("*" + more)[1..] == more;
      SkipStops("*" + more);
      WhiteSkipped(gaps[0], "*" + more);
      StarredRead(gaps[1..], close);
    }
  }

  /** The text of a type in parentheses, with white space everywhere. */
  function TypeTokens(a: string, t: string, gaps: seq<string>, c: string, rest: string): string {
    "(" + (a + (t + Starred(gaps, c + (")" + rest))))
  }

  lemma StarredStart(gaps: seq<string>, c: string, rest: string)
    requires (forall g :: g in gaps ==> White(g)) && White(c)
    ensures var s := Starred(gaps, c + (")" + rest)); s != "" && !NameChar(s[0])
    ensures Skip(c + (")" + rest)) == ")" + rest
  {
    BracketCloses(")", rest);
    assert (")" + rest)[0] == ')';
    WhiteStart(c, ")" + rest);
    if gaps != [] {
      assert gaps[0] in gaps;
      var more := "*" + Starred(gaps[1..], c + (")" + rest));
      assert more[0] == '*';
      WhiteStart(gaps[0], more);
    }
  }

  lemma TypeTokensRead(env: Env, a: string, t: string, gaps: seq<string>, c: string, rest: string)
    requires White(a) && Identifier(env, t) && t in env.types && White(c)
    requires forall g :: g in gaps ==> White(g)
    ensures TypeInParentheses(env, TypeTokens(a, t, gaps, c, rest)) == Some((TypeName(t, |gaps|), rest))
  {
    hide Skip, White, Identifier, IsName, ParseIdentifier, NameChar, Starred;
    var stars := Starred(gaps, c + (")" + rest));
    var s := a + (t + stars);
    assert ("(" + s)[1..] == s && "(" <= "(" + s;
    StarredStart(gaps, c, rest);
    WhiteName(env, a, t, stars);
    NameExactly(env, t);
    IdentifierRead(env, t, stars);
    assert (")" + rest)[0] == ')' && (")" + rest)[1..] == rest;
    StarredRead(gaps, c + (")" + rest));
  }

  /** A cast of a name. */
  lemma CastTokenRead(env: Env, a: string, t: string, gaps: seq<string>, c: string, d: string, x: string)
    requires White(a) && Identifier(env, t) && t in env.types && White(c) && White(d) && Identifier(env, x)
    requires forall g :: g in gaps ==> White(g)
    ensures ParseCast(env, TypeTokens(a, t, gaps, c, d + x)) == Some(Parsed(Cast(TypeName(t, |gaps|), Name(x)), ""))
  {
    hide TypeTokens, TypeInParentheses, White, Identifier, Skip, ParseUnary, ParseInfix, ParseExpression;
    hide ParseAssignment, ParseConditional;
    var text := TypeTokens(a, t, gaps, c, d + x);
    TypeTokensRead(env, a, t, gaps, c, d + x);
    assert x + "" == x && "" + "" == "";
    WhiteName(env, d, x, "");
    EmptyWhite();
    ClosingNothing();
    NameLast(env, x, "", "", 0);
  }

  /** `sizeof` of a type. */
  lemma SizeOfTypeTokens(env: Env, w: string, a: string, t: string, gaps: seq<string>, c: string)
    requires White(w) && White(a) && Identifier(env, t) && t in env.types && White(c)
    requires forall g :: g in gaps ==> White(g)
    ensures ParseExpression(env, "sizeof" + (w + TypeTokens(a, t, gaps, c, "")))
         == Some(Parsed(SizeOfType(TypeName(t, |gaps|)), ""))
  {
    hide TypeInParentheses, White, Identifier, Starred, ParseUnary, ParseExpression;
    var s := TypeTokens(a, t, gaps, c, "");
    var text := "sizeof" + (w + s);
    assert s[0] == '(';
    TypeTokensRead(env, a, t, gaps, c, "");
    WhiteStart(w, s);
    SkipStops(s);
    SizeOfWord(env, w, s);
    NoParentheses(env, text);
    assert Measured(env, text) == Some(Parsed(SizeOfType(TypeName(t, |gaps|)), ""));
    WholeUnary(env, text, SizeOfType(TypeName(t, |gaps|)));
  }
}
