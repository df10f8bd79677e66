/** How the operators of section 6.5 of ISO/IEC 9899:2011 group, in the characters of the language. */
module ExprLevels {
  import opened Wrappers
  import opened Scanning
  import opened ExprSyntax
  import opened ExprParser
  import opened ExprText
  import opened ExprTypes
  import opened ExprRoundTrip
  import opened ExprTokens

  /** The text is the printed form of the tree. */
  lemma ReadsAs(env: Env, e: Expr, text: string)
    requires WellFormed(env, e) && Print(e, -3) == text
    ensures ParseExpression(env, text) == Some(Parsed(e, ""))
  {
    ParsePrint(env, e);
  }

  lemma NamesFormed(env: Env, x: string, y: string, z: string)
    requires IsName(env, x) && IsName(env, y) && IsName(env, z)
    ensures WellFormed(env, Name(x)) && WellFormed(env, Name(y)) && WellFormed(env, Name(z))
  {
  }

  lemma InfixFormed(env: Env, op: InfixOp, l: Expr, r: Expr)
    requires WellFormed(env, l) && WellFormed(env, r)
    ensures WellFormed(env, Infix(op, l, r))
  {
  }

  lemma ConditionalFormed(env: Env, c: Expr, t: Expr, f: Expr)
    requires WellFormed(env, c) && WellFormed(env, t) && WellFormed(env, f)
    ensures WellFormed(env, Conditional(c, t, f))
  {
  }

  lemma AssignmentFormed(env: Env, op: AssignOp, l: Expr, r: Expr)
    requires WellFormed(env, l) && WellFormed(env, r)
    ensures WellFormed(env, Assignment(op, l, r))
  {
  }

  lemma InfixPrints(op: InfixOp, l: Expr, r: Expr, level: int)
    requires level <= Level(op)
    ensures Print(Infix(op, l, r), level)
         == Print(l, Level(op)) + (" " + Spelling(op) + (" " + Print(r, Level(op) + 1)))
  {
  }

  lemma InfixEnclosed(op: InfixOp, l: Expr, r: Expr, level: int)
    requires level > Level(op)
    ensures Print(Infix(op, l, r), level)
         == "(" + (Print(l, Level(op)) + (" " + Spelling(op) + (" " + Print(r, Level(op) + 1)))) + ")"
  {
  }

  /** Two binary operators in a row group by their levels, and from the left at one level. */
  lemma BinaryBinary(env: Env, x: string, j: nat, y: string, k: nat, z: string)
    requires Identifier(env, x) && Identifier(env, y) && Identifier(env, z) && j < |BINARY| && k < |BINARY|
    ensures var (a, b) := (BINARY[j], BINARY[k]);
            var e := if b.level > a.level then Infix(a.op, Name(x), Infix(b.op, Name(y), Name(z)))
                     else Infix(b.op, Infix(a.op, Name(x), Name(y)), Name(z));
            ParseExpression(env, x + (" " + a.text + (" " + (y + (" " + b.text + (" " + z)))))) == Some(Parsed(e, ""))
  {
    hide ParseExpression, Identifier, IsName, Spelling, Level;
    BinaryTokens(j);
    BinaryTokens(k);
    NameExactly(env, x);
    NameExactly(env, y);
    NameExactly(env, z);
    TwoOperators(env, x, BINARY[j].op, y, BINARY[k].op, z);
  }

  lemma LeftEnclosed(env: Env, x: string, a: InfixOp, y: string, b: InfixOp, z: string)
    requires IsName(env, x) && IsName(env, y) && IsName(env, z) && Level(a) < Level(b)
    ensures ParseExpression(env, "(" + (x + (" " + Spelling(a) + (" " + y))) + ")" + (" " + Spelling(b) + (" " + z)))
         == Some(Parsed(Infix(b, Infix(a, Name(x), Name(y)), Name(z)), ""))
  {
    hide WellFormed, ParseExpression, IsName, Spelling, Level, Print;
    NamePrints(x, Level(a));
    NamePrints(y, Level(a) + 1);
    NamePrints(z, Level(b) + 1);
    InfixPrints(b, Infix(a, Name(x), Name(y)), Name(z), -3);
    InfixEnclosed(a, Name(x), Name(y), Level(b));
    NamesFormed(env, x, y, z);
    InfixFormed(env, a, Name(x), Name(y));
    InfixFormed(env, b, Infix(a, Name(x), Name(y)), Name(z));
    ReadsAs(env, Infix(b, Infix(a, Name(x), Name(y)), Name(z)),
            "(" + (x + (" " + Spelling(a) + (" " + y))) + ")" + (" " + Spelling(b) + (" " + z)));
  }

  /** Parentheses on the left undo the levels. */
  lemma ParenthesesLeft(env: Env, x: string, j: nat, y: string, k: nat, z: string)
    requires Identifier(env, x) && Identifier(env, y) && Identifier(env, z) && j < |BINARY| && k < |BINARY|
    requires BINARY[j].level < BINARY[k].level
    ensures var (a, b) := (BINARY[j], BINARY[k]);
            ParseExpression(env, "(" + (x + (" " + a.text + (" " + y))) + ")" + (" " + b.text + (" " + z)))
            == Some(Parsed(Infix(b.op, Infix(a.op, Name(x), Name(y)), Name(z)), ""))
  {
    hide ParseExpression, Identifier, IsName, Spelling, Level;
    BinaryTokens(j);
    BinaryTokens(k);
    NameExactly(env, x);
    NameExactly(env, y);
    NameExactly(env, z);
    LeftEnclosed(env, x, BINARY[j].op, y, BINARY[k].op, z);
  }

  lemma RightEnclosed(env: Env, x: string, a: InfixOp, y: string, b: InfixOp, z: string)
    requires IsName(env, x) && IsName(env, y) && IsName(env, z) && Level(b) <= Level(a)
    ensures ParseExpression(env, x + (" " + Spelling(a) + (" " + ("(" + (y + (" " + Spelling(b) + (" " + z))) + ")"))))
         == Some(Parsed(Infix(a, Name(x), Infix(b, Name(y), Name(z))), ""))
  {
    hide WellFormed, ParseExpression, IsName, Spelling, Level, Print;
    NamePrints(x, Level(a));
    NamePrints(y, Level(b));
    NamePrints(z, Level(b) + 1);
    InfixPrints(a, Name(x), Infix(b, Name(y), Name(z)), -3);
    InfixEnclosed(b, Name(y), Name(z), Level(a) + 1);
    var e := Infix(a, Name(x), Infix(b, Name(y), Name(z)));
    NamesFormed(env, x, y, z);
    InfixFormed(env, b, Name(y), Name(z));
    InfixFormed(env, a, Name(x), e.right);
    ReadsAs(env, e, x + (" " + Spelling(a) + (" " + ("(" + (y + (" " + Spelling(b) + (" " + z))) + ")"))));
  }

  /** Parentheses on the right do so too, and undo the grouping from the left. */
  lemma ParenthesesRight(env: Env, x: string, j: nat, y: string, k: nat, z: string)
    requires Identifier(env, x) && Identifier(env, y) && Identifier(env, z) && j < |BINARY| && k < |BINARY|
    requires BINARY[k].level <= BINARY[j].level
    ensures var (a, b) := (BINARY[j], BINARY[k]);
            ParseExpression(env, x + (" " + a.text + (" " + ("(" + (y + (" " + b.text + (" " + z))) + ")"))))
            == Some(Parsed(Infix(a.op, Name(x), Infix(b.op, Name(y), Name(z))), ""))
  {
    hide ParseExpression, Identifier, IsName, Spelling, Level;
    BinaryTokens(j);
    BinaryTokens(k);
    NameExactly(env, x);
    NameExactly(env, y);
    NameExactly(env, z);
    RightEnclosed(env, x, BINARY[j].op, y, BINARY[k].op, z);
  }

  /** What stands before a binary operator without parentheses: a name under prefix operators, casts or `sizeof`. */
  datatype Tight = Prefixed(k: nat) | Casted(t: string) | Sized

  predicate IsTight(env: Env, p: Tight) {
    && (p.Prefixed? ==> p.k < |PREFIX|)
    && (p.Casted? ==> Identifier(env, p.t) && p.t in env.types)
  }

  function TightText(p: Tight): string
    requires p.Prefixed? ==> p.k < |PREFIX|
  {
    match p
    case Prefixed(k) => PREFIX[k].0
    case Casted(t) => "(" + (t + ")")
    case Sized => "sizeof"
  }

  function TightTree(p: Tight, e: Expr): Expr
    requires p.Prefixed? ==> p.k < |PREFIX|
  {
    match p
    case Prefixed(k) => Prefix(PREFIX[k].1, e)
    case Casted(t) => Cast(TypeName(t, 0), e)
    case Sized => SizeOfValue(e)
  }

  lemma TightPrints(env: Env, p: Tight, x: string, level: int)
    requires IsTight(env, p) && Identifier(env, x) && level <= LEVELS
    ensures Print(TightTree(p, Name(x)), level) == TightText(p) + (" " + x)
    ensures WellFormed(env, TightTree(p, Name(x)))
  {
    hide Identifier, IsName;
    NameExactly(env, x);
    match p
    case Prefixed(k) =>
      PrefixTokens(k);
      NamePrints(x, OperandLevel(PREFIX[k].1));
    case Casted(t) =>
      NameExactly(env, t);
      NamePrints(x, LEVELS);
      assert t + ("" + ")") == t + ")";
    case Sized => NamePrints(x, UNARY);
  }

  /** Prefix operators, casts and `sizeof` bind closer than every binary operator, on either side. */
  lemma TightLeft(env: Env, p: Tight, x: string, k: nat, y: string)
    requires IsTight(env, p) && Identifier(env, x) && Identifier(env, y) && k < |BINARY|
    ensures ParseExpression(env, TightText(p) + (" " + x) + (" " + BINARY[k].text + (" " + y)))
         == Some(Parsed(Infix(BINARY[k].op, TightTree(p, Name(x)), Name(y)), ""))
  {
    hide ParseExpression, Identifier, IsName, Spelling, Level, Print, TightText, TightTree;
    var op := BINARY[k].op;
    BinaryTokens(k);
    NameExactly(env, y);
    TightPrints(env, p, x, Level(op));
    NamePrints(y, Level(op) + 1);
    InfixPrints(op, TightTree(p, Name(x)), Name(y), -3);
    ReadsAs(env, Infix(op, TightTree(p, Name(x)), Name(y)),
            TightText(p) + (" " + x) + (" " + Spelling(op) + (" " + y)));
  }

  lemma TightRight(env: Env, x: string, k: nat, p: Tight, y: string)
    requires IsTight(env, p) && Identifier(env, x) && Identifier(env, y) && k < |BINARY|
    ensures ParseExpression(env, x + (" " + BINARY[k].text + (" " + (TightText(p) + (" " + y)))))
         == Some(Parsed(Infix(BINARY[k].op, Name(x), TightTree(p, Name(y))), ""))
  {
    hide ParseExpression, Identifier, IsName, Spelling, Level, Print, TightText, TightTree;
    var op := BINARY[k].op;
    BinaryTokens(k);
    NameExactly(env, x);
    NamePrints(x, Level(op));
    TightPrints(env, p, y, Level(op) + 1);
    InfixPrints(op, Name(x), TightTree(p, Name(y)), -3);
    ReadsAs(env, Infix(op, Name(x), TightTree(p, Name(y))),
            x + (" " + Spelling(op) + (" " + (TightText(p) + (" " + y)))));
  }

  /** Suffixes bind closer than these. */
  lemma SuffixBinds(env: Env, p: Tight, x: string, y: string)
    requires IsTight(env, p) && Identifier(env, x) && Identifier(env, y)
    ensures ParseExpression(env, TightText(p) + (" " + (x + ("[" + (y + "]")))))
         == Some(Parsed(TightTree(p, Postfix(Name(x), Index(Name(y)))), ""))
  {
    hide ParseExpression, Identifier, IsName, Print;
    NameExactly(env, x);
    NameExactly(env, y);
    var e := Postfix(Name(x), Index(Name(y)));
    IndexPrints(x, y, LEVELS);
    IndexPrints(x, y, UNARY);
    assert WellFormed(env, e) by { assert SuffixFormed(env, Index(Name(y))); }
    match p
    case Prefixed(k) =>
      PrefixTokens(k);
      PrefixBody(PREFIX[k].1, e);
      ReadsAs(env, TightTree(p, e), TightText(p) + (" " + (x + ("[" + (y + "]")))));
    case Casted(t) =>
      NameExactly(env, t);
      CastBody(t, e);
      ReadsAs(env, TightTree(p, e), TightText(p) + (" " + (x + ("[" + (y + "]")))));
    case Sized =>
      SizeOfBody(e);
      ReadsAs(env, TightTree(p, e), TightText(p) + (" " + (x + ("[" + (y + "]")))));
  }

  lemma IndexPrints(x: string, y: string, level: int)
    requires level <= POSTFIX
    ensures Print(Postfix(Name(x), Index(Name(y))), level) == x + ("[" + (y + "]"))
  {
    NamePrints(y, -3);
    NamePrints(x, POSTFIX);
    PrintsBody(Postfix(Name(x), Index(Name(y))), level);
    assert SuffixText(Index(Name(y))) == "[" + (y + "]");
  }

  lemma PrefixBody(op: PrefixOp, e: Expr)
    ensures Print(Prefix(op, e), -3) == PrefixSpelling(op) + (" " + Print(e, OperandLevel(op)))
    ensures OperandLevel(op) == LEVELS || OperandLevel(op) == UNARY
  {
  }

  lemma CastBody(t: string, e: Expr)
    ensures Print(Cast(TypeName(t, 0), e), -3) == "(" + (t + ")") + (" " + Print(e, LEVELS))
  {
    assert TypeText(TypeName(t, 0)) == "(" + (t + ")") by { assert t + ("" + ")") == t + ")"; }
  }

  lemma SizeOfBody(e: Expr)
    ensures Print(SizeOfValue(e), -3) == "sizeof" + (" " + Print(e, UNARY))
  {
  }

  lemma BinaryBranches(env: Env, x: string, a: InfixOp, y: string, z: string, u: string, b: InfixOp, v: string)
    requires IsName(env, x) && IsName(env, y) && IsName(env, z) && IsName(env, u) && IsName(env, v)
    ensures ParseExpression(env, (x + (" " + Spelling(a) + (" " + y)))
                                 + (" ? " + (z + (" : " + (u + (" " + Spelling(b) + (" " + v)))))))
         == Some(Parsed(Conditional(Infix(a, Name(x), Name(y)), Name(z), Infix(b, Name(u), Name(v))), ""))
  {
    hide WellFormed, ParseExpression, IsName, Spelling, Level, Print;
    NamePrints(x, Level(a));
    NamePrints(y, Level(a) + 1);
    NamePrints(u, Level(b));
    NamePrints(v, Level(b) + 1);
    NamePrints(z, -3);
    var (c, f) := (Infix(a, Name(x), Name(y)), Infix(b, Name(u), Name(v)));
    InfixPrints(a, Name(x), Name(y), 0);
    InfixPrints(b, Name(u), Name(v), -1);
    ConditionalBody(Conditional(c, Name(z), f));
    NamesFormed(env, x, y, z);
    NamesFormed(env, u, v, v);
    InfixFormed(env, a, Name(x), Name(y));
    InfixFormed(env, b, Name(u), Name(v));
    ConditionalFormed(env, c, Name(z), f);
    ReadsAs(env, Conditional(c, Name(z), f),
            (x + (" " + Spelling(a) + (" " + y))) + (" ? " + (z + (" : " + (u + (" " + Spelling(b) + (" " + v)))))));
  }

  /** The conditional operator is looser than every binary operator. */
  lemma ConditionalBinary(env: Env, x: string, j: nat, y: string, z: string, u: string, k: nat, v: string)
    requires Identifier(env, x) && Identifier(env, y) && Identifier(env, z) && Identifier(env, u) && Identifier(env, v)
    requires j < |BINARY| && k < |BINARY|
    ensures var (a, b) := (BINARY[j], BINARY[k]);
            ParseExpression(env, (x + (" " + a.text + (" " + y)))
                                 + (" ? " + (z + (" : " + (u + (" " + b.text + (" " + v)))))))
            == Some(Parsed(Conditional(Infix(a.op, Name(x), Name(y)), Name(z), Infix(b.op, Name(u), Name(v))), ""))
  {
    hide ParseExpression, Identifier, IsName, Spelling, Level;
    BinaryTokens(j);
    BinaryTokens(k);
    NameExactly(env, x);
    NameExactly(env, y);
    NameExactly(env, z);
    NameExactly(env, u);
    NameExactly(env, v);
    BinaryBranches(env, x, BINARY[j].op, y, z, u, BINARY[k].op, v);
  }

  lemma ConditionalBody(e: Expr)
    requires e.Conditional?
    ensures Print(e, -3) == Print(e, -1)
         == Print(e.condition, 0) + (" ? " + (Print(e.thenBranch, -3) + (" : " + Print(e.elseBranch, -1))))
  {
  }

  lemma ConditionalPrints(x: string, y: string, z: string)
    ensures var e := Conditional(Name(x), Name(y), Name(z));
            Print(e, -3) == Print(e, -2) == Print(e, -1) == x + (" ? " + (y + (" : " + z)))
  {
    NamePrints(x, 0);
    NamePrints(y, -3);
    NamePrints(z, -1);
  }

  /** Conditional operators group from the right. */
  lemma TwoConditionals(env: Env, x: string, y: string, z: string, u: string, v: string)
    requires Identifier(env, x) && Identifier(env, y) && Identifier(env, z) && Identifier(env, u) && Identifier(env, v)
    ensures ParseExpression(env, x + (" ? " + (y + (" : " + (z + (" ? " + (u + (" : " + v))))))))
         == Some(Parsed(Conditional(Name(x), Name(y), Conditional(Name(z), Name(u), Name(v))), ""))
  {
    hide WellFormed, ParseExpression, Identifier, IsName, Print;
    NameExactly(env, x);
    NameExactly(env, y);
    NameExactly(env, z);
    NameExactly(env, u);
    NameExactly(env, v);
    NamePrints(x, 0);
    NamePrints(y, -3);
    var inner := Conditional(Name(z), Name(u), Name(v));
    ConditionalPrints(z, u, v);
    ConditionalBody(Conditional(Name(x), Name(y), inner));
    NamesFormed(env, x, y, z);
    NamesFormed(env, u, v, v);
    ConditionalFormed(env, Name(z), Name(u), Name(v));
    ConditionalFormed(env, Name(x), Name(y), inner);
    ReadsAs(env, Conditional(Name(x), Name(y), inner),
            x + (" ? " + (y + (" : " + (z + (" ? " + (u + (" : " + v))))))));
  }

  lemma AssignmentBody(op: AssignOp, l: Expr, r: Expr, level: int)
    requires level <= -2
    ensures Print(Assignment(op, l, r), level) == Print(l, UNARY) + (" " + AssignSpelling(op) + (" " + Print(r, -2)))
  {
  }

  lemma BinaryAssigned(env: Env, x: string, op: AssignOp, y: string, b: InfixOp, z: string)
    requires IsName(env, x) && IsName(env, y) && IsName(env, z)
    ensures ParseExpression(env, x + (" " + AssignSpelling(op) + (" " + (y + (" " + Spelling(b) + (" " + z))))))
         == Some(Parsed(Assignment(op, Name(x), Infix(b, Name(y), Name(z))), ""))
  {
    hide WellFormed, ParseExpression, IsName, Print, Spelling, AssignSpelling, Level;
    NamePrints(x, UNARY);
    NamePrints(y, Level(b));
    NamePrints(z, Level(b) + 1);
    InfixPrints(b, Name(y), Name(z), -2);
    AssignmentBody(op, Name(x), Infix(b, Name(y), Name(z)), -3);
    NamesFormed(env, x, y, z);
    InfixFormed(env, b, Name(y), Name(z));
    AssignmentFormed(env, op, Name(x), Infix(b, Name(y), Name(z)));
    ReadsAs(env, Assignment(op, Name(x), Infix(b, Name(y), Name(z))),
            x + (" " + AssignSpelling(op) + (" " + (y + (" " + Spelling(b) + (" " + z))))));
  }

  /** Assignment is looser than every binary operator. */
  lemma AssignmentBinary(env: Env, x: string, j: nat, y: string, k: nat, z: string)
    requires Identifier(env, x) && Identifier(env, y) && Identifier(env, z) && j < |ASSIGNMENT| && k < |BINARY|
    ensures var (a, b) := (ASSIGNMENT[j], BINARY[k]);
            ParseExpression(env, x + (" " + a.0 + (" " + (y + (" " + b.text + (" " + z))))))
            == Some(Parsed(Assignment(a.1, Name(x), Infix(b.op, Name(y), Name(z))), ""))
  {
    hide ParseExpression, Identifier, IsName, Spelling, AssignSpelling;
    AssignmentTokens(j);
    BinaryTokens(k);
    NameExactly(env, x);
    NameExactly(env, y);
    NameExactly(env, z);
    BinaryAssigned(env, x, ASSIGNMENT[j].1, y, BINARY[k].op, z);
  }

  /** Assignments group from the right. */
  lemma AssignmentAssignment(env: Env, x: string, j: nat, y: string, k: nat, z: string)
    requires Identifier(env, x) && Identifier(env, y) && Identifier(env, z) && j < |ASSIGNMENT| && k < |ASSIGNMENT|
    ensures var (a, b) := (ASSIGNMENT[j], ASSIGNMENT[k]);
            ParseExpression(env, x + (" " + a.0 + (" " + (y + (" " + b.0 + (" " + z))))))
            == Some(Parsed(Assignment(a.1, Name(x), Assignment(b.1, Name(y), Name(z))), ""))
  {
    hide ParseExpression, Identifier, IsName, AssignSpelling;
    AssignmentTokens(j);
    AssignmentTokens(k);
    NameExactly(env, x);
    NameExactly(env, y);
    NameExactly(env, z);
    TwoAssignments(env, x, ASSIGNMENT[j].1, y, ASSIGNMENT[k].1, z);
  }

  /** Assignment is looser than the conditional operator. */
  lemma AssignmentConditional(env: Env, x: string, j: nat, c: string, y: string, z: string)
    requires Identifier(env, x) && Identifier(env, c) && Identifier(env, y) && Identifier(env, z) && j < |ASSIGNMENT|
    ensures ParseExpression(env, x + (" " + ASSIGNMENT[j].0 + (" " + (c + (" ? " + (y + (" : " + z)))))))
         == Some(Parsed(Assignment(ASSIGNMENT[j].1, Name(x), Conditional(Name(c), Name(y), Name(z))), ""))
  {
    hide WellFormed, ParseExpression, Identifier, IsName, Print, AssignSpelling;
    var op := ASSIGNMENT[j].1;
    AssignmentTokens(j);
    NameExactly(env, x);
    NameExactly(env, c);
    NameExactly(env, y);
    NameExactly(env, z);
    NamePrints(x, UNARY);
    ConditionalPrints(c, y, z);
    var e := Conditional(Name(c), Name(y), Name(z));
    AssignmentBody(op, Name(x), e, -3);
    NamesFormed(env, c, y, z);
    NamesFormed(env, x, y, z);
    ConditionalFormed(env, Name(c), Name(y), Name(z));
    AssignmentFormed(env, op, Name(x), e);
    ReadsAs(env, Assignment(op, Name(x), e),
            x + (" " + AssignSpelling(op) + (" " + (c + (" ? " + (y + (" : " + z)))))));
  }

  lemma AssignmentListed(env: Env, x: string, op: AssignOp, y: string, z: string)
    requires IsName(env, x) && IsName(env, y) && IsName(env, z)
    ensures ParseExpression(env, x + (" " + AssignSpelling(op) + (" " + y)) + (", " + z))
         == Some(Parsed(Comma([Assignment(op, Name(x), Name(y)), Name(z)]), ""))
  {
    hide ParseExpression, IsName, Print, AssignSpelling, WellFormed;
    NamePrints(x, UNARY);
    NamePrints(y, -2);
    NamePrints(z, -2);
    var a := Assignment(op, Name(x), Name(y));
    AssignmentBody(op, Name(x), Name(y), -2);
    PairPrints(a, Name(z));
    NamesFormed(env, x, y, z);
    AssignmentFormed(env, op, Name(x), Name(y));
    PairFormed(env, a, Name(z));
    ReadsAs(env, Comma([a, Name(z)]), x + (" " + AssignSpelling(op) + (" " + y)) + (", " + z));
  }

  lemma PairFormed(env: Env, a: Expr, b: Expr)
    requires WellFormed(env, a) && WellFormed(env, b)
    ensures WellFormed(env, Comma([a, b]))
  {
  }

  /** The comma operator is the loosest. */
  lemma CommaGroups(env: Env, x: string, j: nat, y: string, z: string)
    requires Identifier(env, x) && Identifier(env, y) && Identifier(env, z) && j < |ASSIGNMENT|
    ensures ParseExpression(env, x + (" " + ASSIGNMENT[j].0 + (" " + y)) + (", " + z))
         == Some(Parsed(Comma([Assignment(ASSIGNMENT[j].1, Name(x), Name(y)), Name(z)]), ""))
  {
    hide ParseExpression, Identifier, IsName, AssignSpelling;
    AssignmentTokens(j);
    NameExactly(env, x);
    NameExactly(env, y);
    NameExactly(env, z);
    AssignmentListed(env, x, ASSIGNMENT[j].1, y, z);
  }

  lemma PairPrints(a: Expr, b: Expr)
    ensures Print(Comma([a, b]), -3) == Print(a, -2) + (", " + Print(b, -2))
  {
    var parts := [a, b];
    assert parts[1..] == [b] && [b][1..] == [];
    assert PrintParts([b]) == ", " + Print(b, -2) by { assert Print(b, -2) + "" == Print(b, -2); }
    assert PrintList(parts) == Print(a, -2) + PrintParts(parts[1..]);
    PrintsBody(Comma(parts), -3);
  }
}
