/** The tokens of expressions as the language writes them (section 6.5 of ISO/IEC 9899:2011): a literal table of
    operators, names and white space, and what the parser makes of every one of them. */
module ExprTokens {
  import opened Wrappers
  import opened Scanning
  import opened ExprSyntax
  import opened ExprParser
  import opened ExprText
  import opened ExprTypes
  import opened ExprCasts
  import opened ExprRoundTrip

  // ----- names -----------------------------------------------------------------------------

  const SMALL := "abcdefghijklm"
  const MORE_SMALL := "nopqrstuvwxyz"
  const LARGE := "ABCDEFGHIJKLM"
  const MORE_LARGE := "NOPQRSTUVWXYZ"
  const DIGITS := "0123456789"

  predicate Starts(c: char) { c in SMALL || c in MORE_SMALL || c in LARGE || c in MORE_LARGE || c == '_' }

  predicate Letter(c: char) { Starts(c) || c in DIGITS }

  /** A name that is no reserved word. */
  predicate Identifier(env: Env, name: string) {
    && name != "" && Starts(name[0]) && name !in env.reserved
    && forall i :: 0 <= i < |name| ==> Letter(name[i])
  }

  lemma SmallExactly(c: char)
    ensures 'a' <= c <= 'm' <==> c in SMALL
  {
    if 'a' <= c <= 'm' {
      assert SMALL[0] == 'a' && SMALL[1] == 'b' && SMALL[2] == 'c' && SMALL[3] == 'd' && SMALL[4] == 'e' &&
          SMALL[5] == 'f' && SMALL[6] == 'g' && SMALL[7] == 'h' && SMALL[8] == 'i' && SMALL[9] == 'j' &&
          SMALL[10] == 'k' && SMALL[11] == 'l' && SMALL[12] == 'm';
    }
  }

  lemma MoreSmallExactly(c: char)
    ensures 'n' <= c <= 'z' <==> c in MORE_SMALL
  {
    if 'n' <= c <= 'z' {
      assert MORE_SMALL[0] == 'n' && MORE_SMALL[1] == 'o' && MORE_SMALL[2] == 'p' && MORE_SMALL[3] == 'q' &&
          MORE_SMALL[4] == 'r' && MORE_SMALL[5] == 's' && MORE_SMALL[6] == 't' && MORE_SMALL[7] == 'u' &&
          MORE_SMALL[8] == 'v' && MORE_SMALL[9] == 'w' && MORE_SMALL[10] == 'x' && MORE_SMALL[11] == 'y' &&
          MORE_SMALL[12] == 'z';
    }
  }

  lemma LargeExactly(c: char)
    ensures 'A' <= c <= 'M' <==> c in LARGE
  {
    if 'A' <= c <= 'M' {
      assert LARGE[0] == 'A' && LARGE[1] == 'B' && LARGE[2] == 'C' && LARGE[3] == 'D' && LARGE[4] == 'E' &&
          LARGE[5] == 'F' && LARGE[6] == 'G' && LARGE[7] == 'H' && LARGE[8] == 'I' && LARGE[9] == 'J' &&
          LARGE[10] == 'K' && LARGE[11] == 'L' && LARGE[12] == 'M';
    }
  }

  lemma MoreLargeExactly(c: char)
    ensures 'N' <= c <= 'Z' <==> c in MORE_LARGE
  {
    if 'N' <= c <= 'Z' {
      assert MORE_LARGE[0] == 'N' && MORE_LARGE[1] == 'O' && MORE_LARGE[2] == 'P' && MORE_LARGE[3] == 'Q' &&
          MORE_LARGE[4] == 'R' && MORE_LARGE[5] == 'S' && MORE_LARGE[6] == 'T' && MORE_LARGE[7] == 'U' &&
          MORE_LARGE[8] == 'V' && MORE_LARGE[9] == 'W' && MORE_LARGE[10] == 'X' && MORE_LARGE[11] == 'Y' &&
          MORE_LARGE[12] == 'Z';
    }
  }

  lemma LetterExactly(c: char)
    ensures NameStart(c) <==> Starts(c)
    ensures NameChar(c) <==> Letter(c)
  {
    SmallExactly(c);
    MoreSmallExactly(c);
    LargeExactly(c);
    MoreLargeExactly(c);
    if '0' <= c <= '9' { assert DIGITS[c as int - '0' as int] == c; }
  }

  lemma {:induction false} LengthExactly(s: string)
    ensures forall i :: 0 <= i < NameLength(s) ==> Letter(s[i])
    ensures NameLength(s) < |s| ==> !Letter(s[NameLength(s)])
  {
    hide Letter, Starts, NameChar;
    if s != "" {
      LetterExactly(s[0]);
      if NameChar(s[0]) { LengthExactly(s[1..]); }
    }
  }

  lemma NameExactly(env: Env, name: string)
    ensures IsName(env, name) <==> Identifier(env, name)
  {
    hide Letter, Starts, NameStart, NameChar;
    LengthExactly(name);
    if name != "" { LetterExactly(name[0]); }
  }

  /** The name read is the longest one, and nothing else is. */
  lemma IdentifierExactly(env: Env, s: string, name: string, rest: string)
    ensures ParseIdentifier(env, s) == Some((name, rest))
       <==> s == name + rest && Identifier(env, name) && (rest != "" ==> !Letter(rest[0]))
  {
    hide Letter, Starts, NameStart, NameChar, IsName;
    NameExactly(env, name);
    if ParseIdentifier(env, s) == Some((name, rest)) {
      LengthExactly(s);
    } else if s == name + rest && Identifier(env, name) && (rest != "" ==> !Letter(rest[0])) {
      if rest != "" { LetterExactly(rest[0]); }
      IdentifierRead(env, name, rest);
    }
  }

  // ----- white space -----------------------------------------------------------------------

  /** Blanks, tabs and line ends. */
  predicate White(w: string) {
    || w == "" || (w[0] in " \t\n" && White(w[1..]))
    || (|w| > 1 && w[0] == '\r' && w[1] == '\n' && White(w[2..]))
  }

  lemma SkipUnfolds(s: string)
    ensures s != "" && (s[0] == ' ' || s[0] == '\t') ==> Skip(s) == Skip(s[1..])
    ensures "\n" <= s ==> Skip(s) == Skip(Directive(s[1..]))
    ensures "\r\n" <= s ==> Skip(s) == Skip(Directive(s[2..]))
    ensures s == "" || (s[0] !in " \t\n" && !("\r\n" <= s)) ==> Skip(s) == s
  {
  }

  lemma Cut(w: string, s: string, n: nat)
    requires n <= |w|
    ensures (w + s)[n..] == w[n..] + s && w[..n] <= w + s
  {
    assert (w + s)[..n] == w[..n];
  }

  lemma NoDirective(w: string, s: string)
    requires White(w) && (s != "" ==> s[0] != '#')
    ensures Directive(w + s) == w + s
  {
    if w == "" { assert w + s == s; } else { assert (w + s)[0] == w[0]; }
  }

  lemma WhiteStarts(w: string)
    requires White(w) && w != ""
    ensures || (w[0] in " \t\n" && White(w[1..]))
            || ("\r\n" <= w && White(w[2..]))
  {
  }

  /** White space separates and says nothing. */
  lemma {:induction false} WhiteSkipped(w: string, s: string)
    requires White(w) && (s != "" ==> s[0] != '#')
    ensures Skip(w + s) == Skip(s)
    decreases |w|
  {
    hide White, Skip, Directive;
    var text := w + s;
    if w == "" {
      assert text == s;
    } else {
      WhiteStarts(w);
      SkipUnfolds(text);
      var n := if "\r\n" <= w then 2 else 1;
      assert White(w[n..]) && text[0] == w[0];
      Cut(w, s, n);
      if n == 2 { assert "\r\n" == w[..2]; }
      NoDirective(w[n..], s);
      WhiteSkipped(w[n..], s);
    }
  }

  /** A line that starts with `#` is skipped up to its end. */
  lemma DirectiveSkipped(end: string, line: string, s: string)
    requires end == "\n" || end == "\r\n"
    requires '\n' !in line && (s != "" ==> s[0] == '\n')
    ensures Skip(end + ("#" + (line + s))) == Skip(s)
  {
    var behind := "#" + (line + s);
    assert (end + behind)[0] == end[0] && (end + behind)[|end|..] == behind;
    assert end == "\r\n" ==> (end + behind)[1] == '\n';
    assert behind[0] == '#' && behind[1..] == line + s;
    LineDropped(line, s);
  }

  lemma {:induction false} LineDropped(line: string, s: string)
    requires '\n' !in line && (s != "" ==> s[0] == '\n')
    ensures DropLine(line + s) == s
  {
    if line == "" {
      assert line + s == s;
    } else {
      assert (line + s)[0] == line[0] && (line + s)[1..] == line[1..] + s;
      LineDropped(line[1..], s);
    }
  }

  /** Nothing else is skipped. */
  lemma SkipStops(s: string)
    ensures Skip(s) == s <==> s == "" || (s[0] !in " \t\n" && !("\r\n" <= s))
  {
  }

  // ----- the operators ---------------------------------------------------------------------

  datatype BinaryToken = BinaryToken(text: string, op: InfixOp, level: nat)

  /** The ten levels from the loosest on. */
  const BINARY: seq<BinaryToken> :=
    [BinaryToken("||", LogicalOr, 0), BinaryToken("&&", LogicalAnd, 1), BinaryToken("|", BitwiseOr, 2),
     BinaryToken("^", BitwiseXor, 3), BinaryToken("&", BitwiseAnd, 4), BinaryToken("==", Equals, 5),
     BinaryToken("!=", NotEquals, 5), BinaryToken("<", Less, 6), BinaryToken(">", Greater, 6),
     BinaryToken("<=", LessOrEqual, 6), BinaryToken(">=", GreaterOrEqual, 6), BinaryToken("<<", ShiftLeft, 7),
     BinaryToken(">>", ShiftRight, 7), BinaryToken("+", Plus, 8), BinaryToken("-", Minus, 8),
     BinaryToken("*", Multiply, 9), BinaryToken("/", Divide, 9), BinaryToken("%", Modulo, 9)]

  const ASSIGNMENT: seq<(string, AssignOp)> :=
    [("=", Assign), ("*=", AssignMultiply), ("/=", AssignDivide), ("%=", AssignModulo), ("+=", AssignPlus),
     ("-=", AssignMinus), ("<<=", AssignShiftLeft), (">>=", AssignShiftRight), ("&=", AssignBitwiseAnd),
     ("^=", AssignBitwiseXor), ("|=", AssignBitwiseOr)]

  const PREFIX: seq<(string, PrefixOp)> :=
    [("++", PreIncrement), ("--", PreDecrement), ("&", Address), ("*", Indirection), ("+", UnaryPlus),
     ("-", UnaryMinus), ("~", Complement), ("!", Negate)]

  const POSTFIXES: seq<(string, Suffix)> := [("++", PostIncrement), ("--", PostDecrement)]

  const MEMBERS: seq<(string, bool)> := [(".", false), ("->", true)]

  lemma BinaryTexts(k: nat)
    requires k < |BINARY|
    ensures Spelling(BINARY[k].op) == BINARY[k].text
  {
    assert "||" == ['|', '|'] && "&&" == ['&', '&'] && "==" == ['=', '='] && "!=" == ['!', '='];
    assert "<=" == ['<', '='] && ">=" == ['>', '='] && "<<" == ['<', '<'] && ">>" == ['>', '>'];
  }

  lemma BinaryLevels(k: nat)
    requires k < |BINARY|
    ensures Level(BINARY[k].op) == BINARY[k].level
  {
  }

  lemma BinaryTokens(k: nat)
    requires k < |BINARY|
    ensures Spelling(BINARY[k].op) == BINARY[k].text && Level(BINARY[k].op) == BINARY[k].level
  {
    hide Spelling, Level;
    BinaryTexts(k);
    BinaryLevels(k);
  }

  /** Every operator has a token. */
  lemma EveryBinary(op: InfixOp) returns (k: nat)
    ensures k < |BINARY| && BINARY[k].op == op
  {
    k := match op
      case LogicalOr => 0 case LogicalAnd => 1 case BitwiseOr => 2 case BitwiseXor => 3 case BitwiseAnd => 4
      case Equals => 5 case NotEquals => 6 case Less => 7 case Greater => 8 case LessOrEqual => 9
      case GreaterOrEqual => 10 case ShiftLeft => 11 case ShiftRight => 12 case Plus => 13 case Minus => 14
      case Multiply => 15 case Divide => 16 case Modulo => 17;
  }

  lemma AssignmentTokens(k: nat)
    requires k < |ASSIGNMENT|
    ensures AssignSpelling(ASSIGNMENT[k].1) == ASSIGNMENT[k].0
  {
  }

  lemma PrefixTokens(k: nat)
    requires k < |PREFIX|
    ensures PrefixSpelling(PREFIX[k].1) == PREFIX[k].0
  {
  }
}
