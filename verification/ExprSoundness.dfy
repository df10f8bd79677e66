/** Whatever the parser reads is a text of the grammar: what it consumes is the text of a concrete tree, at the level
    of the rule, that stands for the expression it returns. */
module ExprSoundness {
  import opened Wrappers
  import opened Scanning
  import opened ExprSyntax
  import opened ExprParser
  import opened ExprText
  import opened ExprTokens
  import G = ExprGrammar

  // ----- pieces of text --------------------------------------------------------------------

  lemma Push2(a: string, b: string, z: string)
    ensures (a + b) + z == a + (b + z)
  {
  }

  lemma Push3(a: string, b: string, c: string, z: string)
    ensures (a + (b + c)) + z == a + (b + (c + z))
  {
  }

  lemma Push5(a: string, b: string, c: string, d: string, e: string, z: string)
    ensures (a + (b + (c + (d + e)))) + z == a + (b + (c + (d + (e + z))))
  {
    Push3(c, d, e, z);
    Push3(a, b, c + (d + e), z);
  }

  lemma Push9(a: string, b: string, c: string, d: string, e: string, f: string, g: string, h: string, i: string,
              z: string)
    ensures (a + (b + (c + (d + (e + (f + (g + (h + i)))))))) + z
         == a + (b + (c + (d + (e + (f + (g + (h + (i + z))))))))
  {
    Push5(e, f, g, h, i, z);
    Push5(a, b, c, d, e + (f + (g + (h + i))), z);
  }

  lemma Stripped(s: string, prefix: string, rest: string)
    requires Strip(s, prefix) == Some(rest)
    ensures s == prefix + rest
  {
  }

  // ----- white space -----------------------------------------------------------------------

  lemma {:induction false} LineGap(s: string)
    ensures exists k :: 0 <= k <= |s| && '\n' !in s[..k] && DropLine(s) == s[k..]
  {
    if s == "" || s[0] == '\n' {
      assert '\n' !in s[..0] && s[0..] == s;
    } else {
      LineGap(s[1..]);
      var k :| 0 <= k <= |s[1..]| && '\n' !in s[1..][..k] && DropLine(s[1..]) == s[1..][k..];
      assert s[..k + 1] == [s[0]] + s[1..][..k] && s[k + 1..] == s[1..][k..];
    }
  }

  /** What is skipped is white space. */
  lemma {:induction false} Gap(s: string) returns (w: string)
    ensures s == w + Skip(s) && G.Layout(w)
    decreases |s|
  {
    SkipUnfolds(s);
    EmptyLayout();
    hide Skip, G.Layout;
    w := "";
    if s != "" && (s[0] == ' ' || s[0] == '\t') {
      var v := Gap(s[1..]);
      w := [s[0]] + v;
      LayoutBlank(s[0], v);
      assert s == [s[0]] + s[1..];
      Push2([s[0]], v, Skip(s));
    } else if "\n" <= s {
      w := LineSkipped(s, "\n");
    } else if "\r\n" <= s {
      w := LineSkipped(s, "\r\n");
    } else {
      assert "" + s == s;
    }
  }

  lemma LayoutBlank(c: char, w: string)
    requires c in " \t" && G.Layout(w)
    ensures G.Layout([c] + w)
  {
    var text := [c] + w;
    assert text[0] == c && text[1..] == w;
  }

  lemma LineEnds(end: string, w: string)
    requires end == "\n" || end == "\r\n"
    ensures G.LineEnd(end + w) == |end| && (end + w)[|end|..] == w
  {
    var text := end + w;
    assert text[0] == end[0] && text[..|end|] == end && end <= text;
  }

  lemma LayoutLine(end: string, w: string)
    requires (end == "\n" || end == "\r\n") && G.Layout(w)
    ensures G.Layout(end + w)
  {
    hide G.LineEnd;
    LineEnds(end, w);
  }

  lemma LayoutDirective(end: string, line: string, w: string)
    requires (end == "\n" || end == "\r\n") && '\n' !in line && G.Layout(w)
    ensures G.Layout(end + ("#" + (line + w)))
  {
    hide G.LineEnd;
    var behind := "#" + (line + w);
    var (text, k) := (end + behind, |end| + 1 + |line|);
    LineEnds(end, behind);
    assert text[|end|..k] == "#" + line && text[k..] == w && text[|end|] == '#';
  }

  lemma {:induction false} LineSkipped(s: string, end: string) returns (w: string)
    requires (end == "\n" || end == "\r\n") && end <= s
    ensures s == w + Skip(s) && G.Layout(w)
    decreases |s|, 0
  {
    var behind := s[|end|..];
    SkipUnfolds(s);
    hide G.Layout, Skip;
    assert s == end + behind && Skip(s) == Skip(Directive(behind));
    var v := Gap(Directive(behind));
    if behind != "" && behind[0] == '#' {
      LineGap(behind[1..]);
      var k :| 0 <= k <= |behind[1..]| && '\n' !in behind[1..][..k] && DropLine(behind[1..]) == behind[1..][k..];
      var line := behind[1..][..k];
      w := end + ("#" + (line + v));
      LayoutDirective(end, line, v);
      DirectiveSplit(behind, k);
      DirectiveGlue(end, line, v, Skip(s));
    } else {
      w := end + v;
      LayoutLine(end, v);
      Push2(end, v, Skip(s));
    }
  }

  lemma DirectiveSplit(behind: string, k: nat)
    requires behind != "" && behind[0] == '#' && k <= |behind[1..]|
    ensures behind == "#" + (behind[1..][..k] + behind[1..][k..])
  {
    assert behind[1..] == behind[1..][..k] + behind[1..][k..];
    assert behind == "#" + behind[1..];
  }

  lemma DirectiveGlue(end: string, line: string, v: string, z: string)
    ensures (end + ("#" + (line + v))) + z == end + ("#" + (line + (v + z)))
  {
    Push3("#", line, v, z);
    Push2(end, "#" + (line + v), z);
  }

  /** White space that is not empty starts with a blank, a line end or a line end and a `#` line. */
  lemma LayoutStart(a: string) returns (front: string, line: string, rest: string)
    requires G.Layout(a) && a != ""
    ensures |rest| < |a| && G.Layout(rest) && '\n' !in line
    ensures || ((front == " " || front == "\t") && a == front + rest)
            || ((front == "\n" || front == "\r\n") && (a == front + rest || a == front + ("#" + (line + rest))))
  {
    line := "";
    var n := G.LineEnd(a);
    if a[0] in " \t" && G.Layout(a[1..]) {
      front, rest := a[..1], a[1..];
    } else if G.Layout(a[n..]) && n > 0 {
      front, rest := a[..n], a[n..];
    } else {
      var k :| n < k <= |a| && '\n' !in a[n..k] && G.Layout(a[k..]);
      front, line, rest := a[..n], a[n + 1..k], a[k..];
      assert a == front + ("#" + (line + rest));
    }
  }

  lemma {:induction false} LayoutJoins(a: string, b: string)
    requires G.Layout(a) && G.Layout(b)
    ensures G.Layout(a + b)
    decreases |a|
  {
    hide G.Layout;
    if a == "" {
      assert a + b == b;
    } else {
      var front, line, rest := LayoutStart(a);
      LayoutJoins(rest, b);
      if front == " " || front == "\t" {
        LayoutBlank(front[0], rest + b);
        assert a + b == [front[0]] + (rest + b);
      } else if a == front + rest {
        LayoutLine(front, rest + b);
        Push2(front, rest, b);
      } else {
        LayoutDirective(front, line, rest + b);
        DirectiveGlue(front, line, rest, b);
      }
    }
  }

  // ----- trees -----------------------------------------------------------------------------

  /** The tree stands for `e` at the level, and its text and a gap are what was read. */
  ghost predicate Reads(env: Env, level: int, s: string, e: Expr, rest: string, t: G.Tree, w: string) {
    G.Fits(env, t, level) && G.Meant(t) == e && G.Layout(w) && s == G.Text(t) + (w + rest)
  }

  lemma Lower(env: Env, t: G.Tree, high: int, low: int)
    requires G.Fits(env, t, high) && low <= high
    ensures G.Fits(env, t, low)
  {
  }

  lemma BinaryIndex(op: InfixOp) returns (k: nat)
    ensures k < |BINARY| && BINARY[k].op == op && BINARY[k].text == Spelling(op) && BINARY[k].level == Level(op)
  {
    hide Spelling, Level;
    k := EveryBinary(op);
    BinaryTokens(k);
  }

  lemma AssignmentIndex(op: AssignOp) returns (k: nat)
    ensures k < |ASSIGNMENT| && ASSIGNMENT[k] == (AssignSpelling(op), op)
  {
    k := match op
      case Assign => 0 case AssignMultiply => 1 case AssignDivide => 2 case AssignModulo => 3 case AssignPlus => 4
      case AssignMinus => 5 case AssignShiftLeft => 6 case AssignShiftRight => 7 case AssignBitwiseAnd => 8
      case AssignBitwiseXor => 9 case AssignBitwiseOr => 10;
  }

  lemma PrefixIndex(op: PrefixOp) returns (k: nat)
    ensures k < |PREFIX| && PREFIX[k] == (PrefixSpelling(op), op)
    ensures k < 2 <==> op == PreIncrement || op == PreDecrement
  {
    k := match op
      case PreIncrement => 0 case PreDecrement => 1 case Address => 2 case Indirection => 3 case UnaryPlus => 4
      case UnaryMinus => 5 case Complement => 6 case Negate => 7;
  }

  // ----- types -----------------------------------------------------------------------------

  lemma {:induction false} StarsSound(s: string) returns (stars: seq<string>)
    ensures var (n, rest) := MatchStars(s);
            |stars| == n && s == G.StarsText(stars) + rest && forall g :: g in stars ==> G.Layout(g)
    decreases |s|
  {
    hide Skip, G.Layout;
    stars := [];
    match Strip(Skip(s), "*") {
      case None => assert G.StarsText([]) + s == s;
      case Some(behind) =>
        var g := Gap(s);
        Stripped(Skip(s), "*", behind);
        var more := StarsSound(behind);
        var rest := MatchStars(behind).1;
        stars := [g] + more;
        assert stars[1..] == more;
        Push3(g, "*", G.StarsText(more), rest);
    }
  }

  lemma TypeSound(env: Env, s: string) returns (t: G.TypeText)
    requires TypeInParentheses(env, s).Some?
    ensures var (ty, rest) := TypeInParentheses(env, s).value;
            G.TypeFits(env, t) && s == G.TypeWords(t) + rest && ty == TypeName(t.name, |t.stars|)
  {
    hide Skip, G.Layout, Identifier, IsName, ParseIdentifier;
    var s1 := Strip(s, "(").value;
    Stripped(s, "(", s1);
    var g := Gap(s1);
    var (name, s2) := ParseIdentifier(env, Skip(s1)).value;
    IdentifierExactly(env, Skip(s1), name, s2);
    var stars := StarsSound(s2);
    var s3 := MatchStars(s2).1;
    var h := Gap(s3);
    var rest := Strip(Skip(s3), ")").value;
    Stripped(Skip(s3), ")", rest);
    t := G.TypeText(g, name, stars, h);
    TypeGlue(g, name, G.StarsText(stars), h, rest);
  }

  lemma TypeGlue(g: string, name: string, stars: string, h: string, rest: string)
    ensures ("(" + (g + (name + (stars + (h + ")"))))) + rest == "(" + (g + (name + (stars + (h + (")" + rest)))))
  {
    Push3(stars, h, ")", rest);
    Push3(g, name, stars + (h + ")"), rest);
    Push2("(", g + (name + (stars + (h + ")"))), rest);
  }

  // ----- the rules -------------------------------------------------------------------------

  lemma {:induction false} PrimarySound(env: Env, s: string) returns (t: G.Tree)
    requires ParsePrimary(env, s).Some?
    ensures var p := ParsePrimary(env, s).value; Reads(env, 13, s, p.e, p.rest, t, "")
    decreases |s|, 1
  {
    hide ParseExpression, Skip, Identifier, IsName, ParseIdentifier;
    var p := ParsePrimary(env, s).value;
    assert "" + p.rest == p.rest;
    match ParseIdentifier(env, s) {
      case Some((name, rest)) =>
        IdentifierExactly(env, s, name, rest);
        t := G.Word(name);
      case None =>
        var g, inner, h := EnclosedSound(env, s, "(", ")");
        t := G.Parens(g, inner, h);
        Push5("(", g, G.Text(inner), h, ")", p.rest);
    }
  }

  lemma {:induction false} EnclosedSound(env: Env, s: string, open: string, close: string)
    returns (g: string, t: G.Tree, h: string)
    requires open != "" && Enclosed(env, s, open, close).Some?
    ensures var p := Enclosed(env, s, open, close).value;
            && G.Layout(g) && G.Layout(h) && G.Fits(env, t, -3) && G.Meant(t) == p.e
            && s == open + (g + (G.Text(t) + (h + (close + p.rest))))
    decreases |s|, 0
  {
    hide ParseExpression, Skip, G.Fits, G.Meant, G.Text;
    var s1 := Strip(s, open).value;
    Stripped(s, open, s1);
    g := Gap(s1);
    var p := ParseExpression(env, Skip(s1)).value;
    var w;
    t, w := ExpressionSound(env, Skip(s1));
    var v := Gap(p.rest);
    h := w + v;
    LayoutJoins(w, v);
    var rest := Strip(Skip(p.rest), close).value;
    Stripped(Skip(p.rest), close, rest);
    Push2(w, v, close + rest);
  }

  lemma {:induction false} ExpressionSound(env: Env, s: string) returns (t: G.Tree, w: string)
    requires ParseExpression(env, s).Some?
    ensures var p := ParseExpression(env, s).value; Reads(env, -3, s, p.e, p.rest, t, w)
    decreases |s|, 9
  {
    hide ParseAssignment, CommaParts, Skip, G.Fits, G.Meant, G.Text, G.Layout, G.PartsFit, G.PartsMeant, G.PartsText;
    var p := ParseAssignment(env, s).value;
    var first, v := AssignmentSound(env, s);
    var u := Gap(p.rest);
    LayoutJoins(v, u);
    Push2(v, u, Skip(p.rest));
    var parts, x := PartsSound(env, Skip(p.rest), v + u, true);
    var (more, rest) := CommaParts(env, Skip(p.rest), true);
    w := x;
    PartsCount(parts);
    if parts == [] {
      t := first;
      Lower(env, first, -2, -3);
      assert "" + (w + rest) == w + rest;
    } else {
      t := G.List(first, parts);
      ListFits(env, first, parts);
      Push2(G.Text(first), G.PartsText(parts), w + rest);
    }
  }

  lemma PartsCount(parts: seq<G.Part>)
    ensures G.PartsMeant(parts) == [] <==> parts == []
    ensures parts == [] ==> G.PartsText(parts) == ""
  {
  }

  lemma ListFits(env: Env, first: G.Tree, parts: seq<G.Part>)
    requires parts != [] && G.Fits(env, first, -2) && G.PartsFit(env, parts)
    ensures var t := G.List(first, parts);
            && G.Fits(env, t, -3) && G.Meant(t) == Comma([G.Meant(first)] + G.PartsMeant(parts))
            && G.Text(t) == G.Text(first) + G.PartsText(parts)
  {
  }

  /** The parts behind a gap `g` that is already read. */
  lemma {:induction false} PartsSound(env: Env, s: string, g: string, first: bool)
    returns (parts: seq<G.Part>, w: string)
    requires G.Layout(g)
    ensures var (es, rest) := CommaParts(env, s, first);
            && G.PartsFit(env, parts) && G.PartsMeant(parts) == es && G.Layout(w)
            && g + s == G.PartsText(parts) + (w + rest)
    decreases |s|, 1
  {
    hide CommaPart, Skip, G.Fits, G.Meant, G.Text, G.Layout;
    var from := if first then s else Skip(s);
    parts, w := [], g;
    if CommaPart(env, from).None? {
      assert G.PartsText([]) + (g + s) == g + s;
    } else {
      var p := CommaPart(env, from).value;
      var before := g;
      if !first {
        var v := Gap(s);
        LayoutJoins(g, v);
        before := g + v;
        Push2(g, v, from);
      }
      var h, t, v := CommaPartSound(env, from);
      var more, x := PartsSound(env, p.rest, v, false);
      var rest := CommaParts(env, p.rest, false).1;
      parts, w := [G.Part(before, h, t)] + more, x;
      assert parts[1..] == more;
      Push5(before, ",", h, G.Text(t), G.PartsText(more), w + rest);
    }
  }

  lemma {:induction false} CommaPartSound(env: Env, s: string) returns (h: string, t: G.Tree, w: string)
    requires CommaPart(env, s).Some?
    ensures var p := CommaPart(env, s).value;
            && G.Layout(h) && G.Layout(w) && G.Fits(env, t, -2) && G.Meant(t) == p.e
            && s == "," + (h + (G.Text(t) + (w + p.rest)))
    decreases |s|, 0
  {
    hide ParseAssignment, Skip, G.Fits, G.Meant, G.Text, G.Layout;
    var s1 := Strip(s, ",").value;
    Stripped(s, ",", s1);
    h := Gap(s1);
    t, w := AssignmentSound(env, Skip(s1));
  }

  lemma {:induction false} AssignmentSound(env: Env, s: string) returns (t: G.Tree, w: string)
    requires ParseAssignment(env, s).Some?
    ensures var p := ParseAssignment(env, s).value; Reads(env, -2, s, p.e, p.rest, t, w)
    decreases |s|, 8
  {
    hide AssignInner, ParseConditional;
    if AssignInner(env, s).Some? {
      t, w := AssignInnerSound(env, s);
    } else {
      t, w := ConditionalSound(env, s);
      Lower(env, t, -1, -2);
    }
  }

  lemma {:induction false} AssignInnerSound(env: Env, s: string) returns (t: G.Tree, w: string)
    requires AssignInner(env, s).Some?
    ensures var p := AssignInner(env, s).value; Reads(env, -2, s, p.e, p.rest, t, w)
    decreases |s|, 5
  {
    hide ParseUnary, AssignTail, Skip, G.Layout, G.Fits, G.Meant, G.Text;
    var p := ParseUnary(env, s).value;
    var target, v := UnarySound(env, s);
    var u := Gap(p.rest);
    LayoutJoins(v, u);
    Push2(v, u, Skip(p.rest));
    var k, h, source, x := AssignTailSound(env, Skip(p.rest));
    var rest := AssignTail(env, Skip(p.rest)).value.1.rest;
    t, w := G.Assigned(target, v + u, k, h, source), x;
    AssignedFits(env, target, v + u, k, h, source);
    Push5(G.Text(target), v + u, ASSIGNMENT[k].0, h, G.Text(source), w + rest);
  }

  lemma AssignedFits(env: Env, l: G.Tree, g: string, k: nat, h: string, r: G.Tree)
    requires k < |ASSIGNMENT| && G.Layout(g) && G.Layout(h) && G.Fits(env, l, 11) && G.Fits(env, r, -2)
    ensures var t := G.Assigned(l, g, k, h, r);
            && G.Fits(env, t, -2) && G.Meant(t) == Assignment(ASSIGNMENT[k].1, G.Meant(l), G.Meant(r))
            && G.Text(t) == G.Text(l) + (g + (ASSIGNMENT[k].0 + (h + G.Text(r))))
  {
    hide G.Layout;
  }

  lemma {:induction false} AssignTailSound(env: Env, s: string) returns (k: nat, h: string, t: G.Tree, w: string)
    requires AssignTail(env, s).Some?
    ensures var (op, p) := AssignTail(env, s).value;
            && k < |ASSIGNMENT| && ASSIGNMENT[k].1 == op && G.Layout(h) && G.Layout(w)
            && G.Fits(env, t, -2) && G.Meant(t) == p.e
            && s == ASSIGNMENT[k].0 + (h + (G.Text(t) + (w + p.rest)))
    decreases |s|, 0
  {
    hide ParseAssignment, Skip, G.Fits, G.Meant, G.Text, G.Layout, AssignSpelling;
    var (op, s1) := MatchAssign(s, 0).value;
    Stripped(s, AssignSpelling(op), s1);
    k := AssignmentIndex(op);
    h := Gap(s1);
    t, w := AssignmentSound(env, Skip(s1));
  }

  lemma {:induction false} ConditionalSound(env: Env, s: string) returns (t: G.Tree, w: string)
    requires ParseConditional(env, s).Some?
    ensures var p := ParseConditional(env, s).value; Reads(env, -1, s, p.e, p.rest, t, w)
    decreases |s|, 7
  {
    hide ParseInfix, Branches, Skip, G.Layout, G.Fits, G.Meant, G.Text;
    var p := ParseInfix(env, 0, s).value;
    var c, v := InfixSound(env, 0, s);
    var u := Gap(p.rest);
    LayoutJoins(v, u);
    Push2(v, u, Skip(p.rest));
    match Branches(env, Skip(p.rest)) {
      case None =>
        t, w := c, v + u;
        Lower(env, c, 0, -1);
      case Some((yes, no, rest)) =>
        var h, y, i, j, n, x := BranchesSound(env, Skip(p.rest));
        t, w := G.Choice(c, v + u, h, y, i, j, n), x;
        ChoiceFits(env, c, v + u, h, y, i, j, n);
        Push9(G.Text(c), v + u, "?", h, G.Text(y), i, ":", j, G.Text(n), w + rest);
    }
  }

  lemma ChoiceFits(env: Env, c: G.Tree, g: string, h: string, y: G.Tree, i: string, j: string, n: G.Tree)
    requires G.Layout(g) && G.Layout(h) && G.Layout(i) && G.Layout(j)
    requires G.Fits(env, c, 0) && G.Fits(env, y, -3) && G.Fits(env, n, -1)
    ensures var t := G.Choice(c, g, h, y, i, j, n);
            && G.Fits(env, t, -1) && G.Meant(t) == Conditional(G.Meant(c), G.Meant(y), G.Meant(n))
            && G.Text(t) == G.Text(c) + (g + ("?" + (h + (G.Text(y) + (i + (":" + (j + G.Text(n))))))))
  {
    hide G.Layout;
  }

  lemma {:induction false} BranchesSound(env: Env, s: string)
    returns (h: string, y: G.Tree, i: string, j: string, n: G.Tree, w: string)
    requires Branches(env, s).Some?
    ensures var (yes, no, rest) := Branches(env, s).value;
            && G.Layout(h) && G.Layout(i) && G.Layout(j) && G.Layout(w)
            && G.Fits(env, y, -3) && G.Meant(y) == yes && G.Fits(env, n, -1) && G.Meant(n) == no
            && s == "?" + (h + (G.Text(y) + (i + (":" + (j + (G.Text(n) + (w + rest)))))))
    decreases |s|, 0
  {
    hide ParseExpression, ParseConditional, Skip, G.Fits, G.Meant, G.Text, G.Layout;
    var s1 := Strip(s, "?").value;
    Stripped(s, "?", s1);
    h := Gap(s1);
    var p := ParseExpression(env, Skip(s1)).value;
    var v;
    y, v := ExpressionSound(env, Skip(s1));
    var u := Gap(p.rest);
    i := v + u;
    LayoutJoins(v, u);
    var s2 := Strip(Skip(p.rest), ":").value;
    Stripped(Skip(p.rest), ":", s2);
    j := Gap(s2);
    n, w := ConditionalSound(env, Skip(s2));
    Push2(v, u, Skip(p.rest));
  }

  // ----- binary operators ------------------------------------------------------------------

  lemma {:induction false} PickedCandidate(env: Env, min: nat, s: string, k: nat)
    requires k <= |TABLE| && TryOps(env, min, s, k).Some?
    ensures var step := TryOps(env, min, s, k).value;
            Level(step.op) >= min && Candidate(env, step.op, s) == Some(step)
    ensures forall m: nat :: m <= Level(TryOps(env, min, s, k).value.op) ==> TryOps(env, m, s, k).Some?
    decreases |TABLE| - k
  {
    hide Candidate, Level;
    var found := if Level(TABLE[k]) >= min then Candidate(env, TABLE[k], s) else None;
    if found.Some? {
      CandidateOp(env, TABLE[k], s);
    } else {
      PickedCandidate(env, min, s, k + 1);
      forall m: nat | m <= Level(TryOps(env, min, s, k).value.op) ensures TryOps(env, m, s, k).Some? {
        assert TryOps(env, m, s, k + 1).Some?;
      }
    }
  }

  lemma CandidateOp(env: Env, op: InfixOp, s: string)
    ensures Candidate(env, op, s).Some? ==> Candidate(env, op, s).value.op == op
  {
  }

  lemma {:induction false} CandidateSound(env: Env, op: InfixOp, s: string)
    returns (g: string, k: nat, h: string, t: G.Tree, w: string)
    requires Candidate(env, op, s).Some?
    ensures var step := Candidate(env, op, s).value;
            && step.op == op && k < |BINARY| && BINARY[k].op == op && BINARY[k].level == Level(op)
            && G.Layout(g) && G.Layout(h) && G.Layout(w)
            && G.Fits(env, t, Level(op) + 1) && G.Meant(t) == step.right
            && s == g + (BINARY[k].text + (h + (G.Text(t) + (w + step.rest))))
    ensures TryOps(env, Level(op) + 1, Candidate(env, op, s).value.rest, 0) == None
    decreases |s|, 0
  {
    hide ParseInfix, Skip, G.Fits, G.Meant, G.Text, G.Layout, Spelling, Level;
    g := Gap(s);
    var s1 := MatchOp(op, Skip(s)).value;
    Stripped(Skip(s), Spelling(op), s1);
    k := BinaryIndex(op);
    h := Gap(s1);
    t, w := InfixSound(env, Level(op) + 1, Skip(s1));
    InfixStops(env, Level(op) + 1, Skip(s1));
  }

  lemma {:induction false} LoopStops(env: Env, min: nat, e: Expr, s: string)
    requires WellFormed(env, e)
    ensures TryOps(env, min, InfixLoop(env, min, e, s).rest, 0) == None
    decreases |s|
  {
    hide TryOps;
    if TryOps(env, min, s, 0).Some? {
      var step := TryOps(env, min, s, 0).value;
      LoopStops(env, min, Infix(step.op, e, step.right), step.rest);
    }
  }

  lemma InfixStops(env: Env, min: nat, s: string)
    requires ParseInfix(env, min, s).Some?
    ensures TryOps(env, min, ParseInfix(env, min, s).value.rest, 0) == None
  {
    hide ParseCast, InfixLoop, TryOps;
    var p := ParseCast(env, s).value;
    LoopStops(env, min, p.e, p.rest);
  }

  /** The loop with a tree of level `n` on its left, behind which nothing of a higher level applies. */
  lemma {:induction false} LoopSound(env: Env, min: nat, n: nat, e: Expr, s: string, l: G.Tree, g: string)
    returns (t: G.Tree, w: string)
    requires WellFormed(env, e) && min <= n <= 10 && G.Fits(env, l, n) && G.Meant(l) == e && G.Layout(g)
    requires n < 10 ==> TryOps(env, n + 1, s, 0) == None
    ensures var p := InfixLoop(env, min, e, s);
            && G.Fits(env, t, min) && G.Meant(t) == p.e && G.Layout(w)
            && G.Text(l) + (g + s) == G.Text(t) + (w + p.rest)
    decreases |s|, 1
  {
    hide TryOps, Candidate, G.Layout, Level, G.Fits, G.Meant, G.Text, WellFormed;
    t, w := l, g;
    if TryOps(env, min, s, 0).None? {
      Lower(env, l, n, min);
    } else {
      var step := TryOps(env, min, s, 0).value;
      var own := Level(step.op);
      PickedCandidate(env, min, s, 0);
      assert own <= n;
      var v, k, h, r, x := CandidateSound(env, step.op, s);
      LayoutJoins(g, v);
      Push2(g, v, BINARY[k].text + (h + (G.Text(r) + (x + step.rest))));
      var b := G.Binary(l, g + v, k, h, r);
      Lower(env, l, n, own);
      BinaryFits(env, l, g + v, k, h, r);
      Push5(G.Text(l), g + v, BINARY[k].text, h, G.Text(r), x + step.rest);
      assert WellFormed(env, Infix(step.op, e, step.right)) by { InfixFormed(env, step.op, e, step.right); }
      t, w := LoopSound(env, min, own, Infix(step.op, e, step.right), step.rest, b, x);
    }
  }

  lemma InfixFormed(env: Env, op: InfixOp, l: Expr, r: Expr)
    requires WellFormed(env, l) && WellFormed(env, r)
    ensures WellFormed(env, Infix(op, l, r))
  {
  }

  lemma BinaryFits(env: Env, l: G.Tree, g: string, k: nat, h: string, r: G.Tree)
    requires k < |BINARY| && G.Layout(g) && G.Layout(h)
    requires G.Fits(env, l, BINARY[k].level) && G.Fits(env, r, BINARY[k].level + 1)
    ensures var b := G.Binary(l, g, k, h, r);
            && G.Fits(env, b, BINARY[k].level) && G.Meant(b) == Infix(BINARY[k].op, G.Meant(l), G.Meant(r))
            && G.Text(b) == G.Text(l) + (g + (BINARY[k].text + (h + G.Text(r))))
  {
    hide G.Layout, G.PartsFit, G.EndingFits, G.TypeFits, G.PartsText, G.EndingText, G.PartsMeant, G.EndingMeant;
  }

  lemma {:induction false} InfixSound(env: Env, min: nat, s: string) returns (t: G.Tree, w: string)
    requires min <= 10 && ParseInfix(env, min, s).Some?
    ensures var p := ParseInfix(env, min, s).value; Reads(env, min, s, p.e, p.rest, t, w)
    decreases |s|, 6
  {
    hide ParseCast, InfixLoop, TryOps;
    var p := ParseCast(env, s).value;
    var l, g := CastSound(env, s);
    t, w := LoopSound(env, min, 10, p.e, p.rest, l, g);
  }

  // ----- casts and unary expressions -------------------------------------------------------

  lemma {:induction false} CastSound(env: Env, s: string) returns (t: G.Tree, w: string)
    requires ParseCast(env, s).Some?
    ensures var p := ParseCast(env, s).value; Reads(env, 10, s, p.e, p.rest, t, w)
    decreases |s|, 5
  {
    hide Converted, ParseUnary;
    if Converted(env, s).Some? {
      t, w := ConvertedSound(env, s);
    } else {
      t, w := UnarySound(env, s);
      Lower(env, t, 11, 10);
    }
  }

  lemma {:induction false} ConvertedSound(env: Env, s: string) returns (t: G.Tree, w: string)
    requires Converted(env, s).Some?
    ensures var p := Converted(env, s).value; Reads(env, 10, s, p.e, p.rest, t, w)
    decreases |s|, 1
  {
    hide TypeInParentheses, ParseCast, Skip, G.TypeWords, G.TypeFits, G.Layout;
    var (ty, s1) := TypeInParentheses(env, s).value;
    var to := TypeSound(env, s);
    var g := Gap(s1);
    var operand, x := CastSound(env, Skip(s1));
    var p := ParseCast(env, Skip(s1)).value;
    t, w := G.Convert(to, g, operand), x;
    Push3(G.TypeWords(to), g, G.Text(operand), w + p.rest);
  }

  lemma {:induction false} UnarySound(env: Env, s: string) returns (t: G.Tree, w: string)
    requires ParseUnary(env, s).Some?
    ensures var p := ParseUnary(env, s).value; Reads(env, 11, s, p.e, p.rest, t, w)
    decreases |s|, 4
  {
    hide ParsePostfix, Incremented, Operated, Measured;
    if ParsePostfix(env, s).Some? {
      t, w := PostfixSound(env, s);
      Lower(env, t, 12, 11);
    } else if Incremented(env, s).Some? {
      t, w := IncrementedSound(env, s);
    } else if Operated(env, s).Some? {
      t, w := OperatedSound(env, s);
    } else {
      t, w := MeasuredSound(env, s);
    }
  }

  lemma IncrementText(s: string) returns (k: nat)
    requires MatchIncrement(s).Some?
    ensures var (op, rest) := MatchIncrement(s).value; k < 2 && PREFIX[k].1 == op && s == PREFIX[k].0 + rest
  {
    k := if Strip(s, "++").Some? then 0 else 1;
    Stripped(s, PREFIX[k].0, MatchIncrement(s).value.1);
  }

  lemma UnaryText(s: string) returns (k: nat)
    requires MatchUnary(s).Some?
    ensures var (op, rest) := MatchUnary(s).value;
            2 <= k < |PREFIX| && PREFIX[k].1 == op && s == PREFIX[k].0 + rest
  {
    k := PrefixIndex(MatchUnary(s).value.0);
    assert s == [s[0]] + s[1..];
  }

  lemma {:induction false} IncrementedSound(env: Env, s: string) returns (t: G.Tree, w: string)
    requires Incremented(env, s).Some?
    ensures var p := Incremented(env, s).value; Reads(env, 11, s, p.e, p.rest, t, w)
    decreases |s|, 1
  {
    hide MatchIncrement, ParseUnary, Skip;
    var s1 := MatchIncrement(s).value.1;
    var k := IncrementText(s);
    var g := Gap(s1);
    var operand, x := UnarySound(env, Skip(s1));
    var p := ParseUnary(env, Skip(s1)).value;
    t, w := G.Prefixed(k, g, operand), x;
    Push3(PREFIX[k].0, g, G.Text(operand), w + p.rest);
  }

  lemma {:induction false} OperatedSound(env: Env, s: string) returns (t: G.Tree, w: string)
    requires Operated(env, s).Some?
    ensures var p := Operated(env, s).value; Reads(env, 11, s, p.e, p.rest, t, w)
    decreases |s|, 1
  {
    hide MatchUnary, ParseCast, Skip;
    var s1 := MatchUnary(s).value.1;
    var k := UnaryText(s);
    var g := Gap(s1);
    var operand, x := CastSound(env, Skip(s1));
    var p := ParseCast(env, Skip(s1)).value;
    t, w := G.Prefixed(k, g, operand), x;
    Push3(PREFIX[k].0, g, G.Text(operand), w + p.rest);
  }

  lemma {:induction false} MeasuredSound(env: Env, s: string) returns (t: G.Tree, w: string)
    requires Measured(env, s).Some?
    ensures var p := Measured(env, s).value; Reads(env, 11, s, p.e, p.rest, t, w)
    decreases |s|, 1
  {
    hide TypeInParentheses, ParseUnary, Skip, G.TypeWords, Letter, NameChar;
    var s1 := MatchWord(s, SIZEOF).value;
    Stripped(s, "sizeof", s1);
    var g := Gap(s1);
    if TypeInParentheses(env, Skip(s1)).Some? {
      var measured := TypeSound(env, Skip(s1));
      var rest := TypeInParentheses(env, Skip(s1)).value.1;
      t, w := G.Measure(g, measured), "";
      assert "" + rest == rest;
      Push3("sizeof", g, G.TypeWords(measured), rest);
    } else {
      var p := ParseUnary(env, Skip(s1)).value;
      var value, x := UnarySound(env, Skip(s1));
      t, w := G.MeasureOf(g, value), x;
      Push3("sizeof", g, G.Text(value), w + p.rest);
      Push2(g, G.Text(value), w + p.rest);
      var front := g + G.Text(value);
      if front != "" {
        assert s1 == front + (w + p.rest) && s1[0] == front[0];
        LetterExactly(s1[0]);
      }
    }
  }

  // ----- postfix expressions ---------------------------------------------------------------

  lemma {:induction false} PostfixSound(env: Env, s: string) returns (t: G.Tree, w: string)
    requires ParsePostfix(env, s).Some?
    ensures var p := ParsePostfix(env, s).value; Reads(env, 12, s, p.e, p.rest, t, w)
    decreases |s|, 3
  {
    hide ParsePrimary, Tail, Skip;
    var p := ParsePrimary(env, s).value;
    var base := PrimarySound(env, s);
    assert "" + p.rest == p.rest;
    var g := Gap(p.rest);
    Lower(env, base, 13, 12);
    t, w := TailSound(env, p.e, Skip(p.rest), true, base, g);
  }

  lemma {:induction false} TailSound(env: Env, e: Expr, s: string, first: bool, base: G.Tree, g: string)
    returns (t: G.Tree, w: string)
    requires WellFormed(env, e) && G.Fits(env, base, 12) && G.Meant(base) == e && G.Layout(g)
    ensures var p := Tail(env, e, s, first);
            && G.Fits(env, t, 12) && G.Meant(t) == p.e && G.Layout(w)
            && G.Text(base) + (g + s) == G.Text(t) + (w + p.rest)
    decreases |s|, 2
  {
    hide ParseSuffix, Skip, G.Layout;
    t, w := base, g;
    var from := if first then s else Skip(s);
    if ParseSuffix(env, from).Some? {
      var (suffix, rest) := ParseSuffix(env, from).value;
      var before := g;
      if !first {
        var v := Gap(s);
        LayoutJoins(g, v);
        before := g + v;
        Push2(g, v, from);
      }
      var ending := SuffixSound(env, from);
      var longer := G.Suffixed(base, before, ending);
      SuffixedFits(env, base, before, ending);
      Push3(G.Text(base), before, G.EndingText(ending), rest);
      assert "" + rest == rest;
      assert G.Layout("") by { EmptyLayout(); }
      t, w := TailSound(env, Postfix(e, suffix), rest, false, longer, "");
    }
  }

  lemma EmptyLayout()
    ensures G.Layout("")
  {
  }

  lemma SuffixedFits(env: Env, base: G.Tree, g: string, ending: G.Ending)
    requires G.Fits(env, base, 12) && G.Layout(g) && G.EndingFits(env, ending)
    ensures var t := G.Suffixed(base, g, ending);
            && G.Fits(env, t, 12) && G.Meant(t) == Postfix(G.Meant(base), G.EndingMeant(ending))
            && G.Text(t) == G.Text(base) + (g + G.EndingText(ending))
  {
    hide G.Layout, G.EndingFits, G.EndingText, G.EndingMeant;
  }

  lemma {:induction false} SuffixSound(env: Env, s: string) returns (ending: G.Ending)
    requires ParseSuffix(env, s).Some?
    ensures var (suffix, rest) := ParseSuffix(env, s).value;
            G.EndingFits(env, ending) && G.EndingMeant(ending) == suffix && s == G.EndingText(ending) + rest
    decreases |s|, 1
  {
    hide Enclosed, CallSuffix, MemberSuffix, MatchPostfix;
    if Enclosed(env, s, "[", "]").Some? {
      var p := Enclosed(env, s, "[", "]").value;
      var g, index, h := EnclosedSound(env, s, "[", "]");
      ending := G.Indexed(g, index, h);
      Push5("[", g, G.Text(index), h, "]", p.rest);
    } else if CallSuffix(env, s).Some? {
      ending := CallSound(env, s);
    } else if MemberSuffix(env, s).Some? {
      ending := MemberSound(env, s);
    } else {
      ending := StepSound(s);
    }
  }

  lemma StepSound(s: string) returns (ending: G.Ending)
    requires MatchPostfix(s).Some?
    ensures var (suffix, rest) := MatchPostfix(s).value;
            ending.Stepped? && ending.k < |POSTFIXES| && POSTFIXES[ending.k].1 == suffix
            && s == POSTFIXES[ending.k].0 + rest
  {
    var k := if Strip(s, "++").Some? then 0 else 1;
    ending := G.Stepped(k);
    Stripped(s, POSTFIXES[k].0, MatchPostfix(s).value.1);
  }

  lemma MemberSound(env: Env, s: string) returns (ending: G.Ending)
    requires MemberSuffix(env, s).Some?
    ensures var (suffix, rest) := MemberSuffix(env, s).value;
            G.EndingFits(env, ending) && G.EndingMeant(ending) == suffix && s == G.EndingText(ending) + rest
  {
    hide Skip, Identifier, IsName, ParseIdentifier, G.Layout;
    var (indirect, s1) := MatchMember(s).value;
    var k := if indirect then 1 else 0;
    Stripped(s, MEMBERS[k].0, s1);
    var g := Gap(s1);
    var (name, rest) := ParseIdentifier(env, Skip(s1)).value;
    IdentifierExactly(env, Skip(s1), name, rest);
    ending := G.Membered(k, g, name);
    Push3(MEMBERS[k].0, g, name, rest);
  }

  lemma {:induction false} CallSound(env: Env, s: string) returns (ending: G.Ending)
    requires CallSuffix(env, s).Some?
    ensures var (suffix, rest) := CallSuffix(env, s).value;
            G.EndingFits(env, ending) && G.EndingMeant(ending) == suffix && s == G.EndingText(ending) + rest
    decreases |s|, 0
  {
    hide Arguments, Skip, G.Layout, G.Text, G.Fits, G.Meant, G.PartsText, G.PartsFit, G.PartsMeant;
    var s1 := Strip(s, "(").value;
    Stripped(s, "(", s1);
    var g := Gap(s1);
    var (arguments, s2) := Arguments(env, Skip(s1));
    var rest := Strip(Skip(s2), ")").value;
    Stripped(Skip(s2), ")", rest);
    var v := Gap(s2);
    if ParseAssignment(env, Skip(s1)).None? {
      assert arguments == [] && s2 == Skip(s1) by { NoArguments(env, Skip(s1)); }
      LayoutJoins(g, v);
      ending := G.Empty(g + v);
      Push2(g, v, ")" + rest);
      Push3("(", g + v, ")", rest);
    } else {
      var first, parts, w := ArgumentsSound(env, Skip(s1));
      LayoutJoins(w, v);
      ending := G.Called(g, first, parts, w + v);
      Push2(w, v, ")" + rest);
      CallGlue(g, G.Text(first), G.PartsText(parts), w + v, rest);
    }
  }

  lemma NoArguments(env: Env, s: string)
    requires ParseAssignment(env, s).None?
    ensures Arguments(env, s) == ([], s)
  {
  }

  lemma CallGlue(g: string, first: string, parts: string, h: string, rest: string)
    ensures ("(" + (g + (first + (parts + (h + ")"))))) + rest == "(" + (g + (first + (parts + (h + (")" + rest)))))
  {
    Push3(parts, h, ")", rest);
    Push3(g, first, parts + (h + ")"), rest);
    Push2("(", g + (first + (parts + (h + ")"))), rest);
  }

  lemma {:induction false} ArgumentsSound(env: Env, s: string) returns (t: G.Tree, parts: seq<G.Part>, w: string)
    requires ParseAssignment(env, s).Some?
    ensures var (es, rest) := Arguments(env, s);
            && G.Fits(env, t, -2) && G.PartsFit(env, parts) && G.Layout(w)
            && es == [G.Meant(t)] + G.PartsMeant(parts) && s == G.Text(t) + (G.PartsText(parts) + (w + rest))
    decreases |s|, 9
  {
    hide ParseAssignment, CommaParts, G.Layout, G.Text, G.Fits, G.Meant, G.PartsText, G.PartsFit, G.PartsMeant;
    var p := ParseAssignment(env, s).value;
    var v;
    t, v := AssignmentSound(env, s);
    parts, w := PartsSound(env, p.rest, v, false);
  }

  /** Whatever is read as an expression: its text, up to the rest, is one of the grammar for that expression. */
  lemma ParsedIsGrammar(env: Env, s: string)
    requires ParseExpression(env, s).Some?
    ensures var p := ParseExpression(env, s).value;
            exists t, w :: G.Fits(env, t, -3) && G.Meant(t) == p.e && G.Layout(w) && s == G.Text(t) + (w + p.rest)
  {
    hide ParseExpression;
    var t, w := ExpressionSound(env, s);
  }
}
