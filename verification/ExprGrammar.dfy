/** The expression grammar of section 6.5 of ISO/IEC 9899:2011 with its texts: concrete trees that keep parentheses and
    white space, the text of each, and the expression that it stands for. */
module ExprGrammar {
  import opened Wrappers
  import opened ExprSyntax
  import opened ExprTokens

  // ----- white space -----------------------------------------------------------------------

  function LineEnd(w: string): nat {
    if "\n" <= w then 1 else if "\r\n" <= w then 2 else 0
  }

  /** Blanks, tabs, line ends, and lines that start with `#`. */
  ghost predicate Layout(w: string)
    decreases |w|
  {
    || w == ""
    || (w[0] in " \t" && Layout(w[1..]))
    || (0 < LineEnd(w) <= |w| && Layout(w[LineEnd(w)..]))
    || (0 < LineEnd(w) < |w| && w[LineEnd(w)] == '#'
        && exists k :: LineEnd(w) < k <= |w| && '\n' !in w[LineEnd(w)..k] && Layout(w[k..]))
  }

  // ----- concrete trees --------------------------------------------------------------------

  /** Gaps are named by their place: in front of, or behind, the token or part that they stand beside. */
  datatype Tree =
    | Word(name: string)
    | Parens(g: string, inner: Tree, h: string)
    | Measure(g: string, measured: TypeText)
    | MeasureOf(g: string, value: Tree)
    | Convert(to: TypeText, g: string, operand: Tree)
    | Suffixed(base: Tree, g: string, suffix: Ending)
    | Prefixed(k: nat, g: string, operand: Tree)
    | Binary(left: Tree, g: string, k: nat, h: string, right: Tree)
    | Choice(condition: Tree, g: string, h: string, yes: Tree, i: string, j: string, no: Tree)
    | Assigned(target: Tree, g: string, k: nat, h: string, source: Tree)
    | List(first: Tree, rest: seq<Part>)

  /** One more part behind a comma. */
  datatype Part = Part(g: string, h: string, tree: Tree)

  /** A typedef name and its stars between parentheses. */
  datatype TypeText = TypeText(g: string, name: string, stars: seq<string>, h: string)

  datatype Ending =
    | Indexed(g: string, index: Tree, h: string)
    | Empty(g: string)
    | Called(g: string, first: Tree, rest: seq<Part>, h: string)
    | Membered(k: nat, g: string, name: string)
    | Stepped(k: nat)

  // ----- texts -----------------------------------------------------------------------------

  function Text(t: Tree): string
    decreases t
  {
    match t
    case Word(name) => name
    case Parens(g, inner, h) => "(" + (g + (Text(inner) + (h + ")")))
    case Measure(g, measured) => "sizeof" + (g + TypeWords(measured))
    case MeasureOf(g, value) => "sizeof" + (g + Text(value))
    case Convert(to, g, operand) => TypeWords(to) + (g + Text(operand))
    case Suffixed(base, g, suffix) => Text(base) + (g + EndingText(suffix))
    case Prefixed(k, g, operand) => (if k < |PREFIX| then PREFIX[k].0 else "") + (g + Text(operand))
    case Binary(left, g, k, h, right) =>
      Text(left) + (g + ((if k < |BINARY| then BINARY[k].text else "") + (h + Text(right))))
    case Choice(c, g, h, yes, i, j, no) =>
      Text(c) + (g + ("?" + (h + (Text(yes) + (i + (":" + (j + Text(no))))))))
    case Assigned(target, g, k, h, source) =>
      Text(target) + (g + ((if k < |ASSIGNMENT| then ASSIGNMENT[k].0 else "") + (h + Text(source))))
    case List(first, rest) => Text(first) + PartsText(rest)
  }

  function PartsText(parts: seq<Part>): string
    decreases parts
  {
    if parts == [] then ""
    else
      assert parts[0].tree < parts[0];
      parts[0].g + ("," + (parts[0].h + (Text(parts[0].tree) + PartsText(parts[1..]))))
  }

  function TypeWords(t: TypeText): string { "(" + (t.g + (t.name + (StarsText(t.stars) + (t.h + ")")))) }

  function StarsText(stars: seq<string>): string {
    if stars == [] then "" else stars[0] + ("*" + StarsText(stars[1..]))
  }

  function EndingText(e: Ending): string
    decreases e
  {
    match e
    case Indexed(g, index, h) => "[" + (g + (Text(index) + (h + "]")))
    case Empty(g) => "(" + (g + ")")
    case Called(g, first, rest, h) => "(" + (g + (Text(first) + (PartsText(rest) + (h + ")"))))
    case Membered(k, g, name) => (if k < |MEMBERS| then MEMBERS[k].0 else "") + (g + name)
    case Stepped(k) => if k < |POSTFIXES| then POSTFIXES[k].0 else ""
  }

  // ----- what the trees stand for ----------------------------------------------------------

  function Meant(t: Tree): Expr
    decreases t
  {
    match t
    case Word(name) => Name(name)
    case Parens(_, inner, _) => Meant(inner)
    case Measure(_, measured) => SizeOfType(TypeName(measured.name, |measured.stars|))
    case MeasureOf(_, value) => SizeOfValue(Meant(value))
    case Convert(to, _, operand) => Cast(TypeName(to.name, |to.stars|), Meant(operand))
    case Suffixed(base, _, suffix) => Postfix(Meant(base), EndingMeant(suffix))
    case Prefixed(k, _, operand) => if k < |PREFIX| then Prefix(PREFIX[k].1, Meant(operand)) else Meant(operand)
    case Binary(left, _, k, _, right) =>
      if k < |BINARY| then Infix(BINARY[k].op, Meant(left), Meant(right)) else Meant(left)
    case Choice(c, _, _, yes, _, _, no) => Conditional(Meant(c), Meant(yes), Meant(no))
    case Assigned(target, _, k, _, source) =>
      if k < |ASSIGNMENT| then Assignment(ASSIGNMENT[k].1, Meant(target), Meant(source)) else Meant(target)
    case List(first, rest) => Comma([Meant(first)] + PartsMeant(rest))
  }

  function PartsMeant(parts: seq<Part>): seq<Expr>
    decreases parts
  {
    if parts == [] then []
    else
      assert parts[0].tree < parts[0];
      [Meant(parts[0].tree)] + PartsMeant(parts[1..])
  }

  function EndingMeant(e: Ending): Suffix
    decreases e
  {
    match e
    case Indexed(_, index, _) => Index(Meant(index))
    case Empty(_) => Call([])
    case Called(_, first, rest, _) => Call([Meant(first)] + PartsMeant(rest))
    case Membered(k, _, name) => Member(k < |MEMBERS| && MEMBERS[k].1, name)
    case Stepped(k) => if k < |POSTFIXES| then POSTFIXES[k].1 else PostIncrement
  }

  // ----- the grammar -----------------------------------------------------------------------

  ghost predicate TypeFits(env: Env, t: TypeText) {
    && Layout(t.g) && Layout(t.h) && (forall s :: s in t.stars ==> Layout(s))
    && Identifier(env, t.name) && t.name in env.types
  }

  /** The tree is one of the grammar at a level: comma -3, assignment -2, conditional -1, the ten binary levels, cast
      10, unary 11, postfix 12, primary 13. */
  ghost predicate Fits(env: Env, t: Tree, level: int)
    decreases t
  {
    match t
    case Word(name) => Identifier(env, name)
    case Parens(g, inner, h) => Layout(g) && Layout(h) && Fits(env, inner, -3)
    case Measure(g, measured) => level <= 11 && Layout(g) && TypeFits(env, measured)
    case MeasureOf(g, value) =>
      level <= 11 && Layout(g) && Fits(env, value, 11) && (g + Text(value) != "" ==> !Letter((g + Text(value))[0]))
    case Convert(to, g, operand) => level <= 10 && TypeFits(env, to) && Layout(g) && Fits(env, operand, 10)
    case Suffixed(base, g, suffix) => level <= 12 && Fits(env, base, 12) && Layout(g) && EndingFits(env, suffix)
    case Prefixed(k, g, operand) =>
      level <= 11 && k < |PREFIX| && Layout(g) && Fits(env, operand, if k < 2 then 11 else 10)
    case Binary(left, g, k, h, right) =>
      && k < |BINARY| && level <= BINARY[k].level && Layout(g) && Layout(h)
      && Fits(env, left, BINARY[k].level) && Fits(env, right, BINARY[k].level + 1)
    case Choice(c, g, h, yes, i, j, no) =>
      && level <= -1 && Layout(g) && Layout(h) && Layout(i) && Layout(j)
      && Fits(env, c, 0) && Fits(env, yes, -3) && Fits(env, no, -1)
    case Assigned(target, g, k, h, source) =>
      && level <= -2 && k < |ASSIGNMENT| && Layout(g) && Layout(h)
      && Fits(env, target, 11) && Fits(env, source, -2)
    case List(first, rest) => level <= -3 && rest != [] && Fits(env, first, -2) && PartsFit(env, rest)
  }

  ghost predicate PartsFit(env: Env, parts: seq<Part>)
    decreases parts
  {
    parts == []
    || (assert parts[0].tree < parts[0];
        Layout(parts[0].g) && Layout(parts[0].h) && Fits(env, parts[0].tree, -2) && PartsFit(env, parts[1..]))
  }

  ghost predicate EndingFits(env: Env, e: Ending)
    decreases e
  {
    match e
    case Indexed(g, index, h) => Layout(g) && Layout(h) && Fits(env, index, -3)
    case Empty(g) => Layout(g)
    case Called(g, first, rest, h) => Layout(g) && Layout(h) && Fits(env, first, -2) && PartsFit(env, rest)
    case Membered(k, g, name) => k < |MEMBERS| && Layout(g) && Identifier(env, name)
    case Stepped(k) => k < |POSTFIXES|
  }
}
