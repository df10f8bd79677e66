/** The loops of the expression rules (src/parser): operators of one precedence climb, the parts of a
    comma expression, the suffixes of a postfix expression, and the arguments of a call. */
module ExprLoops {
  import opened Wrappers
  import opened Scanning
  import opened ExprSyntax
  import opened ExprParser

  /** The loop of `__infix_parse`. */
  method InfixParse(env: Env, min: nat, s: string) returns (r: Option<Parsed>)
    ensures r == ParseInfix(env, min, s)
  {
    var operand := ParseCast(env, s);
    if operand.None? { return None; }
    var result, position := operand.value.e, operand.value.rest;
    while true
      invariant WellFormed(env, result)
      invariant Some(InfixLoop(env, min, result, position)) == ParseInfix(env, min, s)
      decreases |position|
    {
      var step := TryOps(env, min, position, 0);
      if step.None? { break; }
      result, position := Infix(step.value.op, result, step.value.right), step.value.rest;
    }
    return Some(Parsed(result, position));
  }

  /** The repetition of `__parse_expression0`. */
  method ExpressionParse(env: Env, s: string) returns (r: Option<Parsed>)
    ensures r == ParseExpression(env, s)
  {
    var first := ParseAssignment(env, s);
    if first.None? { return None; }
    var parts: seq<Expr>, position := [], Skip(first.value.rest);
    ghost var all := CommaParts(env, position, true);
    while true
      invariant parts + CommaParts(env, position, parts == []).0 == all.0
      invariant CommaParts(env, position, parts == []).1 == all.1
      decreases |position|
    {
      var next := CommaPart(env, if parts == [] then position else Skip(position));
      if next.None? { break; }
      ghost var more := CommaParts(env, next.value.rest, false).0;
      assert parts + ([next.value.e] + more) == parts + [next.value.e] + more;
      parts, position := parts + [next.value.e], next.value.rest;
    }
    assert parts + [] == parts;
    return Some(Parsed(if parts == [] then first.value.e else Comma([first.value.e] + parts), position));
  }

  /** `apply_ops`. */
  function ApplyOps(suffixes: seq<Suffix>, e: Expr): Expr
    decreases suffixes
  {
    if suffixes == [] then e else ApplyOps(suffixes[1..], Postfix(e, suffixes[0]))
  }

  lemma {:induction false} ApplyOneMore(suffixes: seq<Suffix>, e: Expr, suffix: Suffix)
    ensures ApplyOps(suffixes + [suffix], e) == Postfix(ApplyOps(suffixes, e), suffix)
    decreases suffixes
  {
    if suffixes == [] {
      assert [suffix][1..] == [] && suffixes + [suffix] == [suffix];
    } else {
      assert (suffixes + [suffix])[0] == suffixes[0] && (suffixes + [suffix])[1..] == suffixes[1..] + [suffix];
      ApplyOneMore(suffixes[1..], Postfix(e, suffixes[0]), suffix);
    }
  }

  /** `__parse_postfix_expression0`: the suffixes are collected by the repetition and applied at the
      end, the first one innermost. */
  method PostfixParse(env: Env, s: string) returns (r: Option<Parsed>)
    ensures r == ParsePostfix(env, s)
  {
    var primary := ParsePrimary(env, s);
    if primary.None? { return None; }
    var suffixes: seq<Suffix>, position := [], Skip(primary.value.rest);
    ghost var e := primary.value.e;
    while true
      invariant WellFormed(env, ApplyOps(suffixes, e))
      invariant Some(Tail(env, ApplyOps(suffixes, e), position, suffixes == [])) == ParsePostfix(env, s)
      decreases |position|
    {
      var next := ParseSuffix(env, if suffixes == [] then position else Skip(position));
      if next.None? { break; }
      ApplyOneMore(suffixes, e, next.value.0);
      suffixes, position := suffixes + [next.value.0], next.value.1;
    }
    return Some(Parsed(ApplyOps(suffixes, primary.value.e), position));
  }

  /** The repetition of arguments inside `__parse_postfix_expressionT`, with its separators. */
  method ParseArguments(env: Env, s: string) returns (arguments: seq<Expr>, position: string)
    ensures (arguments, position) == Arguments(env, s)
  {
    arguments, position := [], s;
    while true
      invariant arguments == [] ==> position == s
      invariant arguments != [] ==>
                  && arguments + CommaParts(env, position, false).0 == Arguments(env, s).0
                  && CommaParts(env, position, false).1 == Arguments(env, s).1
      decreases |position|
    {
      var next := if arguments == [] then ParseAssignment(env, position)
                  else CommaPart(env, Skip(position));
      if next.None? { break; }
      ghost var more := CommaParts(env, next.value.rest, false).0;
      assert arguments + ([next.value.e] + more) == arguments + [next.value.e] + more;
      arguments, position := arguments + [next.value.e], next.value.rest;
    }
    assert arguments + [] == arguments;
  }
}
