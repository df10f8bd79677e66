/** When the evaluators of src/extract/types.rs return a value, and which: for every expression, in terms of numbers
    and types alone. */
module ConstMeaning {
  import opened Wrappers
  import opened CInteger
  import opened IntegerMeaning
  import opened ConstEval

  // ----- the exact evaluator ---------------------------------------------------------------

  predicate FitsSigned(v: int) {
    -0x8000_0000_0000_0000_0000_0000_0000_0000 <= v < 0x8000_0000_0000_0000_0000_0000_0000_0000
  }

  predicate FitsUnsigned(v: int) { 0 <= v < 0x1_0000_0000_0000_0000_0000_0000_0000_0000 }

  /** One ASCII character between quotes, neither a quote nor a backslash. */
  ghost predicate PlainQuoted(text: string, code: int) {
    exists c: char :: text == ['\'', c, '\''] && c != '\'' && c != '\\' && c as int < 128 && code == c as int
  }

  /** Shifting left in 128 bits of two's complement. */
  ghost predicate Wrapped(v: int, r: int) {
    FitsSigned(r) && (v - r) % 0x1_0000_0000_0000_0000_0000_0000_0000_0000 == 0
  }

  /** The integer result, which for a left shift is taken from 128 bits. */
  ghost predicate MachineResult(op: BinaryOp, a: int, b: int, v: int) {
    if op.ShiftLeft? then b >= 0 && Wrapped(a * Pow2(b), v) else IsResult(op, a, b, v)
  }

  /** A binary expression: operands that fit 128 bits, one of eight operators, a nonnegative operand where the result
      is unsigned or shifted, a shift count below the width of `int`, and a result in `int` or `unsigned int`. */
  ghost predicate ExactBinaryMeaning(s: Sizes, op: BinaryOp, a: Exact, b: Exact, x: Exact)
    requires Target(s)
  {
    && FitsSigned(a.value) && FitsSigned(b.value)
    && op in {Add, Subtract, Multiply, ShiftLeft, ShiftRight, BitwiseAnd, BitwiseOr, BitwiseXor}
    && (x.Unsigned? <==> a.Unsigned? || (b.Unsigned? && op != ShiftLeft && op != ShiftRight))
    && (x.Unsigned? ==> a.value >= 0 && b.value >= 0)
    && (op == ShiftLeft || op == ShiftRight ==> a.value >= 0 && 0 <= b.value < Width(s, IntRank))
    && MachineResult(op, a.value, b.value, x.value)
    && InRange(s, IntType(IntRank, x.Signed?), x.value)
  }

  /** The expression is evaluated to `x`. */
  ghost predicate Evaluates(s: Sizes, env: Environment, e: Expr, x: Exact)
    requires Target(s)
  {
    match e
    case Identifier(name) => name in env && env[name] == x
    case IntegerConstant(c) =>
      !c.imaginary && x.value == c.magnitude
      && (if c.isUnsigned then x.Unsigned? && FitsUnsigned(x.value) else x.Signed? && FitsSigned(x.value))
    case CharacterConstant(text) => x.Signed? && PlainQuoted(text, x.value)
    case Unary(op, operand) =>
      exists a :: Evaluates(s, env, operand, a)
                  && (|| (op == Plus && x == a)
                      || (op == Minus && a.Signed? && x == Signed(0 - a.value) && FitsSigned(x.value)))
    case BinaryExpr(op, left, right) =>
      exists a, b :: Evaluates(s, env, left, a) && Evaluates(s, env, right, b) && ExactBinaryMeaning(s, op, a, b, x)
    case Cast(target, inner) =>
      exists a :: Evaluates(s, env, inner, a) && FitsSigned(a.value) && x.value == a.value && target.IntegerName?
                  && InRange(s, target.ty, x.value) && (x.Signed? <==> target.ty.signed)
    case _ => false
  }

  lemma LiteralMeans(c: Literal, x: Exact)
    ensures ExactLiteral(c) == Some(x)
       <==> !c.imaginary && x.value == c.magnitude
            && (if c.isUnsigned then x.Unsigned? && FitsUnsigned(x.value) else x.Signed? && FitsSigned(x.value))
  {
  }

  lemma CharacterMeans(text: string, code: int)
    ensures PlainCharacter(text) && text[1] as int == code <==> PlainQuoted(text, code)
  {
    if PlainCharacter(text) { assert text == ['\'', text[1], '\'']; }
  }

  lemma ShlMeans(v: int, count: int, r: int)
    ensures CheckedShl(v, count) == Some(r) <==> 0 <= count < 128 && Wrapped(v * Pow2(count), r)
  {
    if 0 <= count < 128 {
      var (n, p) := (v * Pow2(count), 0x1_0000_0000_0000_0000_0000_0000_0000_0000);
      hide Pow2;
      ModuloUnique(n, p, n % p, if r < 0 then r + p else r);
      Around(n, r, p);
      Around(n, n % p - p, p);
    }
  }

  lemma Around(n: int, r: int, p: int)
    requires p >= 1
    ensures (n - r) % p == 0 <==> (n - (r + p)) % p == 0
  {
    assert n - r == p * ((n - r) / p) + (n - r) % p;
    Quotient(n - (r + p), p, (n - r) / p - 1, (n - r) % p);
  }

  /** A count below the width of `int`: the shift wraps only if the product does not fit. */
  lemma ShiftExact(v: int, count: nat, r: int)
    requires v >= 0 && Wrapped(v * Pow2(count), r)
    ensures FitsSigned(v * Pow2(count)) ==> r == v * Pow2(count)
    ensures !FitsSigned(v * Pow2(count)) ==> r != v * Pow2(count)
  {
    var (n, p) := (v * Pow2(count), 0x1_0000_0000_0000_0000_0000_0000_0000_0000);
    hide Pow2;
    if FitsSigned(n) {
      assert n - r == p * ((n - r) / p);
      MultipleBound(p, (n - r) / p);
    }
  }

  lemma OperationMeans(op: BinaryOp, a: int, b: int, bits: nat, v: int)
    requires bits <= 64 && FitsSigned(v) && FitsSigned(a) && FitsSigned(b)
    ensures ExactOperation(op, a, b, bits) == Some(v)
       <==> && op in {Add, Subtract, Multiply, ShiftLeft, ShiftRight, BitwiseAnd, BitwiseOr, BitwiseXor}
            && (op == ShiftLeft || op == ShiftRight ==> a >= 0 && 0 <= b < bits)
            && MachineResult(op, a, b, v)
  {
    hide Pow2, CheckedShl, Bit, And, Or, Xor, Wrapped;
    match op
    case ShiftLeft => if 0 <= b { ShlMeans(a, b, v); }
    case ShiftRight => if 0 <= b { RightShiftMeans(a, b, v); }
    case BitwiseAnd => AndMeans(a, b, v);
    case BitwiseOr => OrMeans(a, b, v);
    case BitwiseXor => XorMeans(a, b, v);
    case _ =>
  }

  /** The two ways of testing that a result fits `int` and `unsigned int`. */
  lemma RangeMeans(s: Sizes, rank: Rank, v: int)
    requires Target(s)
    ensures v >= 0 && v / Pow2(Width(s, rank)) == 0 <==> InRange(s, IntType(rank, false), v)
    ensures -Pow2(Width(s, rank) - 1) <= v < Pow2(Width(s, rank) - 1) <==> InRange(s, IntType(rank, true), v)
    ensures Width(s, rank) > 0
    ensures CheckedShl(1, Width(s, rank) - 1) == Some(Pow2(Width(s, rank) - 1))
    ensures InRange(s, IntType(rank, false), v) || InRange(s, IntType(rank, true), v) ==> FitsSigned(v)
  {
    hide Pow2;
    var w := Width(s, rank);
    WidthMonotone(s, rank, rank);
    LimitExact(w);
    if v >= 0 { QuotientZero(v, Pow2(w)); }
    Pow2Monotone(w, 64);
    Pow2Monotone(w - 1, 64);
    Powers();
  }

  /** The steps of the code, one after the other. */
  lemma ExactBinaryUnfolds(op: BinaryOp, a: Exact, b: Exact, bits: nat, x: Exact)
    requires bits > 0 && CheckedShl(1, bits - 1) == Some(Pow2(bits - 1))
    ensures ExactBinary(op, a, b, bits) == Some(x)
       <==> && FitsSigned(a.value) && FitsSigned(b.value)
            && (x.Unsigned? <==> a.Unsigned? || (b.Unsigned? && op != ShiftLeft && op != ShiftRight))
            && (x.Unsigned? ==> a.value >= 0 && b.value >= 0)
            && ExactOperation(op, a.value, b.value, bits) == Some(x.value)
            && (if x.Unsigned? then x.value >= 0 && x.value / Pow2(bits) == 0
                else -Pow2(bits - 1) <= x.value < Pow2(bits - 1))
  {
    hide Pow2, CheckedShl, ExactOperation;
    var isUnsigned := if op.ShiftLeft? || op.ShiftRight? then a.Unsigned? else a.Unsigned? || b.Unsigned?;
    assert isUnsigned <==> a.Unsigned? || (b.Unsigned? && op != ShiftLeft && op != ShiftRight);
    if FitsSigned(a.value) && FitsSigned(b.value) && ExactOperation(op, a.value, b.value, bits).Some? {
      var v := ExactOperation(op, a.value, b.value, bits).value;
      assert x == if x.Unsigned? then Unsigned(x.value) else Signed(x.value);
    }
  }

  lemma ExactBinaryMeans(s: Sizes, op: BinaryOp, a: Exact, b: Exact, x: Exact)
    requires Target(s)
    ensures ExactBinary(op, a, b, Width(s, IntRank)) == Some(x) <==> ExactBinaryMeaning(s, op, a, b, x)
  {
    hide Pow2, CheckedShl, ExactOperation, MachineResult, InRange, Width, FitsSigned, ExactBinary;
    WidthMonotone(s, IntRank, IntRank);
    RangeMeans(s, IntRank, x.value);
    ExactBinaryUnfolds(op, a, b, Width(s, IntRank), x);
    if FitsSigned(a.value) && FitsSigned(b.value) && FitsSigned(x.value) {
      OperationMeans(op, a.value, b.value, Width(s, IntRank), x.value);
    }
  }

  lemma CastMeans(s: Sizes, target: TypeName, a: Exact, x: Exact)
    requires Target(s)
    ensures ExactCast(s, target, a) == Some(x)
       <==> FitsSigned(a.value) && x.value == a.value && target.IntegerName?
            && InRange(s, target.ty, x.value) && (x.Signed? <==> target.ty.signed)
  {
    hide Pow2, CheckedShl;
    if target.IntegerName? {
      var rank := target.ty.rank;
      WidthMonotone(s, rank, rank);
      RangeMeans(s, rank, a.value);
      assert target.ty == IntType(rank, target.ty.signed);
    }
  }

  lemma UnaryMeans(op: UnaryOp, a: Exact, x: Exact)
    ensures ExactUnary(op, a) == Some(x)
       <==> || (op == Plus && x == a)
            || (op == Minus && a.Signed? && x == Signed(0 - a.value) && FitsSigned(x.value))
  {
  }

  /** The evaluator returns a value exactly when the expression has one, and then it is that one. */
  lemma {:induction false} EvalExactMeans(s: Sizes, env: Environment, e: Expr, x: Exact)
    requires Target(s)
    ensures EvalExact(s, env, e) == Some(x) <==> Evaluates(s, env, e, x)
    decreases e
  {
    hide ExactLiteral, ExactUnary, PlainCharacter, PlainQuoted, ExactCast, ExactBinary, ExactBinaryMeaning, InRange;
    hide FitsSigned;
    match e
    case IntegerConstant(c) => LiteralMeans(c, x);
    case CharacterConstant(text) => CharacterMeans(text, x.value);
    case Unary(op, operand) =>
      forall a ensures EvalExact(s, env, operand) == Some(a) <==> Evaluates(s, env, operand, a) {
        EvalExactMeans(s, env, operand, a);
      }
      if EvalExact(s, env, operand).Some? { UnaryMeans(op, EvalExact(s, env, operand).value, x); }
    case BinaryExpr(op, left, right) =>
      forall a ensures EvalExact(s, env, left) == Some(a) <==> Evaluates(s, env, left, a) {
        EvalExactMeans(s, env, left, a);
      }
      forall b ensures EvalExact(s, env, right) == Some(b) <==> Evaluates(s, env, right, b) {
        EvalExactMeans(s, env, right, b);
      }
      forall a, b ensures ExactBinary(op, a, b, Width(s, IntRank)) == Some(x) <==> ExactBinaryMeaning(s, op, a, b, x) {
        ExactBinaryMeans(s, op, a, b, x);
      }
    case Cast(target, inner) =>
      forall a ensures EvalExact(s, env, inner) == Some(a) <==> Evaluates(s, env, inner, a) {
        EvalExactMeans(s, env, inner, a);
      }
      if EvalExact(s, env, inner).Some? { CastMeans(s, target, EvalExact(s, env, inner).value, x); }
    case _ =>
  }

  // ----- a shift that loses bits -----------------------------------------------------------

  /** A left shift is evaluated to the product exactly when the product fits 128 bits. */
  lemma LeftShiftRight(s: Sizes, env: Environment, left: Expr, right: Expr, a: Exact, b: Exact)
    requires Target(s) && Evaluates(s, env, left, a) && Evaluates(s, env, right, b)
    requires EvalExact(s, env, BinaryExpr(ShiftLeft, left, right)).Some?
    ensures b.value >= 0
    ensures EvalExact(s, env, BinaryExpr(ShiftLeft, left, right)).value.value == a.value * Pow2(b.value)
       <==> FitsSigned(a.value * Pow2(b.value))
  {
    var x := EvalExact(s, env, BinaryExpr(ShiftLeft, left, right)).value;
    EvalExactMeans(s, env, left, a);
    EvalExactMeans(s, env, right, b);
    ExactBinaryMeans(s, ShiftLeft, a, b, x);
    ShiftExact(a.value, b.value, x.value);
  }

  const LOST: nat := 0x2000_0000_0000_0000_0000_0000_0000_0000

  lemma LostShift()
    ensures ExactBinary(ShiftLeft, Unsigned(LOST), Signed(3), 32) == Some(Unsigned(0))
  {
    assert Pow2(3) == 8;
    Pow32();
    hide Pow2;
    assert CheckedShl(LOST, 3) == Some(0);
    assert 0 / Pow2(32) == 0;
  }

  /** 2^125 shifted left by 3 is evaluated to 0. */
  lemma LostBits()
    ensures Target(LP64)
    ensures EvalExact(LP64, map[], BinaryExpr(ShiftLeft,
                IntegerConstant(Literal(Hexadecimal, 0x2000_0000_0000_0000_0000_0000_0000_0000, NoSize, true, false)),
                IntegerConstant(Literal(Decimal, 3, NoSize, false, false)))) == Some(Unsigned(0))
  {
    hide ExactBinary, Pow2;
    LostShift();
    assert Width(LP64, IntRank) == 32;
  }

  // ----- the language ----------------------------------------------------------------------

  /** The table of section 6.4.4.1: the types a constant may have, in order. */
  function TypesOf(decimal: bool, size: SuffixSize, isUnsigned: bool): seq<IntType> {
    var (i, l, ll) := (IntType(IntRank, true), IntType(LongRank, true), IntType(LongLongRank, true));
    var (ui, ul, ull) := (IntType(IntRank, false), IntType(LongRank, false), IntType(LongLongRank, false));
    match (size, isUnsigned)
    case (NoSize, true) => [ui, ul, ull]
    case (LongSize, true) => [ul, ull]
    case (LongLongSize, true) => [ull]
    case (NoSize, false) => if decimal then [i, l, ll] else [i, ui, l, ul, ll, ull]
    case (LongSize, false) => if decimal then [l, ll] else [l, ul, ll, ull]
    case (LongLongSize, false) => if decimal then [ll] else [ll, ull]
  }

  lemma OneCandidate(r: Rank, rest: seq<Rank>, decimal: bool, isUnsigned: bool)
    ensures Candidates([r] + rest, decimal, isUnsigned)
         == (if isUnsigned then [IntType(r, false)] else if decimal then [IntType(r, true)]
             else [IntType(r, true), IntType(r, false)]) + Candidates(rest, decimal, isUnsigned)
  {
    assert ([r] + rest)[0] == r && ([r] + rest)[1..] == rest;
  }

  lemma TypesMean(c: Literal)
    ensures LiteralTypes(c) == TypesOf(c.base.Decimal?, c.size, c.isUnsigned)
  {
    hide Candidates;
    var (d, u) := (c.base.Decimal?, c.isUnsigned);
    assert Candidates([], d, u) == [] by { NoCandidates(d, u); }
    OneCandidate(LongLongRank, [], d, u);
    OneCandidate(LongRank, [LongLongRank], d, u);
    OneCandidate(IntRank, [LongRank, LongLongRank], d, u);
    assert [LongLongRank] + [] == [LongLongRank] && [LongRank] + [LongLongRank] == [LongRank, LongLongRank];
    assert [IntRank] + [LongRank, LongLongRank] == [IntRank, LongRank, LongLongRank];
  }

  lemma NoCandidates(decimal: bool, isUnsigned: bool)
    ensures Candidates([], decimal, isUnsigned) == []
  {
  }

  /** The first type of a list that has the value. */
  ghost predicate FirstOf(s: Sizes, types: seq<IntType>, v: int, t: IntType)
    requires Target(s)
  {
    exists i :: 0 <= i < |types| && types[i] == t && InRange(s, t, v)
                && forall j :: 0 <= j < i ==> !InRange(s, types[j], v)
  }

  lemma {:induction false} FirstMeans(s: Sizes, types: seq<IntType>, v: nat, t: IntType)
    requires Target(s)
    ensures FirstFit(s, types, v) == Some(t) <==> FirstOf(s, types, v, t)
  {
    hide InRange;
    if types != [] {
      var rest := types[1..];
      FirstMeans(s, rest, v, t);
      if InRange(s, types[0], v) {
        if types[0] == t { assert types[0] == t; }
      } else {
        if FirstOf(s, rest, v, t) {
          var i :| 0 <= i < |rest| && rest[i] == t && InRange(s, t, v)
                   && forall j :: 0 <= j < i ==> !InRange(s, rest[j], v);
          assert types[i + 1] == t;
          forall j | 0 <= j < i + 1 ensures !InRange(s, types[j], v) { if j > 0 { assert types[j] == rest[j - 1]; } }
        }
        if FirstOf(s, types, v, t) {
          var i :| 0 <= i < |types| && types[i] == t && InRange(s, t, v)
                   && forall j :: 0 <= j < i ==> !InRange(s, types[j], v);
          assert rest[i - 1] == t;
          forall j | 0 <= j < i - 1 ensures !InRange(s, rest[j], v) { assert rest[j] == types[j + 1]; }
        }
      }
    }
  }

  /** The expression has this type and value in the language. */
  ghost predicate Has(s: Sizes, env: TypedEnvironment, e: Expr, t: Typed)
    requires Target(s)
  {
    match e
    case Identifier(name) => name in env && env[name] == t
    case IntegerConstant(c) =>
      && !c.imaginary && t.value == c.magnitude
      && FirstOf(s, TypesOf(c.base == Decimal, c.size, c.isUnsigned), c.magnitude, t.ty)
    case CharacterConstant(text) => t.ty == IntType(IntRank, true) && PlainQuoted(text, t.value)
    case Unary(op, operand) => exists a :: Has(s, env, operand, a) && UnaryMeaning(s, op, a, t)
    case BinaryExpr(op, left, right) =>
      exists a, b :: Has(s, env, left, a) && Has(s, env, right, b) && BinaryMeaning(s, op, a, b, t)
    case Cast(target, inner) =>
      target.IntegerName? && t.ty == target.ty
      && exists a :: Has(s, env, inner, a) && Converts(s, t.ty, a.value, t.value)
    case _ => false
  }

  /** The typed evaluation is that of the language. */
  lemma {:induction false} EvalCMeans(s: Sizes, env: TypedEnvironment, e: Expr, t: Typed)
    requires Target(s)
    ensures EvalC(s, env, e) == Some(t) <==> Has(s, env, e, t)
    decreases e
  {
    hide LiteralTypes, FirstFit, FirstOf, TypesOf, PlainCharacter, PlainQuoted, UnaryMeaning, UnaryResult;
    hide BinaryMeaning, BinaryResult, Convert, Converts;
    match e
    case IntegerConstant(c) =>
      TypesMean(c);
      FirstMeans(s, LiteralTypes(c), c.magnitude, t.ty);
    case CharacterConstant(text) => CharacterMeans(text, t.value);
    case Unary(op, operand) =>
      forall a ensures EvalC(s, env, operand) == Some(a) <==> Has(s, env, operand, a) {
        EvalCMeans(s, env, operand, a);
      }
      forall a ensures UnaryResult(s, op, a) == Some(t) <==> UnaryMeaning(s, op, a, t) {
        UnaryResultMeans(s, op, a, t);
      }
    case BinaryExpr(op, left, right) =>
      forall a ensures EvalC(s, env, left) == Some(a) <==> Has(s, env, left, a) { EvalCMeans(s, env, left, a); }
      forall b ensures EvalC(s, env, right) == Some(b) <==> Has(s, env, right, b) { EvalCMeans(s, env, right, b); }
      forall a, b ensures BinaryResult(s, op, a, b) == Some(t) <==> BinaryMeaning(s, op, a, b, t) {
        BinaryResultMeans(s, op, a, b, t);
      }
    case Cast(target, inner) =>
      forall a ensures EvalC(s, env, inner) == Some(a) <==> Has(s, env, inner, a) { EvalCMeans(s, env, inner, a); }
      if EvalC(s, env, inner).Some? && target.IntegerName? {
        ConvertMeans(s, target.ty, EvalC(s, env, inner).value.value, t.value);
      }
    case _ =>
  }

  /** Where the types are 4 and 8 bytes of 8 bits, these are the values of `int` and `long`. */
  lemma Ranges(v: int)
    ensures Target(LP64)
    ensures InRange(LP64, IntType(IntRank, true), v) <==> -0x8000_0000 <= v <= 0x7fff_ffff
    ensures InRange(LP64, IntType(IntRank, false), v) <==> 0 <= v <= 0xffff_ffff
    ensures InRange(LP64, IntType(LongRank, true), v) <==> -0x8000_0000_0000_0000 <= v <= 0x7fff_ffff_ffff_ffff
    ensures InRange(LP64, IntType(LongRank, false), v) <==> 0 <= v <= 0xffff_ffff_ffff_ffff
  {
    hide Pow2;
    Pow32();
    Powers();
  }

  // ----- the best-effort evaluator ---------------------------------------------------------

  /** Division toward zero: the remainder is smaller than the divisor and has the sign of the dividend. */
  ghost predicate Divided(a: int, b: int, q: int, r: int) {
    && a == q * b + r
    && (if b > 0 then -b < r < b else b < r < -b)
    && (a >= 0 ==> r >= 0) && (a <= 0 ==> r <= 0)
  }

  /** A binary result in 128 bits. */
  ghost predicate WideMeaning(op: BinaryOp, a: int, b: int, v: int) {
    match op
    case Add => IsResult(op, a, b, v) && FitsSigned(v)
    case Subtract => IsResult(op, a, b, v) && FitsSigned(v)
    case Multiply => IsResult(op, a, b, v) && FitsSigned(v)
    case BitwiseAnd => IsResult(op, a, b, v)
    case BitwiseOr => IsResult(op, a, b, v)
    case BitwiseXor => IsResult(op, a, b, v)
    case ShiftLeft => 0 <= b < 128 && Wrapped(a * Pow2(b), v)
    case ShiftRight => b < 128 && IsResult(op, a, b, v)
    case Divide => b != 0 && FitsSigned(v) && exists r :: Divided(a, b, v, r)
    case Modulo => b != 0 && exists q :: FitsSigned(q) && Divided(a, b, q, v)
    case Equals => Truth(a == b, v)
    case NotEquals => Truth(a < b || b < a, v)
    case Less => Truth(b - a > 0, v)
    case Greater => Truth(a - b > 0, v)
    case LessOrEqual => Truth(!(a > b), v)
    case GreaterOrEqual => Truth(!(b > a), v)
    case LogicalAnd => Truth(!(a == 0 || b == 0), v)
    case LogicalOr => Truth(!(a == 0 && b == 0), v)
    case OtherBinary => false
  }

  predicate Truth(b: bool, v: int) { (b && v == 1) || (!b && v == 0) }

  /** Division of nonnegative numbers, with the signs put back. */
  lemma SignedDivides(m: int, n: int, q: int, r: int, a: int, b: int)
    requires m >= 0 && n > 0 && m == n * q + r && 0 <= r < n
    requires (a == m || a == -m) && (b == n || b == -n) && (m == 0 ==> a == 0)
    ensures var p := if (a >= 0) == (b > 0) then q else -q; Divided(a, b, p, a - p * b)
  {
    Signs(q, n);
    assert q * n == n * q;
    var p := if (a >= 0) == (b > 0) then q else -q;
    assert a - p * b == if a >= 0 then r else -r;
  }

  lemma TruncatingDivides(a: int, b: int)
    requires b != 0
    ensures Divided(a, b, TruncatingQuotient(a, b), a - TruncatingQuotient(a, b) * b)
  {
    hide Divided;
    var (m, n) := (if a >= 0 then a else -a, if b > 0 then b else -b);
    assert m == n * (m / n) + m % n;
    SignedDivides(m, n, m / n, m % n, a, b);
  }

  lemma Signs(q: int, n: int)
    ensures (-q) * n == -(q * n) && q * (-n) == -(q * n) && (-q) * (-n) == q * n
  {
  }

  lemma DividedOnce(a: int, b: int, q: int, r: int, q': int, r': int)
    requires b != 0 && Divided(a, b, q, r) && Divided(a, b, q', r')
    ensures q == q' && r == r'
  {
    var n := if b > 0 then b else -b;
    var d := if b > 0 then q - q' else q' - q;
    assert n * d == q * b - q' * b by { Signs(q - q', b); }
    MultipleBound(n, d);
  }

  lemma OverflowOnly(a: int, b: int)
    requires FitsSigned(a) && FitsSigned(b) && b != 0
    ensures FitsSigned(TruncatingQuotient(a, b)) <==> !(a == I128_MIN && b == -1)
  {
    var (m, n) := (if a >= 0 then a else -a, if b > 0 then b else -b);
    Smaller(m, n);
  }

  lemma Smaller(m: int, n: int)
    requires m >= 0 && n >= 1
    ensures 0 <= m / n <= m && (n >= 2 && m > 0 ==> m / n < m) && (n == 1 ==> m / n == m)
  {
    assert m == n * (m / n) + m % n;
    if n >= 2 { TwiceAtMost(n, m / n); }
  }

  lemma TwiceAtMost(n: int, q: int)
    requires n >= 2
    ensures q >= 0 ==> n * q >= 2 * q
  {
  }

  lemma ConstBinaryMeans(op: BinaryOp, a: int, b: int, v: int)
    requires FitsSigned(a) && FitsSigned(b)
    ensures ConstBinary(op, a, b) == Some(v) <==> WideMeaning(op, a, b, v)
  {
    hide Pow2, CheckedShl, Bit, And, Or, Xor, Wrapped, TruncatingQuotient, Divided;
    match op
    case Divide => DivideMeans(a, b, v);
    case Modulo => ModuloMeans(a, b, v);
    case ShiftLeft => ShlMeans(a, b, v);
    case ShiftRight => if 0 <= b { RightShiftMeans(a, b, v); }
    case BitwiseAnd => AndMeans(a, b, v);
    case BitwiseOr => OrMeans(a, b, v);
    case BitwiseXor => XorMeans(a, b, v);
    case _ =>
  }

  lemma DivideMeans(a: int, b: int, v: int)
    ensures ConstBinary(Divide, a, b) == Some(v) <==> WideMeaning(Divide, a, b, v)
  {
    hide TruncatingQuotient, Divided;
    if b != 0 {
      var q := TruncatingQuotient(a, b);
      TruncatingDivides(a, b);
      forall r | Divided(a, b, v, r) ensures v == q { DividedOnce(a, b, v, r, q, a - q * b); }
    }
  }

  lemma ModuloMeans(a: int, b: int, v: int)
    requires FitsSigned(a) && FitsSigned(b)
    ensures ConstBinary(Modulo, a, b) == Some(v) <==> WideMeaning(Modulo, a, b, v)
  {
    hide TruncatingQuotient, Divided;
    if b != 0 {
      var q := TruncatingQuotient(a, b);
      TruncatingDivides(a, b);
      OverflowOnly(a, b);
      forall p | Divided(a, b, p, v) ensures p == q && v == a - q * b { DividedOnce(a, b, p, v, q, a - q * b); }
    }
  }

  /** The value of an expression in 128 bits; casts do nothing. */
  ghost predicate HasValue(e: Expr, v: int) {
    match e
    case SizeOfType(size) => size == Some(v)
    case IntegerConstant(c) => v == c.magnitude && FitsSigned(v)
    case Unary(op, operand) =>
      exists a :: HasValue(operand, a)
                  && (match op
                      case Minus => v == 0 - a && FitsSigned(v)
                      case Plus => v == a
                      case Complement => Flipped(a, v)
                      case Negate => Truth(a == 0, v)
                      case OtherUnary => false)
    case BinaryExpr(op, left, right) =>
      exists a, b :: HasValue(left, a) && HasValue(right, b) && WideMeaning(op, a, b, v)
    case Conditional(c, t, f) =>
      exists a :: HasValue(c, a) && (if a == 0 then HasValue(f, v) else HasValue(t, v))
    case Cast(_, inner) => HasValue(inner, v)
    case Comma(parts) => parts != [] && HasValue(parts[|parts| - 1], v)
    case _ => false
  }

  /** Sizes are those of 64 bits. */
  predicate SmallSizes(e: Expr) {
    match e
    case SizeOfType(size) => size.Some? ==> size.value < 0x1_0000_0000_0000_0000
    case Unary(_, operand) => SmallSizes(operand)
    case BinaryExpr(_, left, right) => SmallSizes(left) && SmallSizes(right)
    case Conditional(c, t, f) => SmallSizes(c) && SmallSizes(t) && SmallSizes(f)
    case Cast(_, inner) => SmallSizes(inner)
    case Comma(parts) => forall part :: part in parts ==> SmallSizes(part)
    case _ => true
  }

  /** Each bitwise operator stays between two powers of two that bound its operands. */
  lemma {:induction false} BitwiseFits(a: int, b: int, n: nat)
    requires -Pow2(n) <= a < Pow2(n) && -Pow2(n) <= b < Pow2(n)
    ensures -Pow2(n) <= And(a, b) < Pow2(n) && -Pow2(n) <= Or(a, b) < Pow2(n) && -Pow2(n) <= Xor(a, b) < Pow2(n)
    decreases n
  {
    hide And, Or, Xor;
    Ends(b);
    if a != 0 && a != -1 {
      Halved(a, b);
      BitwiseFits(a / 2, b / 2, n - 1);
    }
  }

  lemma Power127()
    ensures Pow2(127) == 0x8000_0000_0000_0000_0000_0000_0000_0000
  {
    hide Pow2;
    Powers();
    Pow2Sum(63, 64);
  }

  lemma ConstBinaryFits(op: BinaryOp, a: int, b: int)
    requires FitsSigned(a) && FitsSigned(b) && ConstBinary(op, a, b).Some?
    ensures FitsSigned(ConstBinary(op, a, b).value)
  {
    hide Pow2, And, Or, Xor, CheckedShl, TruncatingQuotient, Divided;
    Power127();
    match op
    case BitwiseAnd => BitwiseFits(a, b, 127);
    case BitwiseOr => BitwiseFits(a, b, 127);
    case BitwiseXor => BitwiseFits(a, b, 127);
    case ShiftLeft => ShlMeans(a, b, ConstBinary(op, a, b).value);
    case ShiftRight => QuotientFits(a, Pow2(b));
    case Modulo =>
      TruncatingDivides(a, b);
      RemainderFits(a, b, TruncatingQuotient(a, b), ConstBinary(op, a, b).value);
    case _ =>
  }

  lemma RemainderFits(a: int, b: int, q: int, r: int)
    requires FitsSigned(b) && b != 0 && Divided(a, b, q, r)
    ensures FitsSigned(r)
  {
  }

  lemma QuotientFits(a: int, p: int)
    requires FitsSigned(a) && p >= 1
    ensures FitsSigned(a / p)
  {
    assert a == p * (a / p) + a % p;
    MultipleBound(p, a / p);
    if a >= 0 { Smaller(a, p); } else { NegativeQuotient(a, p); }
  }

  lemma NegativeQuotient(a: int, p: int)
    requires a < 0 && p >= 1
    ensures a <= a / p < 0
  {
    var q := a / p;
    assert a == p * q + a % p;
    assert p * (q - a) == p * q - p * a;
    MultipleBound(p, q - a);
    MultipleBound(p, q);
    NegativeProduct(p, a);
  }

  lemma NegativeProduct(p: int, a: int)
    requires p >= 1 && a <= 0
    ensures p * a <= a
  {
  }

  lemma {:induction false} EvalConstFits(e: Expr)
    requires SmallSizes(e) && EvalConst(e).Some?
    ensures FitsSigned(EvalConst(e).value)
    decreases e
  {
    hide ConstBinary;
    match e
    case Unary(_, operand) => EvalConstFits(operand);
    case BinaryExpr(op, left, right) =>
      EvalConstFits(left);
      EvalConstFits(right);
      ConstBinaryFits(op, EvalConst(left).value, EvalConst(right).value);
    case Conditional(c, t, f) =>
      EvalConstFits(c);
      if EvalConst(c).value != 0 { EvalConstFits(t); } else { EvalConstFits(f); }
    case Cast(_, inner) => EvalConstFits(inner);
    case Comma(parts) => EvalConstFits(parts[|parts| - 1]);
    case _ =>
  }

  /** The best-effort evaluator returns a value exactly when the expression has one in 128 bits. */
  lemma {:induction false} EvalConstMeans(e: Expr, v: int)
    requires SmallSizes(e)
    ensures EvalConst(e) == Some(v) <==> HasValue(e, v)
    decreases e
  {
    hide ConstBinary, WideMeaning, Flipped;
    match e
    case Unary(op, operand) =>
      forall a ensures EvalConst(operand) == Some(a) <==> HasValue(operand, a) { EvalConstMeans(operand, a); }
      forall a ensures v == -a - 1 <==> Flipped(a, v) { ComplementMeans(a, v); }
    case BinaryExpr(op, left, right) =>
      forall a ensures EvalConst(left) == Some(a) <==> HasValue(left, a) { EvalConstMeans(left, a); }
      forall b ensures EvalConst(right) == Some(b) <==> HasValue(right, b) { EvalConstMeans(right, b); }
      if EvalConst(left).Some? && EvalConst(right).Some? {
        EvalConstFits(left);
        EvalConstFits(right);
        ConstBinaryMeans(op, EvalConst(left).value, EvalConst(right).value, v);
      }
    case Conditional(c, t, f) =>
      forall a ensures EvalConst(c) == Some(a) <==> HasValue(c, a) { EvalConstMeans(c, a); }
      EvalConstMeans(t, v);
      EvalConstMeans(f, v);
    case Cast(_, inner) => EvalConstMeans(inner, v);
    case Comma(parts) => if parts != [] { EvalConstMeans(parts[|parts| - 1], v); }
    case _ =>
  }
}
