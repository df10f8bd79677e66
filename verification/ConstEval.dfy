/** The two constant evaluators of src/extract/types.rs.  The exact one claims to return a value
    only when that value is what C computes; the best-effort one works in `i128`. */
module ConstEval {
  import opened Wrappers
  import opened CInteger

  datatype Base = Decimal | Octal | Hexadecimal | Binary

  datatype SuffixSize = NoSize | LongSize | LongLongSize

  datatype Literal = Literal(base: Base, magnitude: nat, size: SuffixSize, isUnsigned: bool, imaginary: bool)

  /** A cast's target: an integer type the data model sizes, or anything else (plain `char`,
      `__int128`, `_BitInt`, a non-integer). */
  datatype TypeName = IntegerName(ty: IntType) | OtherName

  datatype Expr =
    | Identifier(name: string)
    | IntegerConstant(literal: Literal)
    | CharacterConstant(text: string)
    | SizeOfType(size: Option<nat>)
    | Unary(op: UnaryOp, operand: Expr)
    | BinaryExpr(bop: BinaryOp, left: Expr, right: Expr)
    | Conditional(condition: Expr, thenBranch: Expr, elseBranch: Expr)
    | Cast(target: TypeName, inner: Expr)
    | Comma(parts: seq<Expr>)
    | OtherExpr

  datatype Exact = Signed(value: int) | Unsigned(value: int)

  const I128_MIN := -0x8000_0000_0000_0000_0000_0000_0000_0000
  const I128_MAX := 0x7fff_ffff_ffff_ffff_ffff_ffff_ffff_ffff
  const U128_MAX := 0xffff_ffff_ffff_ffff_ffff_ffff_ffff_ffff

  predicate FitsI128(v: int) { I128_MIN <= v <= I128_MAX }

  predicate FitsU128(v: int) { 0 <= v <= U128_MAX }

  predicate Valid(x: Exact) { if x.Signed? then FitsI128(x.value) else FitsU128(x.value) }

  function Checked(v: int): Option<int> { if FitsI128(v) then Some(v) else None }

  /** `i128::checked_shl`: the count is checked, the bits shifted out are not. */
  function CheckedShl(v: int, count: int): Option<int> {
    if 0 <= count < 128 then
      var bits := (v * Pow2(count)) % (U128_MAX + 1);
      Some(if bits > I128_MAX then bits - (U128_MAX + 1) else bits)
    else None
  }

  function CheckedShr(v: int, count: int): Option<int> {
    if 0 <= count < 128 then Some(v / Pow2(count)) else None
  }

  // ----- the exact evaluator -------------------------------------------------------------

  function ExactLiteral(c: Literal): Option<Exact> {
    if c.imaginary || !FitsU128(c.magnitude) then None
    else if c.isUnsigned then Some(Unsigned(c.magnitude))
    else if FitsI128(c.magnitude) then Some(Signed(c.magnitude))
    else None
  }

  /** A plain one-character constant, between its quotes; escapes stay unevaluated. */
  predicate PlainCharacter(text: string) {
    |text| == 3 && text[0] == '\'' && text[2] == '\'' && text[1] as int < 128 && text[1] !in {'\\', '\''}
  }

  /** `SizeOfTable::integer_range` of a cast's target. */
  function CastRange(s: Sizes, target: TypeName): Option<(nat, bool)> {
    match target
    case IntegerName(ty) => Some((Bytes(s, ty.rank) * s.charBit, ty.signed))
    case OtherName => None
  }

  function ExactCast(s: Sizes, target: TypeName, x: Exact): Option<Exact> {
    if !FitsI128(x.value) then None
    else
      match CastRange(s, target)
      case None => None
      case Some((bits, signed)) =>
        if signed then
          if bits == 0 then None
          else
            match CheckedShl(1, bits - 1)
            case None => None
            case Some(limit) => if -limit <= x.value < limit then Some(Signed(x.value)) else None
        else if x.value < 0 then None
        else if bits >= 128 || x.value / Pow2(bits) == 0 then Some(Unsigned(x.value))
        else None
  }

  function ExactUnary(op: UnaryOp, x: Exact): Option<Exact> {
    match op
    case Plus => Some(x)
    case Minus =>
      if x.Signed? then (match Checked(-x.value) case Some(v) => Some(Signed(v)) case None => None) else None
    case _ => None
  }

  /** The checked `i128` operation behind `eval_exact_binary`. */
  function ExactOperation(op: BinaryOp, a: int, b: int, intBits: nat): Option<int> {
    match op
    case ShiftLeft => if a >= 0 && 0 <= b < intBits then CheckedShl(a, b) else None
    case ShiftRight => if a >= 0 && 0 <= b < intBits then Some(a / Pow2(b)) else None
    case BitwiseOr => Some(Or(a, b))
    case BitwiseAnd => Some(And(a, b))
    case BitwiseXor => Some(Xor(a, b))
    case Add => Checked(a + b)
    case Subtract => Checked(a - b)
    case Multiply => Checked(a * b)
    case _ => None
  }

  function ExactBinary(op: BinaryOp, x: Exact, y: Exact, intBits: nat): Option<Exact> {
    var isUnsigned := if op.ShiftLeft? || op.ShiftRight? then x.Unsigned? else x.Unsigned? || y.Unsigned?;
    if !FitsI128(x.value) || !FitsI128(y.value) then None
    else if isUnsigned && (x.value < 0 || y.value < 0) then None
    else
      match ExactOperation(op, x.value, y.value, intBits)
      case None => None
      case Some(v) =>
        if isUnsigned then (if v >= 0 && v / Pow2(intBits) == 0 then Some(Unsigned(v)) else None)
        else if intBits == 0 then None
        else
          match CheckedShl(1, intBits - 1)
          case None => None
          case Some(limit) => if -limit <= v < limit then Some(Signed(v)) else None
  }

  type Environment = map<string, Exact>

  /** `eval_exact_integer_in_env`. */
  function EvalExact(s: Sizes, env: Environment, e: Expr): Option<Exact> {
    match e
    case Identifier(name) => if name in env then Some(env[name]) else None
    case IntegerConstant(literal) => ExactLiteral(literal)
    case CharacterConstant(text) => if PlainCharacter(text) then Some(Signed(text[1] as int)) else None
    case Unary(op, operand) =>
      (match EvalExact(s, env, operand) case Some(x) => ExactUnary(op, x) case None => None)
    case BinaryExpr(op, left, right) =>
      (match (EvalExact(s, env, left), EvalExact(s, env, right))
       case (Some(x), Some(y)) => ExactBinary(op, x, y, Width(s, IntRank))
       case _ => None)
    case Cast(target, inner) =>
      (match EvalExact(s, env, inner) case Some(x) => ExactCast(s, target, x) case None => None)
    case _ => None
  }

  // ----- what C computes -----------------------------------------------------------------

  /** The types an integer constant may have, in order: the table of section 6.4.4.1. */
  function LiteralTypes(c: Literal): seq<IntType> {
    var ranks := match c.size
      case NoSize => [IntRank, LongRank, LongLongRank]
      case LongSize => [LongRank, LongLongRank]
      case LongLongSize => [LongLongRank];
    Candidates(ranks, c.base.Decimal?, c.isUnsigned)
  }

  function Candidates(ranks: seq<Rank>, decimal: bool, isUnsigned: bool): seq<IntType> {
    if ranks == [] then []
    else
      (if isUnsigned then [IntType(ranks[0], false)]
       else if decimal then [IntType(ranks[0], true)]
       else [IntType(ranks[0], true), IntType(ranks[0], false)])
      + Candidates(ranks[1..], decimal, isUnsigned)
  }

  function FirstFit(s: Sizes, types: seq<IntType>, v: nat): Option<IntType>
    requires Target(s)
  {
    if types == [] then None
    else if InRange(s, types[0], v) then Some(types[0])
    else FirstFit(s, types[1..], v)
  }

  /** The type of an integer constant, if it has one. */
  function LiteralType(s: Sizes, c: Literal): Option<IntType>
    requires Target(s)
  {
    if c.imaginary then None else FirstFit(s, LiteralTypes(c), c.magnitude)
  }

  type TypedEnvironment = map<string, Typed>

  function EvalC(s: Sizes, env: TypedEnvironment, e: Expr): Option<Typed>
    requires Target(s)
  {
    match e
    case Identifier(name) => if name in env then Some(env[name]) else None
    case IntegerConstant(c) =>
      (match LiteralType(s, c) case Some(t) => Some(Typed(t, c.magnitude)) case None => None)
    case CharacterConstant(text) => if PlainCharacter(text) then Some(Typed(INT, text[1] as int)) else None
    case Unary(op, operand) =>
      (match EvalC(s, env, operand) case Some(x) => UnaryResult(s, op, x) case None => None)
    case BinaryExpr(op, left, right) =>
      (match (EvalC(s, env, left), EvalC(s, env, right))
       case (Some(x), Some(y)) => BinaryResult(s, op, x, y)
       case _ => None)
    case Cast(target, inner) =>
      (match (target, EvalC(s, env, inner))
       case (IntegerName(t), Some(x)) =>
         (match Convert(s, t, x.value) case Some(v) => Some(Typed(t, v)) case None => None)
       case _ => None)
    case _ => None
  }

  // ----- soundness -----------------------------------------------------------------------

  /** An exact value stands for a typed one: equal values, a Signed tag only on a signed type,
      an Unsigned tag only on a nonnegative value. */
  predicate Represents(s: Sizes, x: Exact, t: Typed)
    requires Target(s)
  {
    x.value == t.value && InRange(s, t.ty, t.value) && (x.Signed? ==> t.ty.signed) && (x.Unsigned? ==> x.value >= 0)
  }

  /** Every constant written without `u` has a signed type, or no type at all. */
  predicate SignedConstant(s: Sizes, c: Literal)
    requires Target(s)
  {
    c.isUnsigned || LiteralType(s, c).None? || LiteralType(s, c).value.signed
  }

  function SignedIn(s: Sizes): Literal -> bool
    requires Target(s)
  {
    (c: Literal) => SignedConstant(s, c)
  }

  ghost predicate AllConstants(e: Expr, p: Literal -> bool) {
    match e
    case IntegerConstant(c) => p(c)
    case Unary(_, operand) => AllConstants(operand, p)
    case BinaryExpr(_, left, right) => AllConstants(left, p) && AllConstants(right, p)
    case Conditional(c, t, f) => AllConstants(c, p) && AllConstants(t, p) && AllConstants(f, p)
    case Cast(_, inner) => AllConstants(inner, p)
    case Comma(parts) => forall part :: part in parts ==> AllConstants(part, p)
    case _ => true
  }

  ghost predicate EnvironmentsAgree(s: Sizes, env: Environment, typed: TypedEnvironment)
    requires Target(s)
  {
    forall name :: name in env ==> name in typed && Represents(s, env[name], typed[name])
  }

  lemma {:induction false} FirstFitSpec(s: Sizes, types: seq<IntType>, v: nat)
    requires Target(s)
    ensures FirstFit(s, types, v).Some? ==>
              FirstFit(s, types, v).value in types && InRange(s, FirstFit(s, types, v).value, v)
  {
    if types != [] { FirstFitSpec(s, types[1..], v); }
  }

  lemma {:induction false} CandidatesSpec(ranks: seq<Rank>, decimal: bool, isUnsigned: bool, t: IntType)
    requires t in Candidates(ranks, decimal, isUnsigned)
    ensures t.rank in ranks && (isUnsigned ==> !t.signed)
  {
    if t in Candidates(ranks[1..], decimal, isUnsigned) {
      CandidatesSpec(ranks[1..], decimal, isUnsigned, t);
    }
  }

  lemma LiteralTypeSpec(s: Sizes, c: Literal)
    requires Target(s) && LiteralType(s, c).Some?
    ensures var t := LiteralType(s, c).value;
            InRange(s, t, c.magnitude) && t.rank.Order() >= IntRank.Order() && (c.isUnsigned ==> !t.signed)
  {
    FirstFitSpec(s, LiteralTypes(c), c.magnitude);
    var t := LiteralType(s, c).value;
    match c.size
    case NoSize => CandidatesSpec([IntRank, LongRank, LongLongRank], c.base.Decimal?, c.isUnsigned, t);
    case LongSize => CandidatesSpec([LongRank, LongLongRank], c.base.Decimal?, c.isUnsigned, t);
    case LongLongSize => CandidatesSpec([LongLongRank], c.base.Decimal?, c.isUnsigned, t);
  }

  lemma Below64(s: Sizes, t: IntType, v: int)
    requires Target(s) && InRange(s, t, v)
    ensures v < Pow2(64)
  {
    WidthMonotone(s, t.rank, LongLongRank);
    Pow2Monotone(Width(s, t.rank), 64);
    Pow2Monotone(Width(s, t.rank) - 1, 64);
  }

  lemma CheckedShlExact(v: int, count: nat)
    requires 0 <= v < Pow2(64) && count <= 63
    ensures CheckedShl(v, count) == Some(v * Pow2(count))
  {
    hide Pow2;
    Pow2Monotone(count, 63);
    Powers();
    MulMonotone(v, Pow2(count), Pow2(63));
  }

  lemma MulMonotone(v: int, a: int, b: int)
    requires v >= 0 && 0 <= a <= b
    ensures 0 <= v * a <= v * b
  {
  }

  lemma Powers()
    ensures Pow2(63) == 0x8000_0000_0000_0000 && Pow2(64) == 0x1_0000_0000_0000_0000
  {
    assert Pow2(4) == 16;
    Pow2Sum(4, 4);
    Pow2Sum(8, 8);
    Pow2Sum(16, 16);
    Pow2Sum(32, 32);
    assert Pow2(64) == 2 * Pow2(63);
  }

  lemma {:induction false} Pow2Sum(m: nat, n: nat)
    ensures Pow2(m + n) == Pow2(m) * Pow2(n)
  {
    if m > 0 { Pow2Sum(m - 1, n); }
  }

  lemma LimitExact(bits: nat)
    requires 1 <= bits <= 64
    ensures CheckedShl(1, bits - 1) == Some(Pow2(bits - 1))
  {
    CheckedShlExact(1, bits - 1);
  }

  lemma QuotientZero(v: int, p: int)
    requires v >= 0 && p > 0
    ensures v / p == 0 <==> v < p
  {
  }

  lemma CastSound(s: Sizes, target: TypeName, x: Exact, t: Typed)
    requires Target(s) && Represents(s, x, t) && target.IntegerName?
    requires ExactCast(s, target, x).Some?
    ensures Convert(s, target.ty, t.value) == Some(x.value)
    ensures Represents(s, ExactCast(s, target, x).value, Typed(target.ty, x.value))
  {
    hide Pow2;
    var bits := Width(s, target.ty.rank);
    WidthMonotone(s, CharRank, target.ty.rank);
    LimitExact(bits);
    if !target.ty.signed { QuotientZero(x.value, Pow2(bits)); }
  }

  lemma UnarySound(s: Sizes, op: UnaryOp, x: Exact, t: Typed)
    requires Target(s) && Represents(s, x, t)
    requires ExactUnary(op, x).Some? && UnaryResult(s, op, t).Some?
    ensures Represents(s, ExactUnary(op, x).value, UnaryResult(s, op, t).value)
  {
    PromotedKeepsValue(s, t.ty, t.value);
  }

  lemma ShiftLeftSound(s: Sizes, x: Exact, a: Typed, y: Exact, b: Typed)
    requires Target(s) && Represents(s, x, a) && Represents(s, y, b)
    requires ExactBinary(ShiftLeft, x, y, Width(s, IntRank)).Some? && BinaryResult(s, ShiftLeft, a, b).Some?
    ensures Represents(s, ExactBinary(ShiftLeft, x, y, Width(s, IntRank)).value, BinaryResult(s, ShiftLeft, a, b).value)
  {
    var p, bits, v := Promoted(s, a.ty), Width(s, IntRank), a.value * Pow2(b.value);
    PromotedKeepsValue(s, a.ty, a.value);
    WidthMonotone(s, IntRank, p.rank);
    Below64(s, a.ty, a.value);
    CheckedShlExact(a.value, b.value);
    MulMonotone(a.value, 1, Pow2(b.value));
    LimitExact(bits);
    QuotientZero(v, Pow2(bits));
    ResultExact(s, p, v);
  }

  lemma ShiftRightSound(s: Sizes, x: Exact, a: Typed, y: Exact, b: Typed)
    requires Target(s) && Represents(s, x, a) && Represents(s, y, b)
    requires ExactBinary(ShiftRight, x, y, Width(s, IntRank)).Some? && BinaryResult(s, ShiftRight, a, b).Some?
    ensures Represents(s, ExactBinary(ShiftRight, x, y, Width(s, IntRank)).value,
                       BinaryResult(s, ShiftRight, a, b).value)
  {
    hide Pow2;
    PromotedKeepsValue(s, a.ty, a.value);
    WidthMonotone(s, IntRank, Promoted(s, a.ty).rank);
    LimitExact(Width(s, IntRank));
    QuotientSmaller(a.value, Pow2(b.value));
  }

  lemma QuotientSmaller(v: int, p: int)
    requires v >= 0 && p >= 1
    ensures 0 <= v / p <= v
  {
  }

  lemma ArithmeticSound(s: Sizes, op: BinaryOp, x: Exact, a: Typed, y: Exact, b: Typed)
    requires Target(s) && Represents(s, x, a) && Represents(s, y, b) && !op.ShiftLeft? && !op.ShiftRight?
    requires ExactBinary(op, x, y, Width(s, IntRank)).Some? && BinaryResult(s, op, a, b).Some?
    ensures Represents(s, ExactBinary(op, x, y, Width(s, IntRank)).value, BinaryResult(s, op, a, b).value)
  {
    var t, bits := Common(s, Promoted(s, a.ty), Promoted(s, b.ty)), Width(s, IntRank);
    CommonKeepsValue(s, a.ty, b.ty, a.value);
    CommonKeepsValue(s, b.ty, a.ty, b.value);
    WidthMonotone(s, IntRank, t.rank);
    LimitExact(bits);
    var v := ExactOperation(op, x.value, y.value, bits).value;
    if x.Unsigned? || y.Unsigned? { QuotientZero(v, Pow2(bits)); }
    ResultExact(s, t, v);
  }

  lemma CharacterFits(s: Sizes, code: int)
    requires Target(s) && 0 <= code < 128
    ensures InRange(s, INT, code)
  {
    WidthMonotone(s, CharRank, IntRank);
    Pow2Monotone(7, Width(s, IntRank) - 1);
    assert Pow2(7) == 128;
  }

  /** Exact evaluation is sound: when it returns a value and C defines the expression, the two
      are the same, provided every constant written without `u` has a signed type. */
  lemma {:induction false} EvalExactSound(s: Sizes, env: Environment, typed: TypedEnvironment, e: Expr)
    requires Target(s) && EnvironmentsAgree(s, env, typed)
    requires AllConstants(e, SignedIn(s))
    requires EvalExact(s, env, e).Some? && EvalC(s, typed, e).Some?
    ensures Represents(s, EvalExact(s, env, e).value, EvalC(s, typed, e).value)
    decreases e
  {
    match e
    case IntegerConstant(c) => LiteralTypeSpec(s, c);
    case CharacterConstant(text) => CharacterFits(s, text[1] as int);
    case Unary(op, operand) =>
      EvalExactSound(s, env, typed, operand);
      UnarySound(s, op, EvalExact(s, env, operand).value, EvalC(s, typed, operand).value);
    case BinaryExpr(op, left, right) =>
      EvalExactSound(s, env, typed, left);
      EvalExactSound(s, env, typed, right);
      var x, a := EvalExact(s, env, left).value, EvalC(s, typed, left).value;
      var y, b := EvalExact(s, env, right).value, EvalC(s, typed, right).value;
      if op.ShiftLeft? {
        ShiftLeftSound(s, x, a, y, b);
      } else if op.ShiftRight? {
        ShiftRightSound(s, x, a, y, b);
      } else {
        ArithmeticSound(s, op, x, a, y, b);
      }
    case Cast(target, inner) =>
      EvalExactSound(s, env, typed, inner);
      CastSound(s, target, EvalExact(s, env, inner).value, EvalC(s, typed, inner).value);
    case _ =>
  }

  // ----- exactly when a constant is safe -------------------------------------------------

  /** Whatever the evaluator returns for `e` is what C computes, in every environment. */
  ghost predicate Sound(s: Sizes, e: Expr)
    requires Target(s)
  {
    forall env: Environment, typed: TypedEnvironment :: SoundIn(s, env, typed, e)
  }

  ghost predicate SoundIn(s: Sizes, env: Environment, typed: TypedEnvironment, e: Expr)
    requires Target(s)
  {
    EnvironmentsAgree(s, env, typed) && EvalExact(s, env, e).Some? && EvalC(s, typed, e).Some? ==>
      Represents(s, EvalExact(s, env, e).value, EvalC(s, typed, e).value)
  }

  function Only(c: Literal): Literal -> bool { (d: Literal) => d == c }

  ghost predicate BuiltFrom(e: Expr, c: Literal) { AllConstants(e, Only(c)) }

  lemma {:induction false} ConstantsWeaken(e: Expr, p: Literal -> bool, q: Literal -> bool)
    requires AllConstants(e, p) && forall c :: p(c) ==> q(c)
    ensures AllConstants(e, q)
    decreases e
  {
    match e
    case Unary(_, operand) => ConstantsWeaken(operand, p, q);
    case BinaryExpr(_, left, right) => ConstantsWeaken(left, p, q); ConstantsWeaken(right, p, q);
    case Conditional(c, t, f) => ConstantsWeaken(c, p, q); ConstantsWeaken(t, p, q); ConstantsWeaken(f, p, q);
    case Cast(_, inner) => ConstantsWeaken(inner, p, q);
    case Comma(parts) => forall part | part in parts { ConstantsWeaken(part, p, q); }
    case _ =>
  }

  lemma SignedConstantsSound(s: Sizes, c: Literal, e: Expr)
    requires Target(s) && SignedConstant(s, c) && BuiltFrom(e, c)
    ensures Sound(s, e)
  {
    ConstantsWeaken(e, Only(c), SignedIn(s));
    forall env: Environment, typed: TypedEnvironment ensures SoundIn(s, env, typed, e) {
      if EnvironmentsAgree(s, env, typed) && EvalExact(s, env, e).Some? && EvalC(s, typed, e).Some? {
        EvalExactSound(s, env, typed, e);
      }
    }
  }

  /** Negating an unsuffixed constant of unsigned type: C wraps, the evaluator does not. */
  lemma NegatedUnsigned(s: Sizes, c: Literal)
    requires Target(s) && !SignedConstant(s, c)
    ensures var e := Unary(Minus, IntegerConstant(c));
            && EvalExact(s, map[], e) == Some(Signed(-(c.magnitude as int)))
            && EvalC(s, map[], e).Some? && EvalC(s, map[], e).value.value >= 0 && c.magnitude > 0
  {
    LiteralTypeSpec(s, c);
    var t := LiteralType(s, c).value;
    Below64(s, t, c.magnitude);
    Powers();
    assert LiteralTypes(c)[0].signed && InRange(s, LiteralTypes(c)[0], 0);
  }

  function Negated(c: Literal): Expr { Unary(Minus, IntegerConstant(c)) }

  lemma NegatedBuilt(c: Literal)
    ensures BuiltFrom(Negated(c), c)
  {
    assert AllConstants(IntegerConstant(c), Only(c));
  }

  lemma NegatedUnsound(s: Sizes, c: Literal)
    requires Target(s) && !SignedConstant(s, c)
    ensures !Sound(s, Negated(c))
  {
    assert !SoundIn(s, map[], map[], Negated(c)) by {
      NegatedUnsigned(s, c);
      assert EnvironmentsAgree(s, map[], map[]);
    }
  }

  /** The evaluator is right on every expression built over `c`. */
  ghost predicate SoundOver(s: Sizes, c: Literal)
    requires Target(s)
  {
    forall e :: BuiltFrom(e, c) ==> Sound(s, e)
  }

  /** A constant is evaluated as C does in every expression built over it exactly when it is
      written with `u` or C gives it a signed type: the code tags every other one Signed. */
  lemma SafeConstants(s: Sizes, c: Literal)
    requires Target(s)
    ensures SoundOver(s, c) <==> SignedConstant(s, c)
  {
    if SignedConstant(s, c) {
      SignedIsSound(s, c);
    } else {
      UnsignedIsNot(s, c);
    }
  }

  lemma SignedIsSound(s: Sizes, c: Literal)
    requires Target(s) && SignedConstant(s, c)
    ensures SoundOver(s, c)
  {
    forall e | BuiltFrom(e, c) ensures Sound(s, e) {
      SignedConstantsSound(s, c, e);
    }
  }

  lemma UnsignedIsNot(s: Sizes, c: Literal)
    requires Target(s) && !SignedConstant(s, c)
    ensures !SoundOver(s, c)
  {
    NegatedBuilt(c);
    NegatedUnsound(s, c);
  }

  const LP64 := Sizes(8, 1, 2, 4, 8, 8)

  const HEX := Literal(Hexadecimal, 0xFFFF_FFFF, NoSize, false, false)

  lemma Pow32()
    ensures Pow2(32) == 0x1_0000_0000 && Pow2(31) == 0x8000_0000
  {
    assert Pow2(4) == 16;
    Pow2Sum(4, 4);
    Pow2Sum(8, 8);
    Pow2Sum(16, 16);
    assert Pow2(32) == 2 * Pow2(31);
  }

  lemma HexIsUnsigned()
    ensures Target(LP64) && LiteralType(LP64, HEX) == Some(UNSIGNED_INT)
    ensures Pow2(32) == 0x1_0000_0000
  {
    hide Pow2;
    Pow32();
    var types := LiteralTypes(HEX);
    assert types[0] == INT && types[1] == UNSIGNED_INT && types[1..][0] == UNSIGNED_INT;
    assert !InRange(LP64, INT, 0xFFFF_FFFF) && InRange(LP64, UNSIGNED_INT, 0xFFFF_FFFF);
  }

  /** On an LP64 target `-0xFFFFFFFF` is 1 in C and -4294967295 here. */
  lemma HexNegation()
    ensures EvalExact(LP64, map[], Unary(Minus, IntegerConstant(HEX))) == Some(Signed(-4294967295))
    ensures Target(LP64) && EvalC(LP64, map[], Unary(Minus, IntegerConstant(HEX))) == Some(Typed(UNSIGNED_INT, 1))
  {
    HexIsUnsigned();
    assert EvalC(LP64, map[], IntegerConstant(HEX)) == Some(Typed(UNSIGNED_INT, 0xFFFF_FFFF));
    assert Computed(LP64, UNSIGNED_INT, -0xFFFF_FFFF) == Some(Typed(UNSIGNED_INT, 1));
  }

  // ----- the best-effort evaluator -------------------------------------------------------

  /** Rust's truncating division and remainder. */
  function TruncatingQuotient(a: int, b: int): int
    requires b != 0
  {
    if (a >= 0) == (b > 0) then (if a >= 0 then a / b else (-a) / (-b))
    else (if a >= 0 then -(a / (-b)) else -((-a) / b))
  }

  function OneIf(b: bool): int { if b then 1 else 0 }

  function ConstBinary(op: BinaryOp, a: int, b: int): Option<int> {
    match op
    case Add => Checked(a + b)
    case Subtract => Checked(a - b)
    case Multiply => Checked(a * b)
    case Divide => if b == 0 then None else Checked(TruncatingQuotient(a, b))
    case Modulo =>
      if b == 0 || (a == I128_MIN && b == -1) then None else Some(a - TruncatingQuotient(a, b) * b)
    case ShiftLeft => CheckedShl(a, b)
    case ShiftRight => CheckedShr(a, b)
    case BitwiseAnd => Some(And(a, b))
    case BitwiseOr => Some(Or(a, b))
    case BitwiseXor => Some(Xor(a, b))
    case Equals => Some(OneIf(a == b))
    case NotEquals => Some(OneIf(a != b))
    case Less => Some(OneIf(a < b))
    case Greater => Some(OneIf(a > b))
    case LessOrEqual => Some(OneIf(a <= b))
    case GreaterOrEqual => Some(OneIf(a >= b))
    case LogicalAnd => Some(OneIf(a != 0 && b != 0))
    case LogicalOr => Some(OneIf(a != 0 || b != 0))
    case OtherBinary => None
  }

  /** `eval_const_expr`. */
  function EvalConst(e: Expr): Option<int> {
    match e
    case SizeOfType(size) => (match size case Some(n) => Some(n) case None => None)
    case IntegerConstant(c) => Checked(c.magnitude)
    case Unary(op, operand) =>
      (match EvalConst(operand)
       case None => None
       case Some(v) =>
         match op
         case Minus => Checked(-v)
         case Plus => Some(v)
         case Complement => Some(-v - 1)
         case Negate => Some(OneIf(v == 0))
         case OtherUnary => None)
    case BinaryExpr(op, left, right) =>
      (match (EvalConst(left), EvalConst(right)) case (Some(a), Some(b)) => ConstBinary(op, a, b) case _ => None)
    case Conditional(c, t, f) =>
      (match EvalConst(c) case None => None case Some(v) => if v != 0 then EvalConst(t) else EvalConst(f))
    case Cast(_, inner) => EvalConst(inner)
    case Comma(parts) => if parts == [] then None else EvalConst(parts[|parts| - 1])
    case _ => None
  }

  predicate NumericOnly(e: Expr) {
    match e
    case Identifier(_) => false
    case CharacterConstant(_) => false
    case Unary(_, operand) => NumericOnly(operand)
    case BinaryExpr(_, left, right) => NumericOnly(left) && NumericOnly(right)
    case Conditional(c, t, f) => NumericOnly(c) && NumericOnly(t) && NumericOnly(f)
    case Cast(_, inner) => NumericOnly(inner)
    case Comma(parts) => forall part :: part in parts ==> NumericOnly(part)
    case _ => true
  }

  /** Every exact value fits the tagged 128-bit type that carries it. */
  lemma {:induction false} EvalExactValid(s: Sizes, env: Environment, e: Expr)
    requires Target(s) && forall name :: name in env ==> Valid(env[name])
    requires EvalExact(s, env, e).Some?
    ensures Valid(EvalExact(s, env, e).value)
    decreases e
  {
    match e
    case Unary(_, operand) => EvalExactValid(s, env, operand);
    case BinaryExpr(op, left, right) =>
      var x, y := EvalExact(s, env, left).value, EvalExact(s, env, right).value;
      BinaryValid(s, op, x, y);
    case Cast(target, inner) => EvalExactValid(s, env, inner);
    case _ =>
  }

  lemma BinaryValid(s: Sizes, op: BinaryOp, x: Exact, y: Exact)
    requires Target(s) && ExactBinary(op, x, y, Width(s, IntRank)).Some?
    ensures Valid(ExactBinary(op, x, y, Width(s, IntRank)).value)
  {
    var bits, v := Width(s, IntRank), ExactOperation(op, x.value, y.value, Width(s, IntRank)).value;
    WidthMonotone(s, CharRank, IntRank);
    LimitExact(bits);
    Pow2Monotone(bits, 64);
    Pow2Monotone(bits - 1, 63);
    Powers();
    if v >= 0 { QuotientZero(v, Pow2(bits)); }
  }

  /** Without identifiers and characters, the best-effort evaluator returns every exact value
      that fits `i128`. */
  lemma {:induction false} EvaluatorsAgree(s: Sizes, e: Expr)
    requires Target(s) && NumericOnly(e)
    requires EvalExact(s, map[], e).Some? && FitsI128(EvalExact(s, map[], e).value.value)
    ensures EvalConst(e) == Some(EvalExact(s, map[], e).value.value)
    decreases e
  {
    match e
    case Unary(op, operand) =>
      EvalExactValid(s, map[], operand);
      EvaluatorsAgree(s, operand);
    case BinaryExpr(op, left, right) =>
      hide ExactBinary, ConstBinary;
      BinaryAgree(s, op, EvalExact(s, map[], left).value, EvalExact(s, map[], right).value);
      EvaluatorsAgree(s, left);
      EvaluatorsAgree(s, right);
    case Cast(_, inner) => EvaluatorsAgree(s, inner);
    case _ =>
  }

  lemma BinaryAgree(s: Sizes, op: BinaryOp, x: Exact, y: Exact)
    requires Target(s) && ExactBinary(op, x, y, Width(s, IntRank)).Some?
    ensures FitsI128(x.value) && FitsI128(y.value)
    ensures ConstBinary(op, x.value, y.value) == Some(ExactBinary(op, x, y, Width(s, IntRank)).value.value)
  {
    WidthMonotone(s, IntRank, LongLongRank);
  }
}
