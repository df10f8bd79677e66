/** Typed integer arithmetic as ISO/IEC 9899:2011 defines it, on two's-complement targets whose
    integer types are at most 64 bits wide.  Undefined and implementation-defined results are
    `None`. */
module CInteger {
  import opened Wrappers

  /** `SizeOfTable`: byte sizes of the integer types, and the bits of a byte. */
  datatype Sizes =
    Sizes(charBit: nat, charBytes: nat, shortBytes: nat, intBytes: nat, longBytes: nat, longLongBytes: nat)

  datatype Rank = CharRank | ShortRank | IntRank | LongRank | LongLongRank {
    function Order(): nat {
      match this
      case CharRank => 0
      case ShortRank => 1
      case IntRank => 2
      case LongRank => 3
      case LongLongRank => 4
    }
  }

  datatype IntType = IntType(rank: Rank, signed: bool)

  datatype Typed = Typed(ty: IntType, value: int)

  const INT := IntType(IntRank, true)
  const UNSIGNED_INT := IntType(IntRank, false)

  function Bytes(s: Sizes, rank: Rank): nat {
    match rank
    case CharRank => s.charBytes
    case ShortRank => s.shortBytes
    case IntRank => s.intBytes
    case LongRank => s.longBytes
    case LongLongRank => s.longLongBytes
  }

  function Width(s: Sizes, rank: Rank): nat { Bytes(s, rank) * s.charBit }

  /** The widths of section 5.2.4.2.1, none above 64. */
  predicate Target(s: Sizes) {
    8 <= Width(s, CharRank) <= Width(s, ShortRank) <= Width(s, IntRank)
    <= Width(s, LongRank) <= Width(s, LongLongRank) <= 64
  }

  function Pow2(n: nat): (p: int)
    ensures p >= 1
  {
    if n == 0 then 1 else 2 * Pow2(n - 1)
  }

  lemma {:induction false} Pow2Monotone(m: nat, n: nat)
    requires m <= n
    ensures Pow2(m) <= Pow2(n)
    decreases n - m
  {
    if m < n { Pow2Monotone(m + 1, n); }
  }

  /** The values of a type, section 6.2.6.2. */
  predicate InRange(s: Sizes, t: IntType, v: int)
    requires Target(s)
  {
    if t.signed then -Pow2(Width(s, t.rank) - 1) <= v < Pow2(Width(s, t.rank) - 1)
    else 0 <= v < Pow2(Width(s, t.rank))
  }

  /** Conversion between integer types, section 6.3.1.3. */
  function Convert(s: Sizes, t: IntType, v: int): Option<int>
    requires Target(s)
  {
    if InRange(s, t, v) then Some(v)
    else if t.signed then None
    else Some(v % Pow2(Width(s, t.rank)))
  }

  /** Integer promotion, section 6.3.1.1: narrower types become `int`, or `unsigned int` when
      `int` cannot hold all their values. */
  function Promoted(s: Sizes, t: IntType): IntType {
    if t.rank.Order() >= IntRank.Order() then t
    else if t.signed || Width(s, t.rank) < Width(s, IntRank) then INT
    else UNSIGNED_INT
  }

  /** The common type of two promoted operands, section 6.3.1.8. */
  function Common(s: Sizes, a: IntType, b: IntType): IntType {
    if a.signed == b.signed then (if a.rank.Order() >= b.rank.Order() then a else b)
    else
      var (u, i) := if a.signed then (b, a) else (a, b);
      if u.rank.Order() >= i.rank.Order() then u
      else if Width(s, i.rank) > Width(s, u.rank) then i
      else IntType(i.rank, false)
  }

  /** The result of an arithmetic operation in type `t`: modulo for unsigned types, undefined
      on signed overflow (sections 6.2.5 and 6.5). */
  function Computed(s: Sizes, t: IntType, v: int): Option<Typed>
    requires Target(s)
  {
    if InRange(s, t, v) then Some(Typed(t, v))
    else if t.signed then None
    else Some(Typed(t, v % Pow2(Width(s, t.rank))))
  }

  // ----- bitwise operators on two's-complement integers of unbounded width ----------------

  function And(a: int, b: int): int
    decreases if a >= 0 then a else -a
  {
    if a == 0 then 0 else if a == -1 then b else 2 * And(a / 2, b / 2) + (a % 2) * (b % 2)
  }

  function Or(a: int, b: int): int
    decreases if a >= 0 then a else -a
  {
    if a == 0 then b else if a == -1 then -1 else 2 * Or(a / 2, b / 2) + (if a % 2 == 1 || b % 2 == 1 then 1 else 0)
  }

  function Xor(a: int, b: int): int
    decreases if a >= 0 then a else -a
  {
    if a == 0 then b else if a == -1 then -b - 1 else 2 * Xor(a / 2, b / 2) + (if a % 2 != b % 2 then 1 else 0)
  }

  /** Bit `k` of the two's-complement form. */
  predicate Bit(v: int, k: nat)
    decreases k
  {
    if k == 0 then v % 2 == 1 else Bit(v / 2, k - 1)
  }

  lemma {:induction false} ConstantBits(k: nat)
    ensures !Bit(0, k) && Bit(-1, k)
    decreases k
  {
    if k > 0 { ConstantBits(k - 1); }
  }

  lemma {:induction false} ComplementBits(v: int, k: nat)
    ensures Bit(-v - 1, k) <==> !Bit(v, k)
    decreases k
  {
    if k > 0 {
      assert (-v - 1) / 2 == -(v / 2) - 1;
      ComplementBits(v / 2, k - 1);
    }
  }

  lemma Digit(q: int, d: int, k: nat)
    requires 0 <= d <= 1
    ensures Bit(2 * q + d, k) <==> if k == 0 then d == 1 else Bit(q, k - 1)
  {
    assert (2 * q + d) / 2 == q && (2 * q + d) % 2 == d;
  }

  lemma OneDigit(x: int, y: int)
    requires 0 <= x <= 1 && 0 <= y <= 1
    ensures x * y == if x == 1 && y == 1 then 1 else 0
  {
  }

  function AndDigit(a: int, b: int): int { if a % 2 == 1 && b % 2 == 1 then 1 else 0 }

  function OrDigit(a: int, b: int): int { if a % 2 == 1 || b % 2 == 1 then 1 else 0 }

  function XorDigit(a: int, b: int): int { if a % 2 != b % 2 then 1 else 0 }

  lemma Ends(b: int)
    ensures And(0, b) == 0 && And(-1, b) == b
    ensures Or(0, b) == b && Or(-1, b) == -1
    ensures Xor(0, b) == b && Xor(-1, b) == -b - 1
  {
  }

  /** Each operator on the halves, and the lowest digit. */
  lemma Halved(a: int, b: int)
    requires a != 0 && a != -1
    ensures And(a, b) == 2 * And(a / 2, b / 2) + AndDigit(a, b)
    ensures Or(a, b) == 2 * Or(a / 2, b / 2) + OrDigit(a, b)
    ensures Xor(a, b) == 2 * Xor(a / 2, b / 2) + XorDigit(a, b)
  {
    OneDigit(a % 2, b % 2);
  }

  lemma BitUnfolds(v: int, k: nat)
    ensures Bit(v, k) <==> if k == 0 then v % 2 == 1 else Bit(v / 2, k - 1)
  {
  }

  lemma {:induction false} AndBits(a: int, b: int, k: nat)
    ensures Bit(And(a, b), k) <==> Bit(a, k) && Bit(b, k)
    decreases k
  {
    hide And, Or, Xor, Bit;
    ConstantBits(k);
    Ends(b);
    if a != 0 && a != -1 {
      Halved(a, b);
      Digit(And(a / 2, b / 2), AndDigit(a, b), k);
      BitUnfolds(a, k);
      BitUnfolds(b, k);
      if k > 0 { AndBits(a / 2, b / 2, k - 1); }
    }
  }

  lemma {:induction false} OrBits(a: int, b: int, k: nat)
    ensures Bit(Or(a, b), k) <==> Bit(a, k) || Bit(b, k)
    decreases k
  {
    hide And, Or, Xor, Bit;
    ConstantBits(k);
    Ends(b);
    if a != 0 && a != -1 {
      Halved(a, b);
      Digit(Or(a / 2, b / 2), OrDigit(a, b), k);
      BitUnfolds(a, k);
      BitUnfolds(b, k);
      if k > 0 { OrBits(a / 2, b / 2, k - 1); }
    }
  }

  lemma {:induction false} XorBits(a: int, b: int, k: nat)
    ensures Bit(Xor(a, b), k) <==> Bit(a, k) != Bit(b, k)
    decreases k
  {
    hide And, Or, Xor, Bit;
    ConstantBits(k);
    ComplementBits(b, k);
    Ends(b);
    if a != 0 && a != -1 {
      Halved(a, b);
      Digit(Xor(a / 2, b / 2), XorDigit(a, b), k);
      BitUnfolds(a, k);
      BitUnfolds(b, k);
      if k > 0 { XorBits(a / 2, b / 2, k - 1); }
    }
  }

  /** The three operators act bit by bit, on negative values as well. */
  lemma BitwiseBits(a: int, b: int, k: nat)
    ensures Bit(And(a, b), k) <==> Bit(a, k) && Bit(b, k)
    ensures Bit(Or(a, b), k) <==> Bit(a, k) || Bit(b, k)
    ensures Bit(Xor(a, b), k) <==> Bit(a, k) != Bit(b, k)
  {
    AndBits(a, b, k);
    OrBits(a, b, k);
    XorBits(a, b, k);
  }

  // ----- operators -----------------------------------------------------------------------

  datatype UnaryOp = Plus | Minus | Complement | Negate | OtherUnary

  datatype BinaryOp =
    | Multiply | Divide | Modulo | Add | Subtract | ShiftLeft | ShiftRight
    | Less | Greater | LessOrEqual | GreaterOrEqual | Equals | NotEquals
    | BitwiseAnd | BitwiseXor | BitwiseOr | LogicalAnd | LogicalOr | OtherBinary

  /** Sections 6.5.3.3. */
  function UnaryResult(s: Sizes, op: UnaryOp, x: Typed): Option<Typed>
    requires Target(s)
  {
    var t := Promoted(s, x.ty);
    match op
    case Plus => Some(Typed(t, x.value))
    case Minus => Computed(s, t, -x.value)
    case Complement => Computed(s, t, -x.value - 1)
    case Negate => Some(Typed(INT, if x.value == 0 then 1 else 0))
    case OtherUnary => None
  }

  /** Sections 6.5.5 to 6.5.12; division, comparison and logic are not needed here. */
  function BinaryResult(s: Sizes, op: BinaryOp, x: Typed, y: Typed): Option<Typed>
    requires Target(s)
  {
    var p, q := Promoted(s, x.ty), Promoted(s, y.ty);
    match op
    case ShiftLeft => Shifted(s, p, x.value, y.value, true)
    case ShiftRight => Shifted(s, p, x.value, y.value, false)
    case Add => Arithmetic(s, Common(s, p, q), x.value, y.value, (a, b) => a + b)
    case Subtract => Arithmetic(s, Common(s, p, q), x.value, y.value, (a, b) => a - b)
    case Multiply => Arithmetic(s, Common(s, p, q), x.value, y.value, (a, b) => a * b)
    case BitwiseAnd => Arithmetic(s, Common(s, p, q), x.value, y.value, And)
    case BitwiseOr => Arithmetic(s, Common(s, p, q), x.value, y.value, Or)
    case BitwiseXor => Arithmetic(s, Common(s, p, q), x.value, y.value, Xor)
    case _ => None
  }

  function Arithmetic(s: Sizes, t: IntType, x: int, y: int, op: (int, int) -> int): Option<Typed>
    requires Target(s)
  {
    match (Convert(s, t, x), Convert(s, t, y))
    case (Some(a), Some(b)) => Computed(s, t, op(a, b))
    case _ => None
  }

  /** Section 6.5.7: the count must be less than the width, and a signed left operand must be
      nonnegative (a negative right shift is implementation-defined). */
  function Shifted(s: Sizes, t: IntType, x: int, count: int, left: bool): Option<Typed>
    requires Target(s)
  {
    if !(0 <= count < Width(s, t.rank)) || x < 0 then None
    else if left then Computed(s, t, x * Pow2(count))
    else Some(Typed(t, x / Pow2(count)))
  }

  // ----- the facts that let an untyped value stand for a typed one ------------------------

  /** Converting to the common type keeps a value that is nonnegative, or that meets only
      signed operands. */
  lemma CommonKeepsValue(s: Sizes, a: IntType, b: IntType, v: int)
    requires Target(s)
    requires InRange(s, a, v) && (v >= 0 || (a.signed && b.signed))
    ensures var t := Common(s, Promoted(s, a), Promoted(s, b)); Convert(s, t, v) == Some(v)
    ensures var t := Common(s, Promoted(s, b), Promoted(s, a)); Convert(s, t, v) == Some(v)
    ensures var t := Common(s, Promoted(s, a), Promoted(s, b));
            t.rank.Order() >= IntRank.Order() && (a.signed && b.signed ==> t.signed)
  {
    PromotedKeepsValue(s, a, v);
    var p, q := Promoted(s, a), Promoted(s, b);
    Wider(s, p, Common(s, p, q), v);
    Wider(s, p, Common(s, q, p), v);
  }

  lemma PromotedKeepsValue(s: Sizes, a: IntType, v: int)
    requires Target(s) && InRange(s, a, v)
    ensures InRange(s, Promoted(s, a), v) && Promoted(s, a).rank.Order() >= IntRank.Order()
    ensures a.signed ==> Promoted(s, a).signed
  {
    WidthMonotone(s, a.rank, Promoted(s, a).rank);
    Pow2Monotone(Width(s, a.rank), Width(s, Promoted(s, a).rank));
    Pow2Monotone(Width(s, a.rank) - 1, Width(s, Promoted(s, a).rank) - 1);
    if !a.signed && Promoted(s, a).signed {
      Pow2Monotone(Width(s, a.rank), Width(s, IntRank) - 1);
    }
  }

  lemma WidthMonotone(s: Sizes, a: Rank, b: Rank)
    requires Target(s) && a.Order() <= b.Order()
    ensures 1 <= Width(s, a) <= Width(s, b) <= 64
  {
  }

  lemma Wider(s: Sizes, a: IntType, t: IntType, v: int)
    requires Target(s) && InRange(s, a, v)
    requires a.rank.Order() <= t.rank.Order() || Width(s, a.rank) <= Width(s, t.rank)
    requires v >= 0 || t.signed
    requires !a.signed && t.signed ==> Width(s, a.rank) < Width(s, t.rank)
    ensures InRange(s, t, v)
  {
    if a.rank.Order() <= t.rank.Order() { WidthMonotone(s, a.rank, t.rank); }
    Pow2Monotone(Width(s, a.rank), Width(s, t.rank));
    Pow2Monotone(Width(s, a.rank) - 1, Width(s, t.rank) - 1);
    Pow2Monotone(Width(s, a.rank) - 1, Width(s, t.rank));
    if Width(s, a.rank) < Width(s, t.rank) { Pow2Monotone(Width(s, a.rank), Width(s, t.rank) - 1); }
  }

  /** A value in the range of `int` (or `unsigned int`) is in range in every type at least as
      wide, so an operation that C defines yields it unchanged. */
  lemma ResultExact(s: Sizes, t: IntType, v: int)
    requires Target(s) && t.rank.Order() >= IntRank.Order()
    requires if t.signed then Computed(s, t, v).Some? else 0 <= v < Pow2(Width(s, IntRank))
    ensures Computed(s, t, v) == Some(Typed(t, v)) && InRange(s, t, v)
  {
    WidthMonotone(s, IntRank, t.rank);
    Pow2Monotone(Width(s, IntRank), Width(s, t.rank));
  }
}
