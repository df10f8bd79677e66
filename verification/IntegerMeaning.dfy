/** What the operators of integer constant expressions mean, as relations between numbers: sections 6.3.1 and 6.5
    of ISO/IEC 9899:2011.  Every operation of the model is tied to its relation in both directions. */
module IntegerMeaning {
  import opened Wrappers
  import opened CInteger

  // ----- bits ------------------------------------------------------------------------------

  /** Bit `k` is the digit of weight 2^k. */
  lemma {:induction false} BitIsDigit(v: int, k: nat)
    ensures Bit(v, k) <==> (v / Pow2(k)) % 2 == 1
    decreases k
  {
    if k > 0 {
      BitIsDigit(v / 2, k - 1);
      TwiceDivided(v, Pow2(k - 1));
    }
  }

  lemma TwiceDivided(v: int, p: int)
    requires p >= 1
    ensures v / 2 / p == v / (2 * p)
  {
    var h, q := v / 2, v / 2 / p;
    assert v == 2 * h + v % 2;
    assert h == p * q + h % p;
    assert v == (2 * p) * q + (2 * (h % p) + v % 2);
    Quotient(v, 2 * p, q, 2 * (h % p) + v % 2);
  }

  lemma Quotient(v: int, d: int, q: int, r: int)
    requires d >= 1 && 0 <= r < d && v == d * q + r
    ensures v / d == q && v % d == r
  {
    var e := v / d - q;
    assert v == d * (v / d) + v % d;
    assert d * e == r - v % d by { assert d * e == d * (v / d) - d * q; }
    MultipleBound(d, e);
  }

  lemma MultipleBound(d: int, e: int)
    requires d >= 1
    ensures e >= 1 ==> d * e >= d
    ensures e <= -1 ==> d * e <= -d
  {
  }

  ghost predicate SameBits(a: int, b: int) { forall k: nat :: Bit(a, k) <==> Bit(b, k) }

  /** An integer is determined by its bits. */
  lemma {:induction false} BitsDetermine(a: int, b: int)
    requires SameBits(a, b)
    ensures a == b
    decreases (if a >= 0 then a else -a - 1) + (if b >= 0 then b else -b - 1)
  {
    assert Bit(a, 0) <==> Bit(b, 0);
    if a / 2 == a && b / 2 == b {
      assert a == 0 || a == -1;
    } else {
      assert SameBits(a / 2, b / 2) by {
        forall k: nat ensures Bit(a / 2, k) <==> Bit(b / 2, k) {
          assert Bit(a, k + 1) <==> Bit(b, k + 1);
        }
      }
      BitsDetermine(a / 2, b / 2);
    }
  }

  // ----- results on integers of unbounded width --------------------------------------------

  /** The integer results of the arithmetic and bitwise operators. */
  ghost predicate IsResult(op: BinaryOp, a: int, b: int, v: int) {
    match op
    case Add => v == a + b
    case Subtract => v == a - b
    case Multiply => v == a * b
    case BitwiseAnd => forall k: nat :: Bit(v, k) <==> Bit(a, k) && Bit(b, k)
    case BitwiseOr => forall k: nat :: Bit(v, k) <==> Bit(a, k) || Bit(b, k)
    case BitwiseXor => forall k: nat :: Bit(v, k) <==> Bit(a, k) != Bit(b, k)
    case ShiftLeft => b >= 0 && v == a * Pow2(b)
    case ShiftRight => b >= 0 && v * Pow2(b) <= a < (v + 1) * Pow2(b)
    case _ => false
  }

  lemma AndMeans(a: int, b: int, v: int)
    ensures v == And(a, b) <==> IsResult(BitwiseAnd, a, b, v)
  {
    forall k: nat ensures Bit(And(a, b), k) <==> Bit(a, k) && Bit(b, k) { AndBits(a, b, k); }
    if IsResult(BitwiseAnd, a, b, v) {
      assert SameBits(v, And(a, b));
      BitsDetermine(v, And(a, b));
    }
  }

  lemma OrMeans(a: int, b: int, v: int)
    ensures v == Or(a, b) <==> IsResult(BitwiseOr, a, b, v)
  {
    forall k: nat ensures Bit(Or(a, b), k) <==> Bit(a, k) || Bit(b, k) { OrBits(a, b, k); }
    if IsResult(BitwiseOr, a, b, v) {
      assert SameBits(v, Or(a, b));
      BitsDetermine(v, Or(a, b));
    }
  }

  lemma XorMeans(a: int, b: int, v: int)
    ensures v == Xor(a, b) <==> IsResult(BitwiseXor, a, b, v)
  {
    forall k: nat ensures Bit(Xor(a, b), k) <==> Bit(a, k) != Bit(b, k) { XorBits(a, b, k); }
    if IsResult(BitwiseXor, a, b, v) {
      assert SameBits(v, Xor(a, b));
      BitsDetermine(v, Xor(a, b));
    }
  }

  lemma RightShiftMeans(a: int, b: nat, v: int)
    ensures v == a / Pow2(b) <==> IsResult(ShiftRight, a, b, v)
  {
    var p := Pow2(b);
    hide Pow2;
    assert (v + 1) * p == v * p + p;
    if v == a / p {
      assert a == p * (a / p) + a % p;
    } else if v * p <= a < (v + 1) * p {
      Quotient(a, p, v, a - v * p);
    }
  }

  /** The shapes of the powers of two. */
  lemma PowersOfTwo(m: nat, n: nat)
    ensures Pow2(0) == 1 && Pow2(1) == 2 && Pow2(m + n) == Pow2(m) * Pow2(n)
  {
    PowersAdd(m, n);
  }

  lemma {:induction false} PowersAdd(m: nat, n: nat)
    ensures Pow2(m + n) == Pow2(m) * Pow2(n)
  {
    if m > 0 { PowersAdd(m - 1, n); }
  }

  // ----- conversions -----------------------------------------------------------------------

  /** Section 6.3.1.3: the value itself if the type has it; otherwise, for an unsigned type, the value of the type
      that is congruent to it modulo the number of its values. */
  ghost predicate Converts(s: Sizes, t: IntType, v: int, r: int)
    requires Target(s)
  {
    InRange(s, t, r) && (r == v || (!t.signed && (v - r) % Pow2(Width(s, t.rank)) == 0))
  }

  lemma ConvertMeans(s: Sizes, t: IntType, v: int, r: int)
    requires Target(s)
    ensures Convert(s, t, v) == Some(r) <==> Converts(s, t, v, r)
    ensures Computed(s, t, v) == Some(Typed(t, r)) <==> Converts(s, t, v, r)
    ensures Computed(s, t, v).Some? ==> Computed(s, t, v).value.ty == t
  {
    hide Pow2;
    var p := Pow2(Width(s, t.rank));
    ModuloUnique(v, p, v % p, r);
    if InRange(s, t, v) && !t.signed { ModuloUnique(v, p, v, r); }
  }

  /** Two numbers below `p` that differ from `v` by multiples of `p` are the same. */
  lemma ModuloUnique(v: int, p: int, x: int, r: int)
    requires p >= 1
    ensures (v - v % p) % p == 0
    ensures 0 <= x < p && 0 <= r < p && (v - x) % p == 0 && (v - r) % p == 0 ==> x == r
  {
    assert v == p * (v / p) + v % p;
    Quotient(v - v % p, p, v / p, 0);
    if 0 <= x < p && 0 <= r < p && (v - x) % p == 0 && (v - r) % p == 0 {
      assert v - x == p * ((v - x) / p) && v - r == p * ((v - r) / p);
      Quotient(v, p, (v - x) / p, x);
      Quotient(v, p, (v - r) / p, r);
    }
  }

  /** Section 6.3.1.1: a type below `int` becomes `int` if that has all its values. */
  lemma PromotedMeans(s: Sizes, t: IntType)
    requires Target(s)
    ensures t.rank in {IntRank, LongRank, LongLongRank} ==> Promoted(s, t) == t
    ensures t.rank in {CharRank, ShortRank} ==>
              (Promoted(s, t) == IntType(IntRank, true) <==>
                 forall v :: InRange(s, t, v) ==> InRange(s, IntType(IntRank, true), v))
    ensures t.rank in {CharRank, ShortRank} ==>
              Promoted(s, t) == IntType(IntRank, true) || Promoted(s, t) == IntType(IntRank, false)
  {
    if t.rank in {CharRank, ShortRank} {
      var w, i := Width(s, t.rank), Width(s, IntRank);
      WidthMonotone(s, t.rank, IntRank);
      Pow2Monotone(w - 1, i - 1);
      if w < i { Pow2Monotone(w, i - 1); }
      if !t.signed && w == i {
        var v := Pow2(w) - 1;
        assert Pow2(w) == 2 * Pow2(w - 1);
        assert InRange(s, t, v) && !InRange(s, IntType(IntRank, true), v);
      }
    }
  }

  /** Section 6.3.1.8: one of the two types, or the unsigned form of a signed one that has not all values of the
      unsigned other. */
  lemma CommonMeans(s: Sizes, a: IntType, b: IntType)
    requires Target(s)
    ensures a.signed == b.signed && a.rank.Order() >= b.rank.Order() ==> Common(s, a, b) == a == Common(s, b, a)
    ensures a.signed && !b.signed && b.rank.Order() >= a.rank.Order() ==> Common(s, a, b) == b == Common(s, b, a)
    ensures a.signed && !b.signed && b.rank.Order() < a.rank.Order() ==>
              Common(s, a, b) == Common(s, b, a)
              == if forall v :: InRange(s, b, v) ==> InRange(s, a, v) then a else IntType(a.rank, false)
  {
    if a.signed && !b.signed && b.rank.Order() < a.rank.Order() {
      var w, i := Width(s, b.rank), Width(s, a.rank);
      WidthMonotone(s, b.rank, a.rank);
      if w < i {
        Pow2Monotone(w, i - 1);
      } else {
        assert Pow2(w) == 2 * Pow2(w - 1);
        assert InRange(s, b, Pow2(w) - 1) && !InRange(s, a, Pow2(w) - 1);
      }
    }
  }

  // ----- typed results ---------------------------------------------------------------------

  predicate IsShift(op: BinaryOp) { op == ShiftLeft || op == ShiftRight }

  /** Sections 6.5.5 to 6.5.12: the operands are converted to their common type, a shift keeps the promoted type of
      its left operand, and the result is that of the integers, converted if the type is unsigned and undefined if
      a signed type does not have it. */
  ghost predicate BinaryMeaning(s: Sizes, op: BinaryOp, x: Typed, y: Typed, r: Typed)
    requires Target(s)
  {
    var p, q := Promoted(s, x.ty), Promoted(s, y.ty);
    if IsShift(op) then
      && r.ty == p && x.value >= 0 && 0 <= y.value < Width(s, p.rank)
      && exists v :: IsResult(op, x.value, y.value, v)
                     && if op.ShiftLeft? then Converts(s, p, v, r.value) else v == r.value
    else
      && r.ty == Common(s, p, q)
      && exists a, b, v ::
           && Converts(s, r.ty, x.value, a) && Converts(s, r.ty, y.value, b)
           && IsResult(op, a, b, v) && Converts(s, r.ty, v, r.value)
  }

  /** The arithmetic operator applied by the model, on integers. */
  function Applied(op: BinaryOp, a: int, b: int): int {
    match op
    case Add => a + b
    case Subtract => a - b
    case Multiply => a * b
    case BitwiseAnd => And(a, b)
    case BitwiseOr => Or(a, b)
    case _ => Xor(a, b)
  }

  predicate Arithmetical(op: BinaryOp) {
    op in {Add, Subtract, Multiply, BitwiseAnd, BitwiseOr, BitwiseXor}
  }

  lemma AppliedMeans(op: BinaryOp, a: int, b: int, v: int)
    requires Arithmetical(op)
    ensures v == Applied(op, a, b) <==> IsResult(op, a, b, v)
  {
    match op
    case BitwiseAnd => AndMeans(a, b, v);
    case BitwiseOr => OrMeans(a, b, v);
    case BitwiseXor => XorMeans(a, b, v);
    case _ =>
  }

  lemma ArithmeticUnfolds(s: Sizes, op: BinaryOp, x: Typed, y: Typed)
    requires Target(s) && Arithmetical(op)
    ensures var t := Common(s, Promoted(s, x.ty), Promoted(s, y.ty));
            BinaryResult(s, op, x, y)
            == match (Convert(s, t, x.value), Convert(s, t, y.value))
               case (Some(a), Some(b)) => Computed(s, t, Applied(op, a, b))
               case _ => None
  {
    hide Common, Promoted, Convert, Computed;
  }

  lemma ArithmeticMeans(s: Sizes, op: BinaryOp, x: Typed, y: Typed, r: Typed)
    requires Target(s) && Arithmetical(op)
    ensures BinaryResult(s, op, x, y) == Some(r) <==> BinaryMeaning(s, op, x, y, r)
  {
    hide Common, Promoted, Convert, Computed, Converts, IsResult, Applied, BinaryResult;
    var t := Common(s, Promoted(s, x.ty), Promoted(s, y.ty));
    ArithmeticUnfolds(s, op, x, y);
    if BinaryResult(s, op, x, y) == Some(r) {
      var (a, b) := (Convert(s, t, x.value).value, Convert(s, t, y.value).value);
      ConvertMeans(s, t, x.value, a);
      ConvertMeans(s, t, y.value, b);
      AppliedMeans(op, a, b, Applied(op, a, b));
      ConvertMeans(s, t, Applied(op, a, b), r.value);
    }
    if BinaryMeaning(s, op, x, y, r) {
      var a, b, v :| && Converts(s, r.ty, x.value, a) && Converts(s, r.ty, y.value, b)
                     && IsResult(op, a, b, v) && Converts(s, r.ty, v, r.value);
      ConvertMeans(s, t, x.value, a);
      ConvertMeans(s, t, y.value, b);
      AppliedMeans(op, a, b, v);
      ConvertMeans(s, t, v, r.value);
    }
  }

  lemma ShiftMeans(s: Sizes, op: BinaryOp, x: Typed, y: Typed, r: Typed)
    requires Target(s) && IsShift(op)
    ensures BinaryResult(s, op, x, y) == Some(r) <==> BinaryMeaning(s, op, x, y, r)
  {
    hide Common, Promoted, Convert, Computed, Converts, Pow2;
    var p := Promoted(s, x.ty);
    if x.value >= 0 && 0 <= y.value < Width(s, p.rank) {
      var v := if op.ShiftLeft? then x.value * Pow2(y.value) else x.value / Pow2(y.value);
      RightShiftMeans(x.value, y.value, v);
      assert IsResult(op, x.value, y.value, v);
      ConvertMeans(s, p, v, r.value);
      forall w | IsResult(op, x.value, y.value, w) ensures w == v { RightShiftMeans(x.value, y.value, w); }
    }
  }

  /** The binary operators are those of the language. */
  lemma BinaryResultMeans(s: Sizes, op: BinaryOp, x: Typed, y: Typed, r: Typed)
    requires Target(s)
    ensures BinaryResult(s, op, x, y) == Some(r) <==> BinaryMeaning(s, op, x, y, r)
  {
    if IsShift(op) {
      ShiftMeans(s, op, x, y, r);
    } else if Arithmetical(op) {
      ArithmeticMeans(s, op, x, y, r);
    }
  }

  /** Every bit is the other one. */
  ghost predicate Flipped(x: int, v: int) { forall k: nat :: Bit(v, k) <==> !Bit(x, k) }

  /** Section 6.5.3.3, on the promoted type; `!` gives an `int`. */
  ghost predicate UnaryMeaning(s: Sizes, op: UnaryOp, x: Typed, r: Typed)
    requires Target(s)
  {
    match op
    case Plus => r == Typed(Promoted(s, x.ty), x.value)
    case Minus => r.ty == Promoted(s, x.ty) && Converts(s, r.ty, 0 - x.value, r.value)
    case Complement =>
      r.ty == Promoted(s, x.ty)
      && exists v :: Flipped(x.value, v) && Converts(s, r.ty, v, r.value)
    case Negate => r.ty == IntType(IntRank, true) && (r.value == 0 || r.value == 1) && (r.value == 1 <==> x.value == 0)
    case OtherUnary => false
  }

  lemma ComplementMeans(x: int, v: int)
    ensures v == -x - 1 <==> Flipped(x, v)
  {
    forall k: nat ensures Bit(-x - 1, k) <==> !Bit(x, k) { ComplementBits(x, k); }
    assert Flipped(x, -x - 1);
    if Flipped(x, v) {
      assert SameBits(v, -x - 1);
      BitsDetermine(v, -x - 1);
    }
  }

  /** The unary operators are those of the language. */
  lemma UnaryResultMeans(s: Sizes, op: UnaryOp, x: Typed, r: Typed)
    requires Target(s)
    ensures UnaryResult(s, op, x) == Some(r) <==> UnaryMeaning(s, op, x, r)
  {
    hide Promoted, Converts, Computed, Flipped;
    var t := Promoted(s, x.ty);
    ConvertMeans(s, t, -x.value, r.value);
    ConvertMeans(s, t, -x.value - 1, r.value);
    assert 0 - x.value == -x.value;
    match op
    case Complement =>
      ComplementMeans(x.value, -x.value - 1);
      if UnaryMeaning(s, op, x, r) {
        var v :| Flipped(x.value, v) && Converts(s, r.ty, v, r.value);
        ComplementMeans(x.value, v);
      }
    case _ =>
  }
}
