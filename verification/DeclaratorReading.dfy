/** What C makes of a declarator (sections 6.7.3 and 6.7.6 of ISO/IEC 9899:2011), defined apart from the
    code, and exactly when the code reads it so. */
module DeclaratorReading {
  import opened Wrappers
  import opened Contract
  import opened Declarators
  import E = ConstEval

  function Reverse<T>(s: seq<T>): seq<T> {
    if s == [] then [] else Reverse(s[1..]) + [s[0]]
  }

  // ----- the reading of the language -----------------------------------------------------

  /** The level nearest the name that adds anything. */
  function Innermost(d: Declarator): seq<Derived> {
    if d.kind.Nested? && Innermost(d.kind.inner) != [] then Innermost(d.kind.inner) else d.derived
  }

  /** Nothing between this level and the name adds a layer: its first suffix is the outermost one. */
  predicate Nearest(d: Declarator) { d.kind.Nested? ==> Innermost(d.kind.inner) == [] }

  /** The suffixes of one level.  Section 6.7.6.2: `static` and qualifiers are for the outermost array of a
      parameter, that is for the first suffix of the level nearest the name, if `outermost`. */
  function CSuffixes(aliases: set<Id>, derived: seq<Derived>, outermost: bool): seq<Layer>
    decreases derived
  {
    if derived == [] then []
    else
      match derived[0]
      case ArrayOf(qualifiers, size) =>
        [ArrayLayerOf(qualifiers, size, outermost)] + CSuffixes(aliases, derived[1..], false)
      case FunctionOf(parameters, ellipsis, convention) =>
        [FunctionLayerOf(CParameters(aliases, parameters), ellipsis, convention)]
        + CSuffixes(aliases, derived[1..], false)
      case _ => CSuffixes(aliases, derived[1..], outermost)
  }

  /** The layers in the order of section 6.7.6: the suffix nearest the name is outermost. */
  function CLayers(aliases: set<Id>, d: Declarator, parameter: bool): seq<Layer>
    decreases d
  {
    PointerLayers(d.derived) + Reverse(CSuffixes(aliases, d.derived, parameter && Nearest(d)))
    + if d.kind.Nested? then CLayers(aliases, d.kind.inner, parameter) else []
  }

  /** Two nullability qualifiers that contradict each other. */
  predicate CConflict(qualifiers: seq<TypeQualifier>) {
    || (NonnullQualifier in qualifiers && NullableQualifier in qualifiers)
    || (NonnullQualifier in qualifiers && NullUnspecifiedQualifier in qualifiers)
    || (NullableQualifier in qualifiers && NullUnspecifiedQualifier in qualifiers)
  }

  /** The nullability that qualifiers without a conflict say, if any. */
  function CNullability(qualifiers: seq<TypeQualifier>, otherwise: Nullability): Nullability {
    if NonnullQualifier in qualifiers then Nonnull
    else if NullableQualifier in qualifiers then Nullable
    else if NullUnspecifiedQualifier in qualifiers then NullUnspecified
    else otherwise
  }

  /** `restrict` and nullability are for pointers. */
  predicate CMarks(qualifiers: seq<TypeQualifier>) {
    || Restrict in qualifiers || NonnullQualifier in qualifiers || NullableQualifier in qualifiers
    || NullUnspecifiedQualifier in qualifiers
  }

  /** A type with qualifiers added. */
  function CQualified(base: CType, qualifiers: seq<TypeQualifier>): CType {
    CType(Qualifiers(base.qualifiers.isConst || Const in qualifiers,
                     base.qualifiers.isVolatile || Volatile in qualifiers,
                     base.qualifiers.isRestrict || Restrict in qualifiers,
                     base.qualifiers.isAtomic || Atomic in qualifiers),
          CNullability(qualifiers, base.nullability), base.kind, base.support)
  }

  /** A declared type.  Section 6.7.3: the qualifiers among the specifiers all go on the type of the
      specifiers, and `restrict`, like nullability, needs a pointer there. */
  function CFinish(aliases: set<Id>, base: CType, qualifiers: seq<TypeQualifier>, declarator: Option<Declarator>,
                   parameter: bool): CType
    decreases declarator
  {
    if CConflict(qualifiers) then Refused(CONFLICTING_NULLABILITY)
    else if CMarks(qualifiers) && !PointerLike(aliases, base.kind) then Refused(NO_POINTER)
    else
      var ty := CQualified(base, qualifiers);
      if declarator.Some? then WrapAll(ty, CLayers(aliases, declarator.value, parameter)) else ty
  }

  function CParameters(aliases: set<Id>, parameters: seq<Parameter>): (r: seq<CParameter>)
    ensures |r| == |parameters|
    decreases parameters
  {
    if parameters == [] then []
    else
      var p := parameters[0];
      assert p.declarator < p;
      var name := if p.declarator.Some? then DeclaratorName(p.declarator.value) else None;
      [CParameter(name, CFinish(aliases, p.base, p.qualifiers, p.declarator, true))]
      + CParameters(aliases, parameters[1..])
  }

  // ----- the qualifier loop --------------------------------------------------------------

  /** One more turn of the loop: what was said before, and what `qualifiers` say. */
  lemma OneFlag(v: QualifierValues, q: TypeQualifier)
    ensures AddQualifier(v, q).qualifiers
         == Qualifiers(v.qualifiers.isConst || q == Const, v.qualifiers.isVolatile || q == Volatile,
                       v.qualifiers.isRestrict || q == Restrict, v.qualifiers.isAtomic || q == Atomic)
  {
  }

  lemma {:induction false} FlagsFrom(v: QualifierValues, qualifiers: seq<TypeQualifier>)
    ensures Collect(v, qualifiers).qualifiers
         == Qualifiers(v.qualifiers.isConst || Const in qualifiers, v.qualifiers.isVolatile || Volatile in qualifiers,
                       v.qualifiers.isRestrict || Restrict in qualifiers, v.qualifiers.isAtomic || Atomic in qualifiers)
    decreases qualifiers
  {
    hide AddQualifier;
    if qualifiers != [] {
      assert qualifiers == [qualifiers[0]] + qualifiers[1..];
      OneFlag(v, qualifiers[0]);
      FlagsFrom(AddQualifier(v, qualifiers[0]), qualifiers[1..]);
    }
  }

  predicate Said(v: QualifierValues, qualifiers: seq<TypeQualifier>, q: TypeQualifier) {
    v.nullability == NullabilityOf(q) || q in qualifiers
  }

  lemma SaidSplit(v: QualifierValues, qualifiers: seq<TypeQualifier>, q: TypeQualifier)
    requires qualifiers != []
    ensures Said(v, qualifiers, q) <==> Said(v, qualifiers[1..], q) || qualifiers[0] == q
  {
    assert qualifiers == [qualifiers[0]] + qualifiers[1..];
  }

  lemma {:induction false} NullabilityFrom(v: QualifierValues, qualifiers: seq<TypeQualifier>)
    ensures var (a, b, c) := (Said(v, qualifiers, NonnullQualifier), Said(v, qualifiers, NullableQualifier),
                              Said(v, qualifiers, NullUnspecifiedQualifier));
            && (Collect(v, qualifiers).conflict <==> v.conflict || (a && b) || (a && c) || (b && c))
            && (!Collect(v, qualifiers).conflict ==>
                  Collect(v, qualifiers).nullability
                  == if a then Nonnull else if b then Nullable else if c then NullUnspecified else Unspecified)
    decreases qualifiers
  {
    if qualifiers != [] {
      var next := AddQualifier(v, qualifiers[0]);
      SaidSplit(v, qualifiers, NonnullQualifier);
      SaidSplit(v, qualifiers, NullableQualifier);
      SaidSplit(v, qualifiers, NullUnspecifiedQualifier);
      NullabilityFrom(next, qualifiers[1..]);
      hide Collect;
    }
  }

  /** The loop gathers what the qualifiers say, in any order and however often. */
  lemma CollectMeans(qualifiers: seq<TypeQualifier>)
    ensures var v := Collect(NO_VALUES, qualifiers);
            && v.qualifiers == Qualifiers(Const in qualifiers, Volatile in qualifiers, Restrict in qualifiers,
                                          Atomic in qualifiers)
            && (v.conflict <==> CConflict(qualifiers))
            && (!v.conflict ==>
                  v.nullability == CNullability(qualifiers, Unspecified) && (Marks(v) <==> CMarks(qualifiers)))
  {
    FlagsFrom(NO_VALUES, qualifiers);
    NullabilityFrom(NO_VALUES, qualifiers);
  }

  /** The type already has what `restrict` and nullability add. */
  predicate Already(qualifiers: seq<TypeQualifier>, isRestrict: bool, nullability: Nullability) {
    (Restrict in qualifiers ==> isRestrict) && CNullability(qualifiers, nullability) == nullability
  }

  /** What the code makes of the qualifiers among the specifiers on their own. */
  lemma QualifiedMeans(base: CType, qualifiers: seq<TypeQualifier>)
    requires !CConflict(qualifiers)
    ensures var v := Collect(NO_VALUES, qualifiers);
            var start := Qualified(base, v.qualifiers);
            && start.kind == base.kind
            && (!CMarks(qualifiers) ==> start == CQualified(base, qualifiers))
            && (CQualified(base, qualifiers) == start
                <==> Already(qualifiers, base.qualifiers.isRestrict, base.nullability))
            && (CMarks(qualifiers) ==>
                  (Marked(start, v) == CQualified(base, qualifiers)
                   <==> CNullability(qualifiers, Unspecified) != Unspecified || base.nullability == Unspecified))
  {
    CollectMeans(qualifiers);
  }

  // ----- level by level ------------------------------------------------------------------

  /** At every level the code's suffixes are the mirror image of those of the language. */
  predicate Mirrors(aliases: set<Id>, d: Declarator, arrayAllowed: bool, parameter: bool)
    decreases d
  {
    && SuffixLayers(aliases, d.derived, arrayAllowed)
       == Reverse(CSuffixes(aliases, d.derived, parameter && Nearest(d)))
    && (d.kind.Nested? ==> Mirrors(aliases, d.kind.inner, StillAllowed(d.derived, arrayAllowed), parameter))
  }

  lemma {:induction false} ReverseLength<T>(s: seq<T>)
    ensures |Reverse(s)| == |s|
  {
    if s != [] { ReverseLength(s[1..]); }
  }

  lemma {:induction false} SameSuffixCount(aliases: set<Id>, derived: seq<Derived>, a: bool, o: bool)
    ensures |SuffixLayers(aliases, derived, a)| == |CSuffixes(aliases, derived, o)|
    decreases derived
  {
    if derived != [] {
      SameSuffixCount(aliases, derived[1..], a, o);
      SameSuffixCount(aliases, derived[1..], a, false);
      SameSuffixCount(aliases, derived[1..], false, false);
    }
  }

  lemma {:induction false} LayersMirror(aliases: set<Id>, d: Declarator, arrayAllowed: bool, parameter: bool)
    ensures |Layers(aliases, d, arrayAllowed)| == |CLayers(aliases, d, parameter)|
    ensures Layers(aliases, d, arrayAllowed) == CLayers(aliases, d, parameter)
       <==> Mirrors(aliases, d, arrayAllowed, parameter)
    decreases d
  {
    hide SuffixLayers, CSuffixes, PointerLayers;
    var p, s := PointerLayers(d.derived), SuffixLayers(aliases, d.derived, arrayAllowed);
    var c := CSuffixes(aliases, d.derived, parameter && Nearest(d));
    var r := Reverse(c);
    SameSuffixCount(aliases, d.derived, arrayAllowed, parameter && Nearest(d));
    ReverseLength(c);
    var x, y := [], [];
    if d.kind.Nested? {
      var still := StillAllowed(d.derived, arrayAllowed);
      LayersMirror(aliases, d.kind.inner, still, parameter);
      x, y := Layers(aliases, d.kind.inner, still), CLayers(aliases, d.kind.inner, parameter);
    }
    assert Layers(aliases, d, arrayAllowed) == p + s + x && CLayers(aliases, d, parameter) == p + r + y;
    if p + s + x == p + r + y {
      assert s == (p + s + x)[|p|..|p| + |s|] == (p + r + y)[|p|..|p| + |s|] == r;
      assert x == (p + s + x)[|p| + |s|..] == (p + r + y)[|p| + |s|..] == y;
    }
  }

  /** For every declarator without K&R and block forms: the code reads it as the language does exactly when
      each level's lowered suffixes are the mirror image of the language's. */
  lemma ReadsLevelByLevel(aliases: set<Id>, ty: CType, d: Declarator, parameter: bool)
    requires Plain(d)
    ensures Apply(aliases, ty, d, parameter) == WrapAll(ty, CLayers(aliases, d, parameter))
       <==> Mirrors(aliases, d, parameter, parameter)
  {
    hide Layers, CLayers, Mirrors, Apply;
    ApplyIsLayers(aliases, ty, d, parameter);
    LayersMirror(aliases, d, parameter, parameter);
    if Apply(aliases, ty, d, parameter) == WrapAll(ty, CLayers(aliases, d, parameter)) {
      WrapAllInjective(ty, Layers(aliases, d, parameter), ty, CLayers(aliases, d, parameter));
    }
  }

  // ----- what a level may hold, and where a bracket may say more --------------------------

  predicate Suffix(x: Derived) { x.ArrayOf? || x.FunctionOf? }

  /** Sections 6.7.6.2 and 6.7.6.3: no function stands beside another suffix of its level, since functions
      return neither arrays nor functions and arrays have no function elements; and a parameter has no
      identifier list.  Other declarators mean nothing. */
  predicate Formed(d: Declarator) {
    && FormedLevel(d.derived)
    && (d.kind.Nested? ==> Formed(d.kind.inner))
  }

  predicate FormedLevel(derived: seq<Derived>)
    decreases derived
  {
    derived == []
    || match derived[0]
       case PointerTo(_) => FormedLevel(derived[1..])
       case ArrayOf(_, _) => OnlyArrays(derived[1..])
       case FunctionOf(parameters, _, _) => OnlyPointers(derived[1..]) && FormedParameters(parameters)
       case _ => false
  }

  predicate OnlyPointers(derived: seq<Derived>) { forall x :: x in derived ==> x.PointerTo? }

  predicate OnlyArrays(derived: seq<Derived>) { forall x :: x in derived ==> x.PointerTo? || x.ArrayOf? }

  predicate FormedParameters(parameters: seq<Parameter>)
    decreases parameters
  {
    parameters == []
    || (var p := parameters[0];
        assert p.declarator < p;
        (p.declarator.Some? ==> Formed(p.declarator.value)) && FormedParameters(parameters[1..]))
  }

  /** The bracket's meaning depends on where it stands: it has `static` or qualifiers, unless conflicting
      nullability refuses it everywhere and nothing else differs. */
  predicate Placed(qualifiers: seq<TypeQualifier>, size: ArraySize) {
    var v := Collect(NO_VALUES, qualifiers);
    if v.conflict then v.qualifiers != NO_QUALIFIERS || (size.StaticExpression? && GoodMinimum(size.expr))
    else qualifiers != [] || size.StaticExpression?
  }

  predicate GoodMinimum(e: E.Expr) {
    match E.EvalConst(e) case Some(v) => 0 < v <= U64_MAX case None => true
  }

  /** `Placed` by its meaning. */
  lemma PlacedExactly(qualifiers: seq<TypeQualifier>, size: ArraySize)
    ensures Placed(qualifiers, size) <==> ArrayLayerOf(qualifiers, size, true) != ArrayLayerOf(qualifiers, size, false)
  {
    hide E.EvalConst;
    if qualifiers == [] {
      assert Collect(NO_VALUES, []) == NO_VALUES;
    }
  }

  // ----- when a declarator is read rightly ------------------------------------------------

  function FirstSuffix(derived: seq<Derived>): Option<Derived> {
    if derived == [] then None else if Suffix(derived[0]) then Some(derived[0]) else FirstSuffix(derived[1..])
  }

  /** Every level's suffixes read the same in both directions. */
  predicate Palindromic(aliases: set<Id>, d: Declarator, parameter: bool)
    decreases d
  {
    var suffixes := CSuffixes(aliases, d.derived, parameter && Nearest(d));
    suffixes == Reverse(suffixes) && (d.kind.Nested? ==> Palindromic(aliases, d.kind.inner, parameter))
  }

  /** By syntax alone: wherever a bracket's place matters, the flag with which the code meets it, which
      arrays further from the name have cleared, says whether it is the outermost of a parameter. */
  predicate BracketsRight(d: Declarator, arrayAllowed: bool, parameter: bool)
    decreases d
  {
    && LevelBrackets(d.derived, arrayAllowed, parameter && Nearest(d))
    && (d.kind.Nested? ==> BracketsRight(d.kind.inner, StillAllowed(d.derived, arrayAllowed), parameter))
  }

  /** Only the first bracket of a level can be the outermost one or meet a flag that is set. */
  predicate LevelBrackets(derived: seq<Derived>, arrayAllowed: bool, outermost: bool) {
    match FirstSuffix(derived)
    case Some(ArrayOf(qualifiers, size)) => Placed(qualifiers, size) ==> arrayAllowed == outermost
    case _ => true
  }

  /** The parameters of every function suffix are read rightly. */
  predicate ParametersRight(aliases: set<Id>, d: Declarator)
    decreases d, 0
  {
    LevelParameters(aliases, d.derived) && (d.kind.Nested? ==> ParametersRight(aliases, d.kind.inner))
  }

  predicate LevelParameters(aliases: set<Id>, derived: seq<Derived>)
    decreases derived
  {
    derived == []
    || ((derived[0].FunctionOf? ==> AllRight(aliases, derived[0].parameters)) && LevelParameters(aliases, derived[1..]))
  }

  predicate AllRight(aliases: set<Id>, parameters: seq<Parameter>)
    decreases parameters
  {
    parameters == []
    || (var p := parameters[0];
        assert p.declarator < p;
        FinishRight(aliases, p.base, p.qualifiers, p.declarator, true) && AllRight(aliases, parameters[1..]))
  }

  predicate DeclaratorRight(aliases: set<Id>, d: Declarator, parameter: bool)
    decreases d, 1
  {
    Palindromic(aliases, d, parameter) && BracketsRight(d, parameter, parameter) && ParametersRight(aliases, d)
  }

  /** The outermost layer is a pointer. */
  predicate PointsAtName(d: Declarator) { Innermost(d) != [] && FirstSuffix(Innermost(d)) == None }

  function Last<T>(s: seq<T>): T
    requires s != []
  {
    s[|s| - 1]
  }

  /** A pointer that already says what the specifiers say. */
  predicate SaysAlready(layer: Layer, qualifiers: seq<TypeQualifier>) {
    && layer.PointerLayer? && layer.nullability == CNullability(qualifiers, Unspecified)
    && (Restrict in qualifiers ==> layer.qualifiers.isRestrict)
  }

  /** The code puts `restrict` and nullability on the declared type, not on that of the specifiers.  This does
      not matter where both are refused, or where both say so already.  Without a layer the two are one,
      except that `restrict` alone takes away a nullability of `base`, which the code's specifiers never give. */
  predicate FinishRight(aliases: set<Id>, base: CType, qualifiers: seq<TypeQualifier>, declarator: Option<Declarator>,
                        parameter: bool)
    decreases declarator
  {
    if CConflict(qualifiers) then true
    else if declarator.None? || Innermost(declarator.value) == [] then
      CMarks(qualifiers) && PointerLike(aliases, base.kind) ==>
        CNullability(qualifiers, Unspecified) != Unspecified || base.nullability == Unspecified
    else
      var d := declarator.value;
      if !CMarks(qualifiers) then DeclaratorRight(aliases, d, parameter)
      else if PointerLike(aliases, base.kind) then
        && PointsAtName(d) && Already(qualifiers, base.qualifiers.isRestrict, base.nullability)
        && PointerLayers(Innermost(d)) != [] && SaysAlready(Last(PointerLayers(Innermost(d))), qualifiers)
        && DeclaratorRight(aliases, d, parameter)
      else !PointsAtName(d)
  }

  // ----- one level -----------------------------------------------------------------------

  lemma {:induction false} ReverseAt<T>(s: seq<T>, k: nat)
    requires k < |s|
    ensures |Reverse(s)| == |s| && Reverse(s)[k] == s[|s| - 1 - k]
    decreases s
  {
    ReverseLength(s[1..]);
    if k < |s| - 1 { ReverseAt(s[1..], k); }
  }

  /** Two lists that differ at most in front mirror each other only when they are the same. */
  lemma MirrorInFront<T>(s: seq<T>, t: seq<T>)
    requires |s| == |t| && forall k :: 0 < k < |s| ==> s[k] == t[k]
    ensures s == Reverse(t) <==> s == t && t == Reverse(t)
  {
    ReverseLength(t);
    if s == Reverse(t) && s != [] {
      ReverseAt(t, 0);
      ReverseAt(t, |t| - 1);
      assert s[0] == t[|t| - 1] && s[|t| - 1] == t[0];
      assert s == t;
    }
  }

  lemma {:induction false} NoFlags(aliases: set<Id>, derived: seq<Derived>)
    requires OnlyArrays(derived)
    ensures SuffixLayers(aliases, derived, false) == CSuffixes(aliases, derived, false)
    decreases derived
  {
    if derived != [] {
      assert derived[0] in derived && forall x :: x in derived[1..] ==> x in derived;
      NoFlags(aliases, derived[1..]);
    }
  }

  lemma {:induction false} NoSuffixes(aliases: set<Id>, derived: seq<Derived>, arrayAllowed: bool, outermost: bool)
    requires OnlyPointers(derived)
    ensures SuffixLayers(aliases, derived, arrayAllowed) == [] && CSuffixes(aliases, derived, outermost) == []
    ensures LevelParameters(aliases, derived) && FirstSuffix(derived) == None
    decreases derived
  {
    if derived != [] {
      assert derived[0] in derived && forall x :: x in derived[1..] ==> x in derived;
      NoSuffixes(aliases, derived[1..], arrayAllowed, outermost);
    }
  }

  lemma {:induction false} NoFunctions(aliases: set<Id>, derived: seq<Derived>)
    requires OnlyArrays(derived)
    ensures LevelParameters(aliases, derived)
    decreases derived
  {
    if derived != [] {
      assert derived[0] in derived && forall x :: x in derived[1..] ==> x in derived;
      NoFunctions(aliases, derived[1..]);
    }
  }

  /** Behind a first bracket the code and the language agree, and on it exactly when its place is right. */
  lemma ArrayLevel(aliases: set<Id>, derived: seq<Derived>, arrayAllowed: bool, outermost: bool)
    requires derived != [] && derived[0].ArrayOf? && OnlyArrays(derived[1..])
    ensures LevelRead(aliases, derived, arrayAllowed, outermost)
  {
    hide ArrayLayerOf, Placed;
    var ArrayOf(qualifiers, size) := derived[0];
    var s, t := SuffixLayers(aliases, derived, arrayAllowed), CSuffixes(aliases, derived, outermost);
    NoFlags(aliases, derived[1..]);
    NoFunctions(aliases, derived[1..]);
    PlacedExactly(qualifiers, size);
    assert s == [ArrayLayerOf(qualifiers, size, arrayAllowed)] + SuffixLayers(aliases, derived[1..], false);
    assert t == [ArrayLayerOf(qualifiers, size, outermost)] + SuffixLayers(aliases, derived[1..], false);
    MirrorInFront(s, t);
    assert s == t <==> s[0] == t[0];
  }

  /** What is to be shown of each level. */
  predicate LevelRead(aliases: set<Id>, derived: seq<Derived>, arrayAllowed: bool, outermost: bool) {
    var t := CSuffixes(aliases, derived, outermost);
    SuffixLayers(aliases, derived, arrayAllowed) == Reverse(t)
    <==> t == Reverse(t) && LevelBrackets(derived, arrayAllowed, outermost) && LevelParameters(aliases, derived)
  }

  lemma {:induction false} LevelReads(aliases: set<Id>, derived: seq<Derived>, arrayAllowed: bool, outermost: bool)
    requires FormedLevel(derived)
    ensures LevelRead(aliases, derived, arrayAllowed, outermost)
    decreases derived, 3
  {
    if derived != [] {
      match derived[0]
      case PointerTo(_) => LevelReads(aliases, derived[1..], arrayAllowed, outermost);
      case ArrayOf(_, _) => ArrayLevel(aliases, derived, arrayAllowed, outermost);
      case FunctionOf(parameters, _, _) =>
        ParametersReadAsC(aliases, parameters);
        FunctionLevel(aliases, derived, arrayAllowed, outermost);
    }
  }

  /** A lone function suffix is read rightly exactly when its parameters are. */
  lemma FunctionLevel(aliases: set<Id>, derived: seq<Derived>, arrayAllowed: bool, outermost: bool)
    requires derived != [] && derived[0].FunctionOf? && OnlyPointers(derived[1..])
    requires var a, c := LowerParameters(aliases, derived[0].parameters), CParameters(aliases, derived[0].parameters);
             && |a| == |c| && (a == c <==> AllRight(aliases, derived[0].parameters))
             && (OnlyVoid(a) && OnlyVoid(c) ==> a == c)
    ensures LevelRead(aliases, derived, arrayAllowed, outermost)
  {
    hide LowerParameters, CParameters, AllRight;
    NoSuffixes(aliases, derived[1..], arrayAllowed, false);
    var FunctionOf(parameters, ellipsis, convention) := derived[0];
    var a, c := LowerParameters(aliases, parameters), CParameters(aliases, parameters);
    var s, t := SuffixLayers(aliases, derived, arrayAllowed), CSuffixes(aliases, derived, outermost);
    assert s == [FunctionLayerOf(a, ellipsis, convention)] && t == [FunctionLayerOf(c, ellipsis, convention)];
    assert t[1..] == [] && Reverse(t) == t;
    assert s == t <==> s[0] == t[0];
  }

  // ----- whole declarators ---------------------------------------------------------------

  lemma {:induction false} FormedIsPlain(derived: seq<Derived>)
    requires FormedLevel(derived)
    ensures KRFunction !in derived && Block !in derived
    decreases derived
  {
    if derived != [] {
      assert derived == [derived[0]] + derived[1..];
      if derived[0].PointerTo? { FormedIsPlain(derived[1..]); }
    }
  }

  lemma {:induction false} PlainDeclarator(d: Declarator)
    requires Formed(d)
    ensures Plain(d)
    decreases d
  {
    FormedIsPlain(d.derived);
    if d.kind.Nested? { PlainDeclarator(d.kind.inner); }
  }

  lemma {:induction false} MirrorsRight(aliases: set<Id>, d: Declarator, arrayAllowed: bool, parameter: bool)
    requires Formed(d)
    ensures Mirrors(aliases, d, arrayAllowed, parameter)
       <==> && Palindromic(aliases, d, parameter) && BracketsRight(d, arrayAllowed, parameter)
            && ParametersRight(aliases, d)
    decreases d, 4
  {
    hide SuffixLayers, CSuffixes, LevelBrackets, LevelParameters;
    LevelReads(aliases, d.derived, arrayAllowed, parameter && Nearest(d));
    if d.kind.Nested? {
      MirrorsRight(aliases, d.kind.inner, StillAllowed(d.derived, arrayAllowed), parameter);
    }
  }

  /** The code reads a declarator as the language does exactly when each level's suffixes are the same
      backwards, each bracket with `static` or qualifiers is met with the right flag, and the parameters of
      its functions are read rightly. */
  lemma {:induction false} ReadsAsC(aliases: set<Id>, ty: CType, d: Declarator, parameter: bool)
    requires Formed(d)
    ensures Apply(aliases, ty, d, parameter) == WrapAll(ty, CLayers(aliases, d, parameter))
       <==> DeclaratorRight(aliases, d, parameter)
    decreases d, 5
  {
    hide Apply, CLayers, Mirrors, Palindromic, BracketsRight, ParametersRight;
    PlainDeclarator(d);
    MirrorsRight(aliases, d, parameter, parameter);
    ReadsLevelByLevel(aliases, ty, d, parameter);
  }

  // ----- the outermost layer -------------------------------------------------------------

  lemma {:induction false} NothingAdded(aliases: set<Id>, d: Declarator, arrayAllowed: bool, parameter: bool)
    requires Innermost(d) == []
    ensures Layers(aliases, d, arrayAllowed) == [] && CLayers(aliases, d, parameter) == []
    decreases d
  {
    assert d.derived == [];
    if d.kind.Nested? { NothingAdded(aliases, d.kind.inner, StillAllowed(d.derived, arrayAllowed), parameter); }
  }

  lemma LastOfSum<T>(s: seq<T>, t: seq<T>)
    requires t != []
    ensures Last(s + t) == Last(t)
  {
  }

  lemma LastReversed<T>(s: seq<T>)
    requires s != []
    ensures Reverse(s) != [] && Last(Reverse(s)) == s[0]
  {
  }

  /** Layers of suffixes are no pointers, and only suffixes have them. */
  lemma {:induction false} LevelSuffixes(aliases: set<Id>, derived: seq<Derived>, arrayAllowed: bool, outermost: bool)
    requires KRFunction !in derived && Block !in derived
    ensures var s, t := SuffixLayers(aliases, derived, arrayAllowed), CSuffixes(aliases, derived, outermost);
            && |s| == |t| && (s == [] <==> FirstSuffix(derived) == None)
            && (forall l :: l in s || l in t ==> !l.PointerLayer?)
            && (t != [] ==> (t[0].FunctionLayer? <==> FirstSuffix(derived).value.FunctionOf?))
    decreases derived
  {
    if derived != [] {
      assert derived == [derived[0]] + derived[1..];
      LevelSuffixes(aliases, derived[1..], arrayAllowed, outermost);
      LevelSuffixes(aliases, derived[1..], arrayAllowed && !derived[0].ArrayOf?, false);
    }
  }

  lemma {:induction false} LevelPointers(derived: seq<Derived>)
    requires KRFunction !in derived && Block !in derived
    ensures forall l :: l in PointerLayers(derived) ==> l.PointerLayer?
    ensures derived != [] && FirstSuffix(derived) == None ==> PointerLayers(derived) != []
    decreases derived
  {
    if derived != [] {
      assert derived == [derived[0]] + derived[1..];
      LevelPointers(derived[1..]);
    }
  }

  /** The last layer of one level, in the code's order and in the language's. */
  lemma LevelEnds(aliases: set<Id>, derived: seq<Derived>, arrayAllowed: bool, outermost: bool)
    requires KRFunction !in derived && Block !in derived && derived != []
    ensures EndsRightly(derived, PointerLayers(derived) + SuffixLayers(aliases, derived, arrayAllowed),
                        PointerLayers(derived) + Reverse(CSuffixes(aliases, derived, outermost)))
  {
    hide SuffixLayers, CSuffixes, PointerLayers;
    var p := PointerLayers(derived);
    var s, t := SuffixLayers(aliases, derived, arrayAllowed), CSuffixes(aliases, derived, outermost);
    LevelSuffixes(aliases, derived, arrayAllowed, outermost);
    LevelPointers(derived);
    if s == [] {
      assert p + s == p && p + Reverse(t) == p && Last(p) in p;
    } else {
      LastReversed(t);
      LastOfSum(p, s);
      LastOfSum(p, Reverse(t));
      assert Last(s) in s && t[0] in t;
    }
  }

  /** `code` and `language` end with a pointer exactly when the level has no suffix, then with its last one, and
      the language's order ends with a function exactly when the first suffix is one. */
  predicate EndsRightly(derived: seq<Derived>, code: seq<Layer>, language: seq<Layer>) {
    && code != [] && language != []
    && (Last(code).PointerLayer? <==> FirstSuffix(derived) == None)
    && (Last(language).PointerLayer? <==> FirstSuffix(derived) == None)
    && (FirstSuffix(derived) == None ==>
          PointerLayers(derived) != [] && Last(code) == Last(language) == Last(PointerLayers(derived)))
    && (Last(language).FunctionLayer? <==> FirstSuffix(derived).Some? && FirstSuffix(derived).value.FunctionOf?)
  }

  lemma {:induction false} LayersEnd(aliases: set<Id>, d: Declarator, arrayAllowed: bool, parameter: bool)
    requires Plain(d) && Innermost(d) != []
    ensures EndsRightly(Innermost(d), Layers(aliases, d, arrayAllowed), CLayers(aliases, d, parameter))
    decreases d
  {
    hide SuffixLayers, CSuffixes, PointerLayers, FirstSuffix;
    var level := PointerLayers(d.derived) + SuffixLayers(aliases, d.derived, arrayAllowed);
    var cLevel := PointerLayers(d.derived) + Reverse(CSuffixes(aliases, d.derived, parameter && Nearest(d)));
    if d.kind.Nested? {
      var still := StillAllowed(d.derived, arrayAllowed);
      var x, y := Layers(aliases, d.kind.inner, still), CLayers(aliases, d.kind.inner, parameter);
      assert Layers(aliases, d, arrayAllowed) == level + x && CLayers(aliases, d, parameter) == cLevel + y;
      if Innermost(d.kind.inner) == [] {
        NothingAdded(aliases, d.kind.inner, still, parameter);
        assert level + [] == level && cLevel + [] == cLevel;
        LevelEnds(aliases, d.derived, arrayAllowed, parameter && Nearest(d));
      } else {
        LayersEnd(aliases, d.kind.inner, still, parameter);
        LastOfSum(level, x);
        LastOfSum(cLevel, y);
      }
    } else {
      assert level + [] == level && cLevel + [] == cLevel;
      LevelEnds(aliases, d.derived, arrayAllowed, parameter && Nearest(d));
    }
  }

  // ----- declared types ------------------------------------------------------------------

  lemma LastWrap(ty: CType, layers: seq<Layer>)
    requires layers != []
    ensures WrapAll(ty, layers) == Wrap(WrapAll(ty, layers[..|layers| - 1]), Last(layers))
  {
    var n := |layers| - 1;
    assert layers == layers[..n] + [layers[n]];
    WrapAllAppend(ty, layers[..n], [layers[n]]);
    OneLayer(WrapAll(ty, layers[..n]), layers[n]);
  }

  function MarkedLayer(layer: Layer, v: QualifierValues): Layer {
    match layer
    case PointerLayer(q, _, support) =>
      PointerLayer(q.(isRestrict := q.isRestrict || v.qualifiers.isRestrict), v.nullability, support)
    case _ => layer
  }

  predicate MarkedAlready(layer: Layer, v: QualifierValues) {
    && layer.PointerLayer? && layer.nullability == v.nullability
    && (v.qualifiers.isRestrict ==> layer.qualifiers.isRestrict)
  }

  /** Where code and language both mark a pointer, but different ones. */
  lemma BothMarked(start: CType, target: CType, v: QualifierValues, code: seq<Layer>, language: seq<Layer>)
    requires |code| == |language| > 0 && Last(code) == Last(language) && Last(code).PointerLayer?
    ensures Marked(WrapAll(start, code), v) == WrapAll(target, language)
       <==> code == language && target == start && MarkedAlready(Last(language), v)
  {
    var n := |code| - 1;
    var changed := code[..n] + [MarkedLayer(code[n], v)];
    LastWrap(start, code);
    LastWrap(start, changed);
    assert changed[..n] == code[..n];
    assert Marked(WrapAll(start, code), v) == WrapAll(start, changed);
    assert code == code[..n] + [code[n]] && language == language[..n] + [language[n]];
    if WrapAll(start, changed) == WrapAll(target, language) {
      WrapAllInjective(start, changed, target, language);
      assert changed[n] == language[n];
    }
    if code == language && target == start && MarkedAlready(Last(language), v) {
      assert changed == code;
    }
  }

  /** The marks of the specifiers over at least one layer. */
  lemma MarksRead(aliases: set<Id>, start: CType, target: CType, v: QualifierValues, d: Declarator, parameter: bool)
    requires Formed(d) && Innermost(d) != []
    requires Apply(aliases, start, d, parameter) == WrapAll(start, CLayers(aliases, d, parameter))
        <==> DeclaratorRight(aliases, d, parameter)
    ensures var code := Apply(aliases, start, d, parameter);
            (if PointerLike(aliases, code.kind) then Marked(code, v) else Refused(NO_POINTER))
            == (if PointerLike(aliases, start.kind) then WrapAll(target, CLayers(aliases, d, parameter))
                else Refused(NO_POINTER))
            <==> if PointerLike(aliases, start.kind) then
                   && PointsAtName(d) && target == start
                   && PointerLayers(Innermost(d)) != [] && MarkedAlready(Last(PointerLayers(Innermost(d))), v)
                   && DeclaratorRight(aliases, d, parameter)
                 else !PointsAtName(d)
  {
    hide Layers, CLayers, Apply, DeclaratorRight, Innermost, FirstSuffix, PointerLayers;
    var code, language := Layers(aliases, d, parameter), CLayers(aliases, d, parameter);
    PlainDeclarator(d);
    LayersEnd(aliases, d, parameter, parameter);
    LayersMirror(aliases, d, parameter, parameter);
    ApplyIsLayers(aliases, start, d, parameter);
    LastWrap(start, code);
    LastWrap(target, language);
    if code != language && WrapAll(start, code) == WrapAll(start, language) {
      WrapAllInjective(start, code, start, language);
    }
    if PointsAtName(d) { BothMarked(start, target, v, code, language); }
  }

  /** Without a layer only the qualifiers count. */
  lemma FinishBare(aliases: set<Id>, base: CType, qualifiers: seq<TypeQualifier>, declarator: Option<Declarator>,
                   parameter: bool)
    requires !CConflict(qualifiers)
    requires declarator.Some? ==> Formed(declarator.value) && Innermost(declarator.value) == []
    ensures FinishType(aliases, base, qualifiers, declarator, parameter)
            == CFinish(aliases, base, qualifiers, declarator, parameter)
       <==> FinishRight(aliases, base, qualifiers, declarator, parameter)
  {
    hide Layers, CLayers, Apply, Collect, Formed, CQualified, CNullability, CConflict, CMarks, Qualified, Marks, Marked;
    hide Innermost, DeclaratorRight, PointsAtName, Already;
    CollectMeans(qualifiers);
    QualifiedMeans(base, qualifiers);
    var start := Qualified(base, Collect(NO_VALUES, qualifiers).qualifiers);
    if declarator.Some? {
      PlainDeclarator(declarator.value);
      NothingAdded(aliases, declarator.value, parameter, parameter);
      ApplyIsLayers(aliases, start, declarator.value, parameter);
    }
  }

  lemma FinishLayered(aliases: set<Id>, base: CType, qualifiers: seq<TypeQualifier>, d: Declarator, parameter: bool)
    requires !CConflict(qualifiers) && Formed(d) && Innermost(d) != []
    requires var start := Qualified(base, Collect(NO_VALUES, qualifiers).qualifiers);
             Apply(aliases, start, d, parameter) == WrapAll(start, CLayers(aliases, d, parameter))
             <==> DeclaratorRight(aliases, d, parameter)
    ensures FinishType(aliases, base, qualifiers, Some(d), parameter)
            == CFinish(aliases, base, qualifiers, Some(d), parameter)
       <==> FinishRight(aliases, base, qualifiers, Some(d), parameter)
  {
    hide Layers, CLayers, Apply, Collect, Formed, CQualified, CNullability, CConflict, CMarks, Qualified, Marks, Marked;
    hide Innermost, DeclaratorRight, PointsAtName, Already, PointerLayers, WrapAll;
    CollectMeans(qualifiers);
    QualifiedMeans(base, qualifiers);
    var v := Collect(NO_VALUES, qualifiers);
    MarksRead(aliases, Qualified(base, v.qualifiers), CQualified(base, qualifiers), v, d, parameter);
    if PointerLayers(Innermost(d)) != [] {
      var last := Last(PointerLayers(Innermost(d)));
      assert MarkedAlready(last, v) <==> SaysAlready(last, qualifiers);
    }
  }

  /** The declared type is the language's exactly when the declarator is read rightly and the marks of the
      specifiers are not misplaced. */
  lemma {:induction false} FinishReadsAsC(aliases: set<Id>, base: CType, qualifiers: seq<TypeQualifier>,
                                          declarator: Option<Declarator>, parameter: bool)
    requires declarator.Some? ==> Formed(declarator.value)
    ensures FinishType(aliases, base, qualifiers, declarator, parameter)
            == CFinish(aliases, base, qualifiers, declarator, parameter)
       <==> FinishRight(aliases, base, qualifiers, declarator, parameter)
    decreases declarator, 6
  {
    hide Apply, CLayers, DeclaratorRight, Collect, Innermost, Formed, CConflict, Qualified, PointsAtName, CQualified;
    if CConflict(qualifiers) {
      CollectMeans(qualifiers);
    } else if declarator.None? || Innermost(declarator.value) == [] {
      FinishBare(aliases, base, qualifiers, declarator, parameter);
    } else {
      ReadsAsC(aliases, Qualified(base, Collect(NO_VALUES, qualifiers).qualifiers), declarator.value, parameter);
      FinishLayered(aliases, base, qualifiers, declarator.value, parameter);
    }
  }

  /** A parameter that is nothing but `void` has no layers. */
  lemma VoidAlike(aliases: set<Id>, p: Parameter)
    requires p.declarator.Some? ==> Formed(p.declarator.value)
    requires FinishType(aliases, p.base, p.qualifiers, p.declarator, true).kind.Void?
    requires FinishType(aliases, p.base, p.qualifiers, p.declarator, true)
             == CFinish(aliases, p.base, p.qualifiers, p.declarator, true)
        <==> FinishRight(aliases, p.base, p.qualifiers, p.declarator, true)
    ensures FinishType(aliases, p.base, p.qualifiers, p.declarator, true)
         == CFinish(aliases, p.base, p.qualifiers, p.declarator, true)
  {
    hide Layers, CLayers, Apply, DeclaratorRight, Collect, PointsAtName, PointerLayers, Innermost, Formed;
    var v := Collect(NO_VALUES, p.qualifiers);
    CollectMeans(p.qualifiers);
    if p.declarator.Some? && !v.conflict {
      var d, start := p.declarator.value, Qualified(p.base, v.qualifiers);
      PlainDeclarator(d);
      if Innermost(d) == [] { NothingAdded(aliases, d, true, true); }
      ApplyIsLayers(aliases, start, d, true);
    }
    if p.declarator.Some? && Innermost(p.declarator.value) != [] && !v.conflict {
      var d, start := p.declarator.value, Qualified(p.base, v.qualifiers);
      LayersEnd(aliases, d, true, true);
      LastWrap(start, Layers(aliases, d, true));
      assert false;
    }
  }

  lemma {:induction false} ParametersReadAsC(aliases: set<Id>, parameters: seq<Parameter>)
    requires FormedParameters(parameters)
    ensures var a, c := LowerParameters(aliases, parameters), CParameters(aliases, parameters);
            |a| == |c| && (a == c <==> AllRight(aliases, parameters)) && (OnlyVoid(a) && OnlyVoid(c) ==> a == c)
    decreases parameters, 7
  {
    hide FinishType, CFinish, FinishRight;
    if parameters != [] {
      var p := parameters[0];
      assert p.declarator < p;
      var a, c := LowerParameters(aliases, parameters), CParameters(aliases, parameters);
      FinishReadsAsC(aliases, p.base, p.qualifiers, p.declarator, true);
      ParametersReadAsC(aliases, parameters[1..]);
      assert a[1..] == LowerParameters(aliases, parameters[1..]) && c[1..] == CParameters(aliases, parameters[1..]);
      assert a == [a[0]] + a[1..] && c == [c[0]] + c[1..];
      if a[0].ty.kind.Void? { VoidAlike(aliases, p); }
    }
  }

  // ----- one suffix a level --------------------------------------------------------------

  function Suffixes(derived: seq<Derived>): nat {
    if derived == [] then 0 else (if derived[0].PointerTo? then 0 else 1) + Suffixes(derived[1..])
  }

  predicate SingleSuffix(d: Declarator) {
    Suffixes(d.derived) <= 1 && (d.kind.Nested? ==> SingleSuffix(d.kind.inner))
  }

  lemma {:induction false} SuffixCount(aliases: set<Id>, derived: seq<Derived>, outermost: bool)
    ensures |CSuffixes(aliases, derived, outermost)| <= Suffixes(derived)
    decreases derived
  {
    if derived != [] {
      SuffixCount(aliases, derived[1..], outermost);
      SuffixCount(aliases, derived[1..], false);
    }
  }

  lemma {:induction false} SingleIsPalindromic(aliases: set<Id>, d: Declarator, parameter: bool)
    requires SingleSuffix(d)
    ensures Palindromic(aliases, d, parameter)
    decreases d
  {
    var t := CSuffixes(aliases, d.derived, parameter && Nearest(d));
    SuffixCount(aliases, d.derived, parameter && Nearest(d));
    if t != [] { assert t[1..] == [] && Reverse(t) == [t[0]]; }
    if d.kind.Nested? { SingleIsPalindromic(aliases, d.kind.inner, parameter); }
  }

  /** With at most one suffix per level only the brackets and the parameters are left to get wrong. */
  lemma SingleSuffixReadsAsC(aliases: set<Id>, ty: CType, d: Declarator, parameter: bool)
    requires Formed(d) && SingleSuffix(d)
    ensures Apply(aliases, ty, d, parameter) == WrapAll(ty, CLayers(aliases, d, parameter))
       <==> BracketsRight(d, parameter, parameter) && ParametersRight(aliases, d)
  {
    hide Apply, CLayers, Palindromic, BracketsRight, ParametersRight;
    SingleIsPalindromic(aliases, d, parameter);
    ReadsAsC(aliases, ty, d, parameter);
  }
}
