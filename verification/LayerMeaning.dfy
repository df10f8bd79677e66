/** What each part of a declarator adds to a type, case by case (sections 6.7.3 and 6.7.6 of ISO/IEC 9899:2011), and
    what stays of the type of the specifiers. */
module LayerMeaning {
  import opened Wrappers
  import opened Contract
  import opened Declarators
  import opened DeclaratorReading
  import E = ConstEval

  // ----- the type of the specifiers --------------------------------------------------------

  /** The type `n` layers inside. */
  function Under(ty: CType, n: nat): Option<CType>
    decreases n
  {
    if n == 0 then Some(ty)
    else
      match ty.kind
      case Pointer(pointee) => Under(pointee, n - 1)
      case Array(element, _, _) => Under(element, n - 1)
      case Function(result, _, _, _) => Under(result, n - 1)
      case _ => None
  }

  lemma {:induction false} UnderLayers(ty: CType, layers: seq<Layer>)
    ensures Under(WrapAll(ty, layers), |layers|) == Some(ty)
    decreases |layers|
  {
    if layers != [] {
      var n := |layers| - 1;
      LastWrap(ty, layers);
      UnderLayers(ty, layers[..n]);
    }
  }

  lemma UnderMarked(ty: CType, v: QualifierValues, n: nat)
    requires n > 0
    ensures Under(Marked(ty, v), n) == Under(ty, n)
  {
  }

  /** `inner` is the type of the specifiers with the qualifiers among them. */
  ghost predicate Kept(base: CType, qualifiers: seq<TypeQualifier>, inner: CType) {
    && inner.kind == base.kind && inner.support == base.support
    && (inner.qualifiers.isConst <==> base.qualifiers.isConst || Const in qualifiers)
    && (inner.qualifiers.isVolatile <==> base.qualifiers.isVolatile || Volatile in qualifiers)
    && (inner.qualifiers.isAtomic <==> base.qualifiers.isAtomic || Atomic in qualifiers)
  }

  /** A declared type that is not refused holds the type of the specifiers under its layers, `const`, `volatile` and
      `_Atomic` exactly where the specifiers say so; under at least one layer it has no more than that. */
  lemma SpecifiersKept(aliases: set<Id>, base: CType, qualifiers: seq<TypeQualifier>, declarator: Option<Declarator>,
                       arrayAllowed: bool)
    requires declarator.Some? ==> Plain(declarator.value)
    requires !CConflict(qualifiers)
    ensures var ty := FinishType(aliases, base, qualifiers, declarator, arrayAllowed);
            var n := if declarator.Some? then |Layers(aliases, declarator.value, arrayAllowed)| else 0;
            || (CMarks(qualifiers) && ty == Refused(NO_POINTER))
            || (&& Under(ty, n).Some? && Kept(base, qualifiers, Under(ty, n).value)
                && (n > 0 || !CMarks(qualifiers) ==>
                      && Under(ty, n).value.qualifiers.isRestrict == base.qualifiers.isRestrict
                      && Under(ty, n).value.nullability == base.nullability))
  {
    hide Collect, Apply, Layers, Under, WrapAll;
    CollectMeans(qualifiers);
    var v := Collect(NO_VALUES, qualifiers);
    var start := Qualified(base, v.qualifiers);
    var layers := if declarator.Some? then Layers(aliases, declarator.value, arrayAllowed) else [];
    var ty := WrapAll(start, layers);
    assert layers == [] ==> ty == start by { NoLayers(start); }
    if declarator.Some? { ApplyIsLayers(aliases, start, declarator.value, arrayAllowed); }
    UnderLayers(start, layers);
    if layers == [] { UnderNothing(Marked(ty, v)); } else { UnderMarked(ty, v, |layers|); }
  }

  lemma NoLayers(ty: CType)
    ensures WrapAll(ty, []) == ty
  {
  }

  lemma UnderNothing(ty: CType)
    ensures Under(ty, 0) == Some(ty)
  {
  }

  // ----- pointers --------------------------------------------------------------------------

  lemma {:induction false} PlainMeans(qualifiers: seq<PointerQualifier>, q: TypeQualifier)
    ensures q in PlainQualifiers(qualifiers) <==> Qualifier(q) in qualifiers
  {
    if qualifiers != [] {
      PlainMeans(qualifiers[1..], q);
      assert qualifiers == [qualifiers[0]] + qualifiers[1..];
    }
  }

  /** Two nullability qualifiers of a pointer that contradict each other. */
  predicate PointerConflict(qualifiers: seq<PointerQualifier>) {
    || (Qualifier(NonnullQualifier) in qualifiers && Qualifier(NullableQualifier) in qualifiers)
    || (Qualifier(NonnullQualifier) in qualifiers && Qualifier(NullUnspecifiedQualifier) in qualifiers)
    || (Qualifier(NullableQualifier) in qualifiers && Qualifier(NullUnspecifiedQualifier) in qualifiers)
  }

  /** A pointer has the qualifiers written behind its star, and loses support for contradicting nullability or, less,
      for an extension among them. */
  lemma PointerMeans(qualifiers: seq<PointerQualifier>)
    ensures var layer := PointerOf(qualifiers);
            && layer.PointerLayer?
            && layer.qualifiers == Qualifiers(Qualifier(Const) in qualifiers, Qualifier(Volatile) in qualifiers,
                                              Qualifier(Restrict) in qualifiers, Qualifier(Atomic) in qualifiers)
            && (!PointerConflict(qualifiers) ==>
                  layer.nullability == if Qualifier(NonnullQualifier) in qualifiers then Nonnull
                                       else if Qualifier(NullableQualifier) in qualifiers then Nullable
                                       else if Qualifier(NullUnspecifiedQualifier) in qualifiers then NullUnspecified
                                       else Unspecified)
            && layer.support == if PointerConflict(qualifiers) then NoSupport("PARC-E1109", POINTER_CONFLICT)
                                else if ExtensionQualifier in qualifiers then
                                  PartialSupport("PARC-P1102", POINTER_EXTENSION)
                                else Supported
  {
    var plain := PlainQualifiers(qualifiers);
    forall q ensures q in plain <==> Qualifier(q) in qualifiers { PlainMeans(qualifiers, q); }
    CollectMeans(plain);
    hide Collect, PlainQualifiers;
  }

  // ----- arrays ----------------------------------------------------------------------------

  /** The bound of an array: a positive constant of 64 bits, or why there is none. */
  ghost predicate IsBound(size: ArraySize, parameterContext: bool, bound: ArrayBound, support: SupportStatus) {
    match size
    case UnknownSize => bound == Incomplete && support == Supported
    case VariableUnknown => bound == Variable("*") && support == Supported
    case Expression(expr, spelling) =>
      if E.EvalConst(expr).None? then bound == Variable(spelling) && support == Supported
      else
        var v := E.EvalConst(expr).value;
        if 1 <= v < 0x1_0000_0000_0000_0000 then bound == Fixed(v) && support == Supported
        else bound == InvalidBound(spelling)
             && support == NoSupport("PARC-E1103", if v < 1 then BOUND_NOT_POSITIVE else BOUND_TOO_LARGE)
    case StaticExpression(expr, spelling) =>
      if !parameterContext then bound == InvalidBound(spelling) && support == NoSupport("PARC-E1105", STATIC_MISPLACED)
      else if E.EvalConst(expr).None? then bound == StaticVariable(spelling) && support == Supported
      else
        var v := E.EvalConst(expr).value;
        if 1 <= v < 0x1_0000_0000_0000_0000 then bound == StaticMinimum(v) && support == Supported
        else bound == InvalidBound(spelling)
             && support == NoSupport("PARC-E1103", if v < 1 then MINIMUM_NOT_POSITIVE else MINIMUM_TOO_LARGE)
  }

  lemma BoundMeans(size: ArraySize, parameterContext: bool, bound: ArrayBound, support: SupportStatus)
    ensures BoundOf(size, parameterContext) == (bound, support) <==> IsBound(size, parameterContext, bound, support)
  {
    hide E.EvalConst;
  }

  /** An array has its bound; qualifiers in its brackets are for parameters, and nullability there is not modelled. */
  lemma ArrayMeans(qualifiers: seq<TypeQualifier>, size: ArraySize, parameterContext: bool)
    ensures var layer := ArrayLayerOf(qualifiers, size, parameterContext);
            && layer.ArrayLayer?
            && layer.parameterQualifiers
               == Qualifiers(parameterContext && Const in qualifiers, parameterContext && Volatile in qualifiers,
                             parameterContext && Restrict in qualifiers, parameterContext && Atomic in qualifiers)
            && exists support :: IsBound(size, parameterContext, layer.bound, support)
                 && layer.support == if CConflict(qualifiers) then NoSupport("PARC-E1109", BRACKET_CONFLICT)
                                     else if !parameterContext && qualifiers != [] then
                                       NoSupport("PARC-E1106", BRACKET_QUALIFIERS_MISPLACED)
                                     else if CNullability(qualifiers, Unspecified) == Unspecified then support
                                     else PartialSupport("PARC-P1101", BRACKET_NULLABILITY)
  {
    hide BoundOf, IsBound, Collect;
    CollectMeans(qualifiers);
    var (bound, support) := BoundOf(size, parameterContext);
    BoundMeans(size, parameterContext, bound, support);
  }

  // ----- functions -------------------------------------------------------------------------

  /** `(void)` is an empty list that says there are no parameters, `()` says nothing about them, and any other list is
      kept with its ellipsis. */
  lemma FunctionMeans(lowered: seq<CParameter>, ellipsis: bool, convention: CallingConvention)
    ensures FunctionLayerOf([], ellipsis, convention) == FunctionLayer([], UnspecifiedParameters, convention)
    ensures |lowered| == 1 && lowered[0].name == None && lowered[0].ty.kind == Void ==>
              FunctionLayerOf(lowered, ellipsis, convention) == FunctionLayer([], Prototyped(ellipsis), convention)
    ensures |lowered| > 1 || (|lowered| == 1 && (lowered[0].name.Some? || lowered[0].ty.kind != Void)) ==>
              FunctionLayerOf(lowered, ellipsis, convention) == FunctionLayer(lowered, Prototyped(ellipsis), convention)
  {
  }

  // ----- refusals --------------------------------------------------------------------------

  /** An unsupported type that keeps nothing but a text. */
  predicate Unsupported(ty: CType, text: string) {
    && ty.qualifiers == Qualifiers(false, false, false, false) && ty.nullability == Unspecified
    && ty.kind == UnsupportedType(text) && ty.support == NoSupport("PARC-E1100", "unsupported C type: " + text)
  }

  /** The first K&R or block form of a level. */
  function Refusing(derived: seq<Derived>): Option<string> {
    if derived == [] then None
    else if derived[0].KRFunction? then Some("K&R function declarator")
    else if derived[0].Block? then Some("block pointer declarator")
    else Refusing(derived[1..])
  }

  /** The first one from the outermost level on. */
  function Refusal(d: Declarator): Option<string> {
    if Refusing(d.derived).Some? then Refusing(d.derived)
    else if d.kind.Nested? then Refusal(d.kind.inner)
    else None
  }

  lemma {:induction false} RefusingMeans(aliases: set<Id>, ty: CType, derived: seq<Derived>, arrayAllowed: bool)
    ensures Refusing(derived).Some? <==> KRFunction in derived || Block in derived
    ensures Refusing(derived).Some? ==>
              var pass := ApplySuffixes(aliases, ty, derived, arrayAllowed);
              pass.Stop? && Unsupported(pass.ty, Refusing(derived).value)
    decreases derived
  {
    hide SuffixLayer, Wrap;
    if derived != [] {
      assert derived == [derived[0]] + derived[1..];
      match derived[0]
      case ArrayOf(_, _) =>
        RefusingMeans(aliases, Wrap(ty, SuffixLayer(aliases, derived[0], arrayAllowed)), derived[1..], false);
      case FunctionOf(_, _, _) =>
        RefusingMeans(aliases, Wrap(ty, SuffixLayer(aliases, derived[0], arrayAllowed)), derived[1..], arrayAllowed);
      case _ => RefusingMeans(aliases, ty, derived[1..], arrayAllowed);
    }
  }

  /** A declarator with a K&R or block form anywhere is refused with the text of the first one, and nothing is kept of
      the type. */
  lemma {:induction false} ApplyRefuses(aliases: set<Id>, ty: CType, d: Declarator, arrayAllowed: bool)
    ensures Plain(d) <==> Refusal(d).None?
    ensures !Plain(d) ==> Unsupported(Apply(aliases, ty, d, arrayAllowed), Refusal(d).value)
    decreases d
  {
    hide ApplySuffixes, Refusing;
    var start := ApplyPointers(ty, d.derived);
    RefusingMeans(aliases, start, d.derived, arrayAllowed);
    if d.kind.Nested? {
      ApplyRefuses(aliases, ty, d.kind.inner, arrayAllowed);
      match ApplySuffixes(aliases, start, d.derived, arrayAllowed)
      case Go(u, still) => ApplyRefuses(aliases, u, d.kind.inner, still);
      case Stop(_) =>
    }
    if Refusing(d.derived).None? { SuffixesAreLayers(aliases, start, d.derived, arrayAllowed); }
  }

  /** Contradicting nullability refuses a type whatever is declared, and so does `restrict` or nullability on what the
      code does not take for a pointer. */
  lemma FinishRefuses(aliases: set<Id>, base: CType, qualifiers: seq<TypeQualifier>, declarator: Option<Declarator>,
                      arrayAllowed: bool)
    ensures var ty := FinishType(aliases, base, qualifiers, declarator, arrayAllowed);
            && (CConflict(qualifiers) ==> Unsupported(ty, "conflicting nullability qualifiers"))
            && (!CConflict(qualifiers) && CMarks(qualifiers) ==>
                  || ty.kind.Pointer? || (ty.kind.AliasRef? && ty.kind.id in aliases)
                  || Unsupported(ty, "non-pointer restrict/nullability qualifier"))
  {
    hide Apply, Collect, CMarks, CConflict;
    CollectMeans(qualifiers);
  }
}
