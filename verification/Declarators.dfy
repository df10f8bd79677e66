/** Lowering C declarators to types (src/extract/types.rs): `apply_derived`, `array_type`,
    `pointer`, `qualifier_values`, `finish_type` and `function_parts`, from a base type that the
    specifiers already gave. */
module Declarators {
  import opened Wrappers
  import opened Contract
  import E = ConstEval

  datatype TypeQualifier =
    | Const | Volatile | Restrict | Atomic | NonnullQualifier | NullableQualifier | NullUnspecifiedQualifier

  datatype PointerQualifier = Qualifier(q: TypeQualifier) | ExtensionQualifier

  datatype ArraySize =
    | UnknownSize
    | VariableUnknown
    | Expression(expr: E.Expr, spelling: string)
    | StaticExpression(expr: E.Expr, spelling: string)

  /** `convention` of a function suffix is what the attributes of its declarator give, see Conventions. */
  datatype Derived =
    | PointerTo(pointerQualifiers: seq<PointerQualifier>)
    | ArrayOf(arrayQualifiers: seq<TypeQualifier>, size: ArraySize)
    | FunctionOf(parameters: seq<Parameter>, ellipsis: bool, convention: CallingConvention)
    | KRFunction
    | Block

  datatype Declarator = Declarator(kind: DeclaratorKind, derived: seq<Derived>)

  datatype DeclaratorKind = Abstract | Identifier(name: string) | Nested(inner: Declarator)

  /** `base` is the type of the specifiers, `qualifiers` the qualifiers among them. */
  datatype Parameter = Parameter(base: CType, qualifiers: seq<TypeQualifier>, declarator: Option<Declarator>)

  // ----- qualifiers ----------------------------------------------------------------------

  datatype QualifierValues = QualifierValues(qualifiers: Qualifiers, nullability: Nullability, conflict: bool)

  function NullabilityOf(q: TypeQualifier): Nullability {
    match q
    case NonnullQualifier => Nonnull
    case NullableQualifier => Nullable
    case NullUnspecifiedQualifier => NullUnspecified
    case _ => Unspecified
  }

  function AddQualifier(v: QualifierValues, q: TypeQualifier): QualifierValues {
    match q
    case Const => v.(qualifiers := v.qualifiers.(isConst := true))
    case Volatile => v.(qualifiers := v.qualifiers.(isVolatile := true))
    case Restrict => v.(qualifiers := v.qualifiers.(isRestrict := true))
    case Atomic => v.(qualifiers := v.qualifiers.(isAtomic := true))
    case _ =>
      v.(nullability := NullabilityOf(q),
         conflict := v.conflict || (v.nullability != Unspecified && v.nullability != NullabilityOf(q)))
  }

  function Collect(v: QualifierValues, qualifiers: seq<TypeQualifier>): QualifierValues
    decreases qualifiers
  {
    if qualifiers == [] then v else Collect(AddQualifier(v, qualifiers[0]), qualifiers[1..])
  }

  const NO_VALUES := QualifierValues(NO_QUALIFIERS, Unspecified, false)

  /** `qualifier_values`. */
  method CollectQualifiers(qualifiers: seq<TypeQualifier>) returns (v: QualifierValues)
    ensures v == Collect(NO_VALUES, qualifiers)
  {
    v := NO_VALUES;
    for i := 0 to |qualifiers|
      invariant Collect(v, qualifiers[i..]) == Collect(NO_VALUES, qualifiers)
    {
      assert qualifiers[i..][0] == qualifiers[i] && qualifiers[i..][1..] == qualifiers[i + 1..];
      v := AddQualifier(v, qualifiers[i]);
    }
  }

  function PlainQualifiers(qualifiers: seq<PointerQualifier>): seq<TypeQualifier> {
    if qualifiers == [] then []
    else (if qualifiers[0].Qualifier? then [qualifiers[0].q] else []) + PlainQualifiers(qualifiers[1..])
  }

  // ----- what is reported ----------------------------------------------------------------

  const E1100 := "PARC-E1100"
  const E1103 := "PARC-E1103"
  const E1105 := "PARC-E1105"
  const E1106 := "PARC-E1106"
  const E1109 := "PARC-E1109"
  const P1101 := "PARC-P1101"
  const P1102 := "PARC-P1102"

  const POINTER_CONFLICT := "pointer has conflicting nullability qualifiers"
  const POINTER_EXTENSION := "pointer extension qualifiers require explicit downstream review"
  const BOUND_NOT_POSITIVE := "array bound must be strictly positive"
  const BOUND_TOO_LARGE := "array bound overflows the schema-v2 element range"
  const STATIC_MISPLACED := "static minimum array bound is only valid on a parameter"
  const MINIMUM_NOT_POSITIVE := "static array minimum must be strictly positive"
  const MINIMUM_TOO_LARGE := "static array minimum overflows the schema-v2 element range"
  const BRACKET_CONFLICT := "array brackets have conflicting nullability qualifiers"
  const BRACKET_QUALIFIERS_MISPLACED := "array-bracket qualifiers are only valid on a parameter"
  const BRACKET_NULLABILITY := "array-bracket nullability cannot be represented by the source contract"
  const KR_FUNCTION := "K&R function declarator"
  const BLOCK_POINTER := "block pointer declarator"

  // ----- one layer -----------------------------------------------------------------------

  /** What one derived declarator adds around a type. */
  datatype Layer =
    | PointerLayer(qualifiers: Qualifiers, nullability: Nullability, support: SupportStatus)
    | ArrayLayer(bound: ArrayBound, parameterQualifiers: Qualifiers, support: SupportStatus)
    | FunctionLayer(parameters: seq<CParameter>, prototype: Prototype, convention: CallingConvention)

  function Wrap(ty: CType, layer: Layer): CType {
    match layer
    case PointerLayer(q, n, support) => CType(q, n, Pointer(ty), support)
    case ArrayLayer(bound, q, support) => CType(NO_QUALIFIERS, Unspecified, Array(ty, bound, q), support)
    case FunctionLayer(parameters, prototype, convention) =>
      CType(NO_QUALIFIERS, Unspecified, Function(ty, parameters, prototype, convention), Supported)
  }

  function WrapAll(ty: CType, layers: seq<Layer>): CType
    decreases layers
  {
    if layers == [] then ty else WrapAll(Wrap(ty, layers[0]), layers[1..])
  }

  function Refused(spelling: string): CType {
    CType(NO_QUALIFIERS, Unspecified, UnsupportedType(spelling), NoSupport(E1100, "unsupported C type: " + spelling))
  }

  /** `pointer` over `pointer_qualifiers`. */
  function PointerOf(qualifiers: seq<PointerQualifier>): Layer {
    var v := Collect(NO_VALUES, PlainQualifiers(qualifiers));
    PointerLayer(v.qualifiers, v.nullability,
                 if v.conflict then NoSupport(E1109, POINTER_CONFLICT)
                 else if ExtensionQualifier in qualifiers then
                   PartialSupport(P1102, POINTER_EXTENSION)
                 else Supported)
  }

  const U64_MAX := 0xffff_ffff_ffff_ffff

  function BadBound(spelling: string, code: string, reason: string): (ArrayBound, SupportStatus) {
    (InvalidBound(spelling), NoSupport(code, reason))
  }

  function BoundOf(size: ArraySize, parameterContext: bool): (ArrayBound, SupportStatus) {
    match size
    case UnknownSize => (Incomplete, Supported)
    case VariableUnknown => (Variable("*"), Supported)
    case Expression(expr, spelling) =>
      (match E.EvalConst(expr)
       case Some(v) =>
         if v <= 0 then BadBound(spelling, E1103, BOUND_NOT_POSITIVE)
         else if v <= U64_MAX then (Fixed(v), Supported)
         else BadBound(spelling, E1103, BOUND_TOO_LARGE)
       case None => (Variable(spelling), Supported))
    case StaticExpression(expr, spelling) =>
      if !parameterContext then
        BadBound(spelling, E1105, STATIC_MISPLACED)
      else
        match E.EvalConst(expr)
        case Some(v) =>
          if v <= 0 then BadBound(spelling, E1103, MINIMUM_NOT_POSITIVE)
          else if v <= U64_MAX then (StaticMinimum(v), Supported)
          else BadBound(spelling, E1103, MINIMUM_TOO_LARGE)
        case None => (StaticVariable(spelling), Supported)
  }

  /** `array_type`. */
  function ArrayLayerOf(qualifiers: seq<TypeQualifier>, size: ArraySize, parameterContext: bool): Layer {
    var v := Collect(NO_VALUES, qualifiers);
    var (bound, support) := BoundOf(size, parameterContext);
    ArrayLayer(bound, if parameterContext then v.qualifiers else NO_QUALIFIERS,
               if v.conflict then NoSupport(E1109, BRACKET_CONFLICT)
               else if !parameterContext && qualifiers != [] then
                 NoSupport(E1106, BRACKET_QUALIFIERS_MISPLACED)
               else if v.nullability == Unspecified then support
               else PartialSupport(P1101, BRACKET_NULLABILITY))
  }

  // ----- whole declarators ---------------------------------------------------------------

  function DeclaratorName(d: Declarator): Option<string> {
    match d.kind
    case Identifier(name) => Some(name)
    case Nested(inner) => DeclaratorName(inner)
    case Abstract => None
  }

  predicate OnlyVoid(parameters: seq<CParameter>) {
    |parameters| == 1 && parameters[0].name.None? && parameters[0].ty.kind.Void?
  }

  /** The qualifiers that go on the type of the specifiers itself. */
  function Qualified(base: CType, q: Qualifiers): CType {
    base.(qualifiers := base.qualifiers.(
      isConst := base.qualifiers.isConst || q.isConst,
      isVolatile := base.qualifiers.isVolatile || q.isVolatile,
      isAtomic := base.qualifiers.isAtomic || q.isAtomic))
  }

  /** The specifiers say `restrict` or something about nullability. */
  predicate Marks(v: QualifierValues) { v.qualifiers.isRestrict || v.nullability != Unspecified }

  predicate PointerLike(aliases: set<Id>, kind: CTypeKind) {
    kind.Pointer? || (kind.AliasRef? && kind.id in aliases)
  }

  function Marked(ty: CType, v: QualifierValues): CType {
    ty.(qualifiers := ty.qualifiers.(isRestrict := ty.qualifiers.isRestrict || v.qualifiers.isRestrict),
        nullability := v.nullability)
  }

  const CONFLICTING_NULLABILITY := "conflicting nullability qualifiers"
  const NO_POINTER := "non-pointer restrict/nullability qualifier"

  /** `finish_type`; `aliases` is the set of pointer aliases known so far. */
  function FinishType(aliases: set<Id>, base: CType, qualifiers: seq<TypeQualifier>, declarator: Option<Declarator>,
                      arrayAllowed: bool): CType
    decreases declarator
  {
    var v := Collect(NO_VALUES, qualifiers);
    if v.conflict then Refused(CONFLICTING_NULLABILITY)
    else
      var start := Qualified(base, v.qualifiers);
      var ty := if declarator.Some? then Apply(aliases, start, declarator.value, arrayAllowed) else start;
      if !Marks(v) then ty
      else if PointerLike(aliases, ty.kind) then Marked(ty, v)
      else Refused(NO_POINTER)
  }

  function LowerParameters(aliases: set<Id>, parameters: seq<Parameter>): seq<CParameter>
    decreases parameters
  {
    if parameters == [] then []
    else
      var p := parameters[0];
      assert p.declarator < p;
      var name := if p.declarator.Some? then DeclaratorName(p.declarator.value) else None;
      [CParameter(name, FinishType(aliases, p.base, p.qualifiers, p.declarator, true))]
      + LowerParameters(aliases, parameters[1..])
  }

  /** A lone `void` is an empty list, and an empty list says nothing about parameters. */
  function FunctionLayerOf(lowered: seq<CParameter>, ellipsis: bool, convention: CallingConvention): Layer {
    FunctionLayer(if OnlyVoid(lowered) then [] else lowered,
                  if lowered == [] then UnspecifiedParameters else Prototyped(ellipsis), convention)
  }

  /** The layer of an array or function suffix. */
  function SuffixLayer(aliases: set<Id>, suffix: Derived, arrayAllowed: bool): Layer
    requires suffix.ArrayOf? || suffix.FunctionOf?
    decreases suffix
  {
    match suffix
    case ArrayOf(qualifiers, size) => ArrayLayerOf(qualifiers, size, arrayAllowed)
    case FunctionOf(parameters, ellipsis, convention) =>
      var lowered := LowerParameters(aliases, parameters);
      FunctionLayerOf(lowered, ellipsis, convention)
  }

  function ApplyPointers(ty: CType, derived: seq<Derived>): CType
    decreases derived
  {
    if derived == [] then ty
    else ApplyPointers(if derived[0].PointerTo? then Wrap(ty, PointerOf(derived[0].pointerQualifiers)) else ty,
                       derived[1..])
  }

  /** The suffix pass either stops at a form it refuses or goes on to the nested declarator. */
  datatype Pass = Stop(ty: CType) | Go(ty: CType, arrayAllowed: bool)

  function ApplySuffixes(aliases: set<Id>, ty: CType, derived: seq<Derived>, arrayAllowed: bool): Pass
    decreases derived
  {
    if derived == [] then Go(ty, arrayAllowed)
    else
      var rest := derived[1..];
      match derived[0]
      case PointerTo(_) => ApplySuffixes(aliases, ty, rest, arrayAllowed)
      case ArrayOf(_, _) =>
        ApplySuffixes(aliases, Wrap(ty, SuffixLayer(aliases, derived[0], arrayAllowed)), rest, false)
      case FunctionOf(_, _, _) =>
        ApplySuffixes(aliases, Wrap(ty, SuffixLayer(aliases, derived[0], arrayAllowed)), rest, arrayAllowed)
      case KRFunction => Stop(Refused(KR_FUNCTION))
      case Block => Stop(Refused(BLOCK_POINTER))
  }

  /** `apply_derived`: pointers, then suffixes in source order, then the nested declarator. */
  function Apply(aliases: set<Id>, ty: CType, d: Declarator, arrayAllowed: bool): CType
    decreases d
  {
    match ApplySuffixes(aliases, ApplyPointers(ty, d.derived), d.derived, arrayAllowed)
    case Stop(u) => u
    case Go(u, still) => if d.kind.Nested? then Apply(aliases, u, d.kind.inner, still) else u
  }

  /** The source's loops compute `Apply`. */
  method ApplyDerived(aliases: set<Id>, base: CType, d: Declarator, parameterArrayAllowed: bool) returns (ty: CType)
    ensures ty == Apply(aliases, base, d, parameterArrayAllowed)
    decreases d
  {
    ty := base;
    var arrayAllowed := parameterArrayAllowed;
    for i := 0 to |d.derived|
      invariant ApplyPointers(ty, d.derived[i..]) == ApplyPointers(base, d.derived)
    {
      assert d.derived[i..][0] == d.derived[i] && d.derived[i..][1..] == d.derived[i + 1..];
      if d.derived[i].PointerTo? {
        ty := Wrap(ty, PointerOf(d.derived[i].pointerQualifiers));
      }
    }
    for i := 0 to |d.derived|
      invariant ApplySuffixes(aliases, ty, d.derived[i..], arrayAllowed)
             == ApplySuffixes(aliases, ApplyPointers(base, d.derived), d.derived, parameterArrayAllowed)
    {
      assert d.derived[i..][0] == d.derived[i] && d.derived[i..][1..] == d.derived[i + 1..];
      match d.derived[i]
      case PointerTo(_) =>
      case ArrayOf(_, _) =>
        ty := Wrap(ty, SuffixLayer(aliases, d.derived[i], arrayAllowed));
        arrayAllowed := false;
      case FunctionOf(_, _, _) =>
        ty := Wrap(ty, SuffixLayer(aliases, d.derived[i], arrayAllowed));
      case KRFunction => return Refused(KR_FUNCTION);
      case Block => return Refused(BLOCK_POINTER);
    }
    if d.kind.Nested? {
      ty := ApplyDerived(aliases, ty, d.kind.inner, arrayAllowed);
    }
  }

  // ----- the layers of a declarator ------------------------------------------------------

  /** No K&R or block form at any nesting level. */
  predicate Plain(d: Declarator) {
    KRFunction !in d.derived && Block !in d.derived && (d.kind.Nested? ==> Plain(d.kind.inner))
  }

  function PointerLayers(derived: seq<Derived>): seq<Layer>
    decreases derived
  {
    if derived == [] then []
    else (if derived[0].PointerTo? then [PointerOf(derived[0].pointerQualifiers)] else []) + PointerLayers(derived[1..])
  }

  /** The suffixes of one level, lowered, in source order. */
  function SuffixLayers(aliases: set<Id>, derived: seq<Derived>, arrayAllowed: bool): seq<Layer>
    decreases derived
  {
    if derived == [] then []
    else if derived[0].ArrayOf? || derived[0].FunctionOf? then
      [SuffixLayer(aliases, derived[0], arrayAllowed)]
      + SuffixLayers(aliases, derived[1..], arrayAllowed && !derived[0].ArrayOf?)
    else SuffixLayers(aliases, derived[1..], arrayAllowed)
  }

  predicate StillAllowed(derived: seq<Derived>, arrayAllowed: bool) {
    arrayAllowed && forall x :: x in derived ==> !x.ArrayOf?
  }

  /** The layers in the order the code adds them. */
  function Layers(aliases: set<Id>, d: Declarator, arrayAllowed: bool): seq<Layer>
    decreases d
  {
    PointerLayers(d.derived) + SuffixLayers(aliases, d.derived, arrayAllowed)
    + if d.kind.Nested? then Layers(aliases, d.kind.inner, StillAllowed(d.derived, arrayAllowed)) else []
  }

  lemma {:induction false} WrapAllAppend(ty: CType, a: seq<Layer>, b: seq<Layer>)
    ensures WrapAll(ty, a + b) == WrapAll(WrapAll(ty, a), b)
    decreases a
  {
    if a == [] {
      assert a + b == b;
    } else {
      assert (a + b)[0] == a[0] && (a + b)[1..] == a[1..] + b;
      WrapAllAppend(Wrap(ty, a[0]), a[1..], b);
    }
  }

  lemma {:induction false} PointersAreLayers(ty: CType, derived: seq<Derived>)
    ensures ApplyPointers(ty, derived) == WrapAll(ty, PointerLayers(derived))
    decreases derived
  {
    if derived != [] {
      var next := if derived[0].PointerTo? then Wrap(ty, PointerOf(derived[0].pointerQualifiers)) else ty;
      PointersAreLayers(next, derived[1..]);
      if derived[0].PointerTo? {
        assert PointerLayers(derived)[0] == PointerOf(derived[0].pointerQualifiers);
        assert PointerLayers(derived)[1..] == PointerLayers(derived[1..]);
      } else {
        assert PointerLayers(derived) == PointerLayers(derived[1..]);
      }
    }
  }

  lemma {:induction false} SuffixesAreLayers(aliases: set<Id>, ty: CType, derived: seq<Derived>, arrayAllowed: bool)
    requires KRFunction !in derived && Block !in derived
    ensures ApplySuffixes(aliases, ty, derived, arrayAllowed)
         == Go(WrapAll(ty, SuffixLayers(aliases, derived, arrayAllowed)), StillAllowed(derived, arrayAllowed))
    decreases derived
  {
    if derived != [] {
      var rest := derived[1..];
      assert derived == [derived[0]] + rest;
      if derived[0].PointerTo? {
        SuffixesAreLayers(aliases, ty, rest, arrayAllowed);
      } else {
        var layer := SuffixLayer(aliases, derived[0], arrayAllowed);
        SuffixesAreLayers(aliases, Wrap(ty, layer), rest, arrayAllowed && !derived[0].ArrayOf?);
        assert SuffixLayers(aliases, derived, arrayAllowed)[1..]
            == SuffixLayers(aliases, rest, arrayAllowed && !derived[0].ArrayOf?);
      }
    }
  }

  lemma {:induction false} ApplyIsLayers(aliases: set<Id>, ty: CType, d: Declarator, arrayAllowed: bool)
    requires Plain(d)
    ensures Apply(aliases, ty, d, arrayAllowed) == WrapAll(ty, Layers(aliases, d, arrayAllowed))
    decreases d
  {
    var pointers, suffixes := PointerLayers(d.derived), SuffixLayers(aliases, d.derived, arrayAllowed);
    PointersAreLayers(ty, d.derived);
    SuffixesAreLayers(aliases, WrapAll(ty, pointers), d.derived, arrayAllowed);
    WrapAllAppend(ty, pointers, suffixes);
    if d.kind.Nested? {
      var still := StillAllowed(d.derived, arrayAllowed);
      ApplyIsLayers(aliases, WrapAll(ty, pointers + suffixes), d.kind.inner, still);
      WrapAllAppend(ty, pointers + suffixes, Layers(aliases, d.kind.inner, still));
    } else {
      assert Layers(aliases, d, arrayAllowed) == pointers + suffixes;
    }
  }

  /** Equally many layers give the same type only over the same type, layer by layer. */
  lemma {:induction false} WrapAllInjective(t: CType, a: seq<Layer>, u: CType, b: seq<Layer>)
    requires |a| == |b| && WrapAll(t, a) == WrapAll(u, b)
    ensures t == u && a == b
    decreases |a|
  {
    if a != [] {
      var n := |a| - 1;
      assert a == a[..n] + [a[n]] && b == b[..n] + [b[n]];
      WrapAllAppend(t, a[..n], [a[n]]);
      WrapAllAppend(u, b[..n], [b[n]]);
      OneLayer(WrapAll(t, a[..n]), a[n]);
      OneLayer(WrapAll(u, b[..n]), b[n]);
      WrapAllInjective(t, a[..n], u, b[..n]);
    }
  }

  lemma OneLayer(ty: CType, layer: Layer)
    ensures WrapAll(ty, [layer]) == Wrap(ty, layer)
  {
    assert [layer][1..] == [];
  }
}
