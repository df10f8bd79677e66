/** Types written as declarators, what C makes of what is written, and exactly when the code lowers it back. */
module DeclaratorText {
  import opened Wrappers
  import opened Contract
  import opened Declarators
  import opened DeclaratorReading
  import E = ConstEval

  // ----- writing a type ------------------------------------------------------------------

  predicate Written(b: ArrayBound) {
    (b.Fixed? && 0 < b.elements <= U64_MAX) || b.Incomplete? || b.Variable?
  }

  predicate StaticWritten(b: ArrayBound) {
    (b.StaticMinimum? && 0 < b.minimum <= U64_MAX) || b.StaticVariable?
  }

  /** The types that declarators denote, those of parameters if `parameter`; leaves are unrestricted. */
  predicate Writable(ty: CType, parameter: bool)
    decreases ty
  {
    match ty.kind
    case Pointer(pointee) => ty.support == Supported && Writable(pointee, false)
    case Array(element, bound, q) =>
      && ty == Wrap(element, ArrayLayer(bound, q, Supported)) && Writable(element, false)
      && (Written(bound) || (parameter && StaticWritten(bound))) && (q == NO_QUALIFIERS || parameter)
    case Function(returnType, parameters, prototype, convention) =>
      && ty == Wrap(returnType, FunctionLayer(parameters, prototype, convention)) && Writable(returnType, false)
      && (if parameters == [] then prototype != Prototyped(true) else prototype.Prototyped? && !OnlyVoid(parameters))
      && forall p :: p in parameters ==> Writable(p.ty, true)
    case _ => true
  }

  function WriteFlag(on: bool, q: TypeQualifier): seq<TypeQualifier> {
    if on then [q] else []
  }

  function WriteNullability(n: Nullability): seq<TypeQualifier> {
    match n
    case Unspecified => []
    case Nonnull => [NonnullQualifier]
    case Nullable => [NullableQualifier]
    case NullUnspecified => [NullUnspecifiedQualifier]
  }

  function WriteQualifiers(q: Qualifiers, n: Nullability): seq<TypeQualifier> {
    WriteFlag(q.isConst, Const)
    + (WriteFlag(q.isVolatile, Volatile)
       + (WriteFlag(q.isRestrict, Restrict) + (WriteFlag(q.isAtomic, Atomic) + WriteNullability(n))))
  }

  function AsPointer(qualifiers: seq<TypeQualifier>): seq<PointerQualifier> {
    if qualifiers == [] then [] else [Qualifier(qualifiers[0])] + AsPointer(qualifiers[1..])
  }

  function WriteNumber(n: nat): E.Expr { E.IntegerConstant(E.Literal(E.Decimal, n, E.NoSize, false, false)) }

  function WriteSize(b: ArrayBound): ArraySize {
    match b
    case Fixed(n) => Expression(WriteNumber(n), "")
    case Variable(name) => Expression(E.Identifier(name), name)
    case StaticMinimum(n) => StaticExpression(WriteNumber(n), "")
    case StaticVariable(name) => StaticExpression(E.Identifier(name), name)
    case _ => UnknownSize
  }

  function WriteBracket(bound: ArrayBound, q: Qualifiers): Derived {
    ArrayOf(WriteQualifiers(q, Unspecified), WriteSize(bound))
  }

  const VOID := CType(NO_QUALIFIERS, Unspecified, Void, Supported)

  /** Writes `ty` around the declarator `d` of its outer layers: base type and declarator. */
  function Write(ty: CType, d: Declarator): (CType, Declarator)
    decreases ty
  {
    match ty.kind
    case Pointer(pointee) =>
      Write(pointee, d.(derived := [PointerTo(AsPointer(WriteQualifiers(ty.qualifiers, ty.nullability)))] + d.derived))
    case Array(element, bound, q) => Write(element, WriteSuffix(WriteBracket(bound, q), d))
    case Function(returnType, parameters, prototype, convention) =>
      Write(returnType, WriteSuffix(WriteFunction(parameters, prototype, convention), d))
    case _ => (ty, d)
  }

  /** A level that has layers already needs parentheses. */
  function WriteSuffix(suffix: Derived, d: Declarator): Declarator {
    if d.derived == [] then d.(derived := [suffix]) else Declarator(Nested(d), [suffix])
  }

  function WriteFunction(parameters: seq<CParameter>, prototype: Prototype, convention: CallingConvention): Derived
    decreases parameters, 1
  {
    if parameters == [] && prototype.Prototyped? then FunctionOf([Parameter(VOID, [], None)], false, convention)
    else FunctionOf(WriteParameters(parameters), prototype.Prototyped? && prototype.variadic, convention)
  }

  function NameOf(p: CParameter): Declarator {
    Declarator(if p.name.Some? then Identifier(p.name.value) else Abstract, [])
  }

  function WriteParameters(parameters: seq<CParameter>): seq<Parameter>
    decreases parameters, 0
  {
    if parameters == [] then []
    else
      var p := parameters[0];
      assert p.ty < p;
      var (base, d) := Write(p.ty, NameOf(p));
      [Parameter(base, [], Some(d))] + WriteParameters(parameters[1..])
  }

  // ----- qualifiers and brackets ---------------------------------------------------------

  /** The values after the flags `q` and no nullability. */
  function Values(q: Qualifiers): QualifierValues { QualifierValues(q, Unspecified, false) }

  lemma FlagCollected(q: Qualifiers, on: bool, flag: TypeQualifier, rest: seq<TypeQualifier>)
    ensures Collect(Values(q), WriteFlag(on, flag) + rest)
         == Collect(if on then AddQualifier(Values(q), flag) else Values(q), rest)
  {
    var all := WriteFlag(on, flag) + rest;
    if on { assert all[0] == flag && all[1..] == rest; } else { assert all == rest; }
  }

  lemma NullabilityCollected(q: Qualifiers, n: Nullability)
    ensures Collect(Values(q), WriteNullability(n)) == QualifierValues(q, n, false)
  {
    if n != Unspecified { assert WriteNullability(n)[1..] == []; }
  }

  lemma QualifiersCollected(q: Qualifiers, n: Nullability)
    ensures Collect(NO_VALUES, WriteQualifiers(q, n)) == QualifierValues(q, n, false)
  {
    hide Collect, WriteFlag;
    var e := WriteNullability(n);
    var d := WriteFlag(q.isAtomic, Atomic) + e;
    var c := WriteFlag(q.isRestrict, Restrict) + d;
    var b := WriteFlag(q.isVolatile, Volatile) + c;
    FlagCollected(NO_QUALIFIERS, q.isConst, Const, b);
    var q1 := Qualifiers(q.isConst, false, false, false);
    FlagCollected(q1, q.isVolatile, Volatile, c);
    var q2 := q1.(isVolatile := q.isVolatile);
    FlagCollected(q2, q.isRestrict, Restrict, d);
    var q3 := q2.(isRestrict := q.isRestrict);
    FlagCollected(q3, q.isAtomic, Atomic, e);
    NullabilityCollected(q, n);
  }

  lemma {:induction false} AsPointerPlain(qualifiers: seq<TypeQualifier>)
    ensures PlainQualifiers(AsPointer(qualifiers)) == qualifiers && ExtensionQualifier !in AsPointer(qualifiers)
  {
    if qualifiers != [] {
      AsPointerPlain(qualifiers[1..]);
      assert AsPointer(qualifiers)[1..] == AsPointer(qualifiers[1..]);
    }
  }

  /** Written pointer qualifiers and nullability are read back. */
  lemma QualifiersRead(q: Qualifiers, n: Nullability)
    ensures PointerOf(AsPointer(WriteQualifiers(q, n))) == PointerLayer(q, n, Supported)
  {
    hide Collect, WriteQualifiers;
    QualifiersCollected(q, n);
    AsPointerPlain(WriteQualifiers(q, n));
  }

  /** A written bracket is read back where it may stand, and its place matters exactly for qualifiers and
      static minima. */
  lemma BracketRead(bound: ArrayBound, q: Qualifiers, outermost: bool)
    requires (Written(bound) || (outermost && StaticWritten(bound))) && (q == NO_QUALIFIERS || outermost)
    ensures ArrayLayerOf(WriteQualifiers(q, Unspecified), WriteSize(bound), outermost)
         == ArrayLayer(bound, q, Supported)
    ensures Placed(WriteQualifiers(q, Unspecified), WriteSize(bound)) <==> q != NO_QUALIFIERS || StaticWritten(bound)
  {
    hide Collect, WriteQualifiers;
    QualifiersCollected(q, Unspecified);
    NoneWritten(q);
    assert Values(q).qualifiers == q;
  }

  lemma NoneWritten(q: Qualifiers)
    ensures WriteQualifiers(q, Unspecified) == [] <==> q == NO_QUALIFIERS
  {
  }

  // ----- what is written means the type --------------------------------------------------

  predicate PointersThenOne(derived: seq<Derived>) {
    derived == [] || (if derived[0].PointerTo? then PointersThenOne(derived[1..])
                      else |derived| == 1 && Suffix(derived[0]))
  }

  /** What holds of the declarators `Write` builds. */
  predicate Built(d: Declarator) {
    && PointersThenOne(d.derived)
    && (d.kind.Nested? ==> d.derived != [] && d.kind.inner.derived != [] && Built(d.kind.inner))
  }

  lemma BuiltInnermost(d: Declarator)
    requires Built(d)
    ensures Innermost(d) == [] <==> d.derived == []
    ensures d.derived == [] ==> !d.kind.Nested?
  {
  }

  lemma BuiltStep(x: Derived, d: Declarator)
    requires Built(d)
    ensures x.PointerTo? ==> Built(d.(derived := [x] + d.derived))
    ensures Suffix(x) ==> Built(WriteSuffix(x, d))
    ensures DeclaratorName(d.(derived := [x] + d.derived)) == DeclaratorName(WriteSuffix(x, d)) == DeclaratorName(d)
  {
    var derived := [x] + d.derived;
    assert derived[0] == x && derived[1..] == d.derived;
  }

  /** A pointer in front of a level is that level's innermost layer. */
  lemma PointerInFront(aliases: set<Id>, q: seq<PointerQualifier>, d: Declarator, parameter: bool)
    ensures CLayers(aliases, d.(derived := [PointerTo(q)] + d.derived), parameter)
         == [PointerOf(q)] + CLayers(aliases, d, parameter)
  {
    var derived := [PointerTo(q)] + d.derived;
    assert derived[0] == PointerTo(q) && derived[1..] == d.derived;
    assert PointerLayers(derived) == [PointerOf(q)] + PointerLayers(d.derived);
  }

  function SuffixOf(aliases: set<Id>, suffix: Derived, outermost: bool): Layer
    requires Suffix(suffix)
  {
    match suffix
    case ArrayOf(qualifiers, size) => ArrayLayerOf(qualifiers, size, outermost)
    case FunctionOf(parameters, ellipsis, convention) =>
      FunctionLayerOf(CParameters(aliases, parameters), ellipsis, convention)
  }

  lemma SuffixInFront(aliases: set<Id>, suffix: Derived, d: Declarator, parameter: bool)
    requires Suffix(suffix) && Built(d)
    ensures CLayers(aliases, WriteSuffix(suffix, d), parameter)
         == [SuffixOf(aliases, suffix, parameter && Innermost(d) == [])] + CLayers(aliases, d, parameter)
  {
    hide ArrayLayerOf, FunctionLayerOf, CParameters;
    var outermost := parameter && Innermost(d) == [];
    var layer := SuffixOf(aliases, suffix, outermost);
    assert [suffix][1..] == [] && CSuffixes(aliases, [], false) == [] && PointerLayers([]) == [];
    assert CSuffixes(aliases, [suffix], outermost) == [layer] && PointerLayers([suffix]) == [];
    assert [layer][1..] == [] && Reverse([layer]) == [layer];
    BuiltInnermost(d);
    if d.derived == [] { NothingAdded(aliases, d, false, parameter); }
  }

  lemma WrapFirst(ty: CType, layer: Layer, layers: seq<Layer>)
    ensures WrapAll(ty, [layer] + layers) == WrapAll(Wrap(ty, layer), layers)
  {
    assert ([layer] + layers)[1..] == layers;
  }

  lemma {:induction false} WriteMeans(aliases: set<Id>, ty: CType, d: Declarator, parameter: bool)
    requires Writable(ty, parameter && Innermost(d) == []) && Built(d)
    ensures var (base, written) := Write(ty, d);
            && Built(written) && DeclaratorName(written) == DeclaratorName(d)
            && WrapAll(base, CLayers(aliases, written, parameter)) == WrapAll(ty, CLayers(aliases, d, parameter))
    decreases ty, 2
  {
    hide CLayers, ArrayLayerOf, PointerOf, WriteQualifiers, WriteBracket;
    var layers := CLayers(aliases, d, parameter);
    match ty.kind
    case Pointer(pointee) =>
      var q := AsPointer(WriteQualifiers(ty.qualifiers, ty.nullability));
      QualifiersRead(ty.qualifiers, ty.nullability);
      BuiltStep(PointerTo(q), d);
      PointerInFront(aliases, q, d, parameter);
      WrapFirst(pointee, PointerOf(q), layers);
      BuiltInnermost(d.(derived := [PointerTo(q)] + d.derived));
      WriteMeans(aliases, pointee, d.(derived := [PointerTo(q)] + d.derived), parameter);
    case Array(element, bound, q) =>
      SuffixMeans(aliases, element, WriteBracket(bound, q), ArrayLayer(bound, q, Supported), d, parameter) by {
        BracketRead(bound, q, parameter && Innermost(d) == []);
        BracketSuffix(aliases, bound, q, parameter && Innermost(d) == []);
      }
      WriteMeans(aliases, element, WriteSuffix(WriteBracket(bound, q), d), parameter);
    case Function(returnType, parameters, prototype, convention) =>
      var suffix := WriteFunction(parameters, prototype, convention);
      FunctionMeans(aliases, parameters, prototype, convention, parameter && Innermost(d) == []);
      SuffixMeans(aliases, returnType, suffix, FunctionLayer(parameters, prototype, convention), d, parameter);
      WriteMeans(aliases, returnType, WriteSuffix(suffix, d), parameter);
    case _ =>
  }

  lemma BracketSuffix(aliases: set<Id>, bound: ArrayBound, q: Qualifiers, outermost: bool)
    ensures Suffix(WriteBracket(bound, q))
    ensures SuffixOf(aliases, WriteBracket(bound, q), outermost)
         == ArrayLayerOf(WriteQualifiers(q, Unspecified), WriteSize(bound), outermost)
  {
  }

  /** A written suffix that means its layer, put around a declarator. */
  lemma SuffixMeans(aliases: set<Id>, ty: CType, suffix: Derived, layer: Layer, d: Declarator, parameter: bool)
    requires Suffix(suffix) && Built(d) && SuffixOf(aliases, suffix, parameter && Innermost(d) == []) == layer
    ensures var written := WriteSuffix(suffix, d);
            && Built(written) && DeclaratorName(written) == DeclaratorName(d) && Innermost(written) != []
            && WrapAll(ty, CLayers(aliases, written, parameter))
               == WrapAll(Wrap(ty, layer), CLayers(aliases, d, parameter))
  {
    hide CLayers;
    BuiltStep(suffix, d);
    BuiltInnermost(WriteSuffix(suffix, d));
    SuffixInFront(aliases, suffix, d, parameter);
    WrapFirst(ty, layer, CLayers(aliases, d, parameter));
  }

  lemma {:induction false} FunctionMeans(aliases: set<Id>, parameters: seq<CParameter>, prototype: Prototype,
                                         convention: CallingConvention, outermost: bool)
    requires if parameters == [] then prototype != Prototyped(true) else prototype.Prototyped? && !OnlyVoid(parameters)
    requires forall p :: p in parameters ==> Writable(p.ty, true)
    ensures SuffixOf(aliases, WriteFunction(parameters, prototype, convention), outermost)
         == FunctionLayer(parameters, prototype, convention)
    decreases parameters, 1
  {
    if parameters == [] && prototype.Prototyped? {
      var written := [Parameter(VOID, [], None)];
      assert written[1..] == [] && CParameters(aliases, []) == [] && Collect(NO_VALUES, []) == NO_VALUES;
      assert CParameters(aliases, written) == [CParameter(None, VOID)];
    } else {
      ParametersMean(aliases, parameters);
    }
  }

  lemma {:induction false} ParametersMean(aliases: set<Id>, parameters: seq<CParameter>)
    requires forall p :: p in parameters ==> Writable(p.ty, true)
    ensures CParameters(aliases, WriteParameters(parameters)) == parameters
    decreases parameters, 0
  {
    hide CLayers;
    if parameters != [] {
      var p := parameters[0];
      assert p.ty < p;
      WriteMeans(aliases, p.ty, NameOf(p), true);
      NothingAdded(aliases, NameOf(p), true, true);
      ParametersMean(aliases, parameters[1..]);
      assert WriteParameters(parameters)[1..] == WriteParameters(parameters[1..]);
      assert Collect(NO_VALUES, []) == NO_VALUES;
      assert parameters == [p] + parameters[1..];
    }
  }

  // ----- what the code reads back --------------------------------------------------------

  /** An array somewhere between the leaf and the outside, parameters aside. */
  predicate ArrayInside(ty: CType) {
    match ty.kind
    case Pointer(pointee) => ArrayInside(pointee)
    case Array(_, _, _) => true
    case Function(returnType, _, _, _) => ArrayInside(returnType)
    case _ => false
  }

  /** The outermost array has qualifiers or a static minimum, and there is a further array inside it, whose
      bracket the code meets first. */
  predicate Shadowed(ty: CType) {
    ty.kind.Array? && (ty.kind.parameterQualifiers != NO_QUALIFIERS || StaticWritten(ty.kind.bound))
    && ArrayInside(ty.kind.element)
  }

  /** The code reads the type back: no parameter in it, and not the type itself as a parameter, is shadowed. */
  predicate Kept(ty: CType, parameter: bool)
    decreases ty, 1
  {
    (parameter ==> !Shadowed(ty)) && ParametersKept(ty)
  }

  predicate ParametersKept(ty: CType)
    decreases ty, 0
  {
    match ty.kind
    case Pointer(pointee) => ParametersKept(pointee)
    case Array(element, _, _) => ParametersKept(element)
    case Function(returnType, parameters, _, _) =>
      ParametersKept(returnType) && forall p :: p in parameters ==> Kept(p.ty, true)
    case _ => true
  }

  /** A level around a declarator that has layers: its bracket says nothing that depends on its place. */
  lemma BracketsAround(suffix: Derived, d: Declarator, arrayAllowed: bool, parameter: bool)
    requires Suffix(suffix) && Built(d) && d.derived != []
    requires suffix.ArrayOf? ==> !Placed(suffix.arrayQualifiers, suffix.size)
    ensures BracketsRight(WriteSuffix(suffix, d), arrayAllowed, parameter)
       <==> BracketsRight(d, arrayAllowed && !suffix.ArrayOf?, parameter)
  {
    var written := WriteSuffix(suffix, d);
    assert written.derived == [suffix] && FirstSuffix([suffix]) == Some(suffix);
    assert StillAllowed([suffix], arrayAllowed) <==> arrayAllowed && !suffix.ArrayOf? by {
      assert suffix in [suffix];
    }
  }

  lemma BracketsPointer(q: seq<PointerQualifier>, d: Declarator, arrayAllowed: bool, parameter: bool)
    ensures BracketsRight(d.(derived := [PointerTo(q)] + d.derived), arrayAllowed, parameter)
       <==> BracketsRight(d, arrayAllowed, parameter)
  {
    var derived := [PointerTo(q)] + d.derived;
    assert derived[0] == PointerTo(q) && derived[1..] == d.derived;
    assert forall x :: x in derived ==> x == PointerTo(q) || x in d.derived;
    assert forall x :: x in d.derived ==> x in derived;
  }

  /** Around layers, what is written for `ty` passes the flag on exactly without an array. */
  lemma {:induction false} BracketsWritten(ty: CType, d: Declarator, arrayAllowed: bool, parameter: bool)
    requires Writable(ty, false) && Built(d) && d.derived != []
    ensures BracketsRight(Write(ty, d).1, arrayAllowed, parameter)
       <==> BracketsRight(d, arrayAllowed && !ArrayInside(ty), parameter)
    decreases ty
  {
    hide BracketsRight, Placed, WriteQualifiers;
    match ty.kind
    case Pointer(pointee) =>
      var q := AsPointer(WriteQualifiers(ty.qualifiers, ty.nullability));
      BuiltStep(PointerTo(q), d);
      BracketsPointer(q, d, arrayAllowed && !ArrayInside(pointee), parameter);
      BracketsWritten(pointee, d.(derived := [PointerTo(q)] + d.derived), arrayAllowed, parameter);
    case Array(element, bound, q) =>
      var suffix := WriteBracket(bound, q);
      BuiltStep(suffix, d);
      BracketRead(bound, q, false);
      BracketsAround(suffix, d, arrayAllowed && !ArrayInside(element), parameter);
      BracketsWritten(element, WriteSuffix(suffix, d), arrayAllowed, parameter);
      assert arrayAllowed && !ArrayInside(element) && !suffix.ArrayOf? <==> arrayAllowed && !ArrayInside(ty);
    case Function(returnType, parameters, prototype, convention) =>
      var suffix := WriteFunction(parameters, prototype, convention);
      BuiltStep(suffix, d);
      BracketsAround(suffix, d, arrayAllowed && !ArrayInside(returnType), parameter);
      BracketsWritten(returnType, WriteSuffix(suffix, d), arrayAllowed, parameter);
    case _ =>
  }

  lemma NoBrackets(d: Declarator, arrayAllowed: bool, parameter: bool)
    requires Built(d) && d.derived == []
    ensures BracketsRight(d, arrayAllowed, parameter)
  {
  }

  /** Around a bare name: the first layer decides. */
  lemma BracketsOfName(ty: CType, d: Declarator, parameter: bool)
    requires Writable(ty, parameter) && !d.kind.Nested? && d.derived == []
    ensures BracketsRight(Write(ty, d).1, parameter, parameter) <==> !(parameter && Shadowed(ty))
  {
    hide BracketsRight, Placed, WriteQualifiers;
    match ty.kind
    case Pointer(pointee) =>
      var q := AsPointer(WriteQualifiers(ty.qualifiers, ty.nullability));
      BuiltStep(PointerTo(q), d);
      BracketsPointer(q, d, parameter && !ArrayInside(pointee), parameter);
      NoBrackets(d, parameter && !ArrayInside(pointee), parameter);
      BracketsWritten(pointee, d.(derived := [PointerTo(q)] + d.derived), parameter, parameter);
    case Array(element, bound, q) =>
      var suffix := WriteBracket(bound, q);
      BuiltStep(suffix, d);
      BracketRead(bound, q, parameter);
      BracketAlone(suffix, d, parameter && !ArrayInside(element), parameter);
      BracketsWritten(element, WriteSuffix(suffix, d), parameter, parameter);
    case Function(returnType, parameters, prototype, convention) =>
      var suffix := WriteFunction(parameters, prototype, convention);
      BuiltStep(suffix, d);
      BracketAlone(suffix, d, parameter && !ArrayInside(returnType), parameter);
      BracketsWritten(returnType, WriteSuffix(suffix, d), parameter, parameter);
    case _ => NoBrackets(d, parameter, parameter);
  }

  lemma BracketAlone(suffix: Derived, d: Declarator, arrayAllowed: bool, parameter: bool)
    requires Suffix(suffix) && !d.kind.Nested? && d.derived == []
    ensures BracketsRight(WriteSuffix(suffix, d), arrayAllowed, parameter)
       <==> (suffix.ArrayOf? && Placed(suffix.arrayQualifiers, suffix.size) ==> arrayAllowed == parameter)
  {
    hide Placed;
    assert FirstSuffix([suffix]) == Some(suffix);
  }

  // ----- parameters of what is written ---------------------------------------------------

  lemma OneLevelParameters(aliases: set<Id>, suffix: Derived)
    ensures LevelParameters(aliases, [suffix]) <==> (suffix.FunctionOf? ==> AllRight(aliases, suffix.parameters))
  {
    assert [suffix][1..] == [];
  }

  lemma ParametersAround(aliases: set<Id>, suffix: Derived, d: Declarator)
    requires Suffix(suffix) && Built(d)
    ensures ParametersRight(aliases, WriteSuffix(suffix, d))
       <==> ParametersRight(aliases, d) && (suffix.FunctionOf? ==> AllRight(aliases, suffix.parameters))
    ensures Formed(WriteSuffix(suffix, d))
       <==> Formed(d) && (suffix.FunctionOf? ==> FormedParameters(suffix.parameters))
  {
    hide AllRight, FormedParameters;
    OneLevelParameters(aliases, suffix);
    assert [suffix][1..] == [];
    BuiltInnermost(d);
  }

  lemma ParametersPointer(aliases: set<Id>, q: seq<PointerQualifier>, d: Declarator)
    ensures var pointer := d.(derived := [PointerTo(q)] + d.derived);
            && (ParametersRight(aliases, pointer) <==> ParametersRight(aliases, d)) && (Formed(pointer) <==> Formed(d))
  {
    var derived := [PointerTo(q)] + d.derived;
    assert derived[0] == PointerTo(q) && derived[1..] == d.derived;
  }

  /** The parameters of what is written are read rightly exactly when they are kept. */
  lemma {:induction false} ParametersWritten(aliases: set<Id>, ty: CType, d: Declarator, parameter: bool)
    requires Writable(ty, parameter) && Built(d) && Formed(d)
    ensures Formed(Write(ty, d).1) && Built(Write(ty, d).1)
    ensures ParametersRight(aliases, Write(ty, d).1) <==> ParametersRight(aliases, d) && ParametersKept(ty)
    decreases ty, 3
  {
    hide Formed, ParametersRight, AllRight, Built;
    match ty.kind
    case Pointer(pointee) =>
      var q := AsPointer(WriteQualifiers(ty.qualifiers, ty.nullability));
      BuiltStep(PointerTo(q), d);
      ParametersPointer(aliases, q, d);
      ParametersWritten(aliases, pointee, d.(derived := [PointerTo(q)] + d.derived), false);
    case Array(element, bound, q) =>
      var suffix := WriteBracket(bound, q);
      BuiltStep(suffix, d);
      ParametersAround(aliases, suffix, d);
      ParametersWritten(aliases, element, WriteSuffix(suffix, d), false);
    case Function(returnType, parameters, prototype, convention) =>
      var suffix := WriteFunction(parameters, prototype, convention);
      FunctionWritten(aliases, parameters, prototype, convention);
      BuiltStep(suffix, d);
      ParametersAround(aliases, suffix, d);
      ParametersWritten(aliases, returnType, WriteSuffix(suffix, d), false);
    case _ =>
  }

  lemma {:induction false} FunctionWritten(aliases: set<Id>, parameters: seq<CParameter>, prototype: Prototype,
                                           convention: CallingConvention)
    requires forall p :: p in parameters ==> Writable(p.ty, true)
    ensures var suffix := WriteFunction(parameters, prototype, convention);
            && FormedParameters(suffix.parameters)
            && (AllRight(aliases, suffix.parameters) <==> forall p :: p in parameters ==> Kept(p.ty, true))
    decreases parameters, 2
  {
    if parameters == [] && prototype.Prototyped? {
      assert [Parameter(VOID, [], None)][1..] == [];
    } else {
      ListWritten(aliases, parameters);
    }
  }

  lemma {:induction false} ListWritten(aliases: set<Id>, parameters: seq<CParameter>)
    requires forall p :: p in parameters ==> Writable(p.ty, true)
    ensures FormedParameters(WriteParameters(parameters))
    ensures AllRight(aliases, WriteParameters(parameters)) <==> forall p :: p in parameters ==> Kept(p.ty, true)
    decreases parameters, 1
  {
    hide Formed, FinishRight, Writable, Kept;
    if parameters != [] {
      var p := parameters[0];
      assert p.ty < p;
      OneWritten(aliases, p.ty, NameOf(p), true);
      ListWritten(aliases, parameters[1..]);
      assert WriteParameters(parameters)[1..] == WriteParameters(parameters[1..]);
      assert parameters == [p] + parameters[1..];
    }
  }

  /** A type written around a name. */
  lemma {:induction false} OneWritten(aliases: set<Id>, ty: CType, d: Declarator, parameter: bool)
    requires Writable(ty, parameter) && !d.kind.Nested? && d.derived == []
    ensures var (base, written) := Write(ty, d);
            Formed(written) && (FinishRight(aliases, base, [], Some(written), parameter) <==> Kept(ty, parameter))
    decreases ty, 4
  {
    hide Writable, ParametersRight, BracketsRight, Palindromic, Write, ParametersKept;
    var (base, written) := Write(ty, d);
    assert Built(d) && Formed(d);
    assert ParametersRight(aliases, d) by { NoParameters(aliases, d); }
    ParametersWritten(aliases, ty, d, parameter);
    BracketsOfName(ty, d, parameter);
    BuiltIsSingle(written);
    SingleIsPalindromic(aliases, written, parameter);
    assert Collect(NO_VALUES, []) == NO_VALUES;
    if Innermost(written) == [] {
      BuiltInnermost(written);
      NoBrackets(written, parameter, parameter);
      NoParameters(aliases, written);
    }
  }

  lemma NoParameters(aliases: set<Id>, d: Declarator)
    requires !d.kind.Nested? && d.derived == []
    ensures ParametersRight(aliases, d)
  {
  }

  lemma {:induction false} OneSuffixOnly(derived: seq<Derived>)
    requires PointersThenOne(derived)
    ensures Suffixes(derived) <= 1
    decreases derived
  {
    if derived != [] {
      if derived[0].PointerTo? { OneSuffixOnly(derived[1..]); } else { assert derived[1..] == []; }
    }
  }

  lemma {:induction false} BuiltIsSingle(d: Declarator)
    requires Built(d)
    ensures SingleSuffix(d)
    decreases d
  {
    OneSuffixOnly(d.derived);
    if d.kind.Nested? { BuiltIsSingle(d.kind.inner); }
  }

  // ----- round trips ---------------------------------------------------------------------

  /** Every writable type, parameters with qualified and static arrays included, is what C makes of the
      declarator written for it; and the code lowers that declarator back to the type exactly when it is kept. */
  lemma DeclaratorRoundTrip(aliases: set<Id>, ty: CType, kind: DeclaratorKind, parameter: bool)
    requires Writable(ty, parameter) && !kind.Nested?
    ensures var (base, d) := Write(ty, Declarator(kind, []));
            && DeclaratorName(d) == DeclaratorName(Declarator(kind, []))
            && CFinish(aliases, base, [], Some(d), parameter) == ty
            && (FinishType(aliases, base, [], Some(d), parameter) == ty <==> Kept(ty, parameter))
  {
    hide Writable, FinishRight, Write, Kept, CLayers, FinishType;
    var start := Declarator(kind, []);
    var (base, d) := Write(ty, start);
    WriteMeans(aliases, ty, start, parameter);
    NothingAdded(aliases, start, parameter, parameter);
    OneWritten(aliases, ty, start, parameter);
    FinishReadsAsC(aliases, base, [], Some(d), parameter);
    assert Collect(NO_VALUES, []) == NO_VALUES;
  }

  /** Written parameter lists, names included, are lowered back exactly when every parameter is kept. */
  lemma ParametersRead(aliases: set<Id>, parameters: seq<CParameter>)
    requires forall p :: p in parameters ==> Writable(p.ty, true)
    ensures CParameters(aliases, WriteParameters(parameters)) == parameters
    ensures LowerParameters(aliases, WriteParameters(parameters)) == parameters
       <==> forall p :: p in parameters ==> Kept(p.ty, true)
  {
    ParametersMean(aliases, parameters);
    ListWritten(aliases, parameters);
    ParametersReadAsC(aliases, WriteParameters(parameters));
  }
}
