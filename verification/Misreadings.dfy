/** Declarators that the code does not read as C does, one for each way in which it can go wrong. */
module Misreadings {
  import opened Wrappers
  import opened Contract
  import opened Declarators
  import opened DeclaratorReading
  import E = ConstEval

  function Number(n: nat): E.Expr { E.IntegerConstant(E.Literal(E.Decimal, n, E.NoSize, false, false)) }

  /** `[n]`, `[static n]` and `[const n]`. */
  function Bound(n: nat): Derived { ArrayOf([], Expression(Number(n), "n")) }

  function StaticBound(n: nat): Derived { ArrayOf([], StaticExpression(Number(n), "n")) }

  function ConstBound(n: nat): Derived { ArrayOf([Const], Expression(Number(n), "n")) }

  function Plainly(bound: ArrayBound): Layer { ArrayLayer(bound, NO_QUALIFIERS, Supported) }

  const STAR := PointerLayer(NO_QUALIFIERS, Unspecified, Supported)

  const CONST := Qualifiers(true, false, false, false)

  lemma OneBracket(bracket: Derived, arrayAllowed: bool)
    requires bracket.ArrayOf?
    ensures var layer := ArrayLayerOf(bracket.arrayQualifiers, bracket.size, arrayAllowed);
            && SuffixLayers({}, [bracket], arrayAllowed) == CSuffixes({}, [bracket], arrayAllowed) == [layer]
            && Reverse([layer]) == [layer] && PointerLayers([bracket]) == []
  {
    assert [bracket][1..] == [];
    var layer := ArrayLayerOf(bracket.arrayQualifiers, bracket.size, arrayAllowed);
    assert [layer][1..] == [];
    assert CSuffixes({}, [], false) == [] && SuffixLayers({}, [], false) == [];
  }

  lemma OnePointer(rest: seq<Derived>, arrayAllowed: bool)
    ensures var derived := [PointerTo([])] + rest;
            && PointerLayers(derived) == [STAR] + PointerLayers(rest)
            && SuffixLayers({}, derived, arrayAllowed) == SuffixLayers({}, rest, arrayAllowed)
            && CSuffixes({}, derived, arrayAllowed) == CSuffixes({}, rest, arrayAllowed)
  {
    var derived := [PointerTo([])] + rest;
    assert derived[0] == PointerTo([]) && derived[1..] == rest;
    assert PlainQualifiers([]) == [] && Collect(NO_VALUES, []) == NO_VALUES;
  }

  /** `int a[2][3]` is an array of 2 arrays of 3 in C; the code makes it 3 arrays of 2. */
  lemma TwoDimensionalArray(ty: CType)
    ensures var d := Declarator(Identifier("a"), [Bound(2), Bound(3)]);
            && Formed(d)
            && Apply({}, ty, d, false) == WrapAll(ty, [Plainly(Fixed(2)), Plainly(Fixed(3))])
            && WrapAll(ty, CLayers({}, d, false)) == WrapAll(ty, [Plainly(Fixed(3)), Plainly(Fixed(2))])
            && !Palindromic({}, d, false)
  {
    var d := Declarator(Identifier("a"), [Bound(2), Bound(3)]);
    var two, three := Plainly(Fixed(2)), Plainly(Fixed(3));
    assert d.derived[1..] == [Bound(3)];
    OneBracket(Bound(3), false);
    assert SuffixLayers({}, d.derived, false) == CSuffixes({}, d.derived, false) == [two, three];
    assert Reverse([two, three]) == [three, two] by { assert [two, three][1..] == [three]; }
    assert [two, three][0] != [three, two][0];
    assert PointerLayers(d.derived) == [];
    assert Layers({}, d, false) == [two, three] && CLayers({}, d, false) == [three, two];
    PlainDeclarator(d);
    ApplyIsLayers({}, ty, d, false);
  }

  /** `(*a` with a bracket of its own, `)` and another bracket behind. */
  function ArrayOfPointers(inner: Derived, outer: Derived): Declarator {
    Declarator(Nested(Declarator(Identifier("a"), [PointerTo([]), inner])), [outer])
  }

  lemma ArrayOfPointersLayers(inner: Derived, outer: Derived)
    requires inner.ArrayOf? && outer.ArrayOf?
    ensures var d := ArrayOfPointers(inner, outer);
            var behind := ArrayLayerOf(outer.arrayQualifiers, outer.size, true);
            && Formed(d)
            && Layers({}, d, true)
               == [behind, STAR, ArrayLayerOf(inner.arrayQualifiers, inner.size, false)]
            && CLayers({}, d, true)
               == [ArrayLayerOf(outer.arrayQualifiers, outer.size, false), STAR,
                   ArrayLayerOf(inner.arrayQualifiers, inner.size, true)]
  {
    hide ArrayLayerOf;
    var d := ArrayOfPointers(inner, outer);
    var derived := d.kind.inner.derived;
    assert derived == [PointerTo([])] + [inner] && derived[1..] == [inner] && [inner][1..] == [] && [outer][1..] == [];
    assert FormedLevel([inner]) && FormedLevel([outer]) && FormedLevel(derived);
    OneBracket(outer, true);
    OneBracket(outer, false);
    OneBracket(inner, true);
    OneBracket(inner, false);
    OnePointer([inner], true);
    OnePointer([inner], false);
    assert d.kind.inner.derived != [] && Innermost(d.kind.inner) != [];
    assert outer in d.derived && !StillAllowed(d.derived, true);
    assert Layers({}, d.kind.inner, false) == [STAR, ArrayLayerOf(inner.arrayQualifiers, inner.size, false)];
    assert CLayers({}, d.kind.inner, true) == [STAR, ArrayLayerOf(inner.arrayQualifiers, inner.size, true)];
  }

  lemma NumberValue(n: nat)
    requires 0 < n <= U64_MAX
    ensures E.EvalConst(Number(n)) == Some(n)
  {
  }

  /** The parameter `int (*a[static 2])[3]` is an array of at least 2 pointers to arrays of 3; the code refuses
      its `static`, because it has met `[3]` first. */
  lemma StaticInsideRefused(ty: CType)
    ensures var d := ArrayOfPointers(StaticBound(2), Bound(3));
            && WrapAll(ty, CLayers({}, d, true)) == WrapAll(ty, [Plainly(Fixed(3)), STAR, Plainly(StaticMinimum(2))])
            && Apply({}, ty, d, true).kind.Array? && Apply({}, ty, d, true).kind.bound == InvalidBound("n")
            && Apply({}, ty, d, true).support.NoSupport? && Apply({}, ty, d, true).support.code == E1105
  {
    var d := ArrayOfPointers(StaticBound(2), Bound(3));
    NumberValue(2);
    NumberValue(3);
    ArrayOfPointersLayers(StaticBound(2), Bound(3));
    PlainDeclarator(d);
    ApplyIsLayers({}, ty, d, true);
    LastWrap(ty, Layers({}, d, true));
    assert Collect(NO_VALUES, []) == NO_VALUES;
  }

  /** The parameter `int (*a[const 2])[3]` likewise. */
  lemma QualifierInsideRefused(ty: CType)
    ensures var d := ArrayOfPointers(ConstBound(2), Bound(3));
            && WrapAll(ty, CLayers({}, d, true))
               == WrapAll(ty, [Plainly(Fixed(3)), STAR, ArrayLayer(Fixed(2), CONST, Supported)])
            && Apply({}, ty, d, true).kind.Array? && Apply({}, ty, d, true).kind.parameterQualifiers == NO_QUALIFIERS
            && Apply({}, ty, d, true).support.NoSupport? && Apply({}, ty, d, true).support.code == E1106
  {
    var d := ArrayOfPointers(ConstBound(2), Bound(3));
    NumberValue(2);
    NumberValue(3);
    ArrayOfPointersLayers(ConstBound(2), Bound(3));
    PlainDeclarator(d);
    ApplyIsLayers({}, ty, d, true);
    LastWrap(ty, Layers({}, d, true));
    assert [Const][1..] == [] && Collect(NO_VALUES, []) == NO_VALUES;
    assert Collect(NO_VALUES, [Const]) == QualifierValues(CONST, Unspecified, false);
  }

  /** The parameter `int (*a)[static 3]` may have no `static`, for its type is a pointer; the code takes it. */
  lemma StaticBehindPointerTaken(ty: CType)
    ensures var d := Declarator(Nested(Declarator(Identifier("a"), [PointerTo([])])), [StaticBound(3)]);
            && Formed(d)
            && Apply({}, ty, d, true) == WrapAll(ty, [Plainly(StaticMinimum(3)), STAR])
            && CLayers({}, d, true) == [ArrayLayerOf([], StaticBound(3).size, false), STAR]
            && ArrayLayerOf([], StaticBound(3).size, false).bound == InvalidBound("n")
            && ArrayLayerOf([], StaticBound(3).size, false).support.NoSupport?
  {
    var inner := Declarator(Identifier("a"), [PointerTo([])]);
    var d := Declarator(Nested(inner), [StaticBound(3)]);
    NumberValue(3);
    OneBracket(StaticBound(3), true);
    OneBracket(StaticBound(3), false);
    OnePointer([], true);
    OnePointer([], false);
    assert [PointerTo([])] + [] == [PointerTo([])] && [PointerTo([])][1..] == [] && [StaticBound(3)][1..] == [];
    assert Innermost(inner) != [];
    assert Layers({}, inner, false) == [STAR] == CLayers({}, inner, true);
    PlainDeclarator(d);
    assert Collect(NO_VALUES, []) == NO_VALUES;
    ApplyIsLayers({}, ty, d, true);
  }

  /** For a pointer alias `P`, `P restrict *p` is a pointer to a restricted `P`; the code restricts p. */
  lemma RestrictMisplaced(id: Id)
    ensures var base := CType(NO_QUALIFIERS, Unspecified, AliasRef(id), Supported);
            var restricted := NO_QUALIFIERS.(isRestrict := true);
            var d := Declarator(Identifier("p"), [PointerTo([])]);
            && FinishType({id}, base, [Restrict], Some(d), false)
               == CType(restricted, Unspecified, Pointer(base), Supported)
            && CFinish({id}, base, [Restrict], Some(d), false)
               == CType(NO_QUALIFIERS, Unspecified, Pointer(base.(qualifiers := restricted)), Supported)
  {
    var base := CType(NO_QUALIFIERS, Unspecified, AliasRef(id), Supported);
    var d := Declarator(Identifier("p"), [PointerTo([])]);
    var restricted := NO_QUALIFIERS.(isRestrict := true);
    var v := QualifierValues(restricted, Unspecified, false);
    assert [Restrict][1..] == [] && Collect(v, []) == v;
    assert Collect(NO_VALUES, [Restrict]) == v;
    assert Qualified(base, v.qualifiers) == base;
    RestrictedLayers(id);
    assert [STAR][1..] == [];
    PlainPointer(base);
  }

  lemma RestrictedLayers(id: Id)
    ensures var d := Declarator(Identifier("p"), [PointerTo([])]);
            CLayers({id}, d, false) == [STAR] == Layers({id}, d, false) && Plain(d)
  {
    var d := Declarator(Identifier("p"), [PointerTo([])]);
    assert [PointerTo([])][1..] == [] && PlainQualifiers([]) == [] && Collect(NO_VALUES, []) == NO_VALUES;
    assert CSuffixes({id}, [], false) == [] && SuffixLayers({id}, [], false) == [] && PointerLayers([]) == [];
    assert PointerLayers(d.derived) == [STAR];
  }

  lemma PlainPointer(base: CType)
    requires base.kind.AliasRef?
    ensures var d := Declarator(Identifier("p"), [PointerTo([])]);
            forall u: CType :: Apply({base.kind.id}, u, d, false) == WrapAll(u, [STAR]) == Wrap(u, STAR)
  {
    var d := Declarator(Identifier("p"), [PointerTo([])]);
    RestrictedLayers(base.kind.id);
    forall u: CType ensures Apply({base.kind.id}, u, d, false) == WrapAll(u, [STAR]) == Wrap(u, STAR) {
      ApplyIsLayers({base.kind.id}, u, d, false);
      OneLayer(u, STAR);
    }
  }
}
