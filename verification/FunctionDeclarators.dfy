/** Functions among declarators (src/extract/types.rs, src/extract/mod.rs): `is_function_declarator`,
    `function_parts`, and exactly when they are right. */
module FunctionDeclarators {
  import opened Wrappers
  import opened Contract
  import opened AliasGraph
  import opened Declarators
  import opened DeclaratorReading

  // ----- the code ------------------------------------------------------------------------

  datatype FunctionParts = FunctionParts(returnType: CType, parameters: seq<CParameter>, prototype: Prototype)

  /** `is_function_declarator`. */
  predicate IsFunctionDeclarator(d: Declarator) {
    exists x :: x in d.derived && x.FunctionOf?
  }

  /** `function_parts`: one pass over the outermost level only. */
  method LowerFunctionParts(aliases: set<Id>, base: CType, qualifiers: seq<TypeQualifier>, d: Declarator)
    returns (parts: Option<FunctionParts>)
    ensures parts == PartsOf(aliases, FinishType(aliases, base, qualifiers, None, false), None, d.derived)
    ensures parts.Some? <==> IsFunctionDeclarator(d) && KRFunction !in d.derived && Block !in d.derived
  {
    hide FinishType, LowerParameters, ArrayLayerOf, PointerOf;
    var returnType := FinishType(aliases, base, qualifiers, None, false);
    var found: Option<(seq<CParameter>, Prototype)> := None;
    ghost var all := PartsOf(aliases, returnType, None, d.derived);
    for i := 0 to |d.derived|
      invariant PartsOf(aliases, returnType, found, d.derived[i..]) == all
      invariant found.Some? <==> exists x :: x in d.derived[..i] && x.FunctionOf?
      invariant KRFunction !in d.derived[..i] && Block !in d.derived[..i]
    {
      assert d.derived[i..][0] == d.derived[i] && d.derived[i..][1..] == d.derived[i + 1..];
      assert d.derived[..i + 1] == d.derived[..i] + [d.derived[i]];
      match d.derived[i]
      case PointerTo(q) => returnType := Wrap(returnType, PointerOf(q));
      case ArrayOf(q, size) => returnType := Wrap(returnType, ArrayLayerOf(q, size, false));
      case FunctionOf(parameters, ellipsis, _) =>
        found := Some((LowerParameters(aliases, parameters),
                       if parameters == [] then UnspecifiedParameters else Prototyped(ellipsis)));
      case KRFunction => return None;
      case Block => return None;
    }
    assert d.derived[..|d.derived|] == d.derived;
    match found
    case None => parts := None;
    case Some((parameters, prototype)) =>
      if |parameters| == 1 && parameters[0].name.None? && parameters[0].ty.kind.Void? {
        parts := Some(FunctionParts(returnType, [], Prototyped(false)));
      } else {
        parts := Some(FunctionParts(returnType, parameters, prototype));
      }
  }

  /** What is left to do with the return type and the last function suffix met so far. */
  function PartsOf(aliases: set<Id>, returnType: CType, found: Option<(seq<CParameter>, Prototype)>,
      derived: seq<Derived>)
    : Option<FunctionParts>
    decreases derived
  {
    if derived == [] then
      match found
      case None => None
      case Some((parameters, prototype)) =>
        Some(if OnlyVoid(parameters) then FunctionParts(returnType, [], Prototyped(false))
             else FunctionParts(returnType, parameters, prototype))
    else
      var rest := derived[1..];
      match derived[0]
      case PointerTo(q) => PartsOf(aliases, Wrap(returnType, PointerOf(q)), found, rest)
      case ArrayOf(q, size) => PartsOf(aliases, Wrap(returnType, ArrayLayerOf(q, size, false)), found, rest)
      case FunctionOf(parameters, ellipsis, _) =>
        PartsOf(aliases, returnType,
                Some((LowerParameters(aliases, parameters),
                      if parameters == [] then UnspecifiedParameters else Prototyped(ellipsis))), rest)
      case _ => None
  }

  // ----- the parts of a function ---------------------------------------------------------

  lemma {:induction false} PartsAfterPointers(aliases: set<Id>, ty: CType, pointers: seq<Derived>,
      suffix: Derived, arrayAllowed: bool)
    requires OnlyPointers(pointers) && suffix.FunctionOf?
    ensures PartsOf(aliases, ty, None, pointers + [suffix])
         == PartsOf(aliases, ApplyPointers(ty, pointers + [suffix]), None, [suffix])
    ensures forall u :: ApplySuffixes(aliases, u, pointers + [suffix], arrayAllowed)
                     == ApplySuffixes(aliases, u, [suffix], arrayAllowed)
    decreases pointers
  {
    var all := pointers + [suffix];
    if pointers == [] {
      assert all == [suffix] && [suffix][1..] == [];
      assert ApplyPointers(ty, [suffix]) == ty;
    } else {
      assert all[0] == pointers[0] && all[1..] == pointers[1..] + [suffix];
      assert pointers[0] in pointers;
      var inner := Wrap(ty, PointerOf(pointers[0].pointerQualifiers));
      PartsAfterPointers(aliases, inner, pointers[1..], suffix, arrayAllowed);
    }
  }

  function Spine(ty: CType): nat {
    match ty.kind
    case Pointer(t) => 1 + Spine(t)
    case Array(t, _, _) => 1 + Spine(t)
    case Function(t, _, _, _) => 1 + Spine(t)
    case _ => 0
  }

  lemma {:induction false} SpineOfLayers(ty: CType, layers: seq<Layer>)
    ensures Spine(WrapAll(ty, layers)) == Spine(ty) + |layers|
    decreases layers
  {
    if layers != [] { SpineOfLayers(Wrap(ty, layers[0]), layers[1..]); }
  }

  /** A type that the specifiers' qualifiers were applied to is no function. */
  lemma MarkedIsNoFunction(aliases: set<Id>, base: CType, qualifiers: seq<TypeQualifier>, d: Declarator,
                           arrayAllowed: bool)
    requires var v := Collect(NO_VALUES, qualifiers); v.conflict || Marks(v)
    ensures !FinishType(aliases, base, qualifiers, Some(d), arrayAllowed).kind.Function?
  {
    hide Collect, Apply;
  }

  /** For one function suffix after pointers, the parts are those of the declared type exactly when the
      parentheses around the name add nothing, no ellipsis follows a lone `void`, and the specifiers have no
      `restrict` and no nullability, which the declared type takes for itself. */
  lemma FunctionPartsAgree(aliases: set<Id>, base: CType, qualifiers: seq<TypeQualifier>, d: Declarator,
                           pointers: seq<Derived>, parameters: seq<Parameter>, ellipsis: bool,
                           convention: CallingConvention, arrayAllowed: bool)
    requires Plain(d) && OnlyPointers(pointers)
    requires d.derived == pointers + [FunctionOf(parameters, ellipsis, convention)]
    ensures var v := Collect(NO_VALUES, qualifiers);
            var parts := PartsOf(aliases, FinishType(aliases, base, qualifiers, None, false), None, d.derived);
            && parts.Some?
            && (FinishType(aliases, base, qualifiers, Some(d), arrayAllowed)
                == Wrap(parts.value.returnType,
                        FunctionLayer(parts.value.parameters, parts.value.prototype, convention))
                <==> && Nearest(d) && !(OnlyVoid(LowerParameters(aliases, parameters)) && ellipsis)
                     && !v.conflict && !Marks(v))
  {
    hide Collect, Apply, Layers, LowerParameters;
    var v := Collect(NO_VALUES, qualifiers);
    PartsOfBase(aliases, FinishType(aliases, base, qualifiers, None, false), d, pointers, parameters, ellipsis,
                convention, arrayAllowed);
    if v.conflict || Marks(v) { MarkedIsNoFunction(aliases, base, qualifiers, d, arrayAllowed); }
  }

  lemma PartsOfBase(aliases: set<Id>, ty: CType, d: Declarator, pointers: seq<Derived>, parameters: seq<Parameter>,
                    ellipsis: bool, convention: CallingConvention, arrayAllowed: bool)
    requires Plain(d) && OnlyPointers(pointers)
    requires d.derived == pointers + [FunctionOf(parameters, ellipsis, convention)]
    ensures var parts := PartsOf(aliases, ty, None, d.derived);
            && parts.Some?
            && (Apply(aliases, ty, d, arrayAllowed)
                == Wrap(parts.value.returnType,
                        FunctionLayer(parts.value.parameters, parts.value.prototype, convention))
                <==> Nearest(d) && !(OnlyVoid(LowerParameters(aliases, parameters)) && ellipsis))
  {
    hide Layers, LowerParameters;
    var suffix := FunctionOf(parameters, ellipsis, convention);
    PartsAfterPointers(aliases, ty, pointers, suffix, arrayAllowed);
    var returnType := ApplyPointers(ty, d.derived);
    assert [suffix][0] == suffix && [suffix][1..] == [];
    var parts := PartsOf(aliases, returnType, None, [suffix]).value;
    var lowered := Wrap(returnType, SuffixLayer(aliases, suffix, arrayAllowed));
    OneSuffix(aliases, returnType, suffix, arrayAllowed);
    var expected := Wrap(parts.returnType, FunctionLayer(parts.parameters, parts.prototype, convention));
    LoweredLength(aliases, parameters);
    if d.kind.Nested? {
      var inner := Layers(aliases, d.kind.inner, arrayAllowed);
      ApplyIsLayers(aliases, lowered, d.kind.inner, arrayAllowed);
      SpineOfLayers(lowered, inner);
      assert Spine(expected) == Spine(lowered);
      if Nearest(d) {
        NothingAdded(aliases, d.kind.inner, arrayAllowed, false);
      } else {
        LayersEnd(aliases, d.kind.inner, arrayAllowed, false);
      }
    }
  }

  lemma OneSuffix(aliases: set<Id>, ty: CType, suffix: Derived, arrayAllowed: bool)
    requires suffix.ArrayOf? || suffix.FunctionOf?
    ensures ApplyPointers(ty, [suffix]) == ty
    ensures ApplySuffixes(aliases, ty, [suffix], arrayAllowed)
         == Go(Wrap(ty, SuffixLayer(aliases, suffix, arrayAllowed)), arrayAllowed && !suffix.ArrayOf?)
  {
    assert [suffix][1..] == [];
    var wrapped := Wrap(ty, SuffixLayer(aliases, suffix, arrayAllowed));
    assert ApplySuffixes(aliases, wrapped, [], arrayAllowed && !suffix.ArrayOf?)
        == Go(wrapped, arrayAllowed && !suffix.ArrayOf?);
  }

  lemma {:induction false} LoweredLength(aliases: set<Id>, parameters: seq<Parameter>)
    ensures |LowerParameters(aliases, parameters)| == |parameters|
    decreases parameters
  {
    if parameters != [] { LoweredLength(aliases, parameters[1..]); }
  }

  /** The pointers and arrays of a level, in the order in which they are written. */
  function Returned(derived: seq<Derived>): seq<Layer> {
    if derived == [] then []
    else (match derived[0]
          case PointerTo(q) => [PointerOf(q)]
          case ArrayOf(q, size) => [ArrayLayerOf(q, size, false)]
          case _ => [])
         + Returned(derived[1..])
  }

  /** The last function suffix of a level. */
  function LastFunction(derived: seq<Derived>): (r: Option<Derived>)
    ensures r.Some? ==> r.value.FunctionOf? && r.value in derived
  {
    if derived == [] then None
    else if LastFunction(derived[1..]).Some? then LastFunction(derived[1..])
    else if derived[0].FunctionOf? then Some(derived[0])
    else None
  }

  function FoundIn(aliases: set<Id>, suffix: Derived): (seq<CParameter>, Prototype)
    requires suffix.FunctionOf?
  {
    (LowerParameters(aliases, suffix.parameters),
     if suffix.parameters == [] then UnspecifiedParameters else Prototyped(suffix.ellipsis))
  }

  lemma {:induction false} PartsFrom(aliases: set<Id>, ty: CType, found: Option<(seq<CParameter>, Prototype)>,
                                     derived: seq<Derived>)
    ensures PartsOf(aliases, ty, found, derived)
         == if KRFunction in derived || Block in derived then None
            else PartsOf(aliases, WrapAll(ty, Returned(derived)),
                         if LastFunction(derived).Some? then Some(FoundIn(aliases, LastFunction(derived).value))
                         else found, [])
    decreases derived
  {
    hide LowerParameters, ArrayLayerOf, PointerOf;
    if derived != [] {
      var (first, rest) := (derived[0], derived[1..]);
      assert derived == [first] + rest;
      var layer: seq<Layer> := match first
        case PointerTo(q) => [PointerOf(q)]
        case ArrayOf(q, size) => [ArrayLayerOf(q, size, false)]
        case _ => [];
      assert Returned(derived) == layer + Returned(rest);
      WrapAllAppend(ty, layer, Returned(rest));
      if first.PointerTo? { OneLayer(ty, PointerOf(first.pointerQualifiers)); }
      if first.ArrayOf? { OneLayer(ty, ArrayLayerOf(first.arrayQualifiers, first.size, false)); }
      PartsFrom(aliases, WrapAll(ty, layer), if first.FunctionOf? then Some(FoundIn(aliases, first)) else found, rest);
    }
  }

  /** On any level the parts are those of the last function suffix, over the type under all pointers and arrays in
      the order in which they are written; there are none without a function suffix, or beside a K&R or block form. */
  lemma PartsMean(aliases: set<Id>, ty: CType, derived: seq<Derived>, p: FunctionParts)
    ensures PartsOf(aliases, ty, None, derived) == Some(p)
       <==> && KRFunction !in derived && Block !in derived && LastFunction(derived).Some?
            && p.returnType == WrapAll(ty, Returned(derived))
            && var last := LastFunction(derived).value;
               var lowered := LowerParameters(aliases, last.parameters);
               if OnlyVoid(lowered) then p.parameters == [] && p.prototype == Prototyped(false)
               else && p.parameters == lowered
                    && p.prototype == if last.parameters == [] then UnspecifiedParameters
                                      else Prototyped(last.ellipsis)
  {
    hide LowerParameters, Returned, OnlyVoid, LastFunction;
    PartsFrom(aliases, ty, None, derived);
  }

  // ----- which declarators declare functions ---------------------------------------------

  /** The suffix nearest the name is a function suffix. */
  predicate DeclaresFunction(d: Declarator) {
    FirstSuffix(Innermost(d)).Some? && FirstSuffix(Innermost(d)).value.FunctionOf?
  }

  /** A function type, or an alias whose chain ends at one. */
  predicate MeansFunction(declarations: seq<Declaration>, ty: CType) {
    Resolve(declarations, ty.kind, {}).Function?
  }

  /** What is declared is a function: by the declarator, or, if that adds nothing, by the type alone. */
  predicate FunctionDeclared(declarations: seq<Declaration>, ty: CType, d: Declarator) {
    if Innermost(d) == [] then MeansFunction(declarations, ty) else DeclaresFunction(d)
  }

  lemma LayeredFunction(declarations: seq<Declaration>, ty: CType, layers: seq<Layer>)
    requires layers != []
    ensures MeansFunction(declarations, WrapAll(ty, layers)) <==> Last(layers).FunctionLayer?
  {
    LastWrap(ty, layers);
  }

  /** A declarator over any type, aliases of function types among them, means a function exactly when the
      suffix nearest its name is a function suffix, or it adds nothing and the type resolves to a function; and
      the test of the outermost level alone is right exactly when it says the same. */
  lemma FunctionDeclaratorRight(aliases: set<Id>, declarations: seq<Declaration>, ty: CType, d: Declarator,
                                parameter: bool)
    requires Plain(d)
    ensures var declared := WrapAll(ty, CLayers(aliases, d, parameter));
            && (MeansFunction(declarations, declared) <==> FunctionDeclared(declarations, ty, d))
            && ((MeansFunction(declarations, declared) <==> IsFunctionDeclarator(d))
                <==> if Innermost(d) == [] then !MeansFunction(declarations, ty)
                     else DeclaresFunction(d) == IsFunctionDeclarator(d))
  {
    hide CLayers, Layers, MeansFunction;
    if Innermost(d) == [] {
      NothingAdded(aliases, d, parameter, parameter);
    } else {
      LayersEnd(aliases, d, parameter, parameter);
      LayeredFunction(declarations, ty, CLayers(aliases, d, parameter));
    }
  }

  lemma {:induction false} FirstOfSingle(aliases: set<Id>, derived: seq<Derived>, arrayAllowed: bool)
    requires KRFunction !in derived && Block !in derived && Suffixes(derived) <= 1
    ensures var s := SuffixLayers(aliases, derived, arrayAllowed);
            && |s| <= Suffixes(derived)
            && (s != [] ==> FirstSuffix(derived).Some?)
            && (s != [] ==> (s[0].FunctionLayer? <==> FirstSuffix(derived).value.FunctionOf?))
    ensures Suffixes(derived) == 0 ==> FirstSuffix(derived) == None
    ensures FirstSuffix(derived) == None ==> SuffixLayers(aliases, derived, arrayAllowed) == []
    decreases derived
  {
    if derived != [] {
      assert derived == [derived[0]] + derived[1..];
      FirstOfSingle(aliases, derived[1..], arrayAllowed);
      FirstOfSingle(aliases, derived[1..], arrayAllowed && !derived[0].ArrayOf?);
    }
  }

  lemma {:induction false} CodeEnds(aliases: set<Id>, d: Declarator, arrayAllowed: bool)
    requires Plain(d) && SingleSuffix(d) && Innermost(d) != []
    ensures var layers := Layers(aliases, d, arrayAllowed);
            layers != [] && (Last(layers).FunctionLayer? <==> DeclaresFunction(d))
    decreases d
  {
    hide SuffixLayers, CSuffixes, PointerLayers, FirstSuffix, Suffixes;
    var p, s := PointerLayers(d.derived), SuffixLayers(aliases, d.derived, arrayAllowed);
    var still := StillAllowed(d.derived, arrayAllowed);
    if d.kind.Nested? && Innermost(d.kind.inner) != [] {
      CodeEnds(aliases, d.kind.inner, still);
      LastOfSum(p + s, Layers(aliases, d.kind.inner, still));
    } else {
      if d.kind.Nested? { NothingAdded(aliases, d.kind.inner, still, false); }
      assert Layers(aliases, d, arrayAllowed) == p + s;
      LevelEnds(aliases, d.derived, arrayAllowed, false);
      LevelSuffixes(aliases, d.derived, arrayAllowed, false);
      FirstOfSingle(aliases, d.derived, arrayAllowed);
      if s == [] {
        assert p + s == p;
      } else {
        LastOfSum(p, s);
        assert Last(s) == s[0];
      }
    }
  }

  /** With at most one suffix per level that is also when the code itself lowers to a function, flags and
      parameters read rightly or not. */
  lemma SingleSuffixFunction(aliases: set<Id>, declarations: seq<Declaration>, ty: CType, d: Declarator,
                             arrayAllowed: bool)
    requires Plain(d) && SingleSuffix(d)
    ensures MeansFunction(declarations, Apply(aliases, ty, d, arrayAllowed)) <==> FunctionDeclared(declarations, ty, d)
  {
    hide Layers, MeansFunction, Apply;
    ApplyIsLayers(aliases, ty, d, arrayAllowed);
    if Innermost(d) == [] {
      NothingAdded(aliases, d, arrayAllowed, false);
    } else {
      CodeEnds(aliases, d, arrayAllowed);
      LayeredFunction(declarations, ty, Layers(aliases, d, arrayAllowed));
    }
  }

  lemma {:induction false} OneSuffixTaken(derived: seq<Derived>)
    requires Suffixes(derived) <= 1
    ensures FirstSuffix(derived).Some? && FirstSuffix(derived).value.FunctionOf?
       <==> exists x :: x in derived && x.FunctionOf?
    decreases derived
  {
    if derived != [] {
      assert derived == [derived[0]] + derived[1..];
      if derived[0].PointerTo? {
        OneSuffixTaken(derived[1..]);
      } else {
        NoMoreSuffixes(derived[1..]);
      }
    }
  }

  lemma {:induction false} NoMoreSuffixes(derived: seq<Derived>)
    requires Suffixes(derived) == 0
    ensures OnlyPointers(derived) && FirstSuffix(derived) == None
    decreases derived
  {
    if derived != [] {
      assert derived == [derived[0]] + derived[1..];
      NoMoreSuffixes(derived[1..]);
    }
  }

  /** With at most one suffix per level the syntactic test sees what the declarator says whenever the
      parentheses add nothing, and otherwise exactly when what they add is a function as the outermost level is. */
  lemma FunctionTestRight(d: Declarator)
    requires Plain(d) && SingleSuffix(d)
    ensures Nearest(d) ==> (DeclaresFunction(d) <==> IsFunctionDeclarator(d))
    ensures !Nearest(d) ==> (DeclaresFunction(d) <==> DeclaresFunction(d.kind.inner))
  {
    OneSuffixTaken(d.derived);
  }

  // ----- the inputs ----------------------------------------------------------------------

  /** `int (f(int))` declares a function and is taken for a variable. */
  lemma FunctionTakenForVariable(declarations: seq<Declaration>, ty: CType, parameter: Parameter)
    ensures var inner := Declarator(Identifier("f"), [FunctionOf([parameter], false, DefaultConvention)]);
            var d := Declarator(Nested(inner), []);
            && !IsFunctionDeclarator(d) && DeclaresFunction(d)
            && MeansFunction(declarations, Apply({}, ty, d, false))
  {
    hide MeansFunction, Apply;
    var inner := Declarator(Identifier("f"), [FunctionOf([parameter], false, DefaultConvention)]);
    var d := Declarator(Nested(inner), []);
    assert inner.derived[1..] == [];
    assert Innermost(d) == inner.derived;
    SingleSuffixFunction({}, declarations, ty, d, false);
  }

  /** `typedef int F(int); F f;` declares a function, is taken for a variable, and keeps the alias as its type. */
  lemma FunctionTypedefTakenForVariable(aliases: set<Id>, declarations: seq<Declaration>, id: Id)
    requires Target(declarations, id).Some? && Target(declarations, id).value.Function?
    ensures var base := CType(NO_QUALIFIERS, Unspecified, AliasRef(id), Supported);
            var d := Declarator(Identifier("f"), []);
            && !IsFunctionDeclarator(d) && !DeclaresFunction(d)
            && FinishType(aliases, base, [], Some(d), false) == CFinish(aliases, base, [], Some(d), false) == base
            && MeansFunction(declarations, base)
  {
    var base := CType(NO_QUALIFIERS, Unspecified, AliasRef(id), Supported);
    var d := Declarator(Identifier("f"), []);
    NothingAdded(aliases, d, false, false);
    assert Collect(NO_VALUES, []) == NO_VALUES;
    ApplyIsLayers(aliases, base, d, false);
    assert Resolve(declarations, Target(declarations, id).value, {id}).Function?;
    assert {} + {id} == {id};
  }

  /** `int (*fp)(int)` is lowered as a function named fp, although it declares a pointer. */
  lemma FunctionPointerTakenForFunction(ty: CType, parameter: Parameter)
    ensures var inner := Declarator(Identifier("fp"), [PointerTo([])]);
            var d := Declarator(Nested(inner), [FunctionOf([parameter], false, DefaultConvention)]);
            && IsFunctionDeclarator(d)
            && PartsOf({}, ty, None, d.derived).Some?
            && Apply({}, ty, d, false).kind.Pointer?
  {
    var inner := Declarator(Identifier("fp"), [PointerTo([])]);
    var suffix := FunctionOf([parameter], false, DefaultConvention);
    var d := Declarator(Nested(inner), [suffix]);
    assert suffix in d.derived;
    assert d.derived == [] + [suffix] && [suffix][1..] == [] && [PointerTo([])][1..] == [];
    PartsOfBase({}, ty, d, [], [parameter], false, DefaultConvention, false);
    var lowered := Wrap(ty, SuffixLayer({}, suffix, false));
    OneSuffix({}, ty, suffix, false);
    assert Apply({}, ty, d, false) == Apply({}, lowered, inner, false);
    assert ApplyPointers(lowered, inner.derived) == Wrap(lowered, PointerOf([]));
  }
}
