/** Types lowered with the pointer-alias cache (src/extract/types.rs) before the pointer check that the
    validator makes of the finished declarations (src/contract/validate.rs). */
module DeclaredTypes {
  import opened Wrappers
  import opened Contract
  import opened AliasGraph
  import opened Extract
  import opened PointerCache
  import opened Declarators
  import V = Validation

  // ----- the check -----------------------------------------------------------------------

  /** What the validator asks of a type that is restricted or says something about nullability. */
  predicate Pointed(declarations: seq<Declaration>, ty: CType) {
    ty.nullability != Unspecified || ty.qualifiers.isRestrict ==> IsPointer(declarations, ty.kind, {})
  }

  /** The same of every type inside. */
  predicate AllPointed(declarations: seq<Declaration>, ty: CType)
    decreases ty
  {
    && Pointed(declarations, ty)
    && match ty.kind
       case Pointer(pointee) => AllPointed(declarations, pointee)
       case Array(element, _, _) => AllPointed(declarations, element)
       case Function(result, parameters, _, _) =>
         AllPointed(declarations, result) && forall c :: c in parameters ==> AllPointed(declarations, c.ty)
       case _ => true
  }

  lemma {:induction false} CheckedIsPointed(declarations: seq<Declaration>, ty: CType)
    requires V.TypeChecks(declarations, ty)
    ensures AllPointed(declarations, ty)
    decreases ty
  {
    match ty.kind
    case Pointer(pointee) => CheckedIsPointed(declarations, pointee);
    case Array(element, _, _) => CheckedIsPointed(declarations, element);
    case Function(result, parameters, _, _) =>
      CheckedIsPointed(declarations, result);
      forall c | c in parameters ensures AllPointed(declarations, c.ty) { CheckedIsPointed(declarations, c.ty); }
    case _ =>
  }

  // ----- one declared type ---------------------------------------------------------------

  /** `finish_type` has found a pointer for the `restrict` or nullability of the specifiers. */
  predicate Accepted(aliases: set<Id>, base: CType, qualifiers: seq<TypeQualifier>, declarator: Option<Declarator>,
                     arrayAllowed: bool)
  {
    var v := Collect(NO_VALUES, qualifiers);
    !v.conflict && Marks(v)
    && PointerLike(aliases, FinishType(aliases, base, qualifiers, declarator, arrayAllowed).kind)
  }

  lemma ChainIsPointer(s: State, declarations: seq<Declaration>, id: Id)
    requires Holds(s, declarations)
    ensures IsPointer(declarations, AliasRef(id), {}) <==> Chains(s, id)
  {
    IsPointerExact(declarations, AliasRef(id), {});
    if Chains(s, id) {
      var n: nat :| ChainWithin(s, AliasRef(id), n);
      SameAsValidator(s, declarations, AliasRef(id), n);
    }
    if ResolvesToPointer(declarations, AliasRef(id)) {
      var n: nat :| PointerWithin(declarations, AliasRef(id), n);
      SameAsValidator(s, declarations, AliasRef(id), n);
    }
  }

  /** A type accepted with any cache passes the check on the declarations of a later state exactly when its
      alias, if it is one, leads to a pointer there. */
  lemma AcceptedPasses(aliases: set<Id>, s: State, declarations: seq<Declaration>, base: CType,
                       qualifiers: seq<TypeQualifier>, declarator: Option<Declarator>, arrayAllowed: bool)
    requires Holds(s, declarations) && Accepted(aliases, base, qualifiers, declarator, arrayAllowed)
    ensures var ty := FinishType(aliases, base, qualifiers, declarator, arrayAllowed);
            Pointed(declarations, ty) <==> (ty.kind.AliasRef? ==> Chains(s, ty.kind.id))
  {
    hide Collect, Apply;
    var ty := FinishType(aliases, base, qualifiers, declarator, arrayAllowed);
    if ty.kind.AliasRef? { ChainIsPointer(s, declarations, ty.kind.id); }
  }

  /** With the cache of the very state that is emitted: exactly when the cache is exact on the alias. */
  lemma CacheDecides(s: State, declarations: seq<Declaration>, base: CType, qualifiers: seq<TypeQualifier>,
                     declarator: Option<Declarator>, arrayAllowed: bool)
    requires Holds(s, declarations) && Accepted(s.pointerAliases, base, qualifiers, declarator, arrayAllowed)
    ensures var ty := FinishType(s.pointerAliases, base, qualifiers, declarator, arrayAllowed);
            Pointed(declarations, ty) <==> (ty.kind.AliasRef? ==> CacheExactAt(s, ty.kind.id))
  {
    hide FinishType, Collect;
    AcceptedPasses(s.pointerAliases, s, declarations, base, qualifiers, declarator, arrayAllowed);
  }

  // ----- everything inside a declared type -----------------------------------------------

  /** The specifiers' types of all parameters in a declarator pass. */
  predicate BasesPointed(declarations: seq<Declaration>, d: Declarator)
    decreases d
  {
    LevelBases(declarations, d.derived) && (d.kind.Nested? ==> BasesPointed(declarations, d.kind.inner))
  }

  predicate LevelBases(declarations: seq<Declaration>, derived: seq<Derived>)
    decreases derived
  {
    derived == []
    || ((derived[0].FunctionOf? ==> ListBases(declarations, derived[0].parameters))
        && LevelBases(declarations, derived[1..]))
  }

  predicate ListBases(declarations: seq<Declaration>, parameters: seq<Parameter>)
    decreases parameters
  {
    parameters == []
    || (var p := parameters[0];
        assert p.declarator < p;
        AllPointed(declarations, p.base) && (p.declarator.Some? ==> BasesPointed(declarations, p.declarator.value))
        && ListBases(declarations, parameters[1..]))
  }

  ghost predicate AliasesPointed(declarations: seq<Declaration>, aliases: set<Id>) {
    forall id :: id in aliases ==> IsPointer(declarations, AliasRef(id), {})
  }

  lemma {:induction false} PointersPointed(declarations: seq<Declaration>, ty: CType, derived: seq<Derived>)
    requires AllPointed(declarations, ty)
    ensures AllPointed(declarations, ApplyPointers(ty, derived))
    decreases derived
  {
    if derived != [] {
      var next := if derived[0].PointerTo? then Wrap(ty, PointerOf(derived[0].pointerQualifiers)) else ty;
      assert IsPointer(declarations, Pointer(ty), {});
      PointersPointed(declarations, next, derived[1..]);
    }
  }

  lemma {:induction false} SuffixesPointed(aliases: set<Id>, declarations: seq<Declaration>, ty: CType,
                                           derived: seq<Derived>, arrayAllowed: bool)
    requires AliasesPointed(declarations, aliases) && AllPointed(declarations, ty) && LevelBases(declarations, derived)
    ensures AllPointed(declarations, ApplySuffixes(aliases, ty, derived, arrayAllowed).ty)
    decreases derived, 1
  {
    hide ArrayLayerOf;
    if derived != [] {
      match derived[0]
      case PointerTo(_) => SuffixesPointed(aliases, declarations, ty, derived[1..], arrayAllowed);
      case ArrayOf(_, _) =>
        var wrapped := Wrap(ty, SuffixLayer(aliases, derived[0], arrayAllowed));
        ArrayPointed(aliases, declarations, ty, derived[0], arrayAllowed);
        SuffixesPointed(aliases, declarations, wrapped, derived[1..], false);
      case FunctionOf(parameters, _, _) =>
        ListPointed(aliases, declarations, parameters);
        var wrapped := Wrap(ty, SuffixLayer(aliases, derived[0], arrayAllowed));
        SuffixesPointed(aliases, declarations, wrapped, derived[1..], arrayAllowed);
      case _ =>
    }
  }

  lemma ArrayPointed(aliases: set<Id>, declarations: seq<Declaration>, ty: CType, bracket: Derived, arrayAllowed: bool)
    requires bracket.ArrayOf? && AllPointed(declarations, ty)
    ensures AllPointed(declarations, Wrap(ty, SuffixLayer(aliases, bracket, arrayAllowed)))
  {
  }

  lemma {:induction false} ListPointed(aliases: set<Id>, declarations: seq<Declaration>, parameters: seq<Parameter>)
    requires AliasesPointed(declarations, aliases) && ListBases(declarations, parameters)
    ensures forall c :: c in LowerParameters(aliases, parameters) ==> AllPointed(declarations, c.ty)
    decreases parameters
  {
    hide FinishType;
    if parameters != [] {
      var p := parameters[0];
      assert p.declarator < p;
      FinishPointed(aliases, declarations, p.base, p.qualifiers, p.declarator, true);
      ListPointed(aliases, declarations, parameters[1..]);
    }
  }

  lemma {:induction false} ApplyPointed(aliases: set<Id>, declarations: seq<Declaration>, ty: CType, d: Declarator,
                                        arrayAllowed: bool)
    requires AliasesPointed(declarations, aliases) && AllPointed(declarations, ty) && BasesPointed(declarations, d)
    ensures AllPointed(declarations, Apply(aliases, ty, d, arrayAllowed))
    decreases d
  {
    hide ApplyPointers, ApplySuffixes;
    PointersPointed(declarations, ty, d.derived);
    SuffixesPointed(aliases, declarations, ApplyPointers(ty, d.derived), d.derived, arrayAllowed);
    var pass := ApplySuffixes(aliases, ApplyPointers(ty, d.derived), d.derived, arrayAllowed);
    if d.kind.Nested? && pass.Go? { ApplyPointed(aliases, declarations, pass.ty, d.kind.inner, pass.arrayAllowed); }
  }

  /** Where the cached aliases lead to pointers, every type inside a lowered one passes the check, if the types of
      the specifiers do. */
  lemma {:induction false} FinishPointed(aliases: set<Id>, declarations: seq<Declaration>, base: CType,
                                         qualifiers: seq<TypeQualifier>, declarator: Option<Declarator>,
                                         arrayAllowed: bool)
    requires AliasesPointed(declarations, aliases) && AllPointed(declarations, base)
    requires declarator.Some? ==> BasesPointed(declarations, declarator.value)
    ensures AllPointed(declarations, FinishType(aliases, base, qualifiers, declarator, arrayAllowed))
    decreases declarator
  {
    hide Apply, Collect;
    var v := Collect(NO_VALUES, qualifiers);
    var start := Qualified(base, v.qualifiers);
    assert AllPointed(declarations, start);
    if declarator.Some? { ApplyPointed(aliases, declarations, start, declarator.value, arrayAllowed); }
    var ty := if declarator.Some? then Apply(aliases, start, declarator.value, arrayAllowed) else start;
    if PointerLike(aliases, ty.kind) {
      assert IsPointer(declarations, ty.kind, {});
    }
  }

  // ----- over runs -----------------------------------------------------------------------

  lemma {:induction false} RunAppend(s: State, before: seq<Step>, after: seq<Step>)
    ensures Run(s, before + after) == Run(Run(s, before), after)
    decreases before
  {
    hide Stepped;
    if before == [] {
      assert before + after == after;
    } else {
      assert (before + after)[0] == before[0] && (before + after)[1..] == before[1..] + after;
      RunAppend(Stepped(s, before[0]), before[1..], after);
    }
  }

  lemma {:induction false} OrderlyAppend(s: State, before: seq<Step>, after: seq<Step>)
    requires Orderly(s, before + after)
    ensures Orderly(s, before) && Orderly(Run(s, before), after)
    decreases before
  {
    hide Stepped, OrderlyStep;
    if before == [] {
      assert before + after == after;
    } else {
      assert (before + after)[0] == before[0] && (before + after)[1..] == before[1..] + after;
      OrderlyAppend(Stepped(s, before[0]), before[1..], after);
    }
  }

  lemma TargetStays(s: State, step: Step, id: Id)
    requires OrderlyStep(s, step) && TargetOf(s, id).Some?
    ensures TargetOf(Stepped(s, step), id) == TargetOf(s, id)
  {
    if step.SetKind? {
      KindSetTargets(s, step.id, step.kind);
      if step.id == id { assert Redeclaration(DraftOf(s, id).kind.value, step.kind) == Keep; }
    } else {
      OtherStepTargets(s, step);
    }
  }

  /** In an orderly run a chain that meets a pointer goes on doing so. */
  lemma {:induction false} ChainStays(s: State, step: Step, kind: CTypeKind, n: nat)
    requires OrderlyStep(s, step) && ChainWithin(s, kind, n)
    ensures ChainWithin(Stepped(s, step), kind, n)
    decreases n
  {
    hide Stepped, OrderlyStep;
    if !kind.Pointer? {
      TargetStays(s, step, kind.id);
      ChainStays(s, step, TargetOf(s, kind.id).value, n - 1);
    }
  }

  lemma {:induction false} ChainsStay(s: State, steps: seq<Step>, id: Id)
    requires Orderly(s, steps) && Chains(s, id)
    ensures Chains(Run(s, steps), id)
    decreases steps
  {
    hide Stepped, OrderlyStep;
    if steps != [] {
      var n: nat :| ChainWithin(s, AliasRef(id), n);
      ChainStays(s, steps[0], AliasRef(id), n);
      ChainsStay(Stepped(s, steps[0]), steps[1..], id);
    }
  }

  /** A type lowered at any moment of an orderly run passes the pointer check, everywhere inside, on the
      declarations that are emitted at its end. */
  lemma OrderlyTypesPass(before: seq<Step>, after: seq<Step>, declarations: seq<Declaration>, base: CType,
                         qualifiers: seq<TypeQualifier>, declarator: Option<Declarator>, arrayAllowed: bool)
    requires Orderly(START, before + after) && Holds(Run(START, before + after), declarations)
    requires AllPointed(declarations, base)
    requires declarator.Some? ==> BasesPointed(declarations, declarator.value)
    ensures AllPointed(declarations,
                       FinishType(Run(START, before).pointerAliases, base, qualifiers, declarator, arrayAllowed))
  {
    hide Run, Orderly, FinishType, AllPointed, BasesPointed, Chains;
    var early, late := Run(START, before), Run(START, before + after);
    RunAppend(START, before, after);
    OrderlyAppend(START, before, after);
    StartExact();
    RunKeepsCache(START, before);
    forall id | id in early.pointerAliases ensures IsPointer(declarations, AliasRef(id), {}) {
      assert CacheExactAt(early, id);
      ChainsStay(early, after, id);
      ChainIsPointer(late, declarations, id);
    }
    FinishPointed(early.pointerAliases, declarations, base, qualifiers, declarator, arrayAllowed);
  }

  /** After the run of `StaleCache`, `B _Nullable x` is accepted and refused by the validator. */
  lemma StaleTypeRefused(a: Id, b: Id, pointer: CType, alias: CType, other: CType, declarations: seq<Declaration>)
    requires a != b && pointer.kind.Pointer? && alias.kind == AliasRef(a) && other != pointer
    requires var steps := [SetKind(a, AliasKind(pointer)), SetKind(b, AliasKind(alias)), SetKind(a, AliasKind(other))];
             Holds(Run(START, steps), declarations)
    ensures var steps := [SetKind(a, AliasKind(pointer)), SetKind(b, AliasKind(alias)), SetKind(a, AliasKind(other))];
            var base := CType(NO_QUALIFIERS, Unspecified, AliasRef(b), Supported);
            var ty := FinishType(Run(START, steps).pointerAliases, base, [NullableQualifier], None, false);
            ty == base.(nullability := Nullable) && !Pointed(declarations, ty)
  {
    hide Run;
    var steps := [SetKind(a, AliasKind(pointer)), SetKind(b, AliasKind(alias)), SetKind(a, AliasKind(other))];
    var base := CType(NO_QUALIFIERS, Unspecified, AliasRef(b), Supported);
    StaleCache(a, b, pointer, alias, other);
    var v := QualifierValues(NO_QUALIFIERS, Nullable, false);
    assert [NullableQualifier][1..] == [] && Collect(v, []) == v;
    assert Collect(NO_VALUES, [NullableQualifier]) == v;
    var s := Run(START, steps);
    AcceptedPasses(s.pointerAliases, s, declarations, base, [NullableQualifier], None, false);
  }
}
