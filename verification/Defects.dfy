/** What stands against completing a selection (src/contract/complete.rs): each blocker found in the package
    itself, at its place, without the walk that collects them. */
module Defects {
  import opened Wrappers
  import opened Tables
  import opened Contract
  import opened Completion
  import opened NeedMeaning

  // ----- defects and where they are ------------------------------------------------------

  /** The path starts with this step. */
  predicate Through(path: Path, name: string) { path != [] && path[0] == Named(name) }

  /** The path starts with the name of a list and a place in it. */
  predicate Within(path: Path, name: string, length: nat) {
    |path| >= 2 && path[0] == Named(name) && path[1].At? && path[1].index < length
  }

  predicate StatusDefect(status: SupportStatus, path: Path, reason: string) {
    path == [Named("support")] && status != Supported && reason == status.reason
  }

  predicate AttributeDefect(attributes: seq<Attribute>, path: Path, reason: string) {
    Within(path, "attributes", |attributes|) && |path| == 2
    && attributes[path[1].index].blocking && reason == attributes[path[1].index].spelling
  }

  predicate ConventionDefect(convention: CallingConvention, path: Path, reason: string) {
    path == [Named("calling_convention")] && convention == BadConvention(reason)
  }

  predicate TypeDefect(ty: CType, path: Path, reason: string)
    decreases ty
  {
    StatusDefect(ty.support, path, reason)
    || match ty.kind
       case Pointer(pointee) => Through(path, "pointee") && TypeDefect(pointee, path[1..], reason)
       case Array(element, bound, _) =>
         (path == [Named("bound")] && bound == InvalidBound(reason))
         || (Through(path, "element") && TypeDefect(element, path[1..], reason))
       case Function(result, parameters, _, convention) =>
         ConventionDefect(convention, path, reason)
         || (Through(path, "return_type") && TypeDefect(result, path[1..], reason))
         || (Within(path, "parameters", |parameters|) && TypeDefect(parameters[path[1].index].ty, path[2..], reason))
       case UnsupportedType(spelling) => path == [] && reason == spelling
       case _ => false
  }

  predicate MemberDefect(m: Member, path: Path, reason: string) {
    StatusDefect(m.support, path, reason) || AttributeDefect(m.attributes, path, reason)
    || (Through(path, "ty") && TypeDefect(m.ty, path[1..], reason))
  }

  predicate ListDefect(members: seq<Member>, name: string, path: Path, reason: string) {
    Within(path, name, |members|) && MemberDefect(members[path[1].index], path[2..], reason)
  }

  predicate KindDefect(kind: DeclarationKind, need: Need, path: Path, reason: string) {
    match kind
    case FunctionKind(_, result, parameters, _, convention) =>
      ConventionDefect(convention, path, reason)
      || (Through(path, "return_type") && TypeDefect(result, path[1..], reason))
      || ListDefect(parameters, "parameters", path, reason)
    case RecordKind(_, _, fields) => need == Definition && ListDefect(fields, "fields", path, reason)
    case EnumKind(underlying, variants) =>
      (underlying.Some? && Through(path, "explicit_underlying_type") && TypeDefect(underlying.value, path[1..], reason))
      || (Within(path, "variants", |variants|)
          && var v := variants[path[1].index];
             StatusDefect(v.support, path[2..], reason) || AttributeDefect(v.attributes, path[2..], reason))
    case AliasKind(target) => Through(path, "target") && TypeDefect(target, path[1..], reason)
    case VariableKind(_, ty, _) => Through(path, "ty") && TypeDefect(ty, path[1..], reason)
    case UnsupportedKind(_, spelling, _) => path == [Named("unsupported")] && reason == spelling
  }

  /** A lost support, a blocking attribute, an invalid bound, a bad calling convention or an unsupported part. */
  predicate Defect(d: Declaration, need: Need, path: Path, reason: string) {
    StatusDefect(d.support, path, reason)
    || (Within(path, "occurrences", |d.occurrences|)
        && AttributeDefect(d.occurrences[path[1].index].attributes, path[2..], reason))
    || KindDefect(d.kind, need, path, reason)
  }

  // ----- the collected facts are the defects ---------------------------------------------

  /** `b` is a defect of `owner` at a place below `base`. */
  predicate Below(b: Blocker, owner: Id, base: Path) { b.UnsupportedAt? && b.id == owner && base <= b.path }

  function Tail(b: Blocker, base: Path): Path
    requires b.UnsupportedAt? && base <= b.path
  {
    b.path[|base|..]
  }

  lemma Deeper(b: Blocker, owner: Id, base: Path, step: Step)
    ensures Below(b, owner, base + [step]) <==>
            Below(b, owner, base) && Tail(b, base) != [] && Tail(b, base)[0] == step
    ensures Below(b, owner, base + [step]) ==> Tail(b, base + [step]) == Tail(b, base)[1..]
  {
    if Below(b, owner, base) && Tail(b, base) != [] && Tail(b, base)[0] == step {
      assert b.path == base + ([step] + Tail(b, base)[1..]);
      assert b.path == (base + [step]) + Tail(b, base)[1..];
    }
    if Below(b, owner, base + [step]) {
      assert b.path == (base + [step]) + Tail(b, base + [step]);
      assert b.path == base + ([step] + Tail(b, base + [step]));
    }
  }

  lemma Here(b: Blocker, owner: Id, base: Path, step: Step, reason: string)
    ensures b == UnsupportedAt(owner, base + [step], reason) <==>
            Below(b, owner, base) && Tail(b, base) == [step] && b.reason == reason
  {
    if Below(b, owner, base) && Tail(b, base) == [step] { assert b.path == base + [step]; }
    if b == UnsupportedAt(owner, base + [step], reason) { assert b.path[|base|..] == [step]; }
  }

  lemma Itself(b: Blocker, owner: Id, base: Path, reason: string)
    ensures b == UnsupportedAt(owner, base, reason) <==>
            Below(b, owner, base) && Tail(b, base) == [] && b.reason == reason
  {
    if Below(b, owner, base) && Tail(b, base) == [] { assert b.path == base + []; }
  }

  lemma StatusFactsMean(b: Blocker, owner: Id, base: Path, status: SupportStatus)
    ensures b in StatusFacts(owner, base + [Named("support")], status)
       <==> Below(b, owner, base) && StatusDefect(status, Tail(b, base), b.reason)
  {
    if status != Supported { Here(b, owner, base, Named("support"), status.reason); }
  }

  lemma ConventionFactsMean(b: Blocker, owner: Id, base: Path, convention: CallingConvention)
    ensures b in ConventionFacts(owner, base, convention)
       <==> Below(b, owner, base) && ConventionDefect(convention, Tail(b, base), b.reason)
  {
    if convention.BadConvention? { Here(b, owner, base, Named("calling_convention"), convention.spelling); }
  }

  lemma BoundFactsMean(b: Blocker, owner: Id, base: Path, bound: ArrayBound)
    ensures b in BoundFacts(owner, base, bound)
       <==> Below(b, owner, base) && Tail(b, base) == [Named("bound")] && bound == InvalidBound(b.reason)
  {
    if bound.InvalidBound? { Here(b, owner, base, Named("bound"), bound.spelling); }
  }

  /** A blocking attribute from `from` on, at its place. */
  predicate AttributeFrom(attributes: seq<Attribute>, from: nat, path: Path, reason: string) {
    |path| == 1 && path[0].At? && from <= path[0].index < |attributes|
    && attributes[path[0].index].blocking && reason == attributes[path[0].index].spelling
  }

  lemma {:induction false} AttributeFactsMean(b: Blocker, owner: Id, base: Path, attributes: seq<Attribute>, from: nat)
    requires from <= |attributes|
    ensures b in AttributeFacts(owner, base, attributes, from)
       <==> Below(b, owner, base) && AttributeFrom(attributes, from, Tail(b, base), b.reason)
    decreases |attributes| - from
  {
    hide Tail, Below, AttributeFacts;
    if from == |attributes| {
      NoAttributes(owner, base, attributes);
    } else {
      AttributeFactsMean(b, owner, base, attributes, from + 1);
      AttributeStep(b, owner, base, attributes, from);
      Here(b, owner, base, At(from), attributes[from].spelling);
    }
  }

  lemma NoAttributes(owner: Id, base: Path, attributes: seq<Attribute>)
    ensures AttributeFacts(owner, base, attributes, |attributes|) == []
  {
  }

  lemma AttributeStep(b: Blocker, owner: Id, base: Path, attributes: seq<Attribute>, from: nat)
    requires from < |attributes|
    ensures b in AttributeFacts(owner, base, attributes, from)
       <==> || (attributes[from].blocking && b == UnsupportedAt(owner, base + [At(from)], attributes[from].spelling))
            || b in AttributeFacts(owner, base, attributes, from + 1)
  {
  }

  lemma AttributesMean(b: Blocker, owner: Id, base: Path, attributes: seq<Attribute>)
    ensures b in AttributeFacts(owner, base + [Named("attributes")], attributes, 0)
       <==> Below(b, owner, base) && AttributeDefect(attributes, Tail(b, base), b.reason)
  {
    AttributeFactsMean(b, owner, base + [Named("attributes")], attributes, 0);
    Deeper(b, owner, base, Named("attributes"));
  }

  lemma {:induction false} TypeFactsMean(b: Blocker, owner: Id, base: Path, ty: CType)
    ensures b in TypeFacts(owner, base, ty) <==> Below(b, owner, base) && TypeDefect(ty, Tail(b, base), b.reason)
    decreases ty
  {
    StatusFactsMean(b, owner, base, ty.support);
    match ty.kind
    case Pointer(pointee) =>
      TypeFactsMean(b, owner, base + [Named("pointee")], pointee);
      Deeper(b, owner, base, Named("pointee"));
    case Array(element, bound, _) =>
      BoundFactsMean(b, owner, base, bound);
      TypeFactsMean(b, owner, base + [Named("element")], element);
      Deeper(b, owner, base, Named("element"));
    case Function(result, parameters, _, convention) =>
      ConventionFactsMean(b, owner, base, convention);
      TypeFactsMean(b, owner, base + [Named("return_type")], result);
      Deeper(b, owner, base, Named("return_type"));
      ParameterFactsMean(b, owner, base, parameters, 0);
      SplitFunction(b, owner, base, ty);
    case UnsupportedType(spelling) =>
      Itself(b, owner, base, spelling);
    case _ =>
  }

  lemma SplitFunction(b: Blocker, owner: Id, base: Path, ty: CType)
    requires ty.kind.Function?
    ensures b in TypeFacts(owner, base, ty)
       <==> || b in StatusFacts(owner, base + [Named("support")], ty.support)
            || b in ConventionFacts(owner, base, ty.kind.convention)
            || b in TypeFacts(owner, base + [Named("return_type")], ty.kind.returnType)
            || b in ParameterFacts(owner, base, ty.kind.parameters, 0)
  {
    hide StatusFacts, ConventionFacts, ParameterFacts;
    assert TypeKindFacts(owner, base, ty.kind) == FunctionTypeFacts(owner, base, ty.kind);
  }

  /** Two steps down: a list and a place in it. */
  lemma DeeperTwice(b: Blocker, owner: Id, base: Path, name: string, i: nat)
    ensures Below(b, owner, base + [Named(name), At(i)]) <==>
            && Below(b, owner, base) && |Tail(b, base)| >= 2 && Tail(b, base)[0] == Named(name)
            && Tail(b, base)[1] == At(i)
    ensures Below(b, owner, base + [Named(name), At(i)]) ==>
              Tail(b, base + [Named(name), At(i)]) == Tail(b, base)[2..]
  {
    assert base + [Named(name), At(i)] == (base + [Named(name)]) + [At(i)];
    Deeper(b, owner, base, Named(name));
    Deeper(b, owner, base + [Named(name)], At(i));
  }

  lemma {:induction false} ParameterFactsMean(b: Blocker, owner: Id, base: Path, parameters: seq<CParameter>,
                                              index: nat)
    ensures b in ParameterFacts(owner, base, parameters, index)
       <==> && Below(b, owner, base) && Within(Tail(b, base), "parameters", index + |parameters|)
            && var i := Tail(b, base)[1].index;
               i >= index && TypeDefect(parameters[i - index].ty, Tail(b, base)[2..], b.reason)
    decreases parameters
  {
    if parameters != [] {
      assert parameters[0].ty < parameters[0];
      TypeFactsMean(b, owner, base + [Named("parameters"), At(index)], parameters[0].ty);
      DeeperTwice(b, owner, base, "parameters", index);
      ParameterFactsMean(b, owner, base, parameters[1..], index + 1);
    }
  }

  lemma OneMemberMean(b: Blocker, owner: Id, base: Path, m: Member)
    ensures b in OneMemberFacts(owner, base, m) <==> Below(b, owner, base) && MemberDefect(m, Tail(b, base), b.reason)
  {
    hide TypeFacts, TypeDefect, AttributeFacts, AttributeDefect, StatusFacts, StatusDefect;
    StatusFactsMean(b, owner, base, m.support);
    AttributesMean(b, owner, base, m.attributes);
    TypeFactsMean(b, owner, base + [Named("ty")], m.ty);
    Deeper(b, owner, base, Named("ty"));
  }

  lemma {:induction false} MemberFactsMean(b: Blocker, owner: Id, base: Path, name: string, members: seq<Member>,
                                           from: nat)
    requires from <= |members|
    ensures b in MemberFacts(owner, base + [Named(name)], members, from)
       <==> && Below(b, owner, base) && ListDefect(members, name, Tail(b, base), b.reason)
            && Tail(b, base)[1].index >= from
    decreases |members| - from
  {
    hide OneMemberFacts, MemberDefect;
    if from < |members| {
      assert (base + [Named(name)]) + [At(from)] == base + [Named(name), At(from)];
      OneMemberMean(b, owner, base + [Named(name), At(from)], members[from]);
      DeeperTwice(b, owner, base, name, from);
      MemberFactsMean(b, owner, base, name, members, from + 1);
    }
  }

  /** The defect at one place of a list of occurrences, as the statement below has it. */
  ghost predicate OccurrenceDefect(occurrences: seq<Occurrence>, from: nat, tail: Path, reason: string)
  {
    && Within(tail, "occurrences", |occurrences|)
    && AttributeDefect(occurrences[tail[1].index].attributes, tail[2..], reason)
    && tail[1].index >= from
  }

  lemma OneOccurrence(b: Blocker, owner: Id, occurrences: seq<Occurrence>, from: nat)
    requires from < |occurrences|
    ensures b in AttributeFacts(owner, [Named("occurrences"), At(from), Named("attributes")],
                                occurrences[from].attributes, 0)
       <==> && Below(b, owner, []) && |Tail(b, [])| >= 2 && Tail(b, [])[0] == Named("occurrences")
            && Tail(b, [])[1] == At(from)
            && AttributeDefect(occurrences[from].attributes, Tail(b, [])[2..], b.reason)
  {
    hide AttributeFacts, AttributeDefect, Below, Tail;
    var here := [Named("occurrences"), At(from)];
    assert here + [Named("attributes")] == [Named("occurrences"), At(from), Named("attributes")];
    AttributesMean(b, owner, here, occurrences[from].attributes);
    assert [] + here == here;
    DeeperTwice(b, owner, [], "occurrences", from);
  }

  lemma {:induction false} OccurrenceFactsMean(b: Blocker, owner: Id, occurrences: seq<Occurrence>, from: nat)
    requires from <= |occurrences|
    ensures b in OccurrenceFacts(owner, occurrences, from)
       <==> Below(b, owner, []) && OccurrenceDefect(occurrences, from, Tail(b, []), b.reason)
    decreases |occurrences| - from
  {
    hide AttributeFacts, AttributeDefect, Below, Tail;
    if from < |occurrences| {
      OneOccurrence(b, owner, occurrences, from);
      OccurrenceFactsMean(b, owner, occurrences, from + 1);
    }
  }

  lemma {:induction false} VariantFactsMean(b: Blocker, owner: Id, variants: seq<Variant>, from: nat)
    requires from <= |variants|
    ensures b in VariantFacts(owner, variants, from)
       <==> && Below(b, owner, []) && Within(Tail(b, []), "variants", |variants|)
            && (var v := variants[Tail(b, [])[1].index];
                || StatusDefect(v.support, Tail(b, [])[2..], b.reason)
                || AttributeDefect(v.attributes, Tail(b, [])[2..], b.reason))
            && Tail(b, [])[1].index >= from
    decreases |variants| - from
  {
    hide AttributeFacts, AttributeDefect, StatusFacts, StatusDefect;
    if from < |variants| {
      var here := [Named("variants"), At(from)];
      StatusFactsMean(b, owner, here, variants[from].support);
      AttributesMean(b, owner, here, variants[from].attributes);
      assert [] + here == here;
      DeeperTwice(b, owner, [], "variants", from);
      VariantFactsMean(b, owner, variants, from + 1);
    }
  }

  lemma KindFactsMean(b: Blocker, id: Id, kind: DeclarationKind, need: Need)
    ensures b in KindFacts(id, kind, need)
       <==> || (Below(b, id, []) && KindDefect(kind, need, b.path, b.reason))
            || (b == IncompleteRecord(id) && kind.RecordKind? && !kind.complete && need == Definition)
  {
    hide TypeFacts, TypeDefect, MemberFacts, MemberDefect, VariantFacts, AttributeDefect, StatusDefect, ConventionFacts;
    if Below(b, id, []) { assert Tail(b, []) == b.path; }
    match kind
    case FunctionKind(_, result, parameters, _, convention) =>
      ConventionFactsMean(b, id, [], convention);
      FieldMean(b, id, "return_type", result);
      MembersMean(b, id, "parameters", parameters);
    case RecordKind(_, _, fields) => MembersMean(b, id, "fields", fields);
    case EnumKind(underlying, variants) =>
      if underlying.Some? { FieldMean(b, id, "explicit_underlying_type", underlying.value); }
      VariantFactsMean(b, id, variants, 0);
    case AliasKind(target) => FieldMean(b, id, "target", target);
    case VariableKind(_, ty, _) => FieldMean(b, id, "ty", ty);
    case UnsupportedKind(_, spelling, _) => Here(b, id, [], Named("unsupported"), spelling);
  }

  lemma FieldMean(b: Blocker, id: Id, name: string, ty: CType)
    ensures b in TypeFacts(id, [Named(name)], ty)
       <==> Below(b, id, []) && Through(b.path, name) && TypeDefect(ty, b.path[1..], b.reason)
  {
    hide TypeFacts, TypeDefect;
    assert [] + [Named(name)] == [Named(name)];
    TypeFactsMean(b, id, [Named(name)], ty);
    Deeper(b, id, [], Named(name));
    if Below(b, id, []) { assert Tail(b, []) == b.path; }
  }

  lemma MembersMean(b: Blocker, id: Id, name: string, members: seq<Member>)
    ensures b in MemberFacts(id, [Named(name)], members, 0)
       <==> Below(b, id, []) && ListDefect(members, name, b.path, b.reason)
  {
    hide MemberFacts, MemberDefect;
    assert [] + [Named(name)] == [Named(name)];
    MemberFactsMean(b, id, [], name, members, 0);
    if Below(b, id, []) { assert Tail(b, []) == b.path; }
  }

  /** What a declaration reports at a need is its defects, and its incompleteness if it is wanted whole. */
  lemma DeclarationFactsMean(b: Blocker, d: Declaration, need: Need)
    ensures b in DeclarationFacts(d, need)
       <==> || (b.UnsupportedAt? && b.id == d.id && Defect(d, need, b.path, b.reason))
            || (b == IncompleteRecord(d.id) && d.kind.RecordKind? && !d.kind.complete && need == Definition)
  {
    hide KindFacts, KindDefect, OccurrenceFacts, AttributeDefect, StatusFacts, StatusDefect;
    assert [] + [Named("support")] == [Named("support")];
    StatusFactsMean(b, d.id, [], d.support);
    OccurrenceFactsMean(b, d.id, d.occurrences, 0);
    KindFactsMean(b, d.id, d.kind, need);
    if Below(b, d.id, []) { assert Tail(b, []) == b.path; }
  }
}
