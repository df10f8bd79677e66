/** The extraction state machine (src/extract/mod.rs): drafts of declarations, redeclarations,
    the pointer-alias cache, diagnostics, and what `finish` reports. */
module Extract {
  import opened Wrappers
  import opened Tables
  import opened Contract
  import opened AliasGraph

  datatype Draft = Draft(occurrences: seq<Occurrence>, support: SupportStatus, kind: Option<DeclarationKind>)

  /** What indexing records for a declaration: scope, and identity, name and linkage as text. */
  datatype Meta = Meta(scope: Scope, header: string)

  datatype State = State(drafts: map<Id, Draft>, pointerAliases: set<Id>, diagnostics: seq<Diagnostic>)

  const NEW_DRAFT := Draft([], Supported, None)

  const START := State(map[], {}, [])

  /** `draft`: the draft of `id`, created on first use. */
  function DraftOf(s: State, id: Id): Draft {
    if id in s.drafts then s.drafts[id] else NEW_DRAFT
  }

  function LastRange(d: Draft): Option<SourceRange> {
    if d.occurrences == [] then None else Some(d.occurrences[|d.occurrences| - 1].range)
  }

  /** `diagnostic`: one that names a declaration never rejects the package. */
  function Report(code: string, severity: Severity, impact: Impact, message: string, range: Option<SourceRange>,
                  declaration: Option<Id>): Diagnostic
  {
    Diagnostic(code, Extract, severity, if declaration.Some? && impact == ForcesRejected then ForcesPartial else impact,
               message, range, declaration)
  }

  function Fault(code: string, message: string, range: Option<SourceRange>, id: Id): Diagnostic {
    Report(code, Error, ForcesRejected, message, range, Some(id))
  }

  // ----- support of a kind ---------------------------------------------------------------

  /** `or_else` on statuses: the first one that is not supported. */
  function OrElse(a: SupportStatus, b: SupportStatus): SupportStatus { if a == Supported then b else a }

  /** `nested_type_support`. */
  function TypeSupport(ty: CType): SupportStatus
    decreases ty
  {
    if ty.support != Supported then ty.support
    else
      match ty.kind
      case Pointer(inner) => TypeSupport(inner)
      case Array(element, _, _) => TypeSupport(element)
      case Function(result, parameters, _, _) => OrElse(TypeSupport(result), ParameterSupport(parameters))
      case _ => Supported
  }

  function ParameterSupport(parameters: seq<CParameter>): SupportStatus
    decreases parameters
  {
    if parameters == [] then Supported
    else
      assert parameters[0].ty < parameters[0];
      OrElse(TypeSupport(parameters[0].ty), ParameterSupport(parameters[1..]))
  }

  function MemberSupport(members: seq<Member>): SupportStatus {
    if members == [] then Supported
    else OrElse(OrElse(members[0].support, TypeSupport(members[0].ty)), MemberSupport(members[1..]))
  }

  function VariantSupport(variants: seq<Variant>): SupportStatus {
    if variants == [] then Supported else OrElse(variants[0].support, VariantSupport(variants[1..]))
  }

  /** `declaration_kind_support`. */
  function KindSupport(kind: DeclarationKind): SupportStatus {
    match kind
    case FunctionKind(_, result, parameters, _, convention) =>
      OrElse(OrElse(TypeSupport(result), MemberSupport(parameters)),
             match convention
             case BadConvention(spelling) => NoSupport("PARC-E1206", "unsupported calling convention: " + spelling)
             case _ => Supported)
    case RecordKind(_, _, fields) => MemberSupport(fields)
    case EnumKind(underlying, variants) =>
      OrElse(VariantSupport(variants), match underlying case Some(ty) => TypeSupport(ty) case None => Supported)
    case AliasKind(target) => TypeSupport(target)
    case VariableKind(_, ty, _) => TypeSupport(ty)
    case UnsupportedKind(_, spelling, code) => NoSupport(code, spelling)
  }

  // ----- redeclarations ------------------------------------------------------------------

  datatype Action = Keep | Replace | Conflict

  predicate SameTypes(a: seq<Member>, b: seq<Member>) {
    |a| == |b| && forall i :: 0 <= i < |a| ==> a[i].ty == b[i].ty
  }

  /** `function_signatures_match`. */
  predicate SameSignature(a: DeclarationKind, b: DeclarationKind)
    requires a.FunctionKind? && b.FunctionKind?
  {
    a.linkName == b.linkName && a.returnType == b.returnType && a.prototype == b.prototype
    && a.convention == b.convention && SameTypes(a.parameters, b.parameters)
  }

  function DefinitionAction(existing: bool, replacement: bool): Action {
    if !replacement then Keep else if existing then Conflict else Replace
  }

  /** `redeclaration_action`. */
  function Redeclaration(existing: DeclarationKind, replacement: DeclarationKind): Action {
    match (existing, replacement)
    case (FunctionKind(_, _, _, _, _), FunctionKind(_, _, _, _, _)) =>
      if SameSignature(existing, replacement) then Keep else Conflict
    case (VariableKind(_, _, _), VariableKind(_, _, _)) => if existing == replacement then Keep else Conflict
    case (AliasKind(_), AliasKind(_)) => if existing == replacement then Keep else Conflict
    case (RecordKind(k, complete, _), RecordKind(l, complete', _)) =>
      if k != l then Conflict else DefinitionAction(complete, complete')
    case (EnumKind(u, variants), EnumKind(w, variants')) =>
      if u != w then Conflict else DefinitionAction(variants != [], variants' != [])
    case (UnsupportedKind(_, _, _), UnsupportedKind(_, _, _)) => if existing == replacement then Keep else Conflict
    case _ => Conflict
  }

  const CONFLICT_REASON := "one entity has semantically incompatible redeclarations"

  function ActionOn(d: Draft, kind: DeclarationKind): Action {
    match d.kind case None => Replace case Some(existing) => Redeclaration(existing, kind)
  }

  function ConflictKind(d: Draft): DeclarationKind {
    UnsupportedKind("invalid declaration",
                    if d.occurrences == [] then "conflicting redeclaration"
                    else d.occurrences[|d.occurrences| - 1].spelling, "PARC-E1204")
  }

  /** The draft after one more declaration of its entity. */
  function Redeclared(d: Draft, kind: DeclarationKind): Draft {
    var support := if KindSupport(kind) != Supported then KindSupport(kind) else d.support;
    match ActionOn(d, kind)
    case Keep => d.(support := support)
    case Replace => d.(support := support, kind := Some(kind))
    case Conflict => d.(support := NoSupport("PARC-E1204", CONFLICT_REASON), kind := Some(ConflictKind(d)))
  }

  function ConflictReports(d: Draft, kind: DeclarationKind, id: Id): seq<Diagnostic> {
    if ActionOn(d, kind).Conflict? && d.occurrences != [] then [Fault("PARC-E1204", CONFLICT_REASON, LastRange(d), id)]
    else []
  }

  /** `type_is_effectively_pointer` of the extractor, on its cache. */
  predicate CachedPointer(ty: CType, aliases: set<Id>) {
    ty.kind.Pointer? || (ty.kind.AliasRef? && ty.kind.id in aliases)
  }

  predicate PointerKind(kind: Option<DeclarationKind>, aliases: set<Id>) {
    kind.Some? && kind.value.AliasKind? && CachedPointer(kind.value.target, aliases)
  }

  // ----- the steps -----------------------------------------------------------------------

  /** Where `add_occurrence` finds a node: without range, tokens or text, or as an occurrence. */
  datatype Place =
    | NoRange
    | NoTokens(range: SourceRange)
    | NoText(range: SourceRange)
    | At(occurrence: Occurrence, badAttribute: bool)

  datatype Extensions = Extensions(badAsm: bool, badConvention: bool, badVisibility: bool, unmodeled: bool)

  datatype Step =
    | AddOccurrence(id: Id, place: Place)
    | SetKind(id: Id, kind: DeclarationKind)
    | ApplyExtensions(id: Id, extensions: Extensions)
    | ApplyAlignment(id: Id, range: Option<SourceRange>)
    | UnsizedField(id: Id, field: SourceRange)
    | UnboundDeclarator(message: string, range: Option<SourceRange>)
    | UnplacedTag
    | StaticAssert(range: Option<SourceRange>)

  const BAD_SPAN := "parser node did not contain a usable generated-source span"
  const BAD_TOKENS := "parser node tokens were outside the generated source"
  const BAD_TEXT := "parser node spelling was outside the generated source"
  const BAD_ATTRIBUTE := "a declaration attribute had an invalid generated-source span"
  const BAD_TAG := "anonymous tag did not contain a usable generated-source span"
  const UNBOUND_ASSERT := "_Static_assert has no bindable declaration"

  function Push(s: State, more: seq<Diagnostic>): State { s.(diagnostics := s.diagnostics + more) }

  function Occurred(s: State, id: Id, place: Place): State {
    match place
    case NoRange =>
      Push(s, [Fault("PARC-E1203", BAD_SPAN, None, id)])
    case NoTokens(range) =>
      Push(s, [Fault("PARC-E1203", BAD_TOKENS, Some(range), id)])
    case NoText(range) =>
      Push(s, [Fault("PARC-E1203", BAD_TEXT, Some(range), id)])
    case At(occurrence, bad) =>
      var d := DraftOf(s, id);
      Push(s, if bad then [Fault("PARC-E1210", BAD_ATTRIBUTE,
                                 Some(occurrence.range), id)] else [])
      .(drafts := s.drafts[id := d.(occurrences := d.occurrences + [occurrence])])
  }

  function KindSet(s: State, id: Id, kind: DeclarationKind): State {
    var d := DraftOf(s, id);
    var after := Redeclared(d, kind);
    State(s.drafts[id := after],
          if PointerKind(after.kind, s.pointerAliases) then s.pointerAliases + {id} else s.pointerAliases - {id},
          s.diagnostics + ConflictReports(d, kind, id))
  }

  function WithSupport(s: State, id: Id, support: SupportStatus, report: Diagnostic): State {
    Push(s.(drafts := s.drafts[id := DraftOf(s, id).(support := support)]), [report])
  }

  function Broken(s: State, on: bool, id: Id, code: string, reason: string, range: Option<SourceRange>): State {
    if on then WithSupport(s, id, NoSupport(code, reason), Fault(code, reason, range, id)) else s
  }

  const UNMODELED := "declaration contains an unmodeled ABI-relevant attribute"
  const BAD_ASM := "asm link label could not be decoded without target-dependent guessing"
  const BAD_CONVENTION := "calling-convention attributes are malformed or conflict"
  const BAD_VISIBILITY := "visibility attributes are malformed, unknown, or conflict"

  function Unmodeled(s: State, on: bool, id: Id, range: Option<SourceRange>): State {
    var support := DraftOf(s, id).support;
    if on then
      WithSupport(s, id, if support == Supported then PartialSupport("PARC-P1205", UNMODELED) else support,
                  Report("PARC-P1205", Warning, ForcesPartial, UNMODELED, range, Some(id)))
    else s
  }

  /** `apply_extension_support`. */
  function Extended(s: State, id: Id, e: Extensions): State {
    var range := if id in s.drafts then LastRange(s.drafts[id]) else None;
    var s1 := Broken(s, e.badAsm, id, "PARC-E1211", BAD_ASM, range);
    var s2 := Broken(s1, e.badConvention, id, "PARC-E1214", BAD_CONVENTION, range);
    var s3 := Broken(s2, e.badVisibility, id, "PARC-E1215", BAD_VISIBILITY, range);
    Unmodeled(s3, e.unmodeled, id, range)
  }

  const ALIGNMENT := "explicit declaration alignment is ABI-relevant and not modeled"
  const UNSIZED := "an unsized field is only valid as the final non-first struct member"

  function Stepped(s: State, step: Step): State {
    match step
    case AddOccurrence(id, place) => Occurred(s, id, place)
    case SetKind(id, kind) => KindSet(s, id, kind)
    case ApplyExtensions(id, e) => Extended(s, id, e)
    case ApplyAlignment(id, range) => Broken(s, true, id, "PARC-E1216", ALIGNMENT, range)
    case UnsizedField(id, field) => Push(s, [Fault("PARC-E1212", UNSIZED, Some(field), id)])
    case UnboundDeclarator(message, range) =>
      Push(s, [Report("PARC-E1213", Error, ForcesRejected, message, range, None)])
    case UnplacedTag =>
      Push(s, [Report("PARC-E1203", Error, ForcesRejected,
                      BAD_TAG, None, None)])
    case StaticAssert(range) =>
      Push(s, [Report("PARC-P1200", Note, Informational, UNBOUND_ASSERT, range, None)])
  }

  function Run(s: State, steps: seq<Step>): State
    decreases steps
  {
    if steps == [] then s else Run(Stepped(s, steps[0]), steps[1..])
  }

  // ----- invariants of every run ---------------------------------------------------------

  /** Diagnostics that name a declaration force the package to be partial, and no more. */
  ghost predicate Scoped(diagnostics: seq<Diagnostic>) {
    forall d :: d in diagnostics && d.declaration.Some? ==> d.impact == ForcesPartial
  }

  /** Kinds, occurrences and the cache stay, and support is at most lost further. */
  ghost predicate OnlyWeakens(s: State, t: State) {
    && t.pointerAliases == s.pointerAliases
    && (Scoped(s.diagnostics) ==> Scoped(t.diagnostics))
    && forall id :: OnlyWeakensAt(DraftOf(s, id), DraftOf(t, id))
  }

  predicate OnlyWeakensAt(d: Draft, e: Draft) {
    e.kind == d.kind && e.occurrences == d.occurrences
    && (d.support != Supported ==> e.support != Supported) && (d.support.NoSupport? ==> e.support.NoSupport?)
  }

  lemma WeakensTwice(s: State, t: State, u: State)
    requires OnlyWeakens(s, t) && OnlyWeakens(t, u)
    ensures OnlyWeakens(s, u)
  {
    forall id ensures OnlyWeakensAt(DraftOf(s, id), DraftOf(u, id)) {
      assert OnlyWeakensAt(DraftOf(s, id), DraftOf(t, id)) && OnlyWeakensAt(DraftOf(t, id), DraftOf(u, id));
    }
  }

  lemma SupportWeakens(s: State, id: Id, support: SupportStatus, report: Diagnostic)
    requires support != Supported && (DraftOf(s, id).support.NoSupport? ==> support.NoSupport?)
    requires report.declaration.Some? ==> report.impact == ForcesPartial
    ensures OnlyWeakens(s, WithSupport(s, id, support, report))
  {
  }

  lemma BrokenWeakens(s: State, on: bool, id: Id, code: string, reason: string, range: Option<SourceRange>)
    ensures OnlyWeakens(s, Broken(s, on, id, code, reason, range))
  {
    if on { SupportWeakens(s, id, NoSupport(code, reason), Fault(code, reason, range, id)); }
  }

  lemma UnmodeledWeakens(s: State, on: bool, id: Id, range: Option<SourceRange>)
    ensures OnlyWeakens(s, Unmodeled(s, on, id, range))
  {
    if on {
      var support := DraftOf(s, id).support;
      SupportWeakens(s, id, if support == Supported then PartialSupport("PARC-P1205", UNMODELED) else support,
                     Report("PARC-P1205", Warning, ForcesPartial, UNMODELED, range, Some(id)));
    }
  }

  lemma ExtendedWeakens(s: State, id: Id, e: Extensions)
    ensures OnlyWeakens(s, Extended(s, id, e))
  {
    var range := if id in s.drafts then LastRange(s.drafts[id]) else None;
    var s1 := Broken(s, e.badAsm, id, "PARC-E1211", BAD_ASM, range);
    var s2 := Broken(s1, e.badConvention, id, "PARC-E1214", BAD_CONVENTION, range);
    var s3 := Broken(s2, e.badVisibility, id, "PARC-E1215", BAD_VISIBILITY, range);
    BrokenWeakens(s, e.badAsm, id, "PARC-E1211", BAD_ASM, range);
    BrokenWeakens(s1, e.badConvention, id, "PARC-E1214", BAD_CONVENTION, range);
    BrokenWeakens(s2, e.badVisibility, id, "PARC-E1215", BAD_VISIBILITY, range);
    UnmodeledWeakens(s3, e.unmodeled, id, range);
    WeakensTwice(s, s1, s2);
    WeakensTwice(s, s2, s3);
    WeakensTwice(s, s3, Extended(s, id, e));
  }

  /** Only `set_kind` and `add_occurrence` do more. */
  lemma StepWeakens(s: State, step: Step)
    requires !step.SetKind? && !step.AddOccurrence?
    ensures OnlyWeakens(s, Stepped(s, step))
  {
    match step
    case ApplyExtensions(id, e) => ExtendedWeakens(s, id, e);
    case ApplyAlignment(id, range) => BrokenWeakens(s, true, id, "PARC-E1216", ALIGNMENT, range);
    case _ =>
  }

  lemma OccurredKeeps(s: State, id: Id, place: Place)
    ensures var t := Occurred(s, id, place);
            && t.pointerAliases == s.pointerAliases
            && (Scoped(s.diagnostics) ==> Scoped(t.diagnostics))
            && forall j :: DraftOf(t, j).kind == DraftOf(s, j).kind && DraftOf(t, j).support == DraftOf(s, j).support
  {
    match place
    case At(_, _) =>
    case _ =>
  }

  lemma StepKeepsScoped(s: State, step: Step)
    requires Scoped(s.diagnostics)
    ensures Scoped(Stepped(s, step).diagnostics)
  {
    match step
    case SetKind(_, _) =>
    case AddOccurrence(id, place) => OccurredKeeps(s, id, place);
    case _ => StepWeakens(s, step);
  }

  lemma {:induction false} RunKeepsScoped(s: State, steps: seq<Step>)
    requires Scoped(s.diagnostics)
    ensures Scoped(Run(s, steps).diagnostics)
    decreases steps
  {
    if steps != [] {
      StepKeepsScoped(s, steps[0]);
      RunKeepsScoped(Stepped(s, steps[0]), steps[1..]);
    }
  }

  /** The steps whose diagnostics name no declaration and reject the package. */
  predicate RejectingStep(step: Step) { step.UnboundDeclarator? || step.UnplacedTag? }

  predicate Rejecting(d: Diagnostic) { d.impact == ForcesRejected }

  lemma StepRejects(s: State, step: Step)
    ensures (exists d :: d in Stepped(s, step).diagnostics && Rejecting(d))
       <==> (exists d :: d in s.diagnostics && Rejecting(d)) || RejectingStep(step)
  {
    if RejectingStep(step) {
      RejectingAdds(s, step);
    } else {
      hide Stepped;
      OnlyMild(s, step);
      MildRejects(s, Stepped(s, step));
    }
  }

  lemma MildRejects(s: State, t: State)
    requires AddsMild(s, t)
    ensures (exists d :: d in t.diagnostics && Rejecting(d)) <==> (exists d :: d in s.diagnostics && Rejecting(d))
  {
    var before, after := s.diagnostics, t.diagnostics;
    if exists d :: d in before && Rejecting(d) {
      var d :| d in before && Rejecting(d);
      assert d in after;
    }
    assert after == before + after[|before|..];
  }

  lemma RejectingAdds(s: State, step: Step)
    requires RejectingStep(step)
    ensures exists d :: d in Stepped(s, step).diagnostics && Rejecting(d)
  {
    assert Rejecting(Stepped(s, step).diagnostics[|s.diagnostics|]);
  }

  /** What any other step adds does not reject. */
  lemma OnlyMild(s: State, step: Step)
    requires !RejectingStep(step)
    ensures AddsMild(s, Stepped(s, step))
  {
    match step
    case SetKind(id, kind) => KindSetAdds(s, id, kind);
    case AddOccurrence(id, place) => OccurredAdds(s, id, place);
    case ApplyExtensions(id, e) => ExtendedAdds(s, id, e);
    case ApplyAlignment(id, range) => BrokenAdds(s, true, id, "PARC-E1216", ALIGNMENT, range);
    case _ =>
  }

  lemma KindSetAdds(s: State, id: Id, kind: DeclarationKind)
    ensures AddsMild(s, KindSet(s, id, kind))
  {
  }

  lemma OccurredAdds(s: State, id: Id, place: Place)
    ensures AddsMild(s, Occurred(s, id, place))
  {
  }

  ghost predicate AddsMild(s: State, t: State) {
    s.diagnostics <= t.diagnostics
    && forall i :: |s.diagnostics| <= i < |t.diagnostics| ==> !Rejecting(t.diagnostics[i])
  }

  lemma BrokenAdds(s: State, on: bool, id: Id, code: string, reason: string, range: Option<SourceRange>)
    ensures AddsMild(s, Broken(s, on, id, code, reason, range))
  {
  }

  lemma ExtendedAdds(s: State, id: Id, e: Extensions)
    ensures AddsMild(s, Extended(s, id, e))
  {
    var range := if id in s.drafts then LastRange(s.drafts[id]) else None;
    var s1 := Broken(s, e.badAsm, id, "PARC-E1211", BAD_ASM, range);
    var s2 := Broken(s1, e.badConvention, id, "PARC-E1214", BAD_CONVENTION, range);
    var s3 := Broken(s2, e.badVisibility, id, "PARC-E1215", BAD_VISIBILITY, range);
    BrokenAdds(s, e.badAsm, id, "PARC-E1211", BAD_ASM, range);
    BrokenAdds(s1, e.badConvention, id, "PARC-E1214", BAD_CONVENTION, range);
    BrokenAdds(s2, e.badVisibility, id, "PARC-E1215", BAD_VISIBILITY, range);
    assert AddsMild(s3, Unmodeled(s3, e.unmodeled, id, range));
  }

  lemma {:induction false} RunRejects(s: State, steps: seq<Step>)
    ensures (exists d :: d in Run(s, steps).diagnostics && Rejecting(d))
       <==> (exists d :: d in s.diagnostics && Rejecting(d)) || (exists step :: step in steps && RejectingStep(step))
    decreases steps
  {
    if steps != [] {
      assert steps == [steps[0]] + steps[1..];
      StepRejects(s, steps[0]);
      RunRejects(Stepped(s, steps[0]), steps[1..]);
      assert (exists step :: step in steps && RejectingStep(step))
        <==> RejectingStep(steps[0]) || (exists step :: step in steps[1..] && RejectingStep(step));
    }
  }

  predicate Lost(s: State, id: Id) { DraftOf(s, id).support != Supported }

  lemma StepKeepsLoss(s: State, step: Step, id: Id)
    requires Lost(s, id)
    ensures Lost(Stepped(s, step), id)
  {
    match step
    case SetKind(j, kind) =>
    case AddOccurrence(j, place) => OccurredKeeps(s, j, place);
    case _ =>
      StepWeakens(s, step);
      assert OnlyWeakensAt(DraftOf(s, id), DraftOf(Stepped(s, step), id));
  }

  /** A lost `Supported` status is never regained. */
  lemma {:induction false} LossIsForever(s: State, steps: seq<Step>, id: Id)
    requires Lost(s, id)
    ensures Lost(Run(s, steps), id)
    decreases steps
  {
    if steps != [] {
      StepKeepsLoss(s, steps[0], id);
      LossIsForever(Stepped(s, steps[0]), steps[1..], id);
    }
  }

  predicate IsConflict(kind: DeclarationKind) {
    kind.UnsupportedKind? && kind.category == "invalid declaration" && kind.code == "PARC-E1204"
  }

  predicate InConflict(s: State, id: Id) {
    DraftOf(s, id).kind.Some? && IsConflict(DraftOf(s, id).kind.value) && DraftOf(s, id).support.NoSupport?
  }

  lemma StepKeepsConflict(s: State, step: Step, id: Id)
    requires InConflict(s, id)
    ensures InConflict(Stepped(s, step), id)
  {
    match step
    case SetKind(j, kind) =>
    case AddOccurrence(j, place) => OccurredKeeps(s, j, place);
    case _ =>
      StepWeakens(s, step);
      assert OnlyWeakensAt(DraftOf(s, id), DraftOf(Stepped(s, step), id));
  }

  /** A conflict is absorbing: kind and missing support stay whatever else is read. */
  lemma {:induction false} ConflictIsForever(s: State, steps: seq<Step>, id: Id)
    requires InConflict(s, id)
    ensures InConflict(Run(s, steps), id)
    decreases steps
  {
    if steps != [] {
      StepKeepsConflict(s, steps[0], id);
      ConflictIsForever(Stepped(s, steps[0]), steps[1..], id);
    }
  }

  /** A conflict is reported on its declaration as soon as that has an occurrence. */
  lemma ConflictReported(s: State, id: Id, kind: DeclarationKind)
    requires ActionOn(DraftOf(s, id), kind) == Conflict && DraftOf(s, id).occurrences != []
    ensures var after := Stepped(s, SetKind(id, kind));
            && InConflict(after, id)
            && exists d :: d in after.diagnostics && d.declaration == Some(id) && d.code == "PARC-E1204"
  {
    var after := Stepped(s, SetKind(id, kind));
    assert after.diagnostics[|s.diagnostics|] == Fault("PARC-E1204", CONFLICT_REASON, LastRange(DraftOf(s, id)), id);
  }

  predicate IsError(s: State, id: Id) { DraftOf(s, id).support.NoSupport? }

  /** The declaration is set again, with a partly supported kind that does not conflict. */
  predicate Downgrades(s: State, step: Step, id: Id) {
    step.SetKind? && step.id == id && KindSupport(step.kind).PartialSupport?
    && ActionOn(DraftOf(s, id), step.kind) != Conflict
  }

  /** A step leaves an unsupported status unsupported exactly when it does not downgrade it. */
  lemma ErrorKept(s: State, step: Step, id: Id)
    requires IsError(s, id)
    ensures IsError(Stepped(s, step), id) <==> !Downgrades(s, step, id)
  {
    match step
    case SetKind(_, _) =>
    case AddOccurrence(j, place) => OccurredKeeps(s, j, place);
    case _ =>
      StepWeakens(s, step);
      assert OnlyWeakensAt(DraftOf(s, id), DraftOf(Stepped(s, step), id));
  }

  predicate NeverDowngraded(s: State, steps: seq<Step>, id: Id)
    decreases steps
  {
    steps == [] || (!Downgrades(s, steps[0], id) && NeverDowngraded(Stepped(s, steps[0]), steps[1..], id))
  }

  /** An unsupported status stays unsupported at every moment of a run exactly when no step of the
      run downgrades it. */
  lemma {:induction false} ErrorKeptThroughout(s: State, steps: seq<Step>, id: Id)
    requires IsError(s, id)
    ensures NeverDowngraded(s, steps, id) <==> forall k :: 0 <= k <= |steps| ==> IsError(Run(s, steps[..k]), id)
    decreases steps
  {
    if steps == [] {
      assert steps[..0] == [];
    } else {
      var next, rest := Stepped(s, steps[0]), steps[1..];
      ErrorKept(s, steps[0], id);
      RunPrefix(s, steps, 1);
      if IsError(next, id) {
        ErrorKeptThroughout(next, rest, id);
        forall k | 0 <= k <= |steps| ensures k > 0 ==> Run(s, steps[..k]) == Run(next, rest[..k - 1]) {
          if k > 0 { RunPrefix(s, steps, k); }
        }
        assert steps[..0] == [];
        if forall k :: 0 <= k <= |steps| ==> IsError(Run(s, steps[..k]), id) {
          forall k | 0 <= k <= |rest| ensures IsError(Run(next, rest[..k]), id) { RunPrefix(s, steps, k + 1); }
        }
      }
    }
  }

  lemma RunPrefix(s: State, steps: seq<Step>, k: nat)
    requires 0 < k <= |steps|
    ensures Run(s, steps[..k]) == Run(Stepped(s, steps[0]), steps[1..][..k - 1])
    ensures k == 1 ==> Run(s, steps[..k]) == Stepped(s, steps[0])
  {
    assert steps[..k][0] == steps[0] && steps[..k][1..] == steps[1..][..k - 1];
  }

  /** The condition can fail: an alignment fault, then the same partly supported variable again. */
  lemma ErrorDowngraded(id: Id, ty: CType)
    requires ty.support == PartialSupport("P", "r")
    ensures var kind := VariableKind("v", ty, false);
            var steps := [SetKind(id, kind), ApplyAlignment(id, None), SetKind(id, kind)];
            && DraftOf(Run(START, steps[..2]), id).support == NoSupport("PARC-E1216", ALIGNMENT)
            && DraftOf(Run(START, steps), id).support == PartialSupport("P", "r")
  {
    var kind := VariableKind("v", ty, false);
    var a, b := SetKind(id, kind), ApplyAlignment(id, None);
    var s1 := Stepped(START, a);
    var s2 := Stepped(s1, b);
    var steps := [a, b, a];
    assert steps[..2] == [a, b] && [a, b][1..] == [b] && [b][1..] == [];
    assert steps[1..] == [b, a] && [b, a][1..] == [a] && [a][1..] == [];
    assert Run(s2, [a]) == Stepped(s2, a);
    assert Run(s1, [b]) == s2;
    assert Run(s1, [b, a]) == Stepped(s2, a);
  }

  // ----- what a sequence of redeclarations comes to --------------------------------------

  datatype Outcome = Unset | Settled(kind: DeclarationKind) | Conflicting

  function OutcomeOf(kind: Option<DeclarationKind>): Outcome {
    match kind case None => Unset case Some(k) => if IsConflict(k) then Conflicting else Settled(k)
  }

  function NextOutcome(o: Outcome, kind: DeclarationKind): Outcome {
    match o
    case Unset => OutcomeOf(Some(kind))
    case Conflicting => Conflicting
    case Settled(k) =>
      match Redeclaration(k, kind)
      case Keep => o
      case Replace => OutcomeOf(Some(kind))
      case Conflict => Conflicting
  }

  function FoldOutcome(o: Outcome, kinds: seq<DeclarationKind>): Outcome
    decreases kinds
  {
    if kinds == [] then o else FoldOutcome(NextOutcome(o, kinds[0]), kinds[1..])
  }

  function KindsFor(steps: seq<Step>, id: Id): seq<DeclarationKind>
    decreases steps
  {
    if steps == [] then []
    else (if steps[0].SetKind? && steps[0].id == id then [steps[0].kind] else []) + KindsFor(steps[1..], id)
  }

  /** The kind of a draft depends on the kinds set for it and on nothing else in the run. */
  lemma {:induction false} RunOutcome(s: State, steps: seq<Step>, id: Id)
    ensures OutcomeOf(DraftOf(Run(s, steps), id).kind)
         == FoldOutcome(OutcomeOf(DraftOf(s, id).kind), KindsFor(steps, id))
    decreases steps
  {
    if steps != [] {
      var step, rest := steps[0], KindsFor(steps[1..], id);
      RunOutcome(Stepped(s, step), steps[1..], id);
      if step.SetKind? && step.id == id {
        assert KindsFor(steps, id)[0] == step.kind && KindsFor(steps, id)[1..] == rest;
        StepOutcome(s, id, step.kind);
      } else {
        assert KindsFor(steps, id) == rest;
        OtherStep(s, step, id);
      }
    }
  }

  lemma OtherStep(s: State, step: Step, id: Id)
    requires !(step.SetKind? && step.id == id)
    ensures DraftOf(Stepped(s, step), id).kind == DraftOf(s, id).kind
  {
    match step
    case SetKind(_, _) =>
    case AddOccurrence(j, place) => OccurredKeeps(s, j, place);
    case _ =>
      StepWeakens(s, step);
      assert OnlyWeakensAt(DraftOf(s, id), DraftOf(Stepped(s, step), id));
  }

  lemma StepOutcome(s: State, id: Id, kind: DeclarationKind)
    ensures OutcomeOf(DraftOf(KindSet(s, id, kind), id).kind) == NextOutcome(OutcomeOf(DraftOf(s, id).kind), kind)
  {
  }

  lemma OtherStepAliases(s: State, step: Step)
    requires !step.SetKind?
    ensures Stepped(s, step).pointerAliases == s.pointerAliases
  {
    if step.AddOccurrence? { OccurredKeeps(s, step.id, step.place); } else { StepWeakens(s, step); }
  }

  predicate IsTag(kind: DeclarationKind) { kind.RecordKind? || kind.EnumKind? }

  /** The declaration gives the tag its content. */
  predicate Defines(kind: DeclarationKind) {
    (kind.RecordKind? && kind.complete) || (kind.EnumKind? && kind.variants != [])
  }

  /** Two declarations that may stand for one entity. */
  predicate Compatible(a: DeclarationKind, b: DeclarationKind) {
    if IsTag(a) then
      (a.RecordKind? && b.RecordKind? && a.recordKind == b.recordKind)
      || (a.EnumKind? && b.EnumKind? && a.underlying == b.underlying)
    else Redeclaration(a, b) == Keep
  }

  function Definitions(kinds: seq<DeclarationKind>): seq<DeclarationKind> {
    if kinds == [] then [] else (if Defines(kinds[0]) then [kinds[0]] else []) + Definitions(kinds[1..])
  }

  predicate AllCompatible(first: DeclarationKind, kinds: seq<DeclarationKind>) {
    forall k :: k in kinds ==> Compatible(first, k)
  }

  /** What the declarations of one entity mean together, without an order of folding: all must be
      compatible with the first, and a tag has at most one definition, which it then is. */
  function Meaning(kinds: seq<DeclarationKind>): Outcome {
    if kinds == [] then Unset
    else if !AllCompatible(kinds[0], kinds) then Conflicting
    else if !IsTag(kinds[0]) then OutcomeOf(Some(kinds[0]))
    else
      var definitions := Definitions(kinds);
      if |definitions| == 0 then Settled(kinds[0])
      else if |definitions| == 1 then Settled(definitions[0])
      else Conflicting
  }

  function TypesOnly(members: seq<Member>): seq<Member> {
    seq(|members|, i requires 0 <= i < |members| => Member(members[i].ty, [], Supported, ""))
  }

  /** What two declarations of a function must share; other kinds must be equal. */
  function Signature(kind: DeclarationKind): DeclarationKind {
    if kind.FunctionKind? then kind.(parameters := TypesOnly(kind.parameters)) else kind
  }

  /** Functions, variables, aliases and unsupported forms are kept exactly for equal signatures,
      so keeping is an equivalence. */
  lemma KeptExactly(a: DeclarationKind, b: DeclarationKind)
    requires !IsTag(a)
    ensures Redeclaration(a, b) == Keep <==> Signature(a) == Signature(b)
  {
    if a.FunctionKind? && b.FunctionKind? {
      var s, t := TypesOnly(a.parameters), TypesOnly(b.parameters);
      if s == t {
        forall i | 0 <= i < |s| ensures a.parameters[i].ty == b.parameters[i].ty { assert s[i] == t[i]; }
      }
      if SameTypes(a.parameters, b.parameters) { assert s == t; }
    }
  }

  lemma CompatibleSplit(first: DeclarationKind, kinds: seq<DeclarationKind>)
    requires kinds != []
    ensures AllCompatible(first, kinds) <==> Compatible(first, kinds[0]) && AllCompatible(first, kinds[1..])
  {
    assert kinds == [kinds[0]] + kinds[1..];
  }

  lemma {:induction false} ConflictingStays(kinds: seq<DeclarationKind>)
    ensures FoldOutcome(Conflicting, kinds) == Conflicting
    decreases kinds
  {
    if kinds != [] { ConflictingStays(kinds[1..]); }
  }

  lemma {:induction false} FoldSame(first: DeclarationKind, kinds: seq<DeclarationKind>)
    requires !IsTag(first) && !IsConflict(first)
    ensures FoldOutcome(Settled(first), kinds) == if AllCompatible(first, kinds) then Settled(first) else Conflicting
    decreases kinds
  {
    if kinds != [] {
      CompatibleSplit(first, kinds);
      assert Redeclaration(first, kinds[0]) != Replace;
      FoldSame(first, kinds[1..]);
      ConflictingStays(kinds[1..]);
    }
  }

  /** The fold from a tag `k` that stands for `first` and is a definition when one was met. */
  lemma {:induction false} FoldTags(first: DeclarationKind, k: DeclarationKind, kinds: seq<DeclarationKind>)
    requires IsTag(first) && Compatible(first, k)
    ensures FoldOutcome(Settled(k), kinds)
         == if !AllCompatible(first, kinds) then Conflicting
            else
              var definitions := (if Defines(k) then [k] else []) + Definitions(kinds);
              if |definitions| == 0 then Settled(k)
              else if |definitions| == 1 then Settled(definitions[0])
              else Conflicting
    decreases kinds
  {
    if kinds != [] {
      var next := kinds[0];
      CompatibleSplit(first, kinds);
      ConflictingStays(kinds[1..]);
      match Redeclaration(k, next)
      case Keep => FoldTags(first, k, kinds[1..]);
      case Replace => FoldTags(first, next, kinds[1..]);
      case Conflict =>
    }
  }

  /** Folding one by one gives the meaning of the whole list. */
  lemma FoldIsMeaning(kinds: seq<DeclarationKind>)
    ensures FoldOutcome(Unset, kinds) == Meaning(kinds)
  {
    if kinds != [] {
      var first := kinds[0];
      assert kinds == [first] + kinds[1..];
      if IsConflict(first) {
        ConflictingStays(kinds[1..]);
      } else if IsTag(first) {
        FoldTags(first, first, kinds[1..]);
        assert Definitions(kinds) == (if Defines(first) then [first] else []) + Definitions(kinds[1..]);
      } else {
        FoldSame(first, kinds[1..]);
      }
    }
  }

  /** Over a whole run, each declaration ends as the meaning of its redeclarations. */
  lemma RunMeaning(steps: seq<Step>, id: Id)
    ensures OutcomeOf(DraftOf(Run(START, steps), id).kind) == Meaning(KindsFor(steps, id))
  {
    RunOutcome(START, steps, id);
    FoldIsMeaning(KindsFor(steps, id));
  }
}
