/** The cross-table checks of src/contract/validate.rs and the constructor that runs them.
    Checks that read one declaration, file or range alone are not part of this model. */
module Validation {
  import opened Wrappers
  import opened Tables
  import opened Contract
  import opened AliasGraph

  // ----- completeness and diagnostics ----------------------------------------------------

  predicate Forcing(d: Diagnostic) { d.impact != Informational }

  /** A diagnostic that a complete package may not carry. */
  predicate BreaksComplete(d: Diagnostic) {
    || d.stage == Recovery
    || d.impact != Informational
    || (d.severity == Error && d.stage in {Configuration, Preprocess, Parse})
  }

  /** `validate_completeness`, `validate_reason_order` and the two correspondence loops. */
  predicate CompletenessAccepted(c: Completeness, diagnostics: seq<Diagnostic>) {
    match c
    case Complete => forall d :: d in diagnostics ==> !BreaksComplete(d)
    case PartialPackage(reasons) =>
      && Sorted(REASONS, reasons)
      && (exists d :: d in diagnostics && d.impact == ForcesPartial)
      && (forall d :: d in diagnostics ==> d.impact != ForcesRejected)
      && Corresponds(reasons, diagnostics)
    case Rejected(reasons) =>
      && Sorted(REASONS, reasons)
      && (exists d :: d in diagnostics && d.impact == ForcesRejected)
      && Corresponds(reasons, diagnostics)
  }

  predicate Corresponds(reasons: seq<Reason>, diagnostics: seq<Diagnostic>) {
    && (forall r :: r in reasons ==> exists d :: d in diagnostics && Forcing(d) && ReasonOf(d) == r)
    && (forall d :: d in diagnostics && Forcing(d) ==> ReasonOf(d) in reasons)
  }

  /** `completeness_from_diagnostics`. */
  function CompletenessFromDiagnostics(diagnostics: seq<Diagnostic>): Completeness {
    var reasons := ForcingReasons(diagnostics);
    if exists d :: d in diagnostics && d.impact == ForcesRejected then Rejected(reasons)
    else if reasons != [] then PartialPackage(reasons)
    else Complete
  }

  function ForcingReasons(diagnostics: seq<Diagnostic>): (reasons: seq<Reason>)
    ensures Sorted(REASONS, reasons) && Corresponds(reasons, diagnostics)
  {
    var listed := ReasonsOf(Filter(Forcing, diagnostics));
    ReasonsOrdered();
    CollectSpec(REASONS, [], listed);
    FilterSpec(DIAGNOSTICS, Forcing, diagnostics);
    assert Corresponds(listed, diagnostics) by { ListedCorrespond(diagnostics); }
    PutAll(REASONS, SameRow<Reason>, [], listed).value
  }

  lemma ListedCorrespond(diagnostics: seq<Diagnostic>)
    ensures Corresponds(ReasonsOf(Filter(Forcing, diagnostics)), diagnostics)
  {
    var kept := Filter(Forcing, diagnostics);
    var listed := ReasonsOf(kept);
    FilterSpec(DIAGNOSTICS, Forcing, diagnostics);
    forall r | r in listed ensures exists d :: d in diagnostics && Forcing(d) && ReasonOf(d) == r {
      var i :| 0 <= i < |listed| && listed[i] == r;
      assert kept[i] in kept;
    }
    forall d | d in diagnostics && Forcing(d) ensures ReasonOf(d) in listed {
      assert d in kept;
      var i :| 0 <= i < |kept| && kept[i] == d;
      assert listed[i] == ReasonOf(d);
    }
  }

  /** The validator pins completeness: what it accepts is exactly what the diagnostics give,
      reasons and order included, with no source-stage failure behind a complete package. */
  lemma CompletenessExact(c: Completeness, diagnostics: seq<Diagnostic>)
    ensures CompletenessAccepted(c, diagnostics) ==> c == CompletenessFromDiagnostics(diagnostics)
    ensures c == CompletenessFromDiagnostics(diagnostics) ==>
              (CompletenessAccepted(c, diagnostics)
               <==> (c.Complete? ==> forall d :: d in diagnostics ==> !BreaksComplete(d)))
  {
    var reasons := ForcingReasons(diagnostics);
    ReasonsOrdered();
    if reasons != [] {
      assert reasons[0] in reasons;
      var d :| d in diagnostics && Forcing(d) && ReasonOf(d) == reasons[0];
      assert BreaksComplete(d);
      assert d.impact == ForcesPartial || d.impact == ForcesRejected;
    }
    if CompletenessAccepted(c, diagnostics) && !c.Complete? {
      SameElements(REASONS, c.reasons, reasons);
    }
  }

  // ----- declarations --------------------------------------------------------------------

  /** The reference, nullability and support checks of `validate_type`, on every type node. */
  predicate TypeChecks(declarations: seq<Declaration>, ty: CType)
    decreases ty
  {
    && (ty.nullability != Unspecified || ty.qualifiers.isRestrict ==> IsPointer(declarations, ty.kind, {}))
    && (ty.kind.UnsupportedType? ==> !ty.support.Supported?)
    && match ty.kind
       case Pointer(pointee) => TypeChecks(declarations, pointee)
       case Array(element, _, _) => TypeChecks(declarations, element)
       case Function(result, parameters, _, _) =>
         TypeChecks(declarations, result) && forall c :: c in parameters ==> TypeChecks(declarations, c.ty)
       case AliasRef(id) => Known(declarations, id) && Find(declarations, id).value.kind.AliasKind?
       case RecordRef(id) => Known(declarations, id) && Find(declarations, id).value.kind.RecordKind?
       case EnumRef(id) => Known(declarations, id) && Find(declarations, id).value.kind.EnumKind?
       case _ => true
  }

  predicate KindChecks(declarations: seq<Declaration>, kind: DeclarationKind) {
    match kind
    case FunctionKind(_, result, parameters, _, _) =>
      TypeChecks(declarations, result) && forall m :: m in parameters ==> TypeChecks(declarations, m.ty)
    case RecordKind(_, complete, fields) =>
      (!complete ==> fields == []) && forall m :: m in fields ==> TypeChecks(declarations, m.ty)
    case EnumKind(underlying, _) => underlying.Some? ==> TypeChecks(declarations, underlying.value)
    case AliasKind(target) => TypeChecks(declarations, target)
    case VariableKind(_, ty, _) => TypeChecks(declarations, ty)
    case UnsupportedKind(_, _, _) => true
  }

  predicate DeclarationChecks(files: seq<File>, declarations: seq<Declaration>, d: Declaration) {
    && (d.scope.FileScope? ==> Lookup(FILES, files, d.scope.file).Some?)
    && (d.scope.OwnerScope? ==> Known(declarations, d.scope.owner))
    && (d.kind.UnsupportedKind? ==> !d.support.Supported?)
    && d.occurrences != [] && Sorted(OCCURRENCES, d.occurrences)
    && KindChecks(declarations, d.kind)
  }

  predicate MacroChecks(m: Macro) { m.occurrences != [] && Sorted(OCCURRENCES, m.occurrences) }

  predicate EntryChecks(files: seq<File>, entries: seq<Id>) {
    && entries != [] && Sorted(IDS, entries)
    && (forall id :: id in entries ==> Lookup(FILES, files, id).Some? && Lookup(FILES, files, id).value.isEntry)
    && (forall f :: f in files && f.isEntry ==> f.id in entries)
  }

  predicate Checks(p: Package) {
    && Sorted(FILES, p.files) && Sorted(DECLARATIONS, p.declarations)
    && Sorted(MACROS, p.macros) && Sorted(DIAGNOSTICS, p.diagnostics)
    && (forall d :: d in p.declarations ==> DeclarationChecks(p.files, p.declarations, d))
    && (forall m :: m in p.macros ==> MacroChecks(m))
    && (forall d :: d in p.diagnostics && d.declaration.Some? ==> Known(p.declarations, d.declaration.value))
    && EntryChecks(p.files, p.inputs.entryFiles)
    && CompletenessAccepted(p.completeness, p.diagnostics)
  }

  /** Everything the validator asks of the contents of a package. */
  ghost predicate Coherent(p: Package) {
    Checks(p) && !HasCycle(AliasTable(p.declarations))
  }

  // ----- limits --------------------------------------------------------------------------

  const FILE_LIMIT := 16_384
  const TABLE_LIMIT := 1_000_000
  const DEPTH_LIMIT := 64

  /** No type node is nested deeper than `n`. */
  predicate TypeWithin(ty: CType, n: nat)
    decreases ty
  {
    match ty.kind
    case Pointer(pointee) => n > 0 && TypeWithin(pointee, n - 1)
    case Array(element, _, _) => n > 0 && TypeWithin(element, n - 1)
    case Function(result, parameters, _, _) =>
      n > 0 && TypeWithin(result, n - 1) && forall c :: c in parameters ==> TypeWithin(c.ty, n - 1)
    case _ => true
  }

  predicate KindWithin(kind: DeclarationKind) {
    match kind
    case FunctionKind(_, result, parameters, _, _) =>
      TypeWithin(result, DEPTH_LIMIT) && forall m :: m in parameters ==> TypeWithin(m.ty, DEPTH_LIMIT)
    case RecordKind(_, _, fields) => forall m :: m in fields ==> TypeWithin(m.ty, DEPTH_LIMIT)
    case EnumKind(underlying, _) => underlying.Some? ==> TypeWithin(underlying.value, DEPTH_LIMIT)
    case AliasKind(target) => TypeWithin(target, DEPTH_LIMIT)
    case VariableKind(_, ty, _) => TypeWithin(ty, DEPTH_LIMIT)
    case UnsupportedKind(_, _, _) => true
  }

  /** `construction_limits`: how large the tables of a built package may be, and how deep its types. */
  predicate WithinLimits(p: Package) {
    |p.files| <= FILE_LIMIT && |p.declarations| <= TABLE_LIMIT
    && |p.macros| <= TABLE_LIMIT && |p.diagnostics| <= TABLE_LIMIT
    && forall d :: d in p.declarations ==> KindWithin(d.kind)
  }

  ghost predicate Validated(p: Package) { Coherent(p) && WithinLimits(p) }

  /** `SourcePackage::try_new`: validation decides, and the package is returned unchanged. */
  method TryNew(p: Package) returns (r: Option<Package>)
    ensures r.Some? <==> Validated(p)
    ensures r.Some? ==> r.value == p
  {
    var cycles := ValidateAliasCycles(AliasTable(p.declarations));
    return if Checks(p) && WithinLimits(p) && cycles == [] then Some(p) else None;
  }
}
