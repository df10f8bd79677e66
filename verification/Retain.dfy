/** Checked projection (src/contract/compose.rs, `retain`): the reference closure of a selection,
    when the projected package is valid, and why it keeps a completeness proof. */
module Retain {
  import opened Wrappers
  import opened Tables
  import opened Contract
  import opened AliasGraph
  import opened Validation
  import opened References
  import C = Completion

  datatype ComposeError =
    | MissingDeclaration(id: Id)
    | OpaqueRootIsNotRecord(id: Id)
    | IncompatibleTarget
    | IncompatibleInputs
    | ConflictingFile(id: Id)
    | ConflictingDeclaration(id: Id)
    | ConflictingMacro(id: Id)
    | InvalidPackage

  // ----- the reference closure -----------------------------------------------------------

  predicate RefClosed(declarations: seq<Declaration>, s: set<Id>) {
    forall id :: id in s && Known(declarations, id) ==> Within(Refs(Find(declarations, id).value), s)
  }

  /** `s` is the least set that holds the roots and is closed under references and owners. */
  ghost predicate IsRefClosure(declarations: seq<Declaration>, roots: seq<Id>, s: set<Id>) {
    && Within(roots, s) && RefClosed(declarations, s)
    && forall t: set<Id> :: Within(roots, t) && RefClosed(declarations, t) ==> s <= t
  }

  function AllRefs(declarations: seq<Declaration>): set<Id> {
    set d, id | d in declarations && id in Refs(d) :: id
  }

  function SetOf(ids: seq<Id>): set<Id> { set id | id in ids }

  /** `declaration_closure`: the least closure when all of it is present, and otherwise a
      declaration that every closure needs and the table lacks. */
  method DeclarationClosure(declarations: seq<Declaration>, roots: seq<Id>) returns (r: Result<set<Id>, ComposeError>)
    requires Sorted(DECLARATIONS, declarations)
    ensures r.Ok? ==>
              IsRefClosure(declarations, roots, r.value) && forall id :: id in r.value ==> Known(declarations, id)
    ensures r.Err? ==> r.error.MissingDeclaration? && !Known(declarations, r.error.id)
    ensures r.Err? ==> forall t: set<Id> :: Within(roots, t) && RefClosed(declarations, t) ==> r.error.id in t
  {
    var retained, queue := {}, roots;
    while queue != []
      invariant forall id :: id in roots ==> id in retained || id in queue
      invariant retained + SetOf(queue) <= SetOf(roots) + AllRefs(declarations)
      invariant forall id :: id in retained ==>
                  && Known(declarations, id)
                  && forall u :: u in Refs(Find(declarations, id).value) ==> u in retained || u in queue
      invariant forall t: set<Id> :: Within(roots, t) && RefClosed(declarations, t) ==> retained + SetOf(queue) <= t
      decreases SetOf(roots) + AllRefs(declarations) - retained, |queue|
    {
      var id := queue[0];
      assert queue == [id] + queue[1..];
      assert id in SetOf(queue);
      queue := queue[1..];
      if id !in retained {
        retained := retained + {id};
        var found := BinarySearch(declarations, id);
        if found.None? {
          return Err(MissingDeclaration(id));
        }
        FindSpec(declarations, id);
        queue := queue + Refs(found.value);
      }
    }
    return Ok(retained);
  }

  // ----- the projection ------------------------------------------------------------------

  function KeepDeclaration(keep: set<Id>): Declaration -> bool { (d: Declaration) => d.id in keep }

  function KeepDiagnostic(keep: set<Id>): Diagnostic -> bool {
    (d: Diagnostic) => d.declaration.None? || d.declaration.value in keep
  }

  /** The package that `retain` hands to `try_new`. */
  function Projected(p: Package, keep: set<Id>): Package {
    var diagnostics := Filter(KeepDiagnostic(keep), p.diagnostics);
    p.(declarations := Filter(KeepDeclaration(keep), p.declarations),
       diagnostics := diagnostics,
       completeness := CompletenessFromDiagnostics(diagnostics))
  }

  function SupportedIds(declarations: seq<Declaration>): seq<Id> {
    if declarations == [] then []
    else (if declarations[0].support.Supported? then [declarations[0].id] else []) + SupportedIds(declarations[1..])
  }

  function RootIds(p: Package, sel: Selection): seq<Id> {
    match sel
    case AllSupported => SupportedIds(p.declarations)
    case Only(ids) => ids
    case OpaqueOnly(ids) => ids
  }

  /** The condition on which the projected package is valid: some kept diagnostic still forces
      incompleteness, or none of them is a recovery or a source-stage error. */
  predicate StaysExplained(p: Package, keep: set<Id>) {
    || (exists d :: d in p.diagnostics && KeepDiagnostic(keep)(d) && Forcing(d))
    || (forall d :: d in p.diagnostics && KeepDiagnostic(keep)(d) ==> !BreaksComplete(d))
  }

  lemma ProjectedSpec(p: Package, keep: set<Id>)
    ensures var q := Projected(p, keep);
            && (forall d :: d in q.declarations ==> d in p.declarations && d.id in keep)
            && (forall d :: d in p.declarations && d.id in keep ==> d in q.declarations)
            && (forall d :: d in q.diagnostics ==> d in p.diagnostics && KeepDiagnostic(keep)(d))
            && (forall d :: d in p.diagnostics && KeepDiagnostic(keep)(d) ==> d in q.diagnostics)
            && (Sorted(DECLARATIONS, p.declarations) ==> Sorted(DECLARATIONS, q.declarations))
            && (Sorted(DIAGNOSTICS, p.diagnostics) ==> Sorted(DIAGNOSTICS, q.diagnostics))
  {
    FilterSpec(DECLARATIONS, KeepDeclaration(keep), p.declarations);
    FilterSpec(DIAGNOSTICS, KeepDiagnostic(keep), p.diagnostics);
  }

  lemma ProjectedFind(p: Package, keep: set<Id>, id: Id)
    requires Sorted(DECLARATIONS, p.declarations)
    ensures Find(Projected(p, keep).declarations, id) == if id in keep then Find(p.declarations, id) else None
  {
    ProjectedSpec(p, keep);
    FindSpec(p.declarations, id);
    FindSpec(Projected(p, keep).declarations, id);
  }

  lemma ProjectedShared(p: Package, keep: set<Id>)
    requires Sorted(DECLARATIONS, p.declarations) && RefClosed(p.declarations, keep)
    requires forall id :: id in keep ==> Known(p.declarations, id)
    ensures Shared(p.declarations, Projected(p, keep).declarations, keep)
    ensures Shared(Projected(p, keep).declarations, p.declarations, keep)
  {
    ProjectedSpec(p, keep);
    forall id | id in keep
      ensures Find(Projected(p, keep).declarations, id) == Find(p.declarations, id)
      ensures Within(KindRefs(Find(p.declarations, id).value.kind), keep)
    {
      ProjectedFind(p, keep, id);
    }
  }

  lemma ProjectedDeclarations(p: Package, keep: set<Id>)
    requires Coherent(p) && RefClosed(p.declarations, keep)
    requires forall id :: id in keep ==> Known(p.declarations, id)
    ensures var q := Projected(p, keep);
            forall d :: d in q.declarations ==> DeclarationChecks(q.files, q.declarations, d)
  {
    var q := Projected(p, keep);
    ProjectedSpec(p, keep);
    ProjectedShared(p, keep);
    forall d | d in q.declarations ensures DeclarationChecks(q.files, q.declarations, d) {
      assert DeclarationChecks(p.files, p.declarations, d);
      FindSpec(p.declarations, d.id);
      assert Within(Refs(d), keep);
      SharedKind(p.declarations, q.declarations, keep, d.kind);
      if d.scope.OwnerScope? {
        assert d.scope.owner in Refs(d);
        ProjectedFind(p, keep, d.scope.owner);
      }
    }
  }

  /** Projecting a coherent package to a reference-closed set gives a coherent package exactly
      when its completeness is still explained by the diagnostics that stay. */
  lemma ProjectedValid(p: Package, keep: set<Id>)
    requires Coherent(p) && RefClosed(p.declarations, keep)
    requires forall id :: id in keep ==> Known(p.declarations, id)
    ensures Coherent(Projected(p, keep)) <==> StaysExplained(p, keep)
  {
    var q := Projected(p, keep);
    ProjectedSpec(p, keep);
    ProjectedShared(p, keep);
    ProjectedDeclarations(p, keep);
    forall d | d in q.diagnostics && d.declaration.Some? ensures Known(q.declarations, d.declaration.value) {
      ProjectedFind(p, keep, d.declaration.value);
    }
    if HasCycle(AliasTable(q.declarations)) {
      var x :| Reaches(AliasTable(q.declarations), x, x);
      ReachesStart(AliasTable(q.declarations), x, x);
      AliasTableSpec(q.declarations);
      SharedCycle(q.declarations, p.declarations, keep, x);
      assert false;
    }
    CompletenessExact(q.completeness, q.diagnostics);
    ProjectedCompleteness(p, keep);
  }

  /** The projection is complete exactly when no kept diagnostic forces incompleteness. */
  lemma ProjectedCompleteness(p: Package, keep: set<Id>)
    ensures Projected(p, keep).completeness.Complete? <==>
            !exists d :: d in p.diagnostics && KeepDiagnostic(keep)(d) && Forcing(d)
  {
    var q := Projected(p, keep);
    ProjectedSpec(p, keep);
    var reasons := ForcingReasons(q.diagnostics);
    if reasons != [] {
      assert reasons[0] in reasons;
      var d :| d in q.diagnostics && Forcing(d) && ReasonOf(d) == reasons[0];
    }
  }

  /** A projection is within the limits when the package is. */
  lemma ProjectedLimits(p: Package, keep: set<Id>)
    requires WithinLimits(p)
    ensures WithinLimits(Projected(p, keep))
  {
    ProjectedSpec(p, keep);
    FilterShrinks(KeepDeclaration(keep), p.declarations);
    FilterShrinks(KeepDiagnostic(keep), p.diagnostics);
  }

  lemma {:induction false} FilterShrinks<V>(keep: V -> bool, t: seq<V>)
    ensures |Filter(keep, t)| <= |t|
  {
    if t != [] { FilterShrinks(keep, t[1..]); }
  }

  /** A validated table is closed under its own references. */
  lemma KnownRefClosed(p: Package)
    requires Coherent(p)
    ensures RefClosed(p.declarations, Ids(p.declarations))
  {
    forall id | Known(p.declarations, id) ensures Within(Refs(Find(p.declarations, id).value), Ids(p.declarations)) {
      FindSpec(p.declarations, id);
      CheckedRefs(p.files, p.declarations, Find(p.declarations, id).value);
      forall u | u in Refs(Find(p.declarations, id).value) ensures u in Ids(p.declarations) {
        FindSpec(p.declarations, u);
      }
    }
  }

  /** Only a root can be missing from a validated package: the roots and the table are closed. */
  lemma OnlyRootsMissing(p: Package, roots: seq<Id>)
    requires Coherent(p)
    ensures Within(roots, SetOf(roots) + Ids(p.declarations))
    ensures RefClosed(p.declarations, SetOf(roots) + Ids(p.declarations))
  {
    KnownRefClosed(p);
    forall id | Known(p.declarations, id)
      ensures Within(Refs(Find(p.declarations, id).value), SetOf(roots) + Ids(p.declarations))
    {
      FindSpec(p.declarations, id);
    }
  }

  // ----- projecting twice ----------------------------------------------------------------

  lemma {:induction false} FilterAll<V>(keep: V -> bool, t: seq<V>)
    requires forall v :: v in t ==> keep(v)
    ensures Filter(keep, t) == t
  {
    if t != [] {
      FilterAll(keep, t[1..]);
      assert t == [t[0]] + t[1..];
    }
  }

  lemma {:induction false} SupportedIdsSpec(declarations: seq<Declaration>, id: Id)
    ensures id in SupportedIds(declarations) ==> exists d :: d in declarations && d.support.Supported? && d.id == id
    ensures (exists d :: d in declarations && d.support.Supported? && d.id == id) ==> id in SupportedIds(declarations)
  {
    if declarations != [] {
      SupportedIdsSpec(declarations[1..], id);
      assert declarations == [declarations[0]] + declarations[1..];
    }
  }

  lemma ProjectedRootIds(p: Package, sel: Selection, keep: set<Id>)
    requires Within(RootIds(p, sel), keep)
    ensures forall id :: id in RootIds(Projected(p, keep), sel) ==> id in RootIds(p, sel)
    ensures forall id :: id in RootIds(p, sel) ==> id in RootIds(Projected(p, keep), sel)
  {
    if sel.AllSupported? {
      ProjectedSpec(p, keep);
      forall id ensures id in SupportedIds(p.declarations) <==> id in SupportedIds(Projected(p, keep).declarations) {
        SupportedIdsSpec(p.declarations, id);
        SupportedIdsSpec(Projected(p, keep).declarations, id);
      }
    }
  }

  /** Retaining the same selection again changes nothing. */
  lemma RetainIdempotent(p: Package, sel: Selection, keep: set<Id>)
    requires Sorted(DECLARATIONS, p.declarations) && IsRefClosure(p.declarations, RootIds(p, sel), keep)
    requires forall id :: id in keep ==> Known(p.declarations, id)
    ensures var q := Projected(p, keep);
            IsRefClosure(q.declarations, RootIds(q, sel), keep) && Projected(q, keep) == q
  {
    var q := Projected(p, keep);
    ProjectedSpec(p, keep);
    ProjectedRootIds(p, sel, keep);
    FilterAll(KeepDeclaration(keep), q.declarations);
    FilterAll(KeepDiagnostic(keep), q.diagnostics);
    forall id | id in keep ensures Find(q.declarations, id) == Find(p.declarations, id) {
      ProjectedFind(p, keep, id);
    }
    forall t: set<Id> | Within(RootIds(q, sel), t) && RefClosed(q.declarations, t) ensures keep <= t {
      var both := t * keep;
      forall id | id in both && Known(p.declarations, id) ensures Within(Refs(Find(p.declarations, id).value), both) {
        assert Find(q.declarations, id) == Find(p.declarations, id);
      }
      assert keep <= both;
    }
  }

  // ----- projecting keeps a completeness proof -------------------------------------------

  lemma {:induction false} TypeEdgeIds(ty: CType, behind: bool)
    ensures forall e :: e in C.TypeEdges(ty, behind) ==> e.0 in TypeRefs(ty)
    decreases ty
  {
    match ty.kind
    case Pointer(pointee) => TypeEdgeIds(pointee, true);
    case Array(element, _, _) => TypeEdgeIds(element, behind);
    case Function(result, parameters, _, _) =>
      TypeEdgeIds(result, false);
      ParameterEdgeIds(parameters);
    case _ =>
  }

  lemma {:induction false} ParameterEdgeIds(parameters: seq<CParameter>)
    ensures forall e :: e in C.ParameterEdges(parameters) ==> e.0 in ParameterRefs(parameters)
    decreases parameters
  {
    if parameters != [] {
      assert parameters[0].ty < parameters[0];
      TypeEdgeIds(parameters[0].ty, false);
      ParameterEdgeIds(parameters[1..]);
    }
  }

  lemma {:induction false} MemberEdgeIds(members: seq<Member>)
    ensures forall e :: e in C.MemberEdges(members) ==> e.0 in MemberRefs(members)
  {
    if members != [] {
      TypeEdgeIds(members[0].ty, false);
      MemberEdgeIds(members[1..]);
    }
  }

  /** A need-dependent edge is always a reference. */
  lemma KindEdgeIds(kind: DeclarationKind, need: C.Need)
    ensures forall e :: e in C.KindEdges(kind, need) ==> e.0 in KindRefs(kind)
  {
    match kind
    case FunctionKind(_, result, parameters, _, _) =>
      TypeEdgeIds(result, false);
      MemberEdgeIds(parameters);
    case RecordKind(_, _, fields) => MemberEdgeIds(fields);
    case EnumKind(underlying, _) => if underlying.Some? { TypeEdgeIds(underlying.value, false); }
    case AliasKind(target) => TypeEdgeIds(target, need == C.OpaqueSufficient);
    case VariableKind(_, ty, _) => TypeEdgeIds(ty, false);
    case UnsupportedKind(_, _, _) =>
  }

  function RootOf(d: Declaration): C.Edge {
    (d.id, if d.kind.RecordKind? && !d.kind.complete then C.OpaqueSufficient else C.Definition)
  }

  lemma {:induction false} SupportedRootsSpec(declarations: seq<Declaration>, e: C.Edge)
    ensures e in C.SupportedRoots(declarations) ==>
              exists d :: d in declarations && d.support.Supported? && e == RootOf(d)
    ensures (exists d :: d in declarations && d.support.Supported? && e == RootOf(d)) ==>
              e in C.SupportedRoots(declarations)
  {
    if declarations != [] {
      SupportedRootsSpec(declarations[1..], e);
      assert declarations == [declarations[0]] + declarations[1..];
    }
  }

  /** The need roots name exactly the ids that `retain` starts from. */
  lemma RootEdgeIds(p: Package, sel: Selection)
    ensures forall e :: e in C.Roots(p, sel) ==> e.0 in RootIds(p, sel)
  {
    forall e | e in C.Roots(p, sel) ensures e.0 in RootIds(p, sel) {
      if sel.AllSupported? {
        SupportedRootsSpec(p.declarations, e);
        SupportedIdsSpec(p.declarations, e.0);
      }
    }
  }

  lemma ProjectedRoots(p: Package, sel: Selection, keep: set<Id>)
    requires Within(RootIds(p, sel), keep)
    ensures forall e :: e in C.Roots(p, sel) ==> e in C.Roots(Projected(p, keep), sel)
    ensures forall e :: e in C.Roots(Projected(p, keep), sel) ==> e in C.Roots(p, sel)
  {
    if sel.AllSupported? {
      ProjectedSpec(p, keep);
      RootEdgeIds(p, sel);
      forall e ensures e in C.Roots(p, sel) <==> e in C.Roots(Projected(p, keep), sel) {
        SupportedRootsSpec(p.declarations, e);
        SupportedRootsSpec(Projected(p, keep).declarations, e);
      }
    }
  }

  /** The need closure stays inside the reference closure. */
  lemma ClosureInside(p: Package, sel: Selection, keep: set<Id>, m: C.Requirements)
    requires C.IsClosure(p, sel, m) && Within(RootIds(p, sel), keep) && RefClosed(p.declarations, keep)
    ensures forall id :: id in m ==> id in keep
  {
    var all: C.Requirements := map id | id in keep :: C.Definition;
    RootEdgeIds(p, sel);
    forall id | id in all ensures C.HoldsAll(all, C.Edges(p, sel, id, all[id])) {
      EdgesInside(p, sel, keep, id, all[id]);
    }
    assert C.Below(m, all);
    forall id | id in m ensures id in keep {
      assert C.Holds(all, (id, m[id]));
    }
  }

  lemma EdgesInside(p: Package, sel: Selection, keep: set<Id>, id: Id, need: C.Need)
    requires id in keep && RefClosed(p.declarations, keep)
    ensures forall e :: e in C.Edges(p, sel, id, need) ==> e.0 in keep
  {
    if Known(p.declarations, id) {
      KindEdgeIds(Find(p.declarations, id).value.kind, need);
      assert Within(Refs(Find(p.declarations, id).value), keep);
    }
  }

  /** The least closure of the projected package is the original one. */
  lemma ProjectedClosure(p: Package, sel: Selection, keep: set<Id>, m: C.Requirements)
    requires Sorted(DECLARATIONS, p.declarations)
    requires C.IsClosure(p, sel, m) && Within(RootIds(p, sel), keep) && RefClosed(p.declarations, keep)
    ensures C.IsClosure(Projected(p, keep), sel, m)
    ensures forall id :: id in m ==>
              id in keep && C.Facts(Projected(p, keep), sel, id, m[id]) == C.Facts(p, sel, id, m[id])
  {
    hide Projected, C.KindEdges, C.DeclarationFacts, RefClosed;
    var q := Projected(p, keep);
    ClosureInside(p, sel, keep, m);
    ProjectedRoots(p, sel, keep);
    forall id | id in keep ensures Find(q.declarations, id) == Find(p.declarations, id) {
      ProjectedFind(p, keep, id);
    }
    forall c: C.Requirements | C.HoldsAll(c, C.Roots(q, sel)) && C.Closed(q, sel, c) ensures C.Below(m, c) {
      ClosedBelow(p, q, sel, keep, m, c);
    }
  }

  /** What is closed in the projection covers, inside the kept ids, what is least in the package. */
  lemma ClosedBelow(p: Package, q: Package, sel: Selection, keep: set<Id>, m: C.Requirements, c: C.Requirements)
    requires Sorted(DECLARATIONS, p.declarations)
    requires C.IsClosure(p, sel, m) && Within(RootIds(p, sel), keep) && RefClosed(p.declarations, keep)
    requires forall id :: id in keep ==> Find(q.declarations, id) == Find(p.declarations, id)
    requires forall e :: e in C.Roots(p, sel) ==> e in C.Roots(q, sel)
    requires C.HoldsAll(c, C.Roots(q, sel)) && C.Closed(q, sel, c)
    ensures C.Below(m, c)
  {
    hide C.KindEdges, C.Roots, RefClosed;
    var inside: C.Requirements := map id | id in c && id in keep :: c[id];
    RootEdgeIds(p, sel);
    forall e | e in C.Roots(p, sel) ensures C.Holds(inside, e) {
      assert C.Holds(c, e);
    }
    forall id | id in inside ensures C.HoldsAll(inside, C.Edges(p, sel, id, inside[id])) {
      EdgesInside(p, sel, keep, id, inside[id]);
      assert C.HoldsAll(c, C.Edges(q, sel, id, c[id]));
      forall e | e in C.Edges(p, sel, id, inside[id]) ensures C.Holds(inside, e) {
        assert C.Holds(c, e);
      }
    }
    assert C.Below(m, inside);
    forall id | id in m ensures C.Holds(c, (id, m[id])) {
      assert C.Holds(inside, (id, m[id]));
    }
  }

  lemma ProjectedPackageFacts(p: Package, keep: set<Id>)
    requires CompletenessAccepted(p.completeness, p.diagnostics) && C.PackageFacts(p) == []
    ensures C.PackageFacts(Projected(p, keep)) == []
  {
    var q := Projected(p, keep);
    ProjectedSpec(p, keep);
    ProjectedCompleteness(p, keep);
    if !q.completeness.Complete? {
      assert p.completeness.PartialPackage?;
      var scoped := C.ScopedTo(C.MacroCodes(p.macros));
      FilterSpec(DIAGNOSTICS, scoped, p.diagnostics);
      FilterSpec(DIAGNOSTICS, scoped, q.diagnostics);
      var kept := Filter(scoped, q.diagnostics);
      assert forall d :: d in kept ==> d in Filter(scoped, p.diagnostics);
      NonEmptyInside(kept, Filter(scoped, p.diagnostics));
    }
  }

  lemma NonEmptyInside<V>(s: seq<V>, t: seq<V>)
    requires forall v :: v in s ==> v in t
    ensures s != [] ==> t != []
  {
    if s != [] { assert s[0] in t; }
  }

  /** If a selection completes on a validated package, it completes on the retained package with
      the identical closure and needs. */
  lemma RetainKeepsCompleteness(p: Package, sel: Selection, keep: set<Id>, m: C.Requirements)
    requires Coherent(p) && IsRefClosure(p.declarations, RootIds(p, sel), keep)
    requires C.IsClosure(p, sel, m) && forall b :: !C.IsBlocker(p, sel, m, b)
    ensures C.IsClosure(Projected(p, keep), sel, m)
    ensures forall b :: !C.IsBlocker(Projected(p, keep), sel, m, b)
  {
    ProjectedClosure(p, sel, keep, m);
    if C.PackageFacts(p) != [] {
      assert C.IsBlocker(p, sel, m, C.PackageFacts(p)[0]);
      assert false;
    }
    ProjectedPackageFacts(p, keep);
    forall b ensures !C.IsBlocker(Projected(p, keep), sel, m, b) {
      assert !C.IsBlocker(p, sel, m, b);
    }
  }

  // ----- a projection that the validator refuses -----------------------------------------

  const ENTRY := File(0, true, "main.c")

  function Sample(id: Id, support: SupportStatus): Declaration {
    Declaration(id, TranslationUnit, "", [Occurrence(id, SourceRange(0, 0, 1), "d", [], "")], support,
                VariableKind("d", CType(NO_QUALIFIERS, Unspecified, Scalar("int"), Supported), false))
  }

  /** A recovered parse that forces nothing, beside a partly supported declaration. */
  function Troubled(): Package {
    var partly := PartialSupport("PARC-P1205", "attribute");
    var diagnostics := [
      Diagnostic("PARC-P1205", Extract, Warning, ForcesPartial, "attribute", None, Some(2)),
      Diagnostic("PARC-W0001", Recovery, Note, Informational, "recovered", None, None)];
    Package("t", [ENTRY], Inputs([0], ""), [Sample(1, Supported), Sample(2, partly)], [], diagnostics,
            PartialPackage([Reason("PARC-P1205", "attribute", None)]))
  }

  lemma TroubledDiagnostics()
    ensures Sorted(DIAGNOSTICS, Troubled().diagnostics)
  {
    hide TextLess;
    var d, note := Troubled().diagnostics[0], Troubled().diagnostics[1];
    assert d.code[..5] == "PARC-" && note.code[..5] == "PARC-" && d.code[5] == 'P' && note.code[5] == 'W';
    TextLessAt(d.code, note.code, 5);
  }

  lemma TroubledTables()
    ensures var p := Troubled();
            Sorted(DECLARATIONS, p.declarations) && Sorted(DIAGNOSTICS, p.diagnostics)
    ensures forall x :: x in Troubled().declarations ==> DeclarationChecks(Troubled().files, Troubled().declarations, x)
    ensures Find(Troubled().declarations, 1).Some? && Find(Troubled().declarations, 2).Some?
  {
    hide TextLess, DiagnosticLess;
    var p := Troubled();
    TroubledDiagnostics();
    LookupSorted(DECLARATIONS, p.declarations, p.declarations[0]);
    LookupSorted(DECLARATIONS, p.declarations, p.declarations[1]);
  }

  lemma TroubledCompleteness()
    ensures CompletenessAccepted(Troubled().completeness, Troubled().diagnostics)
  {
    hide TextLess, DiagnosticLess, ReasonLess;
    var p := Troubled();
    assert p.diagnostics[0] in p.diagnostics && ReasonOf(p.diagnostics[0]) == p.completeness.reasons[0];
  }

  lemma TroubledEntries()
    ensures EntryChecks(Troubled().files, Troubled().inputs.entryFiles) && Sorted(FILES, Troubled().files)
  {
    var p := Troubled();
    assert ENTRY in p.files;
  }

  lemma TroubledChecks()
    ensures Checks(Troubled())
  {
    hide EntryChecks, CompletenessAccepted, DeclarationChecks, Sorted;
    TroubledTables();
    TroubledEntries();
    TroubledCompleteness();
    NoMacros();
  }

  lemma NoMacros()
    ensures Sorted(MACROS, Troubled().macros) && Troubled().macros == []
  {
  }

  lemma TroubledCoherent()
    ensures Coherent(Troubled())
  {
    hide Checks;
    var p := Troubled();
    TroubledChecks();
    if HasCycle(AliasTable(p.declarations)) {
      var x :| Reaches(AliasTable(p.declarations), x, x);
      ReachesStart(AliasTable(p.declarations), x, x);
      AliasTableSpec(p.declarations);
      assert false;
    }
  }

  lemma TroubledClosure()
    ensures IsRefClosure(Troubled().declarations, RootIds(Troubled(), Only([1])), {1})
    ensures Known(Troubled().declarations, 1)
  {
    var declarations := Troubled().declarations;
    TroubledTables();
    FindSpec(declarations, 1);
    assert declarations[0] in declarations;
    assert Refs(declarations[0]) == [];
    assert RootIds(Troubled(), Only([1])) == [1];
  }

  lemma TroubledUnexplained()
    ensures !StaysExplained(Troubled(), {1})
  {
    assert Troubled().diagnostics[1] in Troubled().diagnostics && BreaksComplete(Troubled().diagnostics[1]);
  }

  lemma TroubledWithin()
    ensures WithinLimits(Troubled())
  {
  }

  /** Retaining the supported declaration alone drops the one forcing diagnostic, so the derived
      completeness is Complete while the recovery note stays: the validator refuses it. */
  lemma RetainRefusesTroubled()
    ensures Validated(Troubled())
    ensures IsRefClosure(Troubled().declarations, RootIds(Troubled(), Only([1])), {1})
    ensures !Validated(Projected(Troubled(), {1}))
  {
    hide Coherent, WithinLimits, StaysExplained, Projected;
    TroubledWithin();
    TroubledCoherent();
    TroubledClosure();
    TroubledUnexplained();
    ProjectedValid(Troubled(), {1});
  }

  lemma {:induction false} TextLessAt(a: string, b: string, i: nat)
    requires i < |a| && i < |b| && a[..i] == b[..i] && a[i] < b[i]
    ensures TextLess(a, b)
  {
    if i > 0 {
      assert a[0] == a[..i][0] && b[0] == b[..i][0];
      assert a[1..][..i - 1] == a[..i][1..] && b[1..][..i - 1] == b[..i][1..];
      TextLessAt(a[1..], b[1..], i - 1);
    }
  }
}
