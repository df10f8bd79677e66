/** What retaining a selection gives (src/contract/compose.rs, `retain`): the declarations that chains of references
    link to it, and what belongs to them. */
module Retaining {
  import opened Wrappers
  import opened Tables
  import opened Contract
  import opened AliasGraph
  import opened Validation
  import opened References
  import opened Retain
  import M = Merging

  // ----- references ------------------------------------------------------------------------

  /** The type names the declaration somewhere. */
  predicate Mentions(ty: CType, id: Id)
    decreases ty
  {
    match ty.kind
    case Pointer(pointee) => Mentions(pointee, id)
    case Array(element, _, _) => Mentions(element, id)
    case Function(result, parameters, _, _) =>
      Mentions(result, id) || exists c :: c in parameters && Mentions(c.ty, id)
    case AliasRef(other) => other == id
    case RecordRef(other) => other == id
    case EnumRef(other) => other == id
    case _ => false
  }

  /** The declaration is owned by another, or a type in it names that. */
  predicate Refers(d: Declaration, id: Id) {
    || d.scope == OwnerScope(id)
    || match d.kind
       case FunctionKind(_, result, parameters, _, _) =>
         Mentions(result, id) || exists m :: m in parameters && Mentions(m.ty, id)
       case RecordKind(_, _, fields) => exists m :: m in fields && Mentions(m.ty, id)
       case EnumKind(underlying, _) => underlying.Some? && Mentions(underlying.value, id)
       case AliasKind(target) => Mentions(target, id)
       case VariableKind(_, ty, _) => Mentions(ty, id)
       case UnsupportedKind(_, _, _) => false
  }

  lemma {:induction false} TypeRefsMean(ty: CType, id: Id)
    ensures id in TypeRefs(ty) <==> Mentions(ty, id)
    decreases ty
  {
    match ty.kind
    case Pointer(pointee) => TypeRefsMean(pointee, id);
    case Array(element, _, _) => TypeRefsMean(element, id);
    case Function(result, parameters, _, _) =>
      TypeRefsMean(result, id);
      ParameterRefsMean(parameters, id);
    case _ =>
  }

  lemma {:induction false} ParameterRefsMean(parameters: seq<CParameter>, id: Id)
    ensures id in ParameterRefs(parameters) <==> exists c :: c in parameters && Mentions(c.ty, id)
    decreases parameters
  {
    if parameters != [] {
      assert parameters[0].ty < parameters[0];
      TypeRefsMean(parameters[0].ty, id);
      ParameterRefsMean(parameters[1..], id);
      assert parameters == [parameters[0]] + parameters[1..];
    }
  }

  lemma {:induction false} MemberRefsMean(members: seq<Member>, id: Id)
    ensures id in MemberRefs(members) <==> exists m :: m in members && Mentions(m.ty, id)
    decreases members
  {
    hide TypeRefs, Mentions;
    if members != [] {
      TypeRefsMean(members[0].ty, id);
      MemberRefsMean(members[1..], id);
      assert members == [members[0]] + members[1..];
    }
  }

  /** The references that the walk follows are those. */
  lemma RefsMean(d: Declaration, id: Id)
    ensures id in Refs(d) <==> Refers(d, id)
  {
    hide TypeRefs, MemberRefs, Mentions;
    match d.kind
    case FunctionKind(_, result, parameters, _, _) =>
      TypeRefsMean(result, id);
      MemberRefsMean(parameters, id);
    case RecordKind(_, _, fields) => MemberRefsMean(fields, id);
    case EnumKind(underlying, _) => if underlying.Some? { TypeRefsMean(underlying.value, id); }
    case AliasKind(target) => TypeRefsMean(target, id);
    case VariableKind(_, ty, _) => TypeRefsMean(ty, id);
    case UnsupportedKind(_, _, _) =>
  }

  // ----- the selection and its chains ------------------------------------------------------

  /** The ids that a selection names: the listed ones, or those of every supported declaration. */
  ghost predicate IsStart(p: Package, sel: Selection, id: Id) {
    match sel
    case AllSupported => exists d :: d in p.declarations && d.id == id && d.support == Supported
    case Only(ids) => id in ids
    case OpaqueOnly(ids) => id in ids
  }

  lemma StartsMean(p: Package, sel: Selection, id: Id)
    ensures id in RootIds(p, sel) <==> IsStart(p, sel, id)
  {
    if sel.AllSupported? { SupportedIdsSpec(p.declarations, id); }
  }

  ghost predicate Step(p: Package, a: Id, b: Id) { exists d :: d in p.declarations && d.id == a && Refers(d, b) }

  ghost predicate Chain(p: Package, sel: Selection, path: seq<Id>) {
    path != [] && IsStart(p, sel, path[0]) && forall i :: 0 < i < |path| ==> Step(p, path[i - 1], path[i])
  }

  /** A chain of references leads from the selection to the id. */
  ghost predicate Linked(p: Package, sel: Selection, id: Id) {
    exists path :: Chain(p, sel, path) && path[|path| - 1] == id
  }

  lemma StepMeans(p: Package, a: Id, b: Id)
    requires Sorted(DECLARATIONS, p.declarations)
    ensures Step(p, a, b) <==> Known(p.declarations, a) && b in Refs(Find(p.declarations, a).value)
  {
    hide Refs, Refers;
    FindSpec(p.declarations, a);
    if Known(p.declarations, a) { RefsMean(Find(p.declarations, a).value, b); }
  }

  lemma {:induction false} ChainInside(p: Package, sel: Selection, keep: set<Id>, path: seq<Id>)
    requires Sorted(DECLARATIONS, p.declarations) && Chain(p, sel, path)
    requires Within(RootIds(p, sel), keep) && RefClosed(p.declarations, keep)
    ensures path[|path| - 1] in keep
    decreases |path|
  {
    hide RootIds, IsStart, Step, Refs;
    var n := |path| - 1;
    if n == 0 {
      StartsMean(p, sel, path[0]);
    } else {
      assert Chain(p, sel, path[..n]);
      ChainInside(p, sel, keep, path[..n]);
      StepMeans(p, path[n - 1], path[n]);
    }
  }

  lemma LinkedNext(p: Package, sel: Selection, a: Id, b: Id)
    requires Linked(p, sel, a) && Step(p, a, b)
    ensures Linked(p, sel, b)
  {
    hide Step, IsStart;
    var path :| Chain(p, sel, path) && path[|path| - 1] == a;
    var longer := path + [b];
    assert Chain(p, sel, longer) && longer[|longer| - 1] == b;
  }

  /** The closure is what the chains reach. */
  lemma LinkedExactly(p: Package, sel: Selection, keep: set<Id>)
    requires Sorted(DECLARATIONS, p.declarations) && IsRefClosure(p.declarations, RootIds(p, sel), keep)
    ensures forall id :: id in keep <==> Linked(p, sel, id)
  {
    hide Chain, Step, IsStart, Refs, RootIds, Linked;
    forall id | Linked(p, sel, id) ensures id in keep { LinkedInside(p, sel, keep, id); }
    var reached := set id | id in keep && Linked(p, sel, id);
    forall id | id in RootIds(p, sel) ensures id in reached {
      StartsMean(p, sel, id);
      StartLinked(p, sel, id);
    }
    forall id, u | id in reached && Known(p.declarations, id) && u in Refs(Find(p.declarations, id).value)
      ensures u in reached
    {
      StepMeans(p, id, u);
      LinkedNext(p, sel, id, u);
    }
    assert Within(RootIds(p, sel), reached) && RefClosed(p.declarations, reached);
    assert keep <= reached;
  }

  lemma LinkedInside(p: Package, sel: Selection, keep: set<Id>, id: Id)
    requires Sorted(DECLARATIONS, p.declarations) && Linked(p, sel, id)
    requires Within(RootIds(p, sel), keep) && RefClosed(p.declarations, keep)
    ensures id in keep
  {
    hide Step, IsStart, Refs, RootIds;
    var path :| Chain(p, sel, path) && path[|path| - 1] == id;
    ChainInside(p, sel, keep, path);
  }

  lemma StartLinked(p: Package, sel: Selection, id: Id)
    requires IsStart(p, sel, id)
    ensures Linked(p, sel, id)
  {
    assert Chain(p, sel, [id]);
  }

  // ----- the retained package --------------------------------------------------------------

  /** The linked declarations, the diagnostics that name one of them or none, and the completeness that these give;
      everything else stays. */
  ghost predicate IsRetained(p: Package, sel: Selection, q: Package) {
    && q.target == p.target && q.files == p.files && q.inputs == p.inputs && q.macros == p.macros
    && (forall i, j :: 0 <= i < j < |q.declarations| ==> q.declarations[i].id < q.declarations[j].id)
    && (forall d :: d in q.declarations <==> d in p.declarations && Linked(p, sel, d.id))
    && Sorted(DIAGNOSTICS, q.diagnostics)
    && (forall x :: x in q.diagnostics <==>
          x in p.diagnostics && (x.declaration.Some? ==> Linked(p, sel, x.declaration.value)))
    && M.Summarises(q.completeness, q.diagnostics)
  }

  lemma RetainedParts(p: Package, keep: set<Id>)
    ensures var q := Projected(p, keep);
            && q.target == p.target && q.files == p.files && q.inputs == p.inputs && q.macros == p.macros
            && q.completeness == CompletenessFromDiagnostics(q.diagnostics)
  {
    hide CompletenessFromDiagnostics;
  }

  lemma RetainedMeans(p: Package, sel: Selection, keep: set<Id>)
    requires Sorted(DECLARATIONS, p.declarations) && Sorted(DIAGNOSTICS, p.diagnostics)
    requires forall id :: id in keep <==> Linked(p, sel, id)
    ensures IsRetained(p, sel, Projected(p, keep))
  {
    hide Linked, M.Summarises, Projected, CompletenessFromDiagnostics, Sorted;
    var q := Projected(p, keep);
    RetainedParts(p, keep);
    ProjectedSpec(p, keep);
    M.Ascending(q);
    M.SummaryMeans(q.completeness, q.diagnostics);
  }

  lemma CoherentSorted(p: Package)
    requires Coherent(p)
    ensures Sorted(DECLARATIONS, p.declarations) && Sorted(DIAGNOSTICS, p.diagnostics)
  {
  }

  /** `SourcePackage::retain`, on a package that was checked under whatever limits. */
  method RetainSelection(p: Package, sel: Selection)
      returns (r: Result<Package, ComposeError>, ghost keep: set<Id>)
    requires Coherent(p)
    ensures r.Ok? ==> IsRetained(p, sel, r.value) && Validated(r.value)
    ensures (forall id :: IsStart(p, sel, id) ==>
               exists d :: d in p.declarations && d.id == id && (sel.OpaqueOnly? ==> d.kind.RecordKind?))
            ==> && (forall id :: id in keep <==> Linked(p, sel, id))
                && IsRefClosure(p.declarations, RootIds(p, sel), keep)
                && (r.Ok? <==> StaysExplained(p, keep) && WithinLimits(Projected(p, keep)))
                && (r.Err? ==> r.error == InvalidPackage)
    ensures r.Ok? ==> IsRefClosure(p.declarations, RootIds(p, sel), keep) && r.value == Projected(p, keep)
    ensures WithinLimits(p) ==> WithinLimits(Projected(p, keep))
    ensures r.Err? && r.error.MissingDeclaration? ==>
              IsStart(p, sel, r.error.id) && forall d :: d in p.declarations ==> d.id != r.error.id
    ensures r.Err? && r.error.OpaqueRootIsNotRecord? ==>
              && sel.OpaqueOnly? && r.error.id in sel.ids
              && exists d :: d in p.declarations && d.id == r.error.id && !d.kind.RecordKind?
    ensures r.Err? ==> r.error.MissingDeclaration? || r.error.OpaqueRootIsNotRecord? || r.error.InvalidPackage?
  {
    hide Checks, WithinLimits, Projected, StaysExplained, Linked, IsRetained, IsRefClosure;
    CoherentSorted(p);
    keep := {};
    forall id ensures id in RootIds(p, sel) <==> IsStart(p, sel, id) { StartsMean(p, sel, id); }
    if WithinLimits(p) {
      forall kept ensures WithinLimits(Projected(p, kept)) { ProjectedLimits(p, kept); }
    }
    if sel.OpaqueOnly? {
      for i := 0 to |sel.ids|
        invariant forall j :: 0 <= j < i ==> Known(p.declarations, sel.ids[j])
      {
        assert sel.ids[i] in RootIds(p, sel);
        FindSpec(p.declarations, sel.ids[i]);
        var found := BinarySearch(p.declarations, sel.ids[i]);
        if found.None? {
          return Err(MissingDeclaration(sel.ids[i])), keep;
        }
        if !found.value.kind.RecordKind? {
          return Err(OpaqueRootIsNotRecord(sel.ids[i])), keep;
        }
      }
    }
    var closure := DeclarationClosure(p.declarations, RootIds(p, sel));
    if closure.Err? {
      OnlyRootsMissing(p, RootIds(p, sel));
      FindSpec(p.declarations, closure.error.id);
      return Err(closure.error), keep;
    }
    keep := closure.value;
    LinkedExactly(p, sel, keep);
    RetainedMeans(p, sel, keep);
    ProjectedValid(p, keep);
    var built := TryNew(Projected(p, closure.value));
    return if built.Some? then Ok(built.value) else Err(InvalidPackage), keep;
  }
}
