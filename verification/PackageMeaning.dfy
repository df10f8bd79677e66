/** What it takes for a package to be built (src/contract/validate.rs), said of every row and of every type node
    anywhere in it. */
module PackageMeaning {
  import opened Wrappers
  import opened Tables
  import opened Contract
  import opened AliasGraph
  import opened Validation
  import opened References
  import M = Merging

  // ----- types inside types ----------------------------------------------------------------

  /** `inner` is a node of `ty`, `n` layers inside it. */
  ghost predicate Inside(ty: CType, inner: CType, n: nat)
    decreases n
  {
    if n == 0 then inner == ty
    else
      match ty.kind
      case Pointer(pointee) => Inside(pointee, inner, n - 1)
      case Array(element, _, _) => Inside(element, inner, n - 1)
      case Function(result, parameters, _, _) =>
        Inside(result, inner, n - 1) || exists c :: c in parameters && Inside(c.ty, inner, n - 1)
      case _ => false
  }

  /** One of the types that a declaration is made of. */
  ghost predicate Holds(kind: DeclarationKind, ty: CType) {
    match kind
    case FunctionKind(_, result, parameters, _, _) => ty == result || exists m :: m in parameters && m.ty == ty
    case RecordKind(_, _, fields) => exists m :: m in fields && m.ty == ty
    case EnumKind(underlying, _) => underlying == Some(ty)
    case AliasKind(target) => ty == target
    case VariableKind(_, t, _) => ty == t
    case UnsupportedKind(_, _, _) => false
  }

  /** A declaration with this id that `want` accepts. */
  ghost predicate There(declarations: seq<Declaration>, id: Id, want: DeclarationKind -> bool) {
    exists d :: d in declarations && d.id == id && want(d.kind)
  }

  const ANYTHING := (kind: DeclarationKind) => true
  const ALIAS := (kind: DeclarationKind) => kind.AliasKind?
  const RECORD := (kind: DeclarationKind) => kind.RecordKind?
  const ENUM := (kind: DeclarationKind) => kind.EnumKind?

  /** A type node on its own: `restrict` and nullability are for what is a pointer under its aliases, an unsupported
      form is not supported, and a reference leads to a declaration of its kind. */
  ghost predicate NodeSound(declarations: seq<Declaration>, ty: CType) {
    && (ty.qualifiers.isRestrict || ty.nullability != Unspecified ==> ResolvesToPointer(declarations, ty.kind))
    && (ty.kind.UnsupportedType? ==> ty.support != Supported)
    && (ty.kind.AliasRef? ==> There(declarations, ty.kind.id, ALIAS))
    && (ty.kind.RecordRef? ==> There(declarations, ty.kind.id, RECORD))
    && (ty.kind.EnumRef? ==> There(declarations, ty.kind.id, ENUM))
  }

  ghost predicate TypeSound(declarations: seq<Declaration>, ty: CType) {
    forall inner, n: nat :: Inside(ty, inner, n) ==> NodeSound(declarations, inner)
  }

  lemma ThereMeans(declarations: seq<Declaration>, id: Id, want: DeclarationKind -> bool)
    requires Sorted(DECLARATIONS, declarations)
    ensures There(declarations, id, want) <==> Known(declarations, id) && want(Find(declarations, id).value.kind)
  {
    FindSpec(declarations, id);
  }

  lemma InsideSelf(ty: CType)
    ensures Inside(ty, ty, 0)
  {
  }

  lemma InsideStep(ty: CType, part: CType)
    requires match ty.kind
             case Pointer(pointee) => part == pointee
             case Array(element, _, _) => part == element
             case Function(result, parameters, _, _) => part == result || exists c :: c in parameters && c.ty == part
             case _ => false
    ensures forall inner, n: nat :: Inside(part, inner, n) ==> Inside(ty, inner, n + 1)
  {
  }

  lemma {:induction false} CheckedNode(declarations: seq<Declaration>, ty: CType, inner: CType, n: nat)
    requires Sorted(DECLARATIONS, declarations) && TypeChecks(declarations, ty) && Inside(ty, inner, n)
    ensures NodeSound(declarations, inner)
    decreases n
  {
    if n == 0 {
      if ty.kind.AliasRef? || ty.kind.RecordRef? || ty.kind.EnumRef? {
        ThereMeans(declarations, ty.kind.id, ALIAS);
        ThereMeans(declarations, ty.kind.id, RECORD);
        ThereMeans(declarations, ty.kind.id, ENUM);
      }
      PointerMeans(declarations, ty.kind);
    } else {
      hide NodeSound;
      match ty.kind
      case Pointer(pointee) => CheckedNode(declarations, pointee, inner, n - 1);
      case Array(element, _, _) => CheckedNode(declarations, element, inner, n - 1);
      case Function(result, parameters, _, _) =>
        if Inside(result, inner, n - 1) {
          CheckedNode(declarations, result, inner, n - 1);
        } else {
          var c :| c in parameters && Inside(c.ty, inner, n - 1);
          CheckedNode(declarations, c.ty, inner, n - 1);
        }
    }
  }

  lemma PointerMeans(declarations: seq<Declaration>, kind: CTypeKind)
    ensures IsPointer(declarations, kind, {}) <==> ResolvesToPointer(declarations, kind)
  {
    IsPointerExact(declarations, kind, {});
  }

  lemma {:induction false} SoundChecked(declarations: seq<Declaration>, ty: CType)
    requires Sorted(DECLARATIONS, declarations) && TypeSound(declarations, ty)
    ensures TypeChecks(declarations, ty)
    decreases ty
  {
    InsideSelf(ty);
    assert NodeSound(declarations, ty);
    PointerMeans(declarations, ty.kind);
    hide Inside;
    match ty.kind
    case Pointer(pointee) =>
      InsideStep(ty, pointee);
      SoundChecked(declarations, pointee);
    case Array(element, _, _) =>
      InsideStep(ty, element);
      SoundChecked(declarations, element);
    case Function(result, parameters, _, _) =>
      InsideStep(ty, result);
      SoundChecked(declarations, result);
      forall c | c in parameters ensures TypeChecks(declarations, c.ty) {
        InsideStep(ty, c.ty);
        SoundChecked(declarations, c.ty);
      }
    case AliasRef(id) => ThereMeans(declarations, id, ALIAS);
    case RecordRef(id) => ThereMeans(declarations, id, RECORD);
    case EnumRef(id) => ThereMeans(declarations, id, ENUM);
    case _ =>
  }

  lemma TypeChecksMean(declarations: seq<Declaration>, ty: CType)
    requires Sorted(DECLARATIONS, declarations)
    ensures TypeChecks(declarations, ty) <==> TypeSound(declarations, ty)
  {
    if TypeChecks(declarations, ty) {
      forall inner, n: nat | Inside(ty, inner, n) ensures NodeSound(declarations, inner) {
        CheckedNode(declarations, ty, inner, n);
      }
    } else if TypeSound(declarations, ty) {
      SoundChecked(declarations, ty);
    }
  }

  // ----- depth -----------------------------------------------------------------------------

  lemma {:induction false} WithinNode(ty: CType, n: nat, inner: CType, m: nat)
    requires TypeWithin(ty, n) && Inside(ty, inner, m)
    ensures m <= n
    decreases m
  {
    if m > 0 {
      match ty.kind
      case Pointer(pointee) => WithinNode(pointee, n - 1, inner, m - 1);
      case Array(element, _, _) => WithinNode(element, n - 1, inner, m - 1);
      case Function(result, parameters, _, _) =>
        if Inside(result, inner, m - 1) {
          WithinNode(result, n - 1, inner, m - 1);
        } else {
          var c :| c in parameters && Inside(c.ty, inner, m - 1);
          WithinNode(c.ty, n - 1, inner, m - 1);
        }
    }
  }

  lemma {:induction false} DeepNode(ty: CType, n: nat)
    requires !TypeWithin(ty, n)
    ensures exists inner, m: nat :: Inside(ty, inner, m) && m > n
    decreases n
  {
    var part := match ty.kind
      case Pointer(pointee) => pointee
      case Array(element, _, _) => element
      case Function(result, parameters, _, _) =>
        if n > 0 && TypeWithin(result, n - 1)
        then (var c :| c in parameters && !TypeWithin(c.ty, n - 1); c.ty) else result
      case _ => ty;
    InsideStep(ty, part);
    if n == 0 {
      InsideSelf(part);
      assert Inside(ty, part, 1);
    } else {
      DeepNode(part, n - 1);
      var inner, m: nat :| Inside(part, inner, m) && m > n - 1;
      assert Inside(ty, inner, m + 1);
    }
  }

  // ----- alias cycles ----------------------------------------------------------------------

  /** Alias `a` is a declaration whose target mentions `b` somewhere. */
  ghost predicate Unfolds(declarations: seq<Declaration>, a: Id, b: Id) {
    exists d, inner, n: nat :: d in declarations && d.id == a && d.kind.AliasKind? && Inside(d.kind.target, inner, n)
                               && inner.kind == AliasRef(b)
  }

  /** Aliases that lead back to where they start. */
  ghost predicate Cycle(declarations: seq<Declaration>, path: seq<Id>) {
    && |path| >= 2 && path[0] == path[|path| - 1]
    && forall i :: 0 <= i < |path| - 1 ==> Unfolds(declarations, path[i], path[i + 1])
  }

  lemma {:induction false} MentionFound(ty: CType, id: Id)
    requires id in AliasRefs(ty)
    ensures exists inner, n: nat :: Inside(ty, inner, n) && inner.kind == AliasRef(id)
    decreases ty
  {
    match ty.kind
    case AliasRef(_) => InsideSelf(ty);
    case Pointer(pointee) =>
      MentionFound(pointee, id);
      InsideStep(ty, pointee);
      var inner, n: nat :| Inside(pointee, inner, n) && inner.kind == AliasRef(id);
      assert Inside(ty, inner, n + 1);
    case Array(element, _, _) =>
      MentionFound(element, id);
      InsideStep(ty, element);
      var inner, n: nat :| Inside(element, inner, n) && inner.kind == AliasRef(id);
      assert Inside(ty, inner, n + 1);
    case Function(result, parameters, _, _) =>
      var part := result;
      if id !in AliasRefs(result) {
        ParameterMentions(parameters, id);
        var c :| c in parameters && id in AliasRefs(c.ty);
        part := c.ty;
        MentionFound(c.ty, id);
      } else {
        MentionFound(result, id);
      }
      InsideStep(ty, part);
      var inner, n: nat :| Inside(part, inner, n) && inner.kind == AliasRef(id);
      assert Inside(ty, inner, n + 1);
  }

  lemma {:induction false} ParameterMentions(parameters: seq<CParameter>, id: Id)
    ensures id in ParameterAliasRefs(parameters) <==> exists c :: c in parameters && id in AliasRefs(c.ty)
    decreases parameters
  {
    if parameters != [] {
      ParameterMentions(parameters[1..], id);
      assert parameters == [parameters[0]] + parameters[1..];
    }
  }

  lemma {:induction false} MentionListed(ty: CType, id: Id, inner: CType, n: nat)
    requires Inside(ty, inner, n) && inner.kind == AliasRef(id)
    ensures id in AliasRefs(ty)
    decreases n
  {
    if n > 0 {
      match ty.kind
      case Pointer(pointee) => MentionListed(pointee, id, inner, n - 1);
      case Array(element, _, _) => MentionListed(element, id, inner, n - 1);
      case Function(result, parameters, _, _) =>
        ParameterMentions(parameters, id);
        if Inside(result, inner, n - 1) {
          MentionListed(result, id, inner, n - 1);
        } else {
          var c :| c in parameters && Inside(c.ty, inner, n - 1);
          MentionListed(c.ty, id, inner, n - 1);
        }
    }
  }

  lemma UnfoldsMeans(declarations: seq<Declaration>, a: Id, b: Id)
    requires Sorted(DECLARATIONS, declarations)
    ensures Unfolds(declarations, a, b) <==> a in AliasTable(declarations) && b in AliasTable(declarations)[a]
  {
    hide AliasTable, AliasRefs, Sorted;
    AliasTableSpec(declarations);
    FindSpec(declarations, a);
    if a in AliasTable(declarations) && b in AliasTable(declarations)[a] {
      var d :| d in declarations && d.id == a && d.kind.AliasKind?;
      MentionFound(d.kind.target, b);
      var inner, n: nat :| Inside(d.kind.target, inner, n) && inner.kind == AliasRef(b);
      assert Unfolds(declarations, a, b);
    } else if Unfolds(declarations, a, b) {
      var d, inner, n: nat :| d in declarations && d.id == a && d.kind.AliasKind? && Inside(d.kind.target, inner, n)
                              && inner.kind == AliasRef(b);
      MentionListed(d.kind.target, b, inner, n);
    }
  }

  /** The graph has a cycle exactly when aliases lead back to themselves. */
  lemma CycleMeans(declarations: seq<Declaration>)
    requires Sorted(DECLARATIONS, declarations)
    ensures HasCycle(AliasTable(declarations)) <==> exists path :: Cycle(declarations, path)
  {
    hide Unfolds, AliasTable;
    var g := AliasTable(declarations);
    if HasCycle(g) {
      var a :| Reaches(g, a, a);
      var path :| IsPath(g, path) && path[0] == a && path[|path| - 1] == a;
      forall i | 0 <= i < |path| - 1 ensures Unfolds(declarations, path[i], path[i + 1]) {
        assert IsEdge(g, path[i], path[i + 1]);
        UnfoldsMeans(declarations, path[i], path[i + 1]);
      }
      assert Cycle(declarations, path);
    }
    if exists path :: Cycle(declarations, path) {
      var path :| Cycle(declarations, path);
      forall i | 0 <= i < |path| - 1 ensures path[i] in g && path[i + 1] in g[path[i]] {
        UnfoldsMeans(declarations, path[i], path[i + 1]);
      }
      forall i | 0 <= i < |path| - 1 ensures IsEdge(g, path[i], path[i + 1]) {
        assert i + 1 == |path| - 1 ==> path[i + 1] == path[0];
      }
      assert IsPath(g, path);
      assert Reaches(g, path[0], path[0]);
    }
  }

  // ----- declarations ----------------------------------------------------------------------

  ghost predicate OccurrencesSound(occurrences: seq<Occurrence>) {
    occurrences != [] && forall i, j :: 0 <= i < j < |occurrences| ==> occurrences[i].id < occurrences[j].id
  }

  /** A declaration: its owner or file is there, an unsupported one is not supported, it occurs somewhere, a record
      without a definition has no fields, and all its types are sound and at most 64 layers deep. */
  ghost predicate DeclarationSound(p: Package, d: Declaration) {
    && (d.scope.FileScope? ==> exists f :: f in p.files && f.id == d.scope.file)
    && (d.scope.OwnerScope? ==> There(p.declarations, d.scope.owner, ANYTHING))
    && (d.kind.UnsupportedKind? ==> d.support != Supported)
    && OccurrencesSound(d.occurrences)
    && (d.kind.RecordKind? && !d.kind.complete ==> d.kind.fields == [])
    && (forall ty :: Holds(d.kind, ty) ==> TypeSound(p.declarations, ty))
    && (forall ty :: Holds(d.kind, ty) ==> Shallow(ty))
  }

  /** No node is more than 64 layers deep. */
  ghost predicate Shallow(ty: CType) { forall inner, n: nat :: Inside(ty, inner, n) ==> n <= 64 }

  lemma KindMeans(declarations: seq<Declaration>, kind: DeclarationKind)
    requires Sorted(DECLARATIONS, declarations)
    ensures KindChecks(declarations, kind)
       <==> && (kind.RecordKind? && !kind.complete ==> kind.fields == [])
            && forall ty :: Holds(kind, ty) ==> TypeSound(declarations, ty)
  {
    hide TypeChecks, TypeSound;
    forall ty ensures TypeChecks(declarations, ty) <==> TypeSound(declarations, ty) {
      TypeChecksMean(declarations, ty);
    }
    if KindChecks(declarations, kind) {
      assert forall ty :: Holds(kind, ty) ==> TypeChecks(declarations, ty);
    }
    if forall ty :: Holds(kind, ty) ==> TypeSound(declarations, ty) {
      match kind
      case FunctionKind(_, result, parameters, _, _) =>
        assert Holds(kind, result);
        forall m | m in parameters ensures TypeChecks(declarations, m.ty) { assert Holds(kind, m.ty); }
      case RecordKind(_, _, fields) =>
        forall m | m in fields ensures TypeChecks(declarations, m.ty) { assert Holds(kind, m.ty); }
      case EnumKind(underlying, _) => if underlying.Some? { assert Holds(kind, underlying.value); }
      case AliasKind(target) => assert Holds(kind, target);
      case VariableKind(_, ty, _) => assert Holds(kind, ty);
      case UnsupportedKind(_, _, _) =>
    }
  }

  lemma DepthMeans(kind: DeclarationKind)
    ensures KindWithin(kind) <==> forall ty :: Holds(kind, ty) ==> Shallow(ty)
  {
    hide TypeWithin, Shallow;
    forall ty ensures TypeWithin(ty, 64) <==> Shallow(ty) { ShallowMeans(ty); }
    if KindWithin(kind) {
      assert forall ty :: Holds(kind, ty) ==> TypeWithin(ty, 64);
    }
    if forall ty :: Holds(kind, ty) ==> Shallow(ty) {
      match kind
      case FunctionKind(_, result, parameters, _, _) =>
        assert Holds(kind, result);
        forall m | m in parameters ensures TypeWithin(m.ty, 64) { assert Holds(kind, m.ty); }
      case RecordKind(_, _, fields) =>
        forall m | m in fields ensures TypeWithin(m.ty, 64) { assert Holds(kind, m.ty); }
      case EnumKind(underlying, _) => if underlying.Some? { assert Holds(kind, underlying.value); }
      case AliasKind(target) => assert Holds(kind, target);
      case VariableKind(_, ty, _) => assert Holds(kind, ty);
      case UnsupportedKind(_, _, _) =>
    }
  }

  lemma ShallowMeans(ty: CType)
    ensures TypeWithin(ty, 64) <==> Shallow(ty)
  {
    if TypeWithin(ty, 64) {
      forall inner, n: nat | Inside(ty, inner, n) ensures n <= 64 { WithinNode(ty, 64, inner, n); }
    } else {
      DeepNode(ty, 64);
      var inner, n: nat :| Inside(ty, inner, n) && n > 64;
    }
  }

  lemma OccurrencesMean(occurrences: seq<Occurrence>)
    ensures occurrences != [] && Sorted(OCCURRENCES, occurrences) <==> OccurrencesSound(occurrences)
  {
    M.OccurrencesAscend(occurrences);
  }

  lemma FileMeans(files: seq<File>, id: Id)
    ensures Lookup(FILES, files, id).Some? <==> exists f :: f in files && f.id == id
  {
    LookupFinds(FILES, files, id);
    assert forall f: File :: FILES.key(f) == f.id;
  }

  lemma DeclarationMeans(p: Package, d: Declaration)
    requires Sorted(DECLARATIONS, p.declarations)
    ensures DeclarationChecks(p.files, p.declarations, d) && KindWithin(d.kind) <==> DeclarationSound(p, d)
  {
    hide KindChecks, KindWithin, TypeSound, Shallow, Holds, OccurrencesSound, There, Sorted;
    OccurrencesMean(d.occurrences);
    if d.scope.FileScope? { FileMeans(p.files, d.scope.file); }
    if d.scope.OwnerScope? { ThereMeans(p.declarations, d.scope.owner, ANYTHING); }
    KindMeans(p.declarations, d.kind);
    DepthMeans(d.kind);
  }

  // ----- packages --------------------------------------------------------------------------

  /** A package: every table in its order and of a bounded size, every declaration sound, no alias cycle, the entry
      files exactly the marked ones, every diagnostic about something that is there, and the completeness that the
      diagnostics give, complete only without a failure of an earlier stage. */
  ghost predicate Sound(p: Package) {
    && (forall i, j :: 0 <= i < j < |p.files| ==> p.files[i].id < p.files[j].id)
    && (forall i, j :: 0 <= i < j < |p.declarations| ==> p.declarations[i].id < p.declarations[j].id)
    && (forall i, j :: 0 <= i < j < |p.macros| ==> p.macros[i].id < p.macros[j].id)
    && Sorted(DIAGNOSTICS, p.diagnostics)
    && |p.files| <= 16_384 && |p.declarations| <= 1_000_000 && |p.macros| <= 1_000_000 && |p.diagnostics| <= 1_000_000
    && (forall d :: d in p.declarations ==> DeclarationSound(p, d))
    && (forall path :: !Cycle(p.declarations, path))
    && (forall m :: m in p.macros ==> OccurrencesSound(m.occurrences))
    && (forall x :: x in p.diagnostics && x.declaration.Some? ==> There(p.declarations, x.declaration.value, ANYTHING))
    && EntriesSound(p.files, p.inputs.entryFiles)
    && M.Summarises(p.completeness, p.diagnostics)
    && (p.completeness.Complete? ==> forall x :: x in p.diagnostics ==> !Failure(x))
  }

  /** The entries are in order, there is one, and they are the ids of the marked files. */
  ghost predicate EntriesSound(files: seq<File>, entries: seq<Id>) {
    && entries != [] && (forall i, j :: 0 <= i < j < |entries| ==> entries[i] < entries[j])
    && forall id :: id in entries <==> MarkedIn(files, id)
  }

  /** A recovery, or an error of configuration, preprocessing or parsing. */
  predicate Failure(x: Diagnostic) {
    || x.stage == Recovery
    || (x.severity == Error && (x.stage == Configuration || x.stage == Preprocess || x.stage == Parse))
  }

  lemma EntriesMean(files: seq<File>, entries: seq<Id>)
    requires Sorted(FILES, files)
    ensures EntryChecks(files, entries) <==> EntriesSound(files, entries)
  {
    assert Sorted(IDS, entries) <==> forall i, j :: 0 <= i < j < |entries| ==> entries[i] < entries[j] by {
      M.AscendingKeys(IDS, entries);
    }
    forall id ensures MarkedIn(files, id)
                 <==> Lookup(FILES, files, id).Some? && Lookup(FILES, files, id).value.isEntry
    {
      MarkedMeans(files, id);
    }
    hide Lookup, Sorted;
    assert (forall f :: f in files && f.isEntry ==> f.id in entries)
      <==> (forall id :: MarkedIn(files, id) ==> id in entries) by {
      forall f | f in files && f.isEntry ensures MarkedIn(files, f.id) { }
    }
  }

  ghost predicate MarkedIn(files: seq<File>, id: Id) { exists f :: f in files && f.id == id && f.isEntry }

  lemma MarkedMeans(files: seq<File>, id: Id)
    requires Sorted(FILES, files)
    ensures MarkedIn(files, id) <==> Lookup(FILES, files, id).Some? && Lookup(FILES, files, id).value.isEntry
  {
    assert forall f: File :: FILES.key(f) == f.id;
    assert FILES.Valid();
    M.RowOf(FILES, files, id);
  }

  lemma CompletenessMeans(c: Completeness, diagnostics: seq<Diagnostic>)
    ensures CompletenessAccepted(c, diagnostics)
       <==> M.Summarises(c, diagnostics) && (c.Complete? ==> forall x :: x in diagnostics ==> !Failure(x))
  {
    hide CompletenessFromDiagnostics;
    CompletenessExact(c, diagnostics);
    M.SummaryMeans(c, diagnostics);
    if M.Summarises(c, diagnostics) && c.Complete? {
      assert forall x :: x in diagnostics ==> (BreaksComplete(x) <==> Failure(x));
    }
  }

  lemma ChecksMean(p: Package)
    ensures Checks(p) && (forall d :: d in p.declarations ==> KindWithin(d.kind))
       <==> && Sorted(FILES, p.files) && Sorted(DECLARATIONS, p.declarations) && Sorted(MACROS, p.macros)
            && Sorted(DIAGNOSTICS, p.diagnostics)
            && (forall d :: d in p.declarations ==> DeclarationSound(p, d))
            && (forall m :: m in p.macros ==> OccurrencesSound(m.occurrences))
            && (forall x :: x in p.diagnostics && x.declaration.Some? ==>
                  There(p.declarations, x.declaration.value, ANYTHING))
            && EntriesSound(p.files, p.inputs.entryFiles)
            && M.Summarises(p.completeness, p.diagnostics)
            && (p.completeness.Complete? ==> forall x :: x in p.diagnostics ==> !Failure(x))
  {
    hide DeclarationChecks, DeclarationSound, KindWithin, EntryChecks, EntriesSound, CompletenessAccepted, M.Summarises;
    hide Failure, There, OccurrencesSound, Sorted;
    if Sorted(DECLARATIONS, p.declarations) && Sorted(FILES, p.files) {
      forall d ensures DeclarationChecks(p.files, p.declarations, d) && KindWithin(d.kind) <==> DeclarationSound(p, d) {
        DeclarationMeans(p, d);
      }
      forall id ensures There(p.declarations, id, ANYTHING) <==> Known(p.declarations, id) {
        ThereMeans(p.declarations, id, ANYTHING);
      }
      EntriesMean(p.files, p.inputs.entryFiles);
    }
    forall m: Macro ensures MacroChecks(m) <==> OccurrencesSound(m.occurrences) { OccurrencesMean(m.occurrences); }
    CompletenessMeans(p.completeness, p.diagnostics);
  }

  /** What the validator accepts is exactly what is sound. */
  lemma ValidatedExactly(p: Package)
    ensures Validated(p) <==> Sound(p)
  {
    hide Checks, DeclarationSound, KindWithin, EntriesSound, M.Summarises, Failure, There, OccurrencesSound, Sorted;
    hide Cycle, HasCycle;
    ChecksMean(p);
    M.Ascending(p);
    if Sorted(DECLARATIONS, p.declarations) { CycleMeans(p.declarations); }
  }
}
