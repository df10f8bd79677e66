/** Composition (src/contract/compose.rs, `merge`): a partial join of two packages, and why two
    coherent packages merge into a coherent one, validated unless it has grown over a limit. */
module Merge {
  import opened Wrappers
  import T = Tables
  import opened Contract
  import opened AliasGraph
  import opened Validation
  import opened References
  import opened Retain

  // ----- row joins -----------------------------------------------------------------------

  predicate SameDeclaration(a: Declaration, b: Declaration) {
    a.scope == b.scope && a.header == b.header && a.support == b.support && a.kind == b.kind
  }

  /** Equal-id declarations agree on everything but their occurrences, which are united. */
  function JoinDeclaration(a: Declaration, b: Declaration): Option<Declaration> {
    if !SameDeclaration(a, b) then None
    else
      match T.Merge(OCCURRENCES, T.SameRow<Occurrence>, a.occurrences, b.occurrences)
      case Some(occurrences) => Some(a.(occurrences := occurrences))
      case None => None
  }

  function JoinMacro(a: Macro, b: Macro): Option<Macro> {
    if a.header != b.header || a.support != b.support then None
    else
      match T.Merge(OCCURRENCES, T.SameRow<Occurrence>, a.occurrences, b.occurrences)
      case Some(occurrences) => Some(a.(occurrences := occurrences))
      case None => None
  }

  predicate CanonicalDeclaration(d: Declaration) { T.Sorted(OCCURRENCES, d.occurrences) }

  predicate CanonicalMacro(m: Macro) { T.Sorted(OCCURRENCES, m.occurrences) }

  lemma OccurrenceLaws(a: seq<Occurrence>, b: seq<Occurrence>, c: seq<Occurrence>)
    requires T.Sorted(OCCURRENCES, a) && T.Sorted(OCCURRENCES, b) && T.Sorted(OCCURRENCES, c)
    ensures T.Merge(OCCURRENCES, T.SameRow<Occurrence>, a, a) == Some(a)
    ensures T.Merge(OCCURRENCES, T.SameRow<Occurrence>, a, b) == T.Merge(OCCURRENCES, T.SameRow<Occurrence>, b, a)
    ensures T.Merge(OCCURRENCES, T.SameRow<Occurrence>, a, b).Some? ==>
              T.Sorted(OCCURRENCES, T.Merge(OCCURRENCES, T.SameRow<Occurrence>, a, b).value)
    ensures T.MergeLeft(OCCURRENCES, T.SameRow<Occurrence>, a, b, c)
         == T.MergeRight(OCCURRENCES, T.SameRow<Occurrence>, a, b, c)
  {
    T.SameRowLaws<Occurrence, Id>(OCCURRENCES);
    T.MergeIdempotent(OCCURRENCES, T.Always<Occurrence>, T.SameRow<Occurrence>, a);
    T.MergeCommutes(OCCURRENCES, T.Always<Occurrence>, T.SameRow<Occurrence>, a, b);
    T.MergeSpec(OCCURRENCES, T.SameRow<Occurrence>, a, b);
    T.MergeAssociates(OCCURRENCES, T.Always<Occurrence>, T.SameRow<Occurrence>, a, b, c);
  }

  /** Joining declarations is a partial join on canonical rows. */
  lemma DeclarationLaws()
    ensures T.Laws(DECLARATIONS, CanonicalDeclaration, JoinDeclaration)
  {
    forall a, b, c | CanonicalDeclaration(a) && CanonicalDeclaration(b) && CanonicalDeclaration(c)
                     && a.id == b.id == c.id
      ensures JoinDeclaration(a, a) == Some(a) && JoinDeclaration(a, b) == JoinDeclaration(b, a)
      ensures JoinDeclaration(a, b).Some? ==> CanonicalDeclaration(JoinDeclaration(a, b).value)
      ensures T.JoinLeft(JoinDeclaration, a, b, c) == T.JoinRight(JoinDeclaration, a, b, c)
    {
      OccurrenceLaws(a.occurrences, b.occurrences, c.occurrences);
    }
  }

  lemma MacroLaws()
    ensures T.Laws(MACROS, CanonicalMacro, JoinMacro)
  {
    forall a, b, c | CanonicalMacro(a) && CanonicalMacro(b) && CanonicalMacro(c) && a.id == b.id == c.id
      ensures JoinMacro(a, a) == Some(a) && JoinMacro(a, b) == JoinMacro(b, a)
      ensures JoinMacro(a, b).Some? ==> CanonicalMacro(JoinMacro(a, b).value)
      ensures T.JoinLeft(JoinMacro, a, b, c) == T.JoinRight(JoinMacro, a, b, c)
    {
      OccurrenceLaws(a.occurrences, b.occurrences, c.occurrences);
    }
  }

  lemma JoinKeepsKey()
    ensures T.KeepsKey(DECLARATIONS, JoinDeclaration) && T.KeepsKey(MACROS, JoinMacro)
  {
  }

  // ----- packages ------------------------------------------------------------------------

  function MergeInputs(a: Inputs, b: Inputs): Option<Inputs> {
    if a.settings != b.settings then None
    else
      match T.Merge(IDS, T.SameRow<Id>, a.entryFiles, b.entryFiles)
      case Some(entries) => Some(Inputs(entries, a.settings))
      case None => None
  }

  /** The package that `merge` hands to `try_new`, when the parts can be joined. */
  function Merged(p: Package, q: Package): Option<Package> {
    if p.target != q.target then None
    else
      match (MergeInputs(p.inputs, q.inputs),
             T.Merge(FILES, T.SameRow<File>, p.files, q.files),
             T.Merge(DECLARATIONS, JoinDeclaration, p.declarations, q.declarations),
             T.Merge(MACROS, JoinMacro, p.macros, q.macros),
             T.Merge(DIAGNOSTICS, T.SameRow<Diagnostic>, p.diagnostics, q.diagnostics))
      case (Some(inputs), Some(files), Some(declarations), Some(macros), Some(diagnostics)) =>
        var completeness := CompletenessFromDiagnostics(diagnostics);
        Some(Package(p.target, files, inputs, declarations, macros, diagnostics, completeness))
      case _ => None
  }

  /** The tables of a package are in canonical order. */
  ghost predicate Canonical(p: Package) {
    && T.Sorted(FILES, p.files) && T.Sorted(IDS, p.inputs.entryFiles)
    && T.Sorted(DECLARATIONS, p.declarations) && T.Sorted(MACROS, p.macros) && T.Sorted(DIAGNOSTICS, p.diagnostics)
    && (forall d :: d in p.declarations ==> CanonicalDeclaration(d))
    && (forall m :: m in p.macros ==> CanonicalMacro(m))
    && p.completeness == CompletenessFromDiagnostics(p.diagnostics)
  }

  lemma CoherentCanonical(p: Package)
    requires Coherent(p)
    ensures Canonical(p)
  {
    CompletenessExact(p.completeness, p.diagnostics);
    forall d | d in p.declarations ensures CanonicalDeclaration(d) {
      assert DeclarationChecks(p.files, p.declarations, d);
    }
    forall m | m in p.macros ensures CanonicalMacro(m) {
      assert MacroChecks(m);
    }
  }

  lemma TableLaws()
    ensures T.Laws(FILES, T.Always<File>, T.SameRow<File>)
    ensures T.Laws(IDS, T.Always<Id>, T.SameRow<Id>)
    ensures T.Laws(DIAGNOSTICS, T.Always<Diagnostic>, T.SameRow<Diagnostic>)
  {
    T.SameRowLaws<File, Id>(FILES);
    T.SameRowLaws<Id, Id>(IDS);
    T.SameRowLaws<Diagnostic, Diagnostic>(DIAGNOSTICS);
  }

  /** Merging is commutative: both orders fail, or both give the same package. */
  lemma MergeCommutes(p: Package, q: Package)
    requires Canonical(p) && Canonical(q)
    ensures Merged(p, q) == Merged(q, p)
  {
    hide T.Merge, JoinDeclaration, JoinMacro, CompletenessFromDiagnostics;
    TableLaws();
    DeclarationLaws();
    MacroLaws();
    DiagnosticsOrdered();
    T.MergeCommutes(IDS, T.Always<Id>, T.SameRow<Id>, p.inputs.entryFiles, q.inputs.entryFiles);
    T.MergeCommutes(FILES, T.Always<File>, T.SameRow<File>, p.files, q.files);
    T.MergeCommutes(DECLARATIONS, CanonicalDeclaration, JoinDeclaration, p.declarations, q.declarations);
    T.MergeCommutes(MACROS, CanonicalMacro, JoinMacro, p.macros, q.macros);
    T.MergeCommutes(DIAGNOSTICS, T.Always<Diagnostic>, T.SameRow<Diagnostic>, p.diagnostics, q.diagnostics);
  }

  /** Merging a package with itself gives it back. */
  lemma MergeIdempotent(p: Package)
    requires Canonical(p)
    ensures Merged(p, p) == Some(p)
  {
    hide T.Merge, JoinDeclaration, JoinMacro, CompletenessFromDiagnostics;
    TableLaws();
    DeclarationLaws();
    MacroLaws();
    DiagnosticsOrdered();
    T.MergeIdempotent(IDS, T.Always<Id>, T.SameRow<Id>, p.inputs.entryFiles);
    T.MergeIdempotent(FILES, T.Always<File>, T.SameRow<File>, p.files);
    T.MergeIdempotent(DECLARATIONS, CanonicalDeclaration, JoinDeclaration, p.declarations);
    T.MergeIdempotent(MACROS, CanonicalMacro, JoinMacro, p.macros);
    T.MergeIdempotent(DIAGNOSTICS, T.Always<Diagnostic>, T.SameRow<Diagnostic>, p.diagnostics);
  }

  function MergedLeft(p: Package, q: Package, r: Package): Option<Package> {
    match Merged(p, q) case Some(x) => Merged(x, r) case None => None
  }

  function MergedRight(p: Package, q: Package, r: Package): Option<Package> {
    match Merged(q, r) case Some(x) => Merged(p, x) case None => None
  }

  lemma EntriesAssociate(a: Inputs, b: Inputs, c: Inputs)
    requires T.Sorted(IDS, a.entryFiles) && T.Sorted(IDS, b.entryFiles) && T.Sorted(IDS, c.entryFiles)
    ensures (match MergeInputs(a, b) case Some(x) => MergeInputs(x, c) case None => None)
         == (match MergeInputs(b, c) case Some(x) => MergeInputs(a, x) case None => None)
  {
    T.SameRowLaws<Id, Id>(IDS);
    T.MergeAssociates(IDS, T.Always<Id>, T.SameRow<Id>, a.entryFiles, b.entryFiles, c.entryFiles);
    T.MergeSpec(IDS, T.SameRow<Id>, a.entryFiles, b.entryFiles);
    T.MergeSpec(IDS, T.SameRow<Id>, b.entryFiles, c.entryFiles);
  }

  /** Merging is associative: both groupings fail, or both give the same package. */
  lemma MergeAssociates(p: Package, q: Package, r: Package)
    requires Canonical(p) && Canonical(q) && Canonical(r)
    ensures MergedLeft(p, q, r) == MergedRight(p, q, r)
  {
    hide T.Merge, JoinDeclaration, JoinMacro, CompletenessFromDiagnostics;
    TableLaws();
    DeclarationLaws();
    MacroLaws();
    DiagnosticsOrdered();
    EntriesAssociate(p.inputs, q.inputs, r.inputs);
    T.MergeAssociates(FILES, T.Always<File>, T.SameRow<File>, p.files, q.files, r.files);
    T.MergeAssociates(DECLARATIONS, CanonicalDeclaration, JoinDeclaration,
                      p.declarations, q.declarations, r.declarations);
    T.MergeAssociates(MACROS, CanonicalMacro, JoinMacro, p.macros, q.macros, r.macros);
    T.MergeAssociates(DIAGNOSTICS, T.Always<Diagnostic>, T.SameRow<Diagnostic>,
                      p.diagnostics, q.diagnostics, r.diagnostics);
  }

  // ----- merging keeps validity ----------------------------------------------------------

  lemma MergedFind(p: Package, q: Package, m: Package, id: Id)
    requires Canonical(p) && Canonical(q) && Merged(p, q) == Some(m)
    ensures T.Sorted(DECLARATIONS, m.declarations)
    ensures Known(m.declarations, id) <==> Known(p.declarations, id) || Known(q.declarations, id)
    ensures Known(p.declarations, id) ==>
              SameDeclaration(Find(p.declarations, id).value, Find(m.declarations, id).value)
    ensures Known(q.declarations, id) ==>
              SameDeclaration(Find(q.declarations, id).value, Find(m.declarations, id).value)
  {
    JoinKeepsKey();
    T.MergeAt(DECLARATIONS, JoinDeclaration, p.declarations, q.declarations, m.declarations, id);
  }

  /** Each side's table is a reference-closed part of the merge. */
  lemma MergedShared(p: Package, q: Package, m: Package)
    requires Coherent(p) && Coherent(q) && Merged(p, q) == Some(m)
    ensures Shared(p.declarations, m.declarations, Ids(p.declarations))
    ensures Shared(m.declarations, p.declarations, Ids(p.declarations))
    ensures Shared(q.declarations, m.declarations, Ids(q.declarations))
    ensures Shared(m.declarations, q.declarations, Ids(q.declarations))
  {
    CoherentCanonical(p);
    CoherentCanonical(q);
    KnownRefClosed(p);
    KnownRefClosed(q);
    MergedFind(p, q, m, 0);
    MergedSideShared(p, q, m, p);
    MergedSideShared(p, q, m, q);
  }

  lemma MergedSideShared(p: Package, q: Package, m: Package, side: Package)
    requires Canonical(p) && Canonical(q) && Merged(p, q) == Some(m) && (side == p || side == q)
    requires RefClosed(side.declarations, Ids(side.declarations)) && T.Sorted(DECLARATIONS, m.declarations)
    ensures Shared(side.declarations, m.declarations, Ids(side.declarations))
    ensures Shared(m.declarations, side.declarations, Ids(side.declarations))
  {
    forall id | id in Ids(side.declarations)
      ensures Known(side.declarations, id) && Known(m.declarations, id)
      ensures Find(side.declarations, id).value.kind == Find(m.declarations, id).value.kind
      ensures Within(KindRefs(Find(side.declarations, id).value.kind), Ids(side.declarations))
    {
      FindSpec(side.declarations, id);
      MergedFind(p, q, m, id);
      assert Within(Refs(Find(side.declarations, id).value), Ids(side.declarations));
    }
  }

  /** A type of one package resolves to a pointer in the merge exactly when it did before. */
  lemma MergedPointer(p: Package, q: Package, m: Package, ty: CType)
    requires Coherent(p) && Coherent(q) && Merged(p, q) == Some(m)
    requires Within(TypeRefs(ty), Ids(p.declarations))
    ensures IsPointer(m.declarations, ty.kind, {}) == IsPointer(p.declarations, ty.kind, {})
  {
    MergedShared(p, q, m);
    assert ty.kind.AliasRef? ==> ty.kind.id in TypeRefs(ty);
    SharedPointer(p.declarations, m.declarations, Ids(p.declarations), ty.kind);
  }

  /** The union of two acyclic alias graphs that agree on shared ids is acyclic. */
  lemma MergedAcyclic(p: Package, q: Package, m: Package)
    requires Coherent(p) && Coherent(q) && Merged(p, q) == Some(m)
    ensures !HasCycle(AliasTable(m.declarations))
  {
    CoherentCanonical(p);
    CoherentCanonical(q);
    MergedShared(p, q, m);
    if HasCycle(AliasTable(m.declarations)) {
      var x :| Reaches(AliasTable(m.declarations), x, x);
      ReachesStart(AliasTable(m.declarations), x, x);
      MergedFind(p, q, m, x);
      AliasTableSpec(m.declarations);
      FindSpec(m.declarations, x);
      FindSpec(p.declarations, x);
      FindSpec(q.declarations, x);
      if x in Ids(p.declarations) {
        SharedCycle(m.declarations, p.declarations, Ids(p.declarations), x);
      } else {
        SharedCycle(m.declarations, q.declarations, Ids(q.declarations), x);
      }
      assert false;
    }
  }

  lemma MergedFiles(p: Package, q: Package, m: Package, id: Id)
    requires Canonical(p) && Canonical(q) && Merged(p, q) == Some(m)
    ensures T.Sorted(FILES, m.files) && T.Sorted(IDS, m.inputs.entryFiles)
    ensures T.Lookup(FILES, p.files, id).Some? ==> T.Lookup(FILES, m.files, id) == T.Lookup(FILES, p.files, id)
    ensures T.Lookup(FILES, q.files, id).Some? ==> T.Lookup(FILES, m.files, id) == T.Lookup(FILES, q.files, id)
    ensures T.Lookup(FILES, m.files, id).Some? ==>
              T.Lookup(FILES, p.files, id).Some? || T.Lookup(FILES, q.files, id).Some?
    ensures id in m.inputs.entryFiles <==> id in p.inputs.entryFiles || id in q.inputs.entryFiles
  {
    T.SameRowKeepsKey<File, Id>(FILES);
    T.MergeAt(FILES, T.SameRow<File>, p.files, q.files, m.files, id);
    T.CollectSpec(IDS, [], p.inputs.entryFiles + q.inputs.entryFiles);
  }

  lemma MergedEntries(p: Package, q: Package, m: Package)
    requires Coherent(p) && Coherent(q) && Merged(p, q) == Some(m)
    ensures EntryChecks(m.files, m.inputs.entryFiles)
  {
    CoherentCanonical(p);
    CoherentCanonical(q);
    forall id { MergedFiles(p, q, m, id); }
    assert p.inputs.entryFiles[0] in m.inputs.entryFiles;
    forall f | f in m.files && f.isEntry ensures f.id in m.inputs.entryFiles {
      T.LookupSorted(FILES, m.files, f);
      T.LookupFinds(FILES, p.files, f.id);
      T.LookupFinds(FILES, q.files, f.id);
    }
  }

  lemma MergedOccurrences(a: seq<Occurrence>, b: seq<Occurrence>)
    requires T.Sorted(OCCURRENCES, a) && T.Sorted(OCCURRENCES, b) && a != []
    requires T.Merge(OCCURRENCES, T.SameRow<Occurrence>, a, b).Some?
    ensures T.Merge(OCCURRENCES, T.SameRow<Occurrence>, a, b).value != []
    ensures T.Sorted(OCCURRENCES, T.Merge(OCCURRENCES, T.SameRow<Occurrence>, a, b).value)
  {
    T.SameRowKeepsKey<Occurrence, Id>(OCCURRENCES);
    var joined := T.Merge(OCCURRENCES, T.SameRow<Occurrence>, a, b).value;
    T.MergeAt(OCCURRENCES, T.SameRow<Occurrence>, a, b, joined, a[0].id);
  }

  /** A row of the merge agrees with each side's row of its id, and one side has one. */
  lemma MergedRow(p: Package, q: Package, m: Package, d: Declaration)
    requires Canonical(p) && Canonical(q) && Merged(p, q) == Some(m) && d in m.declarations
    ensures Known(p.declarations, d.id) || Known(q.declarations, d.id)
    ensures Known(p.declarations, d.id) ==> SameDeclaration(Find(p.declarations, d.id).value, d)
    ensures Known(q.declarations, d.id) ==> SameDeclaration(Find(q.declarations, d.id).value, d)
  {
    hide Canonical;
    MergedFind(p, q, m, d.id);
    T.LookupSorted(DECLARATIONS, m.declarations, d);
  }

  lemma MergedRowOccurrences(p: Package, q: Package, m: Package, d: Declaration)
    requires Coherent(p) && Coherent(q) && Merged(p, q) == Some(m) && d in m.declarations
    ensures d.occurrences != [] && T.Sorted(OCCURRENCES, d.occurrences)
  {
    hide KindChecks, IsPointer, CompletenessFromDiagnostics;
    CoherentCanonical(p);
    CoherentCanonical(q);
    MergedFind(p, q, m, d.id);
    T.LookupSorted(DECLARATIONS, m.declarations, d);
    FindSpec(p.declarations, d.id);
    FindSpec(q.declarations, d.id);
    JoinKeepsKey();
    T.MergeAt(DECLARATIONS, JoinDeclaration, p.declarations, q.declarations, m.declarations, d.id);
    var a, b := Find(p.declarations, d.id), Find(q.declarations, d.id);
    if a.Some? && b.Some? {
      assert DeclarationChecks(p.files, p.declarations, a.value) && DeclarationChecks(q.files, q.declarations, b.value);
      MergedOccurrences(a.value.occurrences, b.value.occurrences);
    }
  }

  lemma MergedRowChecks(p: Package, q: Package, m: Package, d: Declaration)
    requires Coherent(p) && Coherent(q) && Merged(p, q) == Some(m) && d in m.declarations
    ensures DeclarationChecks(m.files, m.declarations, d)
  {
    hide Coherent, KindChecks;
    CoherentCanonical(p);
    CoherentCanonical(q);
    MergedRow(p, q, m, d);
    MergedRowOccurrences(p, q, m, d);
    if Known(p.declarations, d.id) {
      MergedSide(p, q, m, p, Find(p.declarations, d.id).value, d);
    } else {
      MergedSide(p, q, m, q, Find(q.declarations, d.id).value, d);
    }
  }

  /** A declaration that came from `side` keeps its scope and kind checks in the merge. */
  lemma MergedSide(p: Package, q: Package, m: Package, side: Package, a: Declaration, d: Declaration)
    requires Coherent(p) && Coherent(q) && Merged(p, q) == Some(m) && (side == p || side == q)
    requires Find(side.declarations, d.id) == Some(a) && SameDeclaration(a, d)
    ensures d.scope.FileScope? ==> T.Lookup(FILES, m.files, d.scope.file).Some?
    ensures d.scope.OwnerScope? ==> Known(m.declarations, d.scope.owner)
    ensures d.kind.UnsupportedKind? ==> !d.support.Supported?
    ensures KindChecks(m.declarations, d.kind)
  {
    hide KindChecks, IsPointer, CompletenessFromDiagnostics;
    CoherentCanonical(p);
    CoherentCanonical(q);
    MergedShared(p, q, m);
    FindSpec(side.declarations, d.id);
    assert DeclarationChecks(side.files, side.declarations, a);
    SharedKind(side.declarations, m.declarations, Ids(side.declarations), a.kind);
    if d.scope.FileScope? { MergedFiles(p, q, m, d.scope.file); }
    if d.scope.OwnerScope? { MergedFind(p, q, m, d.scope.owner); }
  }

  lemma MergedMacros(p: Package, q: Package, m: Package)
    requires Coherent(p) && Coherent(q) && Merged(p, q) == Some(m)
    ensures T.Sorted(MACROS, m.macros) && forall x :: x in m.macros ==> MacroChecks(x)
  {
    CoherentCanonical(p);
    CoherentCanonical(q);
    JoinKeepsKey();
    T.MergeSpec(MACROS, JoinMacro, p.macros, q.macros);
    forall x | x in m.macros ensures MacroChecks(x) {
      T.LookupSorted(MACROS, m.macros, x);
      T.LookupFinds(MACROS, p.macros, x.id);
      T.LookupFinds(MACROS, q.macros, x.id);
      var a, b := T.Lookup(MACROS, p.macros, x.id), T.Lookup(MACROS, q.macros, x.id);
      assert T.Lookup(MACROS, m.macros, x.id) == T.JoinRow(JoinMacro, a, b);
      if a.Some? && b.Some? {
        assert MacroChecks(a.value) && MacroChecks(b.value);
        MergedOccurrences(a.value.occurrences, b.value.occurrences);
      }
    }
  }

  lemma MergedDiagnostics(p: Package, q: Package, m: Package)
    requires Coherent(p) && Coherent(q) && Merged(p, q) == Some(m)
    ensures T.Sorted(DIAGNOSTICS, m.diagnostics) && CompletenessAccepted(m.completeness, m.diagnostics)
    ensures forall d :: d in m.diagnostics <==> d in p.diagnostics || d in q.diagnostics
  {
    DiagnosticsOrdered();
    T.CollectSpec(DIAGNOSTICS, [], p.diagnostics + q.diagnostics);
    CompletenessExact(m.completeness, m.diagnostics);
    CompletenessExact(p.completeness, p.diagnostics);
    CompletenessExact(q.completeness, q.diagnostics);
    if m.completeness.Complete? {
      NoForcing(m.diagnostics);
      NoForcing(p.diagnostics);
      NoForcing(q.diagnostics);
    }
  }

  lemma NoForcing(diagnostics: seq<Diagnostic>)
    ensures CompletenessFromDiagnostics(diagnostics).Complete? ==> forall d :: d in diagnostics ==> !Forcing(d)
    ensures (forall d :: d in diagnostics ==> !Forcing(d)) ==> CompletenessFromDiagnostics(diagnostics).Complete?
  {
    var reasons := ForcingReasons(diagnostics);
    if reasons != [] { assert reasons[0] in reasons; }
    forall d | d in diagnostics && Forcing(d) ensures ReasonOf(d) in reasons { }
  }

  /** Two packages that can be joined merge into a coherent package: it is validated exactly when
      its tables are within the limits. */
  lemma MergedValid(p: Package, q: Package, m: Package)
    requires Coherent(p) && Coherent(q) && Merged(p, q) == Some(m)
    ensures Coherent(m) && (Validated(m) <==> WithinLimits(m))
  {
    CoherentCanonical(p);
    CoherentCanonical(q);
    MergedAcyclic(p, q, m);
    MergedEntries(p, q, m);
    MergedMacros(p, q, m);
    MergedDiagnostics(p, q, m);
    forall d | d in m.declarations ensures DeclarationChecks(m.files, m.declarations, d) {
      MergedRowChecks(p, q, m, d);
    }
    MergedFind(p, q, m, 0);
    MergedFiles(p, q, m, 0);
    forall d | d in m.diagnostics && d.declaration.Some? ensures Known(m.declarations, d.declaration.value) {
      MergedFind(p, q, m, d.declaration.value);
    }
  }

  // ----- the checked merge ---------------------------------------------------------------

  /** What `merge` returns on packages that pass their own checks: the joined parts, unless they
      have grown over a limit. */
  function CheckedMerge(p: Package, q: Package): Option<Package> {
    match Merged(p, q)
    case Some(m) => if WithinLimits(m) then Some(m) else None
    case None => None
  }

  /** A merge is within the limits only if both sides are. */
  lemma MergedLimits(p: Package, q: Package, m: Package)
    requires Canonical(p) && Canonical(q) && Merged(p, q) == Some(m) && WithinLimits(m)
    ensures WithinLimits(p) && WithinLimits(q)
  {
    hide T.Merge, KindWithin, CompletenessFromDiagnostics, CanonicalDeclaration, CanonicalMacro;
    MergedLengths(p, q, m);
    forall d | d in p.declarations || d in q.declarations ensures KindWithin(d.kind) {
      MergedKind(p, q, m, d);
    }
  }

  lemma MergedLengths(p: Package, q: Package, m: Package)
    requires Canonical(p) && Canonical(q) && Merged(p, q) == Some(m)
    ensures |p.files| <= |m.files| && |q.files| <= |m.files|
    ensures |p.declarations| <= |m.declarations| && |q.declarations| <= |m.declarations|
    ensures |p.macros| <= |m.macros| && |q.macros| <= |m.macros|
    ensures |p.diagnostics| <= |m.diagnostics| && |q.diagnostics| <= |m.diagnostics|
  {
    hide T.Merge, JoinDeclaration, JoinMacro, CompletenessFromDiagnostics, CanonicalDeclaration, CanonicalMacro;
    TableLaws();
    DeclarationLaws();
    MacroLaws();
    DiagnosticsOrdered();
    T.MergeGrows(FILES, T.SameRow<File>, p.files, q.files);
    T.MergeGrows(DECLARATIONS, JoinDeclaration, p.declarations, q.declarations);
    T.MergeGrows(MACROS, JoinMacro, p.macros, q.macros);
    T.MergeGrows(DIAGNOSTICS, T.SameRow<Diagnostic>, p.diagnostics, q.diagnostics);
  }

  /** A declaration of either side is in the merge with its kind. */
  lemma MergedKind(p: Package, q: Package, m: Package, d: Declaration)
    requires Canonical(p) && Canonical(q) && Merged(p, q) == Some(m)
    requires d in p.declarations || d in q.declarations
    ensures exists e :: e in m.declarations && e.kind == d.kind
  {
    FindSpec(p.declarations, d.id);
    FindSpec(q.declarations, d.id);
    MergedFind(p, q, m, d.id);
    FindSpec(m.declarations, d.id);
    assert Find(m.declarations, d.id).value.kind == d.kind;
  }

  /** The merge of canonical packages is canonical, so that it can be merged again. */
  lemma MergedCanonical(p: Package, q: Package, m: Package)
    requires Canonical(p) && Canonical(q) && Merged(p, q) == Some(m)
    ensures Canonical(m)
  {
    hide T.Merge, JoinDeclaration, JoinMacro, CompletenessFromDiagnostics, CanonicalDeclaration, CanonicalMacro;
    TableLaws();
    DeclarationLaws();
    MacroLaws();
    DiagnosticsOrdered();
    T.MergeSpec(IDS, T.SameRow<Id>, p.inputs.entryFiles, q.inputs.entryFiles);
    T.MergeSpec(FILES, T.SameRow<File>, p.files, q.files);
    T.MergeSpec(DECLARATIONS, JoinDeclaration, p.declarations, q.declarations);
    T.MergeSpec(MACROS, JoinMacro, p.macros, q.macros);
    T.MergeSpec(DIAGNOSTICS, T.SameRow<Diagnostic>, p.diagnostics, q.diagnostics);
    T.MergeOk(DECLARATIONS, CanonicalDeclaration, JoinDeclaration, p.declarations, q.declarations);
    T.MergeOk(MACROS, CanonicalMacro, JoinMacro, p.macros, q.macros);
  }

  lemma CheckedCommutes(p: Package, q: Package)
    requires Canonical(p) && Canonical(q)
    ensures CheckedMerge(p, q) == CheckedMerge(q, p)
  {
    MergeCommutes(p, q);
  }

  /** A canonical package merged with itself is unchanged, or refused if it is itself too large. */
  lemma CheckedIdempotent(p: Package)
    requires Canonical(p)
    ensures CheckedMerge(p, p) == if WithinLimits(p) then Some(p) else None
  {
    MergeIdempotent(p);
  }

  function CheckedLeft(p: Package, q: Package, r: Package): Option<Package> {
    match CheckedMerge(p, q) case Some(x) => CheckedMerge(x, r) case None => None
  }

  function CheckedRight(p: Package, q: Package, r: Package): Option<Package> {
    match CheckedMerge(q, r) case Some(x) => CheckedMerge(p, x) case None => None
  }

  /** Three packages, joined in the first grouping, are refused for size only at the end. */
  lemma LeftLimits(p: Package, q: Package, r: Package)
    requires Canonical(p) && Canonical(q) && Canonical(r)
    ensures CheckedLeft(p, q, r)
         == match MergedLeft(p, q, r) case Some(m) => (if WithinLimits(m) then Some(m) else None) case None => None
  {
    hide Merged, WithinLimits, Canonical;
    if Merged(p, q).Some? {
      var x := Merged(p, q).value;
      MergedCanonical(p, q, x);
      if Merged(x, r).Some? && WithinLimits(Merged(x, r).value) { MergedLimits(x, r, Merged(x, r).value); }
    }
  }

  lemma RightLimits(p: Package, q: Package, r: Package)
    requires Canonical(p) && Canonical(q) && Canonical(r)
    ensures CheckedRight(p, q, r)
         == match MergedRight(p, q, r) case Some(m) => (if WithinLimits(m) then Some(m) else None) case None => None
  {
    hide Merged, WithinLimits, Canonical;
    if Merged(q, r).Some? {
      var x := Merged(q, r).value;
      MergedCanonical(q, r, x);
      if Merged(p, x).Some? && WithinLimits(Merged(p, x).value) { MergedLimits(p, x, Merged(p, x).value); }
    }
  }

  /** The checked merge is associative: no grouping is refused for a size that another avoids. */
  lemma CheckedAssociates(p: Package, q: Package, r: Package)
    requires Canonical(p) && Canonical(q) && Canonical(r)
    ensures CheckedLeft(p, q, r) == CheckedRight(p, q, r)
  {
    hide Merged, WithinLimits, Canonical, CheckedLeft, CheckedRight, MergedLeft, MergedRight;
    MergeAssociates(p, q, r);
    LeftLimits(p, q, r);
    RightLimits(p, q, r);
  }

  /** What the keyed passes over the tables need, and what cannot fail. */
  lemma ReadyToMerge(p: Package, q: Package)
    requires Coherent(p) && Coherent(q)
    ensures FILES.Valid() && DECLARATIONS.Valid() && MACROS.Valid()
    ensures T.KeepsKey(FILES, T.SameRow<File>) && T.KeepsKey(DECLARATIONS, JoinDeclaration)
    ensures T.KeepsKey(MACROS, JoinMacro)
    ensures T.Sorted(FILES, p.files) && T.Sorted(DECLARATIONS, p.declarations) && T.Sorted(MACROS, p.macros)
    ensures T.Sorted(FILES, q.files) && T.Sorted(DECLARATIONS, q.declarations) && T.Sorted(MACROS, q.macros)
    ensures MergeInputs(p.inputs, q.inputs).Some? <==> p.inputs.settings == q.inputs.settings
    ensures T.PutAll(DIAGNOSTICS, T.SameRow<Diagnostic>, [], p.diagnostics + q.diagnostics).Some?
  {
    hide Coherent, T.Lookup, T.Agree;
    CoherentCanonical(p);
    CoherentCanonical(q);
    JoinKeepsKey();
    T.SameRowKeepsKey<File, Id>(FILES);
    DiagnosticsOrdered();
    T.CollectSpec(IDS, [], p.inputs.entryFiles + q.inputs.entryFiles);
    T.CollectSpec(DIAGNOSTICS, [], p.diagnostics + q.diagnostics);
  }

  // ----- two packages that join but are too large together -------------------------------

  /** `n` files with ids from `base` on, the first of them the entry, and nothing else. */
  function Wide(base: nat, n: nat): Package
    requires n > 0
  {
    Package("t", seq(n, i requires 0 <= i < n => File(base + i, i == 0, "")), Inputs([base], ""), [], [], [], Complete)
  }

  lemma WideValidated(base: nat, n: nat)
    requires 0 < n <= FILE_LIMIT
    ensures Validated(Wide(base, n))
  {
    var p := Wide(base, n);
    T.LookupSorted(FILES, p.files, p.files[0]);
    AliasTableSpec(p.declarations);
    if HasCycle(AliasTable(p.declarations)) {
      var x :| Reaches(AliasTable(p.declarations), x, x);
      ReachesStart(AliasTable(p.declarations), x, x);
      assert false;
    }
  }

  /** The two file tables join, and the join holds every file. */
  lemma WideFiles(base: nat, n: nat, k: nat)
    requires n > 0 && k > 0
    ensures var p, q := Wide(base, n), Wide(base + n, k);
            var joined := T.Merge(FILES, T.SameRow<File>, p.files, q.files);
            joined.Some? && |joined.value| >= n + k
  {
    hide Merged;
    var p, q := Wide(base, n), Wide(base + n, k);
    T.SameRowLaws<File, Id>(FILES);
    forall id ensures T.Agree(T.SameRow<File>, T.Lookup(FILES, p.files, id), T.Lookup(FILES, q.files, id)) {
      T.LookupFinds(FILES, p.files, id);
      T.LookupFinds(FILES, q.files, id);
    }
    T.MergeSpec(FILES, T.SameRow<File>, p.files, q.files);
    var joined := T.Merge(FILES, T.SameRow<File>, p.files, q.files).value;
    var all := p.files + q.files;
    forall f | f in all ensures T.Lookup(FILES, joined, f.id).Some? {
      if f in p.files { T.LookupSorted(FILES, p.files, f); } else { T.LookupSorted(FILES, q.files, f); }
    }
    T.KeysFit(FILES, all, joined);
  }

  lemma WideJoins(base: nat, n: nat, k: nat)
    requires n > 0 && k > 0
    ensures Merged(Wide(base, n), Wide(base + n, k)).Some?
    ensures |Merged(Wide(base, n), Wide(base + n, k)).value.files| >= n + k
  {
    WideFiles(base, n, k);
    var p, q := Wide(base, n), Wide(base + n, k);
    T.CollectSpec(IDS, [], p.inputs.entryFiles + q.inputs.entryFiles);
    assert MergeInputs(p.inputs, q.inputs).Some?;
    assert T.Merge(DECLARATIONS, JoinDeclaration, [], []) == Some([]) && T.Merge(MACROS, JoinMacro, [], []) == Some([]);
    assert T.Merge(DIAGNOSTICS, T.SameRow<Diagnostic>, [], []).Some?;
  }

  /** Two validated packages of ten thousand different files each agree everywhere, and their
      merge is refused. */
  lemma MergeOverLimit()
    ensures var p, q := Wide(0, 10_000), Wide(10_000, 10_000);
            Validated(p) && Validated(q) && Merged(p, q).Some? && CheckedMerge(p, q) == None
  {
    WideValidated(0, 10_000);
    WideValidated(10_000, 10_000);
    WideJoins(0, 10_000, 10_000);
  }
}
