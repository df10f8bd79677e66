/** What merging two packages gives, and when it is refused, said of their rows alone (src/contract/compose.rs). */
module Merging {
  import opened Wrappers
  import T = Tables
  import opened Contract
  import opened AliasGraph
  import opened Validation
  import opened Retain
  import opened Merge

  // ----- tables ----------------------------------------------------------------------------

  /** A row of one table whose key the other does not have. */
  ghost predicate Alone<V(!new), K(!new)>(sc: T.Schema<V, K>, own: seq<V>, other: seq<V>, v: V) {
    v in own && forall w :: w in other ==> sc.key(w) != sc.key(v)
  }

  ghost predicate Paired<V(!new), K(!new)>(sc: T.Schema<V, K>, join: (V, V) -> Option<V>, left: seq<V>, right: seq<V>,
                                           v: V)
  {
    exists x, y :: x in left && y in right && sc.key(x) == sc.key(y) && join(x, y) == Some(v)
  }

  lemma RowOf<V, K(!new)>(sc: T.Schema<V, K>, t: seq<V>, k: K)
    requires sc.Valid() && T.Sorted(sc, t)
    ensures forall v :: v in t && sc.key(v) == k ==> T.Lookup(sc, t, k) == Some(v)
    ensures T.Lookup(sc, t, k).Some? ==> T.Lookup(sc, t, k).value in t && sc.key(T.Lookup(sc, t, k).value) == k
  {
    T.LookupFinds(sc, t, k);
    forall v | v in t && sc.key(v) == k ensures T.Lookup(sc, t, k) == Some(v) { T.LookupSorted(sc, t, v); }
  }

  /** A merge succeeds exactly when every two rows of one key join, and its rows are the joins and the rows alone. */
  lemma TableMeans<V(!new), K(!new)>(sc: T.Schema<V, K>, join: (V, V) -> Option<V>, left: seq<V>, right: seq<V>)
    requires sc.Valid() && T.KeepsKey(sc, join) && T.Sorted(sc, left) && T.Sorted(sc, right)
    ensures T.Merge(sc, join, left, right).Some?
       <==> forall x, y :: x in left && y in right && sc.key(x) == sc.key(y) ==> join(x, y).Some?
    ensures T.Merge(sc, join, left, right).Some? ==>
              var u := T.Merge(sc, join, left, right).value;
              && T.Sorted(sc, u)
              && forall v :: v in u <==> || Alone(sc, left, right, v) || Alone(sc, right, left, v)
                                         || Paired(sc, join, left, right, v)
  {
    T.MergeSpec(sc, join, left, right);
    if T.Merge(sc, join, left, right).Some? {
      forall x, y | x in left && y in right && sc.key(x) == sc.key(y) ensures join(x, y).Some? {
        RowOf(sc, left, sc.key(x));
        RowOf(sc, right, sc.key(x));
        assert T.Agree(join, T.Lookup(sc, left, sc.key(x)), T.Lookup(sc, right, sc.key(x)));
      }
      var u := T.Merge(sc, join, left, right).value;
      forall v ensures v in u <==> || Alone(sc, left, right, v) || Alone(sc, right, left, v)
                                   || Paired(sc, join, left, right, v)
      {
        RowMeans(sc, join, left, right, u, v);
      }
    } else {
      forall k ensures T.Agree(join, T.Lookup(sc, left, k), T.Lookup(sc, right, k)) ||
                       exists x, y :: x in left && y in right && sc.key(x) == sc.key(y) && join(x, y).None?
      {
        RowOf(sc, left, k);
        RowOf(sc, right, k);
      }
    }
  }

  lemma RowMeans<V(!new), K(!new)>(sc: T.Schema<V, K>, join: (V, V) -> Option<V>, left: seq<V>, right: seq<V>,
                                   u: seq<V>, v: V)
    requires sc.Valid() && T.KeepsKey(sc, join) && T.Sorted(sc, left) && T.Sorted(sc, right) && T.Sorted(sc, u)
    requires forall k :: T.Lookup(sc, u, k) == T.JoinRow(join, T.Lookup(sc, left, k), T.Lookup(sc, right, k))
    ensures v in u <==> || Alone(sc, left, right, v) || Alone(sc, right, left, v)
                        || Paired(sc, join, left, right, v)
  {
    var k := sc.key(v);
    RowOf(sc, u, k);
    RowOf(sc, left, k);
    RowOf(sc, right, k);
    T.LookupFinds(sc, left, k);
    T.LookupFinds(sc, right, k);
    var (a, b) := (T.Lookup(sc, left, k), T.Lookup(sc, right, k));
    assert T.Lookup(sc, u, k) == T.JoinRow(join, a, b);
    if Paired(sc, join, left, right, v) {
      var x, y :| x in left && y in right && sc.key(x) == sc.key(y) && join(x, y) == Some(v);
      assert sc.key(v) == sc.key(x);
    }
    if v in u && a.Some? && b.Some? {
      assert join(a.value, b.value) == Some(v);
    }
  }

  // ----- tables whose rows must agree ------------------------------------------------------

  ghost predicate Disputed<V(!new), K(!new)>(sc: T.Schema<V, K>, a: seq<V>, b: seq<V>) {
    exists x, y :: x in a && y in b && sc.key(x) == sc.key(y) && x != y
  }

  lemma SameRowsMean<V(!new), K(!new)>(sc: T.Schema<V, K>, a: seq<V>, b: seq<V>)
    requires sc.Valid() && T.Sorted(sc, a) && T.Sorted(sc, b)
    ensures T.Merge(sc, T.SameRow<V>, a, b).Some? <==> !Disputed(sc, a, b)
    ensures T.Merge(sc, T.SameRow<V>, a, b).Some? ==>
              var u := T.Merge(sc, T.SameRow<V>, a, b).value;
              T.Sorted(sc, u) && forall v :: v in u <==> v in a || v in b
  {
    T.SameRowKeepsKey<V, K>(sc);
    TableMeans(sc, T.SameRow<V>, a, b);
    if T.Merge(sc, T.SameRow<V>, a, b).Some? {
      var u := T.Merge(sc, T.SameRow<V>, a, b).value;
      forall v ensures v in u <==> v in a || v in b {
        if v in a && !Alone(sc, a, b, v) {
          var w :| w in b && sc.key(w) == sc.key(v);
          assert T.SameRow(v, w).Some?;
          assert Paired(sc, T.SameRow<V>, a, b, v);
        }
        if v in b && !Alone(sc, b, a, v) {
          var w :| w in a && sc.key(w) == sc.key(v);
          assert T.SameRow(w, v).Some?;
          assert Paired(sc, T.SameRow<V>, a, b, v);
        }
      }
    }
  }

  // ----- declarations and macros -----------------------------------------------------------

  /** One occurrence id with two different occurrences. */
  ghost predicate Clashing(a: seq<Occurrence>, b: seq<Occurrence>) {
    exists x, y :: x in a && y in b && x.id == y.id && x != y
  }

  /** The occurrences of both, in id order. */
  ghost predicate United(a: seq<Occurrence>, b: seq<Occurrence>, c: seq<Occurrence>) {
    && (forall i, j :: 0 <= i < j < |c| ==> c[i].id < c[j].id)
    && forall o :: o in c <==> o in a || o in b
  }

  /** Two declarations of one entity: they differ in their occurrences alone, and no occurrence id means two. */
  ghost predicate OneEntity(a: Declaration, b: Declaration) {
    && a.scope == b.scope && a.header == b.header && a.support == b.support && a.kind == b.kind
    && !Clashing(a.occurrences, b.occurrences)
  }

  ghost predicate OneMacro(a: Macro, b: Macro) {
    a.header == b.header && a.support == b.support && !Clashing(a.occurrences, b.occurrences)
  }

  lemma OccurrencesUnite(a: seq<Occurrence>, b: seq<Occurrence>)
    requires T.Sorted(OCCURRENCES, a) && T.Sorted(OCCURRENCES, b)
    ensures T.Merge(OCCURRENCES, T.SameRow<Occurrence>, a, b).Some? <==> !Clashing(a, b)
    ensures T.Merge(OCCURRENCES, T.SameRow<Occurrence>, a, b).Some? ==>
              United(a, b, T.Merge(OCCURRENCES, T.SameRow<Occurrence>, a, b).value)
  {
    SameRowsMean(OCCURRENCES, a, b);
    assert forall o: Occurrence :: OCCURRENCES.key(o) == o.id;
    if T.Merge(OCCURRENCES, T.SameRow<Occurrence>, a, b).Some? {
      OccurrencesAscend(T.Merge(OCCURRENCES, T.SameRow<Occurrence>, a, b).value);
    }
  }

  lemma OccurrencesAscend(c: seq<Occurrence>)
    ensures T.Sorted(OCCURRENCES, c) <==> forall i, j :: 0 <= i < j < |c| ==> c[i].id < c[j].id
  {
    AscendingKeys(OCCURRENCES, c);
  }

  lemma UnitedOnce(a: seq<Occurrence>, b: seq<Occurrence>, c: seq<Occurrence>, d: seq<Occurrence>)
    requires United(a, b, c) && United(a, b, d)
    ensures c == d
  {
    OccurrencesAscend(c);
    OccurrencesAscend(d);
    T.SameElements(OCCURRENCES, c, d);
  }

  /** Joining is refused only for differing fields or an occurrence id with two rows, and otherwise unites the
      occurrences. */
  lemma JoinDeclarationMeans(a: Declaration, b: Declaration, c: Declaration)
    requires CanonicalDeclaration(a) && CanonicalDeclaration(b)
    ensures JoinDeclaration(a, b) == Some(c)
       <==> && OneEntity(a, b) && c == a.(occurrences := c.occurrences)
            && United(a.occurrences, b.occurrences, c.occurrences)
    ensures JoinDeclaration(a, b).Some? <==> OneEntity(a, b)
  {
    OccurrencesUnite(a.occurrences, b.occurrences);
    var joined := T.Merge(OCCURRENCES, T.SameRow<Occurrence>, a.occurrences, b.occurrences);
    hide T.Merge, United;
    if joined.Some? && United(a.occurrences, b.occurrences, c.occurrences) {
      UnitedOnce(a.occurrences, b.occurrences, c.occurrences, joined.value);
    }
  }

  lemma JoinMacroMeans(a: Macro, b: Macro, c: Macro)
    requires CanonicalMacro(a) && CanonicalMacro(b)
    ensures JoinMacro(a, b) == Some(c)
       <==> && OneMacro(a, b) && c == a.(occurrences := c.occurrences)
            && United(a.occurrences, b.occurrences, c.occurrences)
    ensures JoinMacro(a, b).Some? <==> OneMacro(a, b)
  {
    OccurrencesUnite(a.occurrences, b.occurrences);
    var joined := T.Merge(OCCURRENCES, T.SameRow<Occurrence>, a.occurrences, b.occurrences);
    hide T.Merge, United;
    if joined.Some? && United(a.occurrences, b.occurrences, c.occurrences) {
      UnitedOnce(a.occurrences, b.occurrences, c.occurrences, joined.value);
    }
  }

  // ----- packages --------------------------------------------------------------------------

  /** The packages have one target and one set of settings, and agree on every file, declaration and macro they
      share. */
  ghost predicate Mergeable(p: Package, q: Package) {
    && p.target == q.target && p.inputs.settings == q.inputs.settings
    && (forall x, y :: x in p.files && y in q.files && x.id == y.id ==> x == y)
    && (forall x, y :: x in p.declarations && y in q.declarations && x.id == y.id ==> OneEntity(x, y))
    && (forall x, y :: x in p.macros && y in q.macros && x.id == y.id ==> OneMacro(x, y))
  }

  /** A declaration of one side alone, or the union of two of one id. */
  ghost predicate MergedDeclaration(p: seq<Declaration>, q: seq<Declaration>, d: Declaration) {
    || (d in p && forall e :: e in q ==> e.id != d.id)
    || (d in q && forall e :: e in p ==> e.id != d.id)
    || exists x, y :: x in p && y in q && x.id == y.id && d == x.(occurrences := d.occurrences)
                      && United(x.occurrences, y.occurrences, d.occurrences)
  }

  ghost predicate MergedMacro(p: seq<Macro>, q: seq<Macro>, m: Macro) {
    || (m in p && forall n :: n in q ==> n.id != m.id)
    || (m in q && forall n :: n in p ==> n.id != m.id)
    || exists x, y :: x in p && y in q && x.id == y.id && m == x.(occurrences := m.occurrences)
                      && United(x.occurrences, y.occurrences, m.occurrences)
  }

  /** The reasons of the diagnostics that force, each once and in order. */
  ghost predicate Listed(reasons: seq<Reason>, diagnostics: seq<Diagnostic>) {
    && T.Sorted(REASONS, reasons)
    && forall r :: r in reasons <==>
         exists d :: d in diagnostics && d.impact != Informational && r == Reason(d.code, d.message, d.range)
  }

  ghost predicate Summarises(c: Completeness, diagnostics: seq<Diagnostic>) {
    match c
    case Complete => forall d :: d in diagnostics ==> d.impact == Informational
    case PartialPackage(reasons) =>
      && Listed(reasons, diagnostics) && (exists d :: d in diagnostics && d.impact == ForcesPartial)
      && forall d :: d in diagnostics ==> d.impact != ForcesRejected
    case Rejected(reasons) => Listed(reasons, diagnostics) && exists d :: d in diagnostics && d.impact == ForcesRejected
  }

  /** The merge, table by table. */
  ghost predicate IsMerge(p: Package, q: Package, m: Package) {
    && m.target == p.target && m.inputs.settings == p.inputs.settings
    && (forall i, j :: 0 <= i < j < |m.inputs.entryFiles| ==> m.inputs.entryFiles[i] < m.inputs.entryFiles[j])
    && (forall id :: id in m.inputs.entryFiles <==> id in p.inputs.entryFiles || id in q.inputs.entryFiles)
    && (forall i, j :: 0 <= i < j < |m.files| ==> m.files[i].id < m.files[j].id)
    && (forall f :: f in m.files <==> f in p.files || f in q.files)
    && (forall i, j :: 0 <= i < j < |m.declarations| ==> m.declarations[i].id < m.declarations[j].id)
    && (forall d :: d in m.declarations <==> MergedDeclaration(p.declarations, q.declarations, d))
    && (forall i, j :: 0 <= i < j < |m.macros| ==> m.macros[i].id < m.macros[j].id)
    && (forall x :: x in m.macros <==> MergedMacro(p.macros, q.macros, x))
    && T.Sorted(DIAGNOSTICS, m.diagnostics)
    && (forall d :: d in m.diagnostics <==> d in p.diagnostics || d in q.diagnostics)
    && Summarises(m.completeness, m.diagnostics)
  }

  lemma SummaryMeans(c: Completeness, diagnostics: seq<Diagnostic>)
    ensures c == CompletenessFromDiagnostics(diagnostics) <==> Summarises(c, diagnostics)
  {
    var reasons := ForcingReasons(diagnostics);
    ReasonsOrdered();
    assert Listed(reasons, diagnostics);
    if !c.Complete? && Listed(c.reasons, diagnostics) { T.SameElements(REASONS, c.reasons, reasons); }
    if reasons != [] {
      assert reasons[0] in reasons;
      var d :| d in diagnostics && Forcing(d) && ReasonOf(d) == reasons[0];
      assert d.impact == ForcesPartial || d.impact == ForcesRejected;
    }
    forall d | d in diagnostics && Forcing(d) ensures ReasonOf(d) in reasons { }
  }

  lemma DeclarationsMean(p: seq<Declaration>, q: seq<Declaration>)
    requires T.Sorted(DECLARATIONS, p) && T.Sorted(DECLARATIONS, q)
    requires forall d :: d in p || d in q ==> CanonicalDeclaration(d)
    ensures T.Merge(DECLARATIONS, JoinDeclaration, p, q).Some?
       <==> forall x, y :: x in p && y in q && x.id == y.id ==> OneEntity(x, y)
    ensures T.Merge(DECLARATIONS, JoinDeclaration, p, q).Some? ==>
              var u := T.Merge(DECLARATIONS, JoinDeclaration, p, q).value;
              T.Sorted(DECLARATIONS, u) && forall d :: d in u <==> MergedDeclaration(p, q, d)
  {
    hide JoinDeclaration, T.Merge, T.Sorted, CanonicalDeclaration, OneEntity, United;
    JoinKeepsKey();
    TableMeans(DECLARATIONS, JoinDeclaration, p, q);
    forall x, y | x in p && y in q ensures JoinDeclaration(x, y).Some? <==> OneEntity(x, y) {
      JoinDeclarationMeans(x, y, x);
    }
    if T.Merge(DECLARATIONS, JoinDeclaration, p, q).Some? {
      forall d ensures Paired(DECLARATIONS, JoinDeclaration, p, q, d)
                  <==> exists x, y :: x in p && y in q && x.id == y.id && d == x.(occurrences := d.occurrences)
                                      && United(x.occurrences, y.occurrences, d.occurrences)
      {
        forall x, y | x in p && y in q && x.id == y.id
          ensures JoinDeclaration(x, y) == Some(d)
             <==> d == x.(occurrences := d.occurrences) && United(x.occurrences, y.occurrences, d.occurrences)
        {
          JoinDeclarationMeans(x, y, d);
        }
      }
    }
  }

  lemma MacrosMean(p: seq<Macro>, q: seq<Macro>)
    requires T.Sorted(MACROS, p) && T.Sorted(MACROS, q)
    requires forall m :: m in p || m in q ==> CanonicalMacro(m)
    ensures T.Merge(MACROS, JoinMacro, p, q).Some?
       <==> forall x, y :: x in p && y in q && x.id == y.id ==> OneMacro(x, y)
    ensures T.Merge(MACROS, JoinMacro, p, q).Some? ==>
              var u := T.Merge(MACROS, JoinMacro, p, q).value;
              T.Sorted(MACROS, u) && forall m :: m in u <==> MergedMacro(p, q, m)
  {
    hide JoinMacro, T.Merge, T.Sorted, CanonicalMacro, OneMacro, United;
    JoinKeepsKey();
    TableMeans(MACROS, JoinMacro, p, q);
    forall x, y | x in p && y in q ensures JoinMacro(x, y).Some? <==> OneMacro(x, y) {
      JoinMacroMeans(x, y, x);
    }
    if T.Merge(MACROS, JoinMacro, p, q).Some? {
      forall m ensures Paired(MACROS, JoinMacro, p, q, m)
                  <==> exists x, y :: x in p && y in q && x.id == y.id && m == x.(occurrences := m.occurrences)
                                      && United(x.occurrences, y.occurrences, m.occurrences)
      {
        forall x, y | x in p && y in q && x.id == y.id
          ensures JoinMacro(x, y) == Some(m)
             <==> m == x.(occurrences := m.occurrences) && United(x.occurrences, y.occurrences, m.occurrences)
        {
          JoinMacroMeans(x, y, m);
        }
      }
    }
  }

  lemma Ascending(p: Package)
    ensures T.Sorted(IDS, p.inputs.entryFiles)
       <==> forall i, j :: 0 <= i < j < |p.inputs.entryFiles| ==> p.inputs.entryFiles[i] < p.inputs.entryFiles[j]
    ensures T.Sorted(FILES, p.files) <==> forall i, j :: 0 <= i < j < |p.files| ==> p.files[i].id < p.files[j].id
    ensures T.Sorted(DECLARATIONS, p.declarations)
       <==> forall i, j :: 0 <= i < j < |p.declarations| ==> p.declarations[i].id < p.declarations[j].id
    ensures T.Sorted(MACROS, p.macros) <==> forall i, j :: 0 <= i < j < |p.macros| ==> p.macros[i].id < p.macros[j].id
  {
    AscendingKeys(IDS, p.inputs.entryFiles);
    AscendingKeys(FILES, p.files);
    AscendingKeys(DECLARATIONS, p.declarations);
    AscendingKeys(MACROS, p.macros);
  }

  lemma AscendingKeys<V>(sc: T.Schema<V, Id>, t: seq<V>)
    requires forall a, b :: sc.less(a, b) <==> a < b
    ensures T.Sorted(sc, t) <==> forall i, j :: 0 <= i < j < |t| ==> sc.key(t[i]) < sc.key(t[j])
  {
  }

  lemma SetsAgree<V(!new)>(sc: T.Schema<V, V>, a: seq<V>, b: seq<V>)
    requires sc.Valid() && T.Sorted(sc, a) && T.Sorted(sc, b) && forall v :: sc.key(v) == v
    ensures T.Merge(sc, T.SameRow<V>, a, b).Some?
  {
    SameRowsMean(sc, a, b);
  }

  lemma FilesMean(p: Package, q: Package)
    requires Canonical(p) && Canonical(q)
    ensures T.Merge(FILES, T.SameRow<File>, p.files, q.files).Some?
       <==> forall x, y :: x in p.files && y in q.files && x.id == y.id ==> x == y
  {
    SameRowsMean(FILES, p.files, q.files);
    assert forall f: File :: FILES.key(f) == f.id;
  }

  /** Merging is defined exactly on packages that agree. */
  lemma MergeDefined(p: Package, q: Package)
    requires Canonical(p) && Canonical(q)
    ensures Merged(p, q).Some? <==> Mergeable(p, q)
  {
    hide T.Merge, CompletenessFromDiagnostics, JoinDeclaration, JoinMacro, T.Sorted, OneEntity, OneMacro;
    hide CanonicalDeclaration, CanonicalMacro;
    DeclarationsMean(p.declarations, q.declarations);
    MacrosMean(p.macros, q.macros);
    FilesMean(p, q);
    DiagnosticsOrdered();
    SetsAgree(IDS, p.inputs.entryFiles, q.inputs.entryFiles);
    SetsAgree(DIAGNOSTICS, p.diagnostics, q.diagnostics);
  }

  /** And it gives exactly their merge. */
  lemma MergeMeans(p: Package, q: Package, m: Package)
    requires Canonical(p) && Canonical(q) && Merged(p, q).Some?
    ensures Merged(p, q) == Some(m) <==> IsMerge(p, q, m)
  {
    hide Canonical, Merged, IsMerge;
    var own := Merged(p, q).value;
    MergedIs(p, q, own);
    if IsMerge(p, q, m) { MergeOnce(p, q, own, m); }
  }

  lemma MergedIs(p: Package, q: Package, m: Package)
    requires Canonical(p) && Canonical(q) && Merged(p, q) == Some(m)
    ensures IsMerge(p, q, m)
  {
    hide T.Merge, CompletenessFromDiagnostics, JoinDeclaration, JoinMacro, T.Sorted, OneEntity, OneMacro;
    hide MergedDeclaration, MergedMacro, Summarises, CanonicalDeclaration, CanonicalMacro;
    DeclarationsMean(p.declarations, q.declarations);
    MacrosMean(p.macros, q.macros);
    SameRowsMean(FILES, p.files, q.files);
    SameRowsMean(IDS, p.inputs.entryFiles, q.inputs.entryFiles);
    DiagnosticsOrdered();
    T.CollectSpec(DIAGNOSTICS, [], p.diagnostics + q.diagnostics);
    assert T.Merge(DIAGNOSTICS, T.SameRow<Diagnostic>, p.diagnostics, q.diagnostics) == Some(m.diagnostics);
    SameRowsMean(DIAGNOSTICS, p.diagnostics, q.diagnostics);
    Ascending(m);
    SummaryMeans(m.completeness, m.diagnostics);
  }

  lemma MergeOnce(p: Package, q: Package, m: Package, n: Package)
    requires IsMerge(p, q, m) && IsMerge(p, q, n)
    ensures m == n
  {
    hide MergedDeclaration, MergedMacro, Summarises, T.Sorted;
    Ascending(m);
    Ascending(n);
    DiagnosticsOrdered();
    T.SameElements(IDS, m.inputs.entryFiles, n.inputs.entryFiles);
    T.SameElements(FILES, m.files, n.files);
    T.SameElements(DECLARATIONS, m.declarations, n.declarations);
    T.SameElements(MACROS, m.macros, n.macros);
    T.SameElements(DIAGNOSTICS, m.diagnostics, n.diagnostics);
    SummaryMeans(m.completeness, m.diagnostics);
    SummaryMeans(n.completeness, n.diagnostics);
  }

  // ----- the merge itself ------------------------------------------------------------------

  lemma FileDispute(p: Package, q: Package, id: Id)
    requires !T.Agree(T.SameRow<File>, T.Lookup(FILES, p.files, id), T.Lookup(FILES, q.files, id))
    ensures exists x, y :: x in p.files && y in q.files && x.id == y.id == id && x != y
  {
    T.LookupFinds(FILES, p.files, id);
    T.LookupFinds(FILES, q.files, id);
  }

  lemma DeclarationDispute(p: Package, q: Package, id: Id)
    requires Canonical(p) && Canonical(q)
    requires !T.Agree(JoinDeclaration, T.Lookup(DECLARATIONS, p.declarations, id),
                      T.Lookup(DECLARATIONS, q.declarations, id))
    ensures exists x, y :: x in p.declarations && y in q.declarations && x.id == y.id == id && !OneEntity(x, y)
  {
    hide JoinDeclaration, OneEntity;
    T.LookupFinds(DECLARATIONS, p.declarations, id);
    T.LookupFinds(DECLARATIONS, q.declarations, id);
    var x, y := T.Lookup(DECLARATIONS, p.declarations, id).value, T.Lookup(DECLARATIONS, q.declarations, id).value;
    JoinDeclarationMeans(x, y, x);
  }

  lemma MacroDispute(p: Package, q: Package, id: Id)
    requires Canonical(p) && Canonical(q)
    requires !T.Agree(JoinMacro, T.Lookup(MACROS, p.macros, id), T.Lookup(MACROS, q.macros, id))
    ensures exists x, y :: x in p.macros && y in q.macros && x.id == y.id == id && !OneMacro(x, y)
  {
    hide JoinMacro, OneMacro;
    T.LookupFinds(MACROS, p.macros, id);
    T.LookupFinds(MACROS, q.macros, id);
    var x, y := T.Lookup(MACROS, p.macros, id).value, T.Lookup(MACROS, q.macros, id).value;
    JoinMacroMeans(x, y, x);
  }

  /** `SourcePackage::merge`: it fails only on a real disagreement, named in the error, or, with
      an invalid package, when the joined parts are over a limit. */
  method MergePackages(p: Package, q: Package) returns (r: Result<Package, ComposeError>)
    requires Coherent(p) && Coherent(q)
    ensures r.Ok? ==> Mergeable(p, q) && IsMerge(p, q, r.value) && Validated(r.value)
    ensures r.Ok? <==> CheckedMerge(p, q).Some?
    ensures r.Ok? ==> CheckedMerge(p, q) == Some(r.value)
    ensures r == Err(InvalidPackage) <==> Mergeable(p, q) && forall m :: IsMerge(p, q, m) ==> !WithinLimits(m)
    ensures r.Err? ==>
              match r.error
              case IncompatibleTarget => p.target != q.target
              case IncompatibleInputs => p.inputs.settings != q.inputs.settings
              case ConflictingFile(id) => exists x, y :: x in p.files && y in q.files && x.id == y.id == id && x != y
              case ConflictingDeclaration(id) =>
                exists x, y :: x in p.declarations && y in q.declarations && x.id == y.id == id && !OneEntity(x, y)
              case ConflictingMacro(id) =>
                exists x, y :: x in p.macros && y in q.macros && x.id == y.id == id && !OneMacro(x, y)
              case InvalidPackage => Mergeable(p, q)
              case _ => false
  {
    hide Coherent, Canonical, Mergeable, IsMerge, OneEntity, OneMacro, WithinLimits, CompletenessFromDiagnostics;
    hide JoinDeclaration, JoinMacro, MergeInputs, T.KeepsKey, T.Sorted, T.PutAll, T.Lookup, T.Agree;
    CoherentCanonical(p);
    CoherentCanonical(q);
    MergeDefined(p, q);
    ReadyToMerge(p, q);
    if p.target != q.target {
      return Err(IncompatibleTarget);
    }
    var inputs := MergeInputs(p.inputs, q.inputs);
    if inputs.None? {
      return Err(IncompatibleInputs);
    }
    var files := T.MergeTable(FILES, T.SameRow<File>, p.files, q.files);
    if files.Err? {
      FileDispute(p, q, files.error);
      return Err(ConflictingFile(files.error));
    }
    var declarations := T.MergeTable(DECLARATIONS, JoinDeclaration, p.declarations, q.declarations);
    if declarations.Err? {
      DeclarationDispute(p, q, declarations.error);
      return Err(ConflictingDeclaration(declarations.error));
    }
    var macros := T.MergeTable(MACROS, JoinMacro, p.macros, q.macros);
    if macros.Err? {
      MacroDispute(p, q, macros.error);
      return Err(ConflictingMacro(macros.error));
    }
    var diagnostics := T.PutAll(DIAGNOSTICS, T.SameRow<Diagnostic>, [], p.diagnostics + q.diagnostics).value;
    var package := Package(p.target, files.value, inputs.value, declarations.value, macros.value, diagnostics,
                           CompletenessFromDiagnostics(diagnostics));
    MergedValid(p, q, package);
    forall m ensures Merged(p, q) == Some(m) <==> IsMerge(p, q, m) { MergeMeans(p, q, m); }
    var built := TryNew(package);
    return if built.Some? then Ok(built.value) else Err(InvalidPackage);
  }
}
