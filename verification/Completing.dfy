/** Completing a selection (src/contract/complete.rs), said without the walk: the closure is what chains of uses
    reach, the blockers are what stands against it, and completing succeeds exactly when nothing does. */
module Completing {
  import opened Wrappers
  import opened Tables
  import opened Contract
  import opened Completion
  import opened NeedMeaning
  import D = Defects

  // ----- the package itself --------------------------------------------------------------

  /** A forcing diagnostic that no declaration, recovery or unsupported macro accounts for. */
  predicate Unaccounted(p: Package, d: Diagnostic) {
    && d in p.diagnostics && d.impact != Informational && d.declaration == None && d.stage != Recovery
    && forall m :: m in p.macros && m.support != Supported ==> m.support.code != d.code
  }

  predicate PackageStands(p: Package) {
    p.completeness.Rejected? || (p.completeness.PartialPackage? && exists d :: d in p.diagnostics && Unaccounted(p, d))
  }

  lemma ScopedExactly(p: Package, d: Diagnostic)
    ensures d in Filter(ScopedTo(MacroCodes(p.macros)), p.diagnostics) <==> Unaccounted(p, d)
  {
    FilterSpec(DIAGNOSTICS, ScopedTo(MacroCodes(p.macros)), p.diagnostics);
    if d.code in MacroCodes(p.macros) {
      var m :| m in p.macros && !m.support.Supported? && m.support.code == d.code;
    }
  }

  lemma {:induction false} ReasonsMean(diagnostics: seq<Diagnostic>, r: Reason)
    ensures r in ReasonsOf(diagnostics) <==> exists d :: d in diagnostics && ReasonOf(d) == r
  {
    var reasons := ReasonsOf(diagnostics);
    if r in reasons {
      var i :| 0 <= i < |reasons| && reasons[i] == r;
      assert ReasonOf(diagnostics[i]) == r;
    }
    if exists d :: d in diagnostics && ReasonOf(d) == r {
      var d :| d in diagnostics && ReasonOf(d) == r;
      var i :| 0 <= i < |diagnostics| && diagnostics[i] == d;
      assert reasons[i] == r;
    }
  }

  /** The package-level blocker: the reasons of a rejected package, or those of the unaccounted diagnostics. */
  lemma PackageExactly(p: Package, b: Blocker)
    ensures PackageFacts(p) == [] <==> !PackageStands(p)
    ensures b in PackageFacts(p) ==>
              && b.PackageIncomplete?
              && (p.completeness.Rejected? ==> b.reasons == p.completeness.reasons)
              && (p.completeness.PartialPackage? ==>
                    forall r :: r in b.reasons <==> exists d :: Unaccounted(p, d) && ReasonOf(d) == r)
  {
    var scoped := Filter(ScopedTo(MacroCodes(p.macros)), p.diagnostics);
    forall d ensures d in scoped <==> Unaccounted(p, d) { ScopedExactly(p, d); }
    if scoped != [] { assert Unaccounted(p, scoped[0]); }
    forall r ensures r in ReasonsOf(scoped) <==> exists d :: Unaccounted(p, d) && ReasonOf(d) == r {
      ReasonsMean(scoped, r);
    }
  }

  // ----- what stands against a declaration -----------------------------------------------

  ghost predicate Needed(p: Package, sel: Selection, id: Id) {
    Reached(p, sel, id, Definition) || Reached(p, sel, id, OpaqueSufficient)
  }

  /** Each kind of blocker by the chains and the declarations alone. */
  ghost predicate Stands(p: Package, sel: Selection, b: Blocker) {
    match b
    case PackageIncomplete(_) => b in PackageFacts(p)
    case MissingDeclaration(id) => Needed(p, sel, id) && Find(p.declarations, id) == None
    case OpaqueRootIsNotRecord(id) =>
      Needed(p, sel, id) && Find(p.declarations, id).Some?
      && Unopened(sel, Find(p.declarations, id).value, OpaqueSufficient)
    case IncompleteRecord(id) =>
      Reached(p, sel, id, Definition) && Find(p.declarations, id).Some?
      && var kind := Find(p.declarations, id).value.kind; kind.RecordKind? && !kind.complete
    case UnsupportedAt(id, path, reason) =>
      exists need :: Reached(p, sel, id, need) && DefectOf(p, sel, id, need, path, reason)
  }

  predicate DefectOf(p: Package, sel: Selection, id: Id, need: Need, path: Path, reason: string) {
    match Find(p.declarations, id)
    case None => false
    case Some(d) => !Unopened(sel, d, need) && D.Defect(d, need, path, reason)
  }

  lemma FactsMean(p: Package, sel: Selection, id: Id, need: Need, b: Blocker)
    ensures b in Facts(p, sel, id, need) <==>
            match Find(p.declarations, id)
            case None => b == MissingDeclaration(id)
            case Some(d) =>
              if Unopened(sel, d, need) then b == OpaqueRootIsNotRecord(id)
              else || (b.UnsupportedAt? && b.id == id && D.Defect(d, need, b.path, b.reason))
                   || (b == IncompleteRecord(id) && d.kind.RecordKind? && !d.kind.complete && need == Definition)
  {
    hide D.Defect, DeclarationFacts;
    FindMember(p, id);
    match Find(p.declarations, id)
    case None =>
    case Some(d) => D.DeclarationFactsMean(b, d, need);
  }

  /** An opaque selection never wants a definition. */
  lemma OpaqueHandles(p: Package, sel: Selection, m: Requirements, id: Id)
    requires IsClosure(p, sel, m) && sel.OpaqueOnly?
    ensures !Reached(p, sel, id, Definition)
  {
    hide IsClosure;
    OpaqueSelectionClosure(p, sel.ids, m);
    NeedExactly(p, sel, m, id);
  }

  /** A fact at a need that a chain reaches is one at the need of the closure. */
  lemma ReachedFact(p: Package, sel: Selection, m: Requirements, id: Id, need: Need, b: Blocker)
    requires IsClosure(p, sel, m) && Reached(p, sel, id, need) && b in Facts(p, sel, id, need)
    ensures IsBlocker(p, sel, m, b)
  {
    hide IsClosure, Facts, Reached;
    NeedExactly(p, sel, m, id);
    if m[id] != need {
      if sel.OpaqueOnly? { OpaqueHandles(p, sel, m, id); }
      NeedMonotone(p, sel, id, m);
    }
  }

  lemma BlockerStands(p: Package, sel: Selection, m: Requirements, b: Blocker)
    requires IsClosure(p, sel, m) && IsBlocker(p, sel, m, b)
    ensures Stands(p, sel, b)
  {
    hide IsClosure, Facts, Reached, D.Defect;
    PackageExactly(p, b);
    if b !in PackageFacts(p) {
      var id :| id in m && b in Facts(p, sel, id, m[id]);
      NeedExactly(p, sel, m, id);
      FactsMean(p, sel, id, m[id], b);
    }
  }

  lemma StandingBlocks(p: Package, sel: Selection, m: Requirements, b: Blocker)
    requires IsClosure(p, sel, m) && Stands(p, sel, b)
    ensures IsBlocker(p, sel, m, b)
  {
    hide IsClosure, Facts, Reached, D.Defect, IsBlocker;
    match b
    case PackageIncomplete(_) => assert IsBlocker(p, sel, m, b) by { PackageBlocks(p, sel, m, b); }
    case MissingDeclaration(id) => NeededBlocks(p, sel, m, id, b);
    case OpaqueRootIsNotRecord(id) =>
      if Reached(p, sel, id, Definition) { OpaqueHandles(p, sel, m, id); }
      FactsMean(p, sel, id, OpaqueSufficient, b);
      ReachedFact(p, sel, m, id, OpaqueSufficient, b);
    case IncompleteRecord(id) =>
      if sel.OpaqueOnly? { OpaqueHandles(p, sel, m, id); }
      FactsMean(p, sel, id, Definition, b);
      ReachedFact(p, sel, m, id, Definition, b);
    case UnsupportedAt(id, path, reason) =>
      var need :| Reached(p, sel, id, need) && DefectOf(p, sel, id, need, path, reason);
      FactsMean(p, sel, id, need, b);
      ReachedFact(p, sel, m, id, need, b);
  }

  lemma PackageBlocks(p: Package, sel: Selection, m: Requirements, b: Blocker)
    requires b in PackageFacts(p)
    ensures IsBlocker(p, sel, m, b)
  {
  }

  lemma NeededBlocks(p: Package, sel: Selection, m: Requirements, id: Id, b: Blocker)
    requires IsClosure(p, sel, m) && Needed(p, sel, id)
    requires Find(p.declarations, id) == None && b == MissingDeclaration(id)
    ensures IsBlocker(p, sel, m, b)
  {
    hide IsClosure, Facts, Reached, IsBlocker;
    var need := if Reached(p, sel, id, Definition) then Definition else OpaqueSufficient;
    FactsMean(p, sel, id, need, b);
    ReachedFact(p, sel, m, id, need, b);
  }

  // ----- completing ----------------------------------------------------------------------

  /** Declared, opened, a complete record if wanted whole, and without a defect. */
  ghost predicate Fit(p: Package, sel: Selection, id: Id, need: Need) {
    match Find(p.declarations, id)
    case None => false
    case Some(d) =>
      && !Unopened(sel, d, need)
      && (d.kind.RecordKind? && need == Definition ==> d.kind.complete)
      && forall path, reason :: !D.Defect(d, need, path, reason)
  }

  ghost predicate Completes(p: Package, sel: Selection) {
    !PackageStands(p) && forall id, need :: Reached(p, sel, id, need) ==> Fit(p, sel, id, need)
  }

  lemma FitExactly(p: Package, sel: Selection, id: Id, need: Need)
    ensures Fit(p, sel, id, need) <==> forall b :: b !in Facts(p, sel, id, need)
  {
    hide Facts, D.Defect;
    forall b { FactsMean(p, sel, id, need, b); }
    match Find(p.declarations, id)
    case None => assert MissingDeclaration(id) in Facts(p, sel, id, need);
    case Some(d) =>
      if Unopened(sel, d, need) { assert OpaqueRootIsNotRecord(id) in Facts(p, sel, id, need); }
      if forall b :: b !in Facts(p, sel, id, need) {
        assert IncompleteRecord(id) !in Facts(p, sel, id, need);
        forall path, reason ensures !D.Defect(d, need, path, reason) {
          assert UnsupportedAt(id, path, reason) !in Facts(p, sel, id, need);
        }
      }
  }

  lemma CompletesExactly(p: Package, sel: Selection, m: Requirements)
    requires IsClosure(p, sel, m)
    ensures (forall b :: !IsBlocker(p, sel, m, b)) <==> Completes(p, sel)
  {
    hide IsClosure, Facts, Reached, Fit, PackageStands, PackageFacts;
    PackageExactly(p, MissingDeclaration(0));
    assert PackageFacts(p) != [] ==> IsBlocker(p, sel, m, PackageFacts(p)[0]);
    if forall b :: !IsBlocker(p, sel, m, b) {
      forall id, need | Reached(p, sel, id, need) ensures Fit(p, sel, id, need) {
        forall b ensures b !in Facts(p, sel, id, need) {
          if b in Facts(p, sel, id, need) { ReachedFact(p, sel, m, id, need, b); }
        }
        FitExactly(p, sel, id, need);
      }
    }
    if Completes(p, sel) {
      forall b ensures !IsBlocker(p, sel, m, b) {
        if IsBlocker(p, sel, m, b) {
          var id :| id in m && b in Facts(p, sel, id, m[id]);
          NeedExactly(p, sel, m, id);
          FitExactly(p, sel, id, m[id]);
          assert false;
        }
      }
    }
  }

  /** `into_complete` by what it means: it succeeds exactly when nothing stands against what the chains reach, with
      the closure that they reach, and otherwise it reports exactly what stands. */
  method Complete(p: Package, sel: Selection) returns (r: Result<CompletePackage, seq<Blocker>>)
    requires Sorted(DECLARATIONS, p.declarations)
    ensures r.Ok? <==> Completes(p, sel)
    ensures r.Ok? ==> r.value.package == p && r.value.selection == sel
    ensures r.Ok? ==> forall id :: id in r.value.closure <==> Needed(p, sel, id)
    ensures r.Ok? ==> forall id :: id in r.value.closure ==>
              (r.value.closure[id] == Definition <==> Reached(p, sel, id, Definition))
    ensures r.Err? ==> forall b :: b in r.error <==> Stands(p, sel, b)
  {
    hide IsClosure, Reached, Stands, Completes, IsBlocker, PackageFacts;
    ghost var m;
    r, m := IntoComplete(p, sel);
    CompletesExactly(p, sel, m);
    forall id {
      NeedExactly(p, sel, m, id);
    }
    forall b ensures IsBlocker(p, sel, m, b) <==> Stands(p, sel, b) {
      if IsBlocker(p, sel, m, b) { BlockerStands(p, sel, m, b); }
      if Stands(p, sel, b) { StandingBlocks(p, sel, m, b); }
    }
    if r.Err? { assert r.error[0] in r.error; }
  }

  /** On success every record that is used by value, along whatever chain, is complete. */
  lemma UsedByValueComplete(p: Package, sel: Selection, id: Id)
    requires Completes(p, sel) && Reached(p, sel, id, Definition)
    ensures Find(p.declarations, id).Some?
    ensures var kind := Find(p.declarations, id).value.kind; kind.RecordKind? ==> kind.complete
  {
    assert Fit(p, sel, id, Definition);
  }
}
