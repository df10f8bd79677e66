/** `extract_contract` (src/extract/mod.rs) from its steps to its output: every declaration emitted and every
    diagnostic, field by field. */
module Extraction {
  import opened Wrappers
  import opened Tables
  import opened Contract
  import opened Extract
  import opened OccurrenceIds
  import opened ExtractMeaning
  import opened Extractor

  // ----- the diagnostics -------------------------------------------------------------------

  ghost predicate HasKind(steps: seq<Step>, id: Id) { exists k :: 0 <= k < |steps| && Sets(steps[k], id) }

  /** A declaration without a kind is reported at its first occurrence. */
  ghost predicate KindMissing(steps: seq<Step>, id: Id, d: Diagnostic) {
    && Placed(steps, id) != [] && !HasKind(steps, id) && d.severity == Error
    && Names(d, "PARC-E1209", UNLOWERED, Some(Placed(steps, id)[0].range), id)
  }

  /** Some step already reports the code of a status on its declaration. */
  ghost predicate AlreadyCaused(steps: seq<Step>, id: Id, code: string) {
    exists d :: CausedBefore(steps, |steps|, d) && d.code == code && d.declaration == Some(id)
  }

  /** A status that nothing reports is reported at the last occurrence. */
  ghost predicate StatusUnreported(steps: seq<Step>, id: Id, st: SupportStatus, d: Diagnostic) {
    && (Placed(steps, id) == [] || HasKind(steps, id))
    && StatusAfter(steps, |steps|, id, st) && st != Supported && !AlreadyCaused(steps, id, st.code)
    && Names(d, st.code, st.reason, LastOf(Placed(steps, id)), id)
    && d.severity == if st.PartialSupport? then Warning else Error
  }

  const UNPLACED := "an indexed declaration had no contract-safe source occurrence"

  /** The diagnostics of the output. */
  ghost predicate Reports(metadata: map<Id, Meta>, steps: seq<Step>, d: Diagnostic) {
    || CausedBefore(steps, |steps|, d)
    || (d == Diagnostic("PARC-E1208", Stage.Extract, Error, ForcesRejected, UNPLACED, None, None)
        && exists id :: id in metadata && Placed(steps, id) == [])
    || (exists id :: KindMissing(steps, id, d))
    || (exists id, st :: StatusUnreported(steps, id, st, d))
  }

  lemma Final(steps: seq<Step>, id: Id)
    ensures var draft := DraftOf(Run(START, steps), id);
            && draft == After(steps, |steps|, id) && draft.occurrences == Placed(steps, id)
            && (draft.kind.Some? <==> HasKind(steps, id))
            && (draft.kind.Some? ==> KindAfter(steps, |steps|, id, draft.kind.value))
            && StatusAfter(steps, |steps|, id, draft.support)
  {
    BeforeMeans(steps, |steps|, id);
    KindMeans(steps, |steps|, id);
    StatusMeans(steps, |steps|, id);
    hide Run, Placed, Clashes, Gives, HasContent, Softens;
    var draft := DraftOf(Run(START, steps), id);
    if draft.kind.Some? { KindSet(steps, id, draft.kind.value); }
  }

  lemma KindSet(steps: seq<Step>, id: Id, kind: DeclarationKind)
    requires KindAfter(steps, |steps|, id, kind)
    ensures HasKind(steps, id)
  {
    hide Clash, After, Placed;
    if !NoClash(steps, 0, |steps|, id) {
      var k :| 0 <= k < |steps| && Clashes(steps, k, id);
      assert Sets(steps[k], id);
    }
  }

  lemma RunCaused(steps: seq<Step>, d: Diagnostic)
    ensures d in Run(START, steps).diagnostics <==> CausedBefore(steps, |steps|, d)
  {
    hide Run, Causes;
    ReportsMean(steps, |steps|, d);
    assert steps[..|steps|] == steps;
  }

  lemma AlreadyReported(steps: seq<Step>, id: Id, code: string)
    ensures Reported(Run(START, steps).diagnostics, id, code) <==> AlreadyCaused(steps, id, code)
  {
    hide Run, CausedBefore;
    forall d ensures d in Run(START, steps).diagnostics <==> CausedBefore(steps, |steps|, d) { RunCaused(steps, d); }
  }

  lemma KindDueMeans(steps: seq<Step>, d: Diagnostic)
    ensures KindDue(Run(START, steps), d) <==> exists id :: KindMissing(steps, id, d)
  {
    hide Run, Placed, HasKind;
    var s := Run(START, steps);
    forall id ensures id in s.drafts && MissingKind(s.drafts[id]) && d == KindReport(id, s.drafts[id])
                 <==> KindMissing(steps, id, d)
    {
      Final(steps, id);
      hide After, StatusAfter, KindAfter;
    }
  }

  lemma SupportDueMeans(steps: seq<Step>, d: Diagnostic)
    ensures SupportDue(Run(START, steps), d) <==> exists id, st :: StatusUnreported(steps, id, st, d)
  {
    hide Run, Placed, HasKind, Reported, AlreadyCaused;
    var s := Run(START, steps);
    if SupportDue(s, d) {
      var id :| id in s.drafts && !MissingKind(s.drafts[id]) && StatusDue(s.diagnostics, id, s.drafts[id])
                && d == StatusReport(id, s.drafts[id]);
      Final(steps, id);
      AlreadyReported(steps, id, s.drafts[id].support.code);
      assert StatusUnreported(steps, id, s.drafts[id].support, d);
    }
    if exists id, st :: StatusUnreported(steps, id, st, d) {
      var id, st :| StatusUnreported(steps, id, st, d);
      Final(steps, id);
      StatusUnique(steps, |steps|, id, st);
      AlreadyReported(steps, id, st.code);
      assert id in s.drafts && !MissingKind(s.drafts[id]) && StatusDue(s.diagnostics, id, s.drafts[id]);
      assert d == StatusReport(id, s.drafts[id]);
    }
  }

  lemma OccurrenceDueMeans(metadata: map<Id, Meta>, steps: seq<Step>)
    ensures OccurrenceDue(metadata, Run(START, steps)) <==> exists id :: id in metadata && Placed(steps, id) == []
  {
    hide Run, Placed, After, HasKind, StatusAfter, KindAfter;
    forall id ensures DraftOf(Run(START, steps), id).occurrences == Placed(steps, id) { Final(steps, id); }
  }

  /** What is due at the end of a run is what its steps say. */
  lemma DueMeans(metadata: map<Id, Meta>, steps: seq<Step>, d: Diagnostic)
    ensures Due(metadata, Run(START, steps), d) <==> Reports(metadata, steps, d)
  {
    hide Run, KindDue, SupportDue, OccurrenceDue, KindMissing, StatusUnreported, CausedBefore, Placed;
    RunCaused(steps, d);
    KindDueMeans(steps, d);
    SupportDueMeans(steps, d);
    OccurrenceDueMeans(metadata, steps);
  }

  // ----- the declarations ------------------------------------------------------------------

  /** An emitted declaration: scope and header of its entity, the occurrences placed on it in id order, and the kind
      and status that the steps give it, or PARC-E1209 if they give it no kind. */
  ghost predicate Stands(metadata: map<Id, Meta>, steps: seq<Step>, decl: Declaration) {
    var placed := Placed(steps, decl.id);
    && decl.id in metadata && decl.scope == metadata[decl.id].scope && decl.header == metadata[decl.id].header
    && placed != [] && multiset(decl.occurrences) == multiset(placed)
    && (forall i, j :: 0 <= i < j < |decl.occurrences| ==> decl.occurrences[i].id <= decl.occurrences[j].id)
    && if HasKind(steps, decl.id)
       then KindAfter(steps, |steps|, decl.id, decl.kind) && StatusAfter(steps, |steps|, decl.id, decl.support)
       else && decl.kind == UnsupportedKind("invalid declaration", placed[0].spelling, "PARC-E1209")
            && decl.support == NoSupport("PARC-E1209", UNLOWERED)
  }

  lemma EmittedStands(metadata: map<Id, Meta>, steps: seq<Step>, decl: Declaration)
    requires Run(START, steps).drafts.Keys <= metadata.Keys
    requires EmittedAt(metadata, Run(START, steps).drafts, decl.id) == Some(decl)
    ensures Stands(metadata, steps, decl)
  {
    hide Run, SortById, KindAfter, StatusAfter, HasKind;
    Final(steps, decl.id);
    hide After, Placed;
    SortByIdSpec(Run(START, steps).drafts[decl.id].occurrences);
  }

  /** An emitted declaration that is not supported has its forcing diagnostic. */
  ghost predicate Explained(output: seq<Diagnostic>, decl: Declaration) {
    decl.support != Supported ==>
      exists d :: d in output && d.declaration == Some(decl.id) && d.code == decl.support.code
                  && d.impact == ForcesPartial
  }

  ghost predicate Holds(declarations: seq<Declaration>, id: Id) {
    exists decl :: decl in declarations && decl.id == id
  }

  /** `extract_contract` after indexing: exactly the declarations with an occurrence are emitted, each once and in id
      order, with the fields that the steps give them; every lost status is reported; and the package is rejected
      exactly for a step without a place or an indexed declaration without an occurrence. */
  method ExtractContract(metadata: map<Id, Meta>, steps: seq<Step>)
      returns (declarations: seq<Declaration>, output: seq<Diagnostic>)
    requires forall step :: step in steps ==> Indexed(metadata, step)
    ensures forall i, j :: 0 <= i < j < |declarations| ==> declarations[i].id < declarations[j].id
    ensures forall decl :: decl in declarations ==> Stands(metadata, steps, decl)
    ensures forall id :: Placed(steps, id) != [] ==> Holds(declarations, id)
    ensures forall decl :: decl in declarations ==> Explained(output, decl)
    ensures Sorted(DIAGNOSTICS, output)
    ensures forall d :: d in output <==> Reports(metadata, steps, d)
    ensures forall d :: d in output && d.declaration.Some? ==> d.impact == ForcesPartial
    ensures (exists d :: d in output && d.impact == ForcesRejected)
       <==> (exists id :: id in metadata && Placed(steps, id) == [])
            || (exists step :: step in steps && (step.UnboundDeclarator? || step.UnplacedTag?))
    ensures Run(START, steps).drafts.Keys <= metadata.Keys
    ensures forall id :: Lookup(DECLARATIONS, declarations, id) == EmittedAt(metadata, Run(START, steps).drafts, id)
  {
    hide Run, Due, EmittedAt, Indexed, Stands, Explained, Reports, Holds, Placed;
    RunStaysIndexed(metadata, START, steps);
    var extractor := new ContractExtractor(metadata);
    extractor.Lower(steps);
    declarations, output := extractor.Finish();
    SortedIds(declarations);
    Described(metadata, steps, declarations, output);
    forall d ensures d in output <==> Reports(metadata, steps, d) { DueMeans(metadata, steps, d); }
    Scoping(metadata, steps, output);
    Rejection(metadata, steps, output);
  }

  lemma SortedIds(declarations: seq<Declaration>)
    requires Sorted(DECLARATIONS, declarations)
    ensures forall i, j :: 0 <= i < j < |declarations| ==> declarations[i].id < declarations[j].id
  {
    forall i, j | 0 <= i < j < |declarations| ensures declarations[i].id < declarations[j].id {
      assert DECLARATIONS.less(DECLARATIONS.key(declarations[i]), DECLARATIONS.key(declarations[j]));
    }
  }

  lemma Scoping(metadata: map<Id, Meta>, steps: seq<Step>, output: seq<Diagnostic>)
    requires IsOutput(metadata, Run(START, steps), output)
    ensures forall d :: d in output && d.declaration.Some? ==> d.impact == ForcesPartial
  {
    hide Run, IsOutput;
    RunKeepsScoped(START, steps);
    DueScoped(metadata, Run(START, steps), output);
  }

  lemma Rejection(metadata: map<Id, Meta>, steps: seq<Step>, output: seq<Diagnostic>)
    requires IsOutput(metadata, Run(START, steps), output)
    ensures (exists d :: d in output && d.impact == ForcesRejected)
       <==> (exists id :: id in metadata && Placed(steps, id) == [])
            || (exists step :: step in steps && (step.UnboundDeclarator? || step.UnplacedTag?))
  {
    hide Run, IsOutput, OccurrenceDue, Placed;
    OutputRejects(metadata, steps, output);
    OccurrenceDueMeans(metadata, steps);
    assert forall d: Diagnostic :: Rejecting(d) <==> d.impact == ForcesRejected;
    assert forall step: Step :: RejectingStep(step) <==> step.UnboundDeclarator? || step.UnplacedTag?;
  }

  lemma Described(metadata: map<Id, Meta>, steps: seq<Step>, declarations: seq<Declaration>, output: seq<Diagnostic>)
    requires Run(START, steps).drafts.Keys <= metadata.Keys && Sorted(DECLARATIONS, declarations)
    requires forall id :: Lookup(DECLARATIONS, declarations, id) == EmittedAt(metadata, Run(START, steps).drafts, id)
    requires IsOutput(metadata, Run(START, steps), output)
    ensures forall decl :: decl in declarations ==> Stands(metadata, steps, decl) && Explained(output, decl)
    ensures forall id :: Placed(steps, id) != [] ==> Holds(declarations, id)
  {
    hide Run, IsOutput, EmittedAt, Placed, Stands, Explained;
    forall decl | decl in declarations ensures Stands(metadata, steps, decl) && Explained(output, decl) {
      DeclarationsOrdered();
      LookupSorted(DECLARATIONS, declarations, decl);
      assert EmittedAt(metadata, Run(START, steps).drafts, decl.id) == Some(decl);
      EmittedStands(metadata, steps, decl);
      EmittedExplained(metadata, steps, output, decl);
    }
    forall id | Placed(steps, id) != [] ensures Holds(declarations, id) {
      PlacedEmitted(metadata, steps, id);
      LookupFinds(DECLARATIONS, declarations, id);
    }
  }

  lemma DeclarationsOrdered()
    ensures DECLARATIONS.Valid() && forall d: Declaration :: DECLARATIONS.key(d) == d.id
  {
  }

  lemma PlacedEmitted(metadata: map<Id, Meta>, steps: seq<Step>, id: Id)
    requires Run(START, steps).drafts.Keys <= metadata.Keys && Placed(steps, id) != []
    ensures EmittedAt(metadata, Run(START, steps).drafts, id).Some?
  {
    hide Run, Placed;
    Final(steps, id);
  }

  lemma EmittedExplained(metadata: map<Id, Meta>, steps: seq<Step>, output: seq<Diagnostic>, decl: Declaration)
    requires Run(START, steps).drafts.Keys <= metadata.Keys && IsOutput(metadata, Run(START, steps), output)
    requires EmittedAt(metadata, Run(START, steps).drafts, decl.id) == Some(decl)
    ensures Explained(output, decl)
  {
    hide Run, IsOutput, SortById;
    if decl.support != Supported {
      assert Completed(Run(START, steps).drafts[decl.id]).support == decl.support;
      UnsupportedReported(metadata, steps, output, decl.id);
    }
  }
}
