/** The extractor object (src/extract/mod.rs): its methods take the steps of the state machine,
    and `finish` turns the drafts into declarations and completes the diagnostics. */
module Extractor {
  import opened Wrappers
  import opened Tables
  import opened Contract
  import opened Extract
  import opened PointerCache
  import AliasGraph
  import C = Completion
  import V = Validation

  const UNLOWERED := "the declaration kind could not be lowered without guessing"

  const NO_OCCURRENCE :=
    Report("PARC-E1208", Error, ForcesRejected,
           "an indexed declaration had no contract-safe source occurrence", None, None)

  predicate MissingKind(d: Draft) { d.kind.None? && d.occurrences != [] }

  /** A draft without a kind becomes an unsupported declaration. */
  function Completed(d: Draft): Draft {
    if MissingKind(d) then
      d.(kind := Some(UnsupportedKind("invalid declaration", d.occurrences[0].spelling, "PARC-E1209")),
         support := NoSupport("PARC-E1209", UNLOWERED))
    else d
  }

  function KindReport(id: Id, d: Draft): Diagnostic
    requires MissingKind(d)
  {
    Fault("PARC-E1209", UNLOWERED, Some(d.occurrences[0].range), id)
  }

  function StatusReport(id: Id, d: Draft): Diagnostic
    requires d.support != Supported
  {
    if d.support.PartialSupport? then
      Report(d.support.code, Warning, ForcesPartial, d.support.reason, LastRange(d), Some(id))
    else Report(d.support.code, Error, ForcesRejected, d.support.reason, LastRange(d), Some(id))
  }

  predicate Reported(diagnostics: seq<Diagnostic>, id: Id, code: string) {
    exists d :: d in diagnostics && d.code == code && d.declaration == Some(id)
  }

  /** The draft's status still needs a diagnostic of its own. */
  predicate StatusDue(diagnostics: seq<Diagnostic>, id: Id, d: Draft) {
    d.support != Supported && !Reported(diagnostics, id, d.support.code)
  }

  function InsertById(o: Occurrence, sorted: seq<Occurrence>): seq<Occurrence> {
    if sorted == [] || o.id < sorted[0].id then [o] + sorted else [sorted[0]] + InsertById(o, sorted[1..])
  }

  function SortById(occurrences: seq<Occurrence>): seq<Occurrence> {
    if occurrences == [] then []
    else InsertById(occurrences[|occurrences| - 1], SortById(occurrences[..|occurrences| - 1]))
  }

  predicate Ascending(s: seq<Occurrence>) { forall i, j :: 0 <= i < j < |s| ==> s[i].id <= s[j].id }

  lemma {:induction false} InsertKeeps(o: Occurrence, s: seq<Occurrence>)
    ensures multiset(InsertById(o, s)) == multiset(s) + multiset{o}
  {
    if s != [] && s[0].id <= o.id {
      assert s == [s[0]] + s[1..];
      InsertKeeps(o, s[1..]);
      assert InsertById(o, s) == [s[0]] + InsertById(o, s[1..]);
    }
  }

  lemma AscendsFrom(first: Occurrence, rest: seq<Occurrence>)
    requires Ascending(rest) && forall x :: x in rest ==> first.id <= x.id
    ensures Ascending([first] + rest)
  {
    var s := [first] + rest;
    forall j | 0 < j < |s| ensures s[j] in rest { assert s[j] == rest[j - 1]; }
  }

  lemma {:induction false} InsertAscends(o: Occurrence, s: seq<Occurrence>)
    requires Ascending(s)
    ensures Ascending(InsertById(o, s))
    ensures forall x :: x in InsertById(o, s) ==> x == o || x in s
  {
    if s != [] && s[0].id <= o.id {
      InsertAscends(o, s[1..]);
      AscendsFrom(s[0], InsertById(o, s[1..]));
    }
  }

  /** The emitted occurrences are those of the draft, in id order. */
  lemma {:induction false} SortByIdSpec(s: seq<Occurrence>)
    ensures Ascending(SortById(s)) && multiset(SortById(s)) == multiset(s)
  {
    if s != [] {
      var n := |s| - 1;
      assert s == s[..n] + [s[n]];
      SortByIdSpec(s[..n]);
      InsertKeeps(s[n], SortById(s[..n]));
      InsertAscends(s[n], SortById(s[..n]));
    }
  }

  function Emitted(id: Id, meta: Meta, d: Draft): Declaration
    requires d.kind.Some?
  {
    Declaration(id, meta.scope, meta.header, SortById(d.occurrences), d.support, d.kind.value)
  }

  function EmittedAt(metadata: map<Id, Meta>, drafts: map<Id, Draft>, id: Id): Option<Declaration>
    requires drafts.Keys <= metadata.Keys
  {
    if id in drafts && drafts[id].occurrences != [] then Some(Emitted(id, metadata[id], Completed(drafts[id])))
    else None
  }

  /** An emitted declaration has the fields of its draft, or PARC-E1209 where that has no kind. */
  ghost predicate FromDraft(metadata: map<Id, Meta>, drafts: map<Id, Draft>, decl: Declaration) {
    && decl.id in drafts && decl.id in metadata
    && var d := drafts[decl.id];
       && d.occurrences != [] && multiset(decl.occurrences) == multiset(d.occurrences)
       && (forall i, j :: 0 <= i < j < |decl.occurrences| ==> decl.occurrences[i].id <= decl.occurrences[j].id)
       && decl.scope == metadata[decl.id].scope && decl.header == metadata[decl.id].header
       && if d.kind.Some? then decl.kind == d.kind.value && decl.support == d.support
          else && decl.kind == UnsupportedKind("invalid declaration", d.occurrences[0].spelling, "PARC-E1209")
               && decl.support == NoSupport("PARC-E1209", UNLOWERED)
  }

  lemma EmittedFromDraft(metadata: map<Id, Meta>, drafts: map<Id, Draft>, decl: Declaration)
    requires drafts.Keys <= metadata.Keys && EmittedAt(metadata, drafts, decl.id) == Some(decl)
    ensures FromDraft(metadata, drafts, decl)
  {
    hide SortById;
    SortByIdSpec(drafts[decl.id].occurrences);
  }

  lemma TableFromDrafts(metadata: map<Id, Meta>, drafts: map<Id, Draft>, declarations: seq<Declaration>)
    requires drafts.Keys <= metadata.Keys && Sorted(DECLARATIONS, declarations)
    requires forall id :: Lookup(DECLARATIONS, declarations, id) == EmittedAt(metadata, drafts, id)
    ensures forall decl :: decl in declarations ==> FromDraft(metadata, drafts, decl)
    ensures forall id :: id in drafts && drafts[id].occurrences != [] ==>
              exists decl :: decl in declarations && decl.id == id
  {
    hide FromDraft;
    forall decl | decl in declarations ensures FromDraft(metadata, drafts, decl) {
      assert DECLARATIONS.key(decl) == decl.id && DECLARATIONS.Valid();
      LookupSorted(DECLARATIONS, declarations, decl);
      EmittedFromDraft(metadata, drafts, decl);
    }
    forall id | id in drafts && drafts[id].occurrences != []
      ensures exists decl :: decl in declarations && decl.id == id
    {
      LookupFinds(DECLARATIONS, declarations, id);
      assert Lookup(DECLARATIONS, declarations, id).Some?;
    }
  }

  // ----- what is reported at the end -----------------------------------------------------

  ghost predicate OccurrenceDue(metadata: map<Id, Meta>, s: State) {
    exists id :: id in metadata && DraftOf(s, id).occurrences == []
  }

  ghost predicate KindDue(s: State, d: Diagnostic) {
    exists id :: id in s.drafts && MissingKind(s.drafts[id]) && d == KindReport(id, s.drafts[id])
  }

  ghost predicate SupportDue(s: State, d: Diagnostic) {
    exists id :: id in s.drafts && !MissingKind(s.drafts[id]) && StatusDue(s.diagnostics, id, s.drafts[id])
              && d == StatusReport(id, s.drafts[id])
  }

  /** The diagnostics of the finished extraction. */
  ghost predicate Due(metadata: map<Id, Meta>, s: State, d: Diagnostic) {
    d in s.diagnostics || (d == NO_OCCURRENCE && OccurrenceDue(metadata, s)) || KindDue(s, d) || SupportDue(s, d)
  }

  /** Indexing has met the declaration that a step works on. */
  predicate Indexed(metadata: map<Id, Meta>, step: Step) {
    match step
    case AddOccurrence(id, _) => id in metadata
    case SetKind(id, _) => id in metadata
    case ApplyExtensions(id, _) => id in metadata
    case ApplyAlignment(id, _) => id in metadata
    case _ => true
  }

  class ContractExtractor {
    const metadata: map<Id, Meta>
    var drafts: map<Id, Draft>
    var pointerAliases: set<Id>
    var diagnostics: seq<Diagnostic>

    ghost function View(): State
      reads this
    {
      State(drafts, pointerAliases, diagnostics)
    }

    /** Only indexed declarations have drafts. */
    ghost predicate Valid()
      reads this
    {
      drafts.Keys <= metadata.Keys
    }

    constructor (metadata: map<Id, Meta>)
      ensures Valid() && View() == START && this.metadata == metadata
    {
      this.metadata := metadata;
      drafts, pointerAliases, diagnostics := map[], {}, [];
    }

    /** `draft`. */
    method GetDraft(id: Id) returns (d: Draft)
      requires Valid() && id in metadata
      modifies this`drafts
      ensures Valid() && d == DraftOf(old(View()), id)
      ensures drafts == old(drafts)[id := d]
    {
      if id !in drafts { drafts := drafts[id := NEW_DRAFT]; }
      d := drafts[id];
      assert old(drafts)[id := d] == drafts;
    }

    method PushDiagnostic(code: string, severity: Severity, impact: Impact, message: string,
                          range: Option<SourceRange>, declaration: Option<Id>)
      modifies this`diagnostics
      ensures diagnostics == old(diagnostics) + [Report(code, severity, impact, message, range, declaration)]
    {
      diagnostics := diagnostics + [Report(code, severity, impact, message, range, declaration)];
    }

    method AddOccurrence(id: Id, place: Place)
      requires Valid() && id in metadata
      modifies this
      ensures Valid() && View() == Stepped(old(View()), Step.AddOccurrence(id, place))
    {
      match place {
        case NoRange =>
          PushDiagnostic("PARC-E1203", Error, ForcesRejected,
                         BAD_SPAN, None, Some(id));
        case NoTokens(range) =>
          PushDiagnostic("PARC-E1203", Error, ForcesRejected,
                         BAD_TOKENS, Some(range), Some(id));
        case NoText(range) =>
          PushDiagnostic("PARC-E1203", Error, ForcesRejected,
                         BAD_TEXT, Some(range), Some(id));
        case At(occurrence, bad) =>
          if bad {
            PushDiagnostic("PARC-E1210", Error, ForcesRejected,
                           BAD_ATTRIBUTE, Some(occurrence.range), Some(id));
          }
          var d := GetDraft(id);
          drafts := drafts[id := d.(occurrences := d.occurrences + [occurrence])];
          assert drafts == old(drafts)[id := d.(occurrences := d.occurrences + [occurrence])];
          assert !bad ==> diagnostics == old(diagnostics) + [];
      }
    }

    method SetKind(id: Id, kind: DeclarationKind)
      requires Valid() && id in metadata
      modifies this
      ensures Valid() && View() == Stepped(old(View()), Step.SetKind(id, kind))
    {
      hide KindSupport, Redeclaration, CachedPointer, PointerKind;
      var support := KindSupport(kind);
      var before := GetDraft(id);
      var draft := before;
      if support != Supported {
        draft := draft.(support := support);
      }
      var conflictRange: Option<SourceRange> := None;
      var action := if draft.kind.None? then Replace else Redeclaration(draft.kind.value, kind);
      match action {
        case Keep =>
        case Replace => draft := draft.(kind := Some(kind));
        case Conflict =>
          conflictRange := LastRange(draft);
          draft := draft.(kind := Some(ConflictKind(draft)), support := NoSupport("PARC-E1204", CONFLICT_REASON));
      }
      assert draft == Redeclared(before, kind);
      hide Redeclared;
      drafts := drafts[id := draft];
      assert drafts == old(drafts)[id := draft];
      if conflictRange.Some? {
        PushDiagnostic("PARC-E1204", Error, ForcesRejected, CONFLICT_REASON, conflictRange, Some(id));
      }
      assert diagnostics == old(diagnostics) + ConflictReports(before, kind, id);
      RefreshAlias(id);
    }

    /** The last step of `set_kind`: the cache follows the draft's kind. */
    method RefreshAlias(id: Id)
      requires Valid() && id in drafts
      modifies this`pointerAliases
      ensures pointerAliases == if PointerKind(drafts[id].kind, old(pointerAliases)) then old(pointerAliases) + {id}
                                else old(pointerAliases) - {id}
    {
      if PointerKind(drafts[id].kind, pointerAliases) {
        pointerAliases := pointerAliases + {id};
      } else {
        pointerAliases := pointerAliases - {id};
      }
    }

    method Break(on: bool, id: Id, code: string, reason: string, range: Option<SourceRange>)
      requires Valid() && id in metadata
      modifies this
      ensures Valid() && View() == Broken(old(View()), on, id, code, reason, range)
    {
      if on {
        var d := GetDraft(id);
        drafts := drafts[id := d.(support := NoSupport(code, reason))];
        assert drafts == old(drafts)[id := d.(support := NoSupport(code, reason))];
        PushDiagnostic(code, Error, ForcesRejected, reason, range, Some(id));
      }
    }

    method MarkUnmodeled(on: bool, id: Id, range: Option<SourceRange>)
      requires Valid() && id in metadata
      modifies this
      ensures Valid() && View() == Unmodeled(old(View()), on, id, range)
    {
      if on {
        var d := GetDraft(id);
        var support := if d.support == Supported then PartialSupport("PARC-P1205", UNMODELED) else d.support;
        drafts := drafts[id := d.(support := support)];
        assert drafts == old(drafts)[id := d.(support := support)];
        PushDiagnostic("PARC-P1205", Warning, ForcesPartial, UNMODELED, range, Some(id));
      }
    }

    method ApplyExtensionSupport(id: Id, e: Extensions)
      requires Valid() && id in metadata
      modifies this
      ensures Valid() && View() == Stepped(old(View()), ApplyExtensions(id, e))
    {
      var range := if id in drafts then LastRange(drafts[id]) else None;
      Break(e.badAsm, id, "PARC-E1211", BAD_ASM, range);
      Break(e.badConvention, id, "PARC-E1214", BAD_CONVENTION, range);
      Break(e.badVisibility, id, "PARC-E1215", BAD_VISIBILITY, range);
      MarkUnmodeled(e.unmodeled, id, range);
    }

    /** `apply_specifier_support` for one alignment specifier. */
    method ApplyAlignment(id: Id, range: Option<SourceRange>)
      requires Valid() && id in metadata
      modifies this
      ensures Valid() && View() == Stepped(old(View()), Step.ApplyAlignment(id, range))
    {
      Break(true, id, "PARC-E1216", ALIGNMENT, range);
    }

    method RejectUnsizedField(id: Id, field: SourceRange)
      requires Valid()
      modifies this`diagnostics
      ensures Valid() && View() == Stepped(old(View()), UnsizedField(id, field))
    {
      PushDiagnostic("PARC-E1212", Error, ForcesRejected, UNSIZED, Some(field), Some(id));
    }

    method PushUnboundDeclarator(message: string, range: Option<SourceRange>)
      requires Valid()
      modifies this`diagnostics
      ensures Valid() && View() == Stepped(old(View()), UnboundDeclarator(message, range))
    {
      PushDiagnostic("PARC-E1213", Error, ForcesRejected, message, range, None);
    }

    /** `index_tag` for an anonymous tag without tokens. */
    method RejectTag()
      requires Valid()
      modifies this`diagnostics
      ensures Valid() && View() == Stepped(old(View()), UnplacedTag)
    {
      PushDiagnostic("PARC-E1203", Error, ForcesRejected, BAD_TAG, None, None);
    }

    method NoteStaticAssert(range: Option<SourceRange>)
      requires Valid()
      modifies this`diagnostics
      ensures Valid() && View() == Stepped(old(View()), StaticAssert(range))
    {
      PushDiagnostic("PARC-P1200", Note, Informational, UNBOUND_ASSERT, range, None);
    }

    method Execute(step: Step)
      requires Valid() && Indexed(metadata, step)
      modifies this
      ensures Valid() && View() == Stepped(old(View()), step)
    {
      hide Stepped;
      match step
      case AddOccurrence(id, place) => AddOccurrence(id, place);
      case SetKind(id, kind) => SetKind(id, kind);
      case ApplyExtensions(id, extensions) => ApplyExtensionSupport(id, extensions);
      case ApplyAlignment(id, range) => ApplyAlignment(id, range);
      case UnsizedField(id, field) => RejectUnsizedField(id, field);
      case UnboundDeclarator(message, range) => PushUnboundDeclarator(message, range);
      case UnplacedTag => RejectTag();
      case StaticAssert(range) => NoteStaticAssert(range);
    }

    /** The walk over the translation unit. */
    method Lower(steps: seq<Step>)
      requires Valid() && forall step :: step in steps ==> Indexed(metadata, step)
      modifies this
      ensures Valid() && View() == Run(old(View()), steps)
    {
      hide Stepped, Valid, Indexed;
      for i := 0 to |steps|
        invariant Valid() && Run(View(), steps[i..]) == Run(old(View()), steps)
      {
        assert steps[i..][0] == steps[i] && steps[i..][1..] == steps[i + 1..];
        Execute(steps[i]);
      }
    }

    method ReportOccurrences()
      requires Valid()
      modifies this`diagnostics
      ensures forall d :: d in diagnostics <==>
                d in old(diagnostics) || (d == NO_OCCURRENCE && OccurrenceDue(metadata, old(View())))
    {
      var todo := metadata.Keys;
      while todo != {}
        invariant todo <= metadata.Keys
        invariant forall d :: d in old(diagnostics) ==> d in diagnostics
        invariant forall d :: d in diagnostics ==>
                    d in old(diagnostics) || (d == NO_OCCURRENCE && OccurrenceDue(metadata, old(View())))
        invariant forall id :: id in metadata && id !in todo && DraftOf(old(View()), id).occurrences == [] ==>
                    NO_OCCURRENCE in diagnostics
        decreases |todo|
      {
        var id :| id in todo;
        if id !in drafts || drafts[id].occurrences == [] {
          assert id in metadata && DraftOf(old(View()), id).occurrences == [];
          diagnostics := diagnostics + [NO_OCCURRENCE];
        }
        todo := todo - {id};
      }
    }

    method CompleteKinds()
      requires Valid()
      modifies this`drafts, this`diagnostics
      ensures Valid() && drafts.Keys == old(drafts).Keys
      ensures forall id :: id in drafts ==> drafts[id] == Completed(old(drafts)[id])
      ensures forall d :: d in diagnostics ==> d in old(diagnostics) || KindDue(old(View()), d)
      ensures forall d :: d in old(diagnostics) ==> d in diagnostics
      ensures forall id :: id in old(drafts) && MissingKind(old(drafts)[id]) ==>
                KindReport(id, old(drafts)[id]) in diagnostics
    {
      var todo := set id | id in drafts && MissingKind(drafts[id]);
      while todo != {}
        invariant todo <= drafts.Keys == old(drafts).Keys
        invariant forall id :: id in todo ==> MissingKind(old(drafts)[id]) && drafts[id] == old(drafts)[id]
        invariant forall id :: id in drafts && id !in todo ==> drafts[id] == Completed(old(drafts)[id])
        invariant forall d :: d in diagnostics ==> d in old(diagnostics) || KindDue(old(View()), d)
        invariant forall d :: d in old(diagnostics) ==> d in diagnostics
        invariant forall id :: id in old(drafts) && id !in todo && MissingKind(old(drafts)[id]) ==>
                    KindReport(id, old(drafts)[id]) in diagnostics
        decreases |todo|
      {
        var id :| id in todo;
        diagnostics := diagnostics + [KindReport(id, drafts[id])];
        drafts := drafts[id := Completed(drafts[id])];
        todo := todo - {id};
      }
    }

    method ReportStatuses()
      requires Valid()
      modifies this`diagnostics
      ensures forall d :: d in diagnostics ==> d in old(diagnostics) || StatusAdded(old(diagnostics), d)
      ensures forall d :: d in old(diagnostics) ==> d in diagnostics
      ensures forall id :: id in drafts && StatusDue(old(diagnostics), id, drafts[id]) ==>
                StatusReport(id, drafts[id]) in diagnostics
    {
      var todo: set<Id> := set id | id in drafts && drafts[id].support != Supported;
      while todo != {}
        invariant todo <= drafts.Keys && forall id :: id in todo ==> drafts[id].support != Supported
        invariant forall d :: d in diagnostics ==> d in old(diagnostics) || StatusAdded(old(diagnostics), d)
        invariant forall d :: d in diagnostics && d !in old(diagnostics) && d.declaration.Some? ==>
                    d.declaration.value !in todo
        invariant forall d :: d in old(diagnostics) ==> d in diagnostics
        invariant forall id :: id in drafts && id !in todo && StatusDue(old(diagnostics), id, drafts[id]) ==>
                    StatusReport(id, drafts[id]) in diagnostics
        decreases |todo|
      {
        var id :| id in todo;
        var code := drafts[id].support.code;
        if !Reported(diagnostics, id, code) {
          assert StatusDue(old(diagnostics), id, drafts[id]);
          diagnostics := diagnostics + [StatusReport(id, drafts[id])];
        } else {
          assert Reported(old(diagnostics), id, code);
        }
        todo := todo - {id};
      }
    }

    ghost predicate StatusAdded(before: seq<Diagnostic>, d: Diagnostic)
      reads this`drafts
    {
      exists id :: id in drafts && StatusDue(before, id, drafts[id]) && d == StatusReport(id, drafts[id])
    }

    /** The declarations with occurrences, sorted by id. */
    method Emit() returns (declarations: seq<Declaration>)
      requires Valid() && forall id :: id in drafts && drafts[id].occurrences != [] ==> drafts[id].kind.Some?
      ensures Sorted(DECLARATIONS, declarations)
      ensures forall id :: Lookup(DECLARATIONS, declarations, id) == EmittedAt(metadata, drafts, id)
    {
      declarations := [];
      SameRowKeepsKey(DECLARATIONS);
      var todo := drafts.Keys;
      while todo != {}
        invariant todo <= drafts.Keys
        invariant Sorted(DECLARATIONS, declarations)
        invariant forall id :: Lookup(DECLARATIONS, declarations, id)
                    == if id in todo then None else EmittedAt(metadata, drafts, id)
        decreases |todo|
      {
        var id :| id in todo;
        if drafts[id].occurrences != [] {
          var row := Emitted(id, metadata[id], drafts[id]);
          PutSpec(DECLARATIONS, SameRow<Declaration>, declarations, row);
          declarations := Put(DECLARATIONS, SameRow<Declaration>, declarations, row).value;
        }
        todo := todo - {id};
      }
    }

    /** `finish`. */
    method Finish() returns (declarations: seq<Declaration>, output: seq<Diagnostic>)
      requires Valid()
      modifies this
      ensures Sorted(DECLARATIONS, declarations)
      ensures forall decl :: decl in declarations ==> FromDraft(metadata, old(drafts), decl)
      ensures forall id :: id in old(drafts) && old(drafts)[id].occurrences != [] ==>
                exists decl :: decl in declarations && decl.id == id
      ensures forall id :: Lookup(DECLARATIONS, declarations, id) == EmittedAt(metadata, old(drafts), id)
      ensures Sorted(DIAGNOSTICS, output)
      ensures forall d :: d in output ==> Due(metadata, old(View()), d)
      ensures forall d :: Due(metadata, old(View()), d) ==> d in output
    {
      ReportOccurrences();
      ghost var mid := View();
      CompleteKinds();
      ghost var before := View();
      ReportStatuses();
      declarations := Emit();
      TableFromDrafts(metadata, old(drafts), declarations);
      DiagnosticsOrdered();
      CollectSpec(DIAGNOSTICS, [], diagnostics);
      output := PutAll(DIAGNOSTICS, SameRow<Diagnostic>, [], diagnostics).value;
    }
  }

  ghost predicate IsOutput(metadata: map<Id, Meta>, s: State, output: seq<Diagnostic>) {
    (forall d :: d in output ==> Due(metadata, s, d)) && (forall d :: Due(metadata, s, d) ==> d in output)
  }

  ghost predicate ReportedOn(output: seq<Diagnostic>, id: Id, code: string) {
    exists d :: d in output && d.declaration == Some(id) && d.code == code && d.impact == ForcesPartial
  }

  /** A package with a forcing diagnostic is not complete. */
  lemma NotComplete(output: seq<Diagnostic>, d: Diagnostic)
    requires d in output && d.impact == ForcesPartial
    ensures V.CompletenessFromDiagnostics(output) != Complete
  {
    var reasons := V.ForcingReasons(output);
    assert V.Forcing(d) && ReasonOf(d) in reasons;
  }

  /** The diagnostic that finishing a draft leaves for its status. */
  lemma DueFor(metadata: map<Id, Meta>, s: State, id: Id) returns (d: Diagnostic)
    requires Scoped(s.diagnostics) && id in s.drafts && Completed(s.drafts[id]).support != Supported
    ensures Due(metadata, s, d) && d.declaration == Some(id) && d.impact == ForcesPartial
    ensures d.code == Completed(s.drafts[id]).support.code
  {
    var draft := s.drafts[id];
    var code := Completed(draft).support.code;
    if MissingKind(draft) {
      d := KindReport(id, draft);
      assert KindDue(s, d);
    } else if Reported(s.diagnostics, id, code) {
      d :| d in s.diagnostics && d.code == code && d.declaration == Some(id);
    } else {
      d := StatusReport(id, draft);
      assert SupportDue(s, d);
    }
  }

  lemma DueScoped(metadata: map<Id, Meta>, s: State, output: seq<Diagnostic>)
    requires Scoped(s.diagnostics) && IsOutput(metadata, s, output)
    ensures Scoped(output)
  {
    forall d | d in output && d.declaration.Some? ensures d.impact == ForcesPartial {
      assert Due(metadata, s, d);
    }
  }

  /** After every run, each declaration that is not supported has a forcing diagnostic with its id
      and the code of its status, and no diagnostic that names a declaration rejects. */
  lemma UnsupportedReported(metadata: map<Id, Meta>, steps: seq<Step>, output: seq<Diagnostic>, id: Id)
    requires var s := Run(START, steps);
             IsOutput(metadata, s, output) && id in s.drafts && Completed(s.drafts[id]).support != Supported
    ensures ReportedOn(output, id, Completed(Run(START, steps).drafts[id]).support.code)
    ensures Scoped(output)
    ensures V.CompletenessFromDiagnostics(output) != Complete
  {
    hide Run, Due;
    var s := Run(START, steps);
    RunKeepsScoped(START, steps);
    var d := DueFor(metadata, s, id);
    DueScoped(metadata, s, output);
    NotComplete(output, d);
  }

  /** The diagnostics of the package: those of the extraction, with their ranges mapped to the original
      files, and the ones that scanning adds. */
  ghost predicate Assembled(output: seq<Diagnostic>, remap: Diagnostic -> Diagnostic, others: seq<Diagnostic>,
                            all: seq<Diagnostic>)
  {
    && (forall d :: remap(d).impact == d.impact)
    && (forall d :: d in output ==> remap(d) in all)
    && (forall d :: d in others ==> d in all)
    && (forall d :: d in all ==> d in others || exists e :: e in output && d == remap(e))
  }

  lemma OutputRejects(metadata: map<Id, Meta>, steps: seq<Step>, output: seq<Diagnostic>)
    requires IsOutput(metadata, Run(START, steps), output)
    ensures (exists d :: d in output && Rejecting(d))
       <==> OccurrenceDue(metadata, Run(START, steps)) || (exists step :: step in steps && RejectingStep(step))
  {
    var s := Run(START, steps);
    RunKeepsScoped(START, steps);
    RunRejects(START, steps);
    if exists d :: d in output && Rejecting(d) {
      var d :| d in output && Rejecting(d);
      assert Due(metadata, s, d);
    }
    if OccurrenceDue(metadata, s) {
      assert Due(metadata, s, NO_OCCURRENCE);
      assert Rejecting(NO_OCCURRENCE);
    }
    if exists d :: d in s.diagnostics && Rejecting(d) {
      var d :| d in s.diagnostics && Rejecting(d);
      assert Due(metadata, s, d);
    }
  }

  /** A package is rejected exactly for a declarator without a name, an anonymous tag without a
      place, an indexed declaration without an occurrence, or a rejecting diagnostic of the scan. */
  lemma RejectedExactly(metadata: map<Id, Meta>, steps: seq<Step>, output: seq<Diagnostic>,
                        remap: Diagnostic -> Diagnostic, others: seq<Diagnostic>, all: seq<Diagnostic>)
    requires IsOutput(metadata, Run(START, steps), output) && Assembled(output, remap, others, all)
    ensures V.CompletenessFromDiagnostics(all).Rejected?
       <==> || OccurrenceDue(metadata, Run(START, steps))
            || (exists step :: step in steps && RejectingStep(step))
            || (exists d :: d in others && Rejecting(d))
  {
    hide Run, IsOutput, OccurrenceDue, RejectingStep;
    OutputRejects(metadata, steps, output);
    if exists d :: d in output && Rejecting(d) {
      var d :| d in output && Rejecting(d);
      assert remap(d) in all && Rejecting(remap(d));
    }
    if exists d :: d in others && Rejecting(d) {
      var d :| d in others && Rejecting(d);
      assert d in all;
    }
    if exists d :: d in all && Rejecting(d) {
      var d :| d in all && Rejecting(d);
      if d !in others {
        var e :| e in output && d == remap(e);
        assert Rejecting(e);
      }
    }
    assert V.CompletenessFromDiagnostics(all).Rejected? <==> exists d :: d in all && Rejecting(d);
  }

  lemma StepStaysIndexed(metadata: map<Id, Meta>, s: State, step: Step)
    requires s.drafts.Keys <= metadata.Keys && Indexed(metadata, step)
    ensures Stepped(s, step).drafts.Keys <= metadata.Keys
  {
  }

  lemma {:induction false} RunStaysIndexed(metadata: map<Id, Meta>, s: State, steps: seq<Step>)
    requires s.drafts.Keys <= metadata.Keys && forall step :: step in steps ==> Indexed(metadata, step)
    ensures Run(s, steps).drafts.Keys <= metadata.Keys
    decreases steps
  {
    hide Stepped, Indexed;
    if steps != [] {
      StepStaysIndexed(metadata, s, steps[0]);
      RunStaysIndexed(metadata, Stepped(s, steps[0]), steps[1..]);
    }
  }

  /** After an orderly run in which every typedef has an occurrence, the extractor's cache and the
      validator give the same answer on the emitted declarations for every type. */
  lemma CacheAfterFinish(metadata: map<Id, Meta>, steps: seq<Step>, declarations: seq<Declaration>, ty: CType)
    requires var s := Run(START, steps);
             && s.drafts.Keys <= metadata.Keys
             && (forall id :: Lookup(DECLARATIONS, declarations, id) == EmittedAt(metadata, s.drafts, id))
             && (forall id :: TargetOf(s, id).Some? ==> s.drafts[id].occurrences != [])
    requires Orderly(START, steps)
    ensures CachedPointer(ty, Run(START, steps).pointerAliases) <==> AliasGraph.IsPointer(declarations, ty.kind, {})
  {
    var s := Run(START, steps);
    forall id ensures AliasGraph.Target(declarations, id) == TargetOf(s, id) {
      assert Lookup(DECLARATIONS, declarations, id) == EmittedAt(metadata, s.drafts, id);
    }
    CacheIsValidator(steps, declarations, ty);
  }

  // ----- extraction and completion -------------------------------------------------------

  lemma {:induction false} TypeAccepted(owner: Id, path: C.Path, ty: CType)
    requires C.TypeFacts(owner, path, ty) == []
    ensures TypeSupport(ty) == Supported
    decreases ty
  {
    match ty.kind
    case Pointer(pointee) => TypeAccepted(owner, path + [C.Named("pointee")], pointee);
    case Array(element, _, _) => TypeAccepted(owner, path + [C.Named("element")], element);
    case Function(result, parameters, _, _) =>
      assert C.FunctionTypeFacts(owner, path, ty.kind) == [];
      TypeAccepted(owner, path + [C.Named("return_type")], result);
      ParametersAccepted(owner, path, parameters, 0);
    case _ =>
  }

  lemma {:induction false} ParametersAccepted(owner: Id, path: C.Path, parameters: seq<CParameter>, index: nat)
    requires C.ParameterFacts(owner, path, parameters, index) == []
    ensures ParameterSupport(parameters) == Supported
    decreases parameters
  {
    if parameters != [] {
      assert parameters[0].ty < parameters[0];
      TypeAccepted(owner, path + [C.Named("parameters"), C.At(index)], parameters[0].ty);
      ParametersAccepted(owner, path, parameters[1..], index + 1);
    }
  }

  lemma {:induction false} MembersAccepted(owner: Id, path: C.Path, members: seq<Member>, from: nat)
    requires from <= |members| && C.MemberFacts(owner, path, members, from) == []
    ensures MemberSupport(members[from..]) == Supported
    decreases |members| - from
  {
    if from < |members| {
      TypeAccepted(owner, path + [C.At(from)] + [C.Named("ty")], members[from].ty);
      MembersAccepted(owner, path, members, from + 1);
      assert members[from..][0] == members[from] && members[from..][1..] == members[from + 1..];
    }
  }

  lemma {:induction false} VariantsAccepted(owner: Id, variants: seq<Variant>, from: nat)
    requires from <= |variants| && C.VariantFacts(owner, variants, from) == []
    ensures VariantSupport(variants[from..]) == Supported
    decreases |variants| - from
  {
    if from < |variants| {
      VariantsAccepted(owner, variants, from + 1);
      assert variants[from..][0] == variants[from] && variants[from..][1..] == variants[from + 1..];
    }
  }

  /** A kind in which completion finds nothing to object to leaves its declaration supported: the
      extractor takes no support away that a definition would not be refused for. */
  lemma AcceptedIsSupported(id: Id, kind: DeclarationKind)
    requires C.KindFacts(id, kind, C.Definition) == []
    ensures KindSupport(kind) == Supported
  {
    match kind
    case FunctionKind(_, result, parameters, _, _) =>
      TypeAccepted(id, [C.Named("return_type")], result);
      MembersAccepted(id, [C.Named("parameters")], parameters, 0);
      assert parameters[0..] == parameters;
    case RecordKind(_, _, fields) =>
      MembersAccepted(id, [C.Named("fields")], fields, 0);
      assert fields[0..] == fields;
    case EnumKind(underlying, variants) =>
      if underlying.Some? { TypeAccepted(id, [C.Named("explicit_underlying_type")], underlying.value); }
      VariantsAccepted(id, variants, 0);
      assert variants[0..] == variants;
    case AliasKind(target) => TypeAccepted(id, [C.Named("target")], target);
    case VariableKind(_, ty, _) => TypeAccepted(id, [C.Named("ty")], ty);
    case UnsupportedKind(_, _, _) =>
  }
}
