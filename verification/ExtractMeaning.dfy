/** What a run of the extractor (src/extract/mod.rs) comes to, said of its steps alone: the status, the kind and the
    occurrences of every declaration, and every diagnostic. */
module ExtractMeaning {
  import opened Wrappers
  import opened Tables
  import opened Contract
  import opened Extract
  import opened OccurrenceIds
  import opened DeclaredTypes
  import X = Extractor

  // ----- the statuses inside a kind --------------------------------------------------------

  /** The status of a type and of every type inside it, from the outside in. */
  function TypeStatuses(ty: CType): seq<SupportStatus>
    decreases ty
  {
    [ty.support]
    + match ty.kind
      case Pointer(pointee) => TypeStatuses(pointee)
      case Array(element, _, _) => TypeStatuses(element)
      case Function(result, parameters, _, _) => TypeStatuses(result) + ParameterStatuses(parameters)
      case _ => []
  }

  function ParameterStatuses(parameters: seq<CParameter>): seq<SupportStatus>
    decreases parameters
  {
    if parameters == [] then []
    else
      assert parameters[0].ty < parameters[0];
      TypeStatuses(parameters[0].ty) + ParameterStatuses(parameters[1..])
  }

  function MemberStatuses(members: seq<Member>): seq<SupportStatus> {
    if members == [] then [] else [members[0].support] + TypeStatuses(members[0].ty) + MemberStatuses(members[1..])
  }

  function VariantStatuses(variants: seq<Variant>): seq<SupportStatus> {
    seq(|variants|, i requires 0 <= i < |variants| => variants[i].support)
  }

  /** Every status in a kind, in the order in which it is written. */
  function KindStatuses(kind: DeclarationKind): seq<SupportStatus> {
    match kind
    case FunctionKind(_, result, parameters, _, convention) =>
      TypeStatuses(result) + MemberStatuses(parameters)
      + (if convention.BadConvention?
         then [NoSupport("PARC-E1206", "unsupported calling convention: " + convention.spelling)] else [])
    case RecordKind(_, _, fields) => MemberStatuses(fields)
    case EnumKind(underlying, variants) =>
      VariantStatuses(variants) + (if underlying.Some? then TypeStatuses(underlying.value) else [])
    case AliasKind(target) => TypeStatuses(target)
    case VariableKind(_, ty, _) => TypeStatuses(ty)
    case UnsupportedKind(_, spelling, code) => [NoSupport(code, spelling)]
  }

  ghost predicate AllSupported(ss: seq<SupportStatus>) { forall st :: st in ss ==> st == Supported }

  /** The first status of a list that is not supported, or that there is none. */
  ghost predicate First(ss: seq<SupportStatus>, st: SupportStatus) {
    if st == Supported then AllSupported(ss)
    else exists i :: 0 <= i < |ss| && ss[i] == st && forall j :: 0 <= j < i ==> ss[j] == Supported
  }

  lemma FirstOne(st: SupportStatus)
    ensures First([st], st)
  {
    if st != Supported { assert [st][0] == st; }
  }

  lemma FirstOfTwo(a: seq<SupportStatus>, b: seq<SupportStatus>, x: SupportStatus, y: SupportStatus)
    requires First(a, x) && First(b, y)
    ensures First(a + b, OrElse(x, y))
  {
    if x != Supported {
      var i :| 0 <= i < |a| && a[i] == x && forall j :: 0 <= j < i ==> a[j] == Supported;
      assert (a + b)[i] == x;
    } else if y != Supported {
      var i :| 0 <= i < |b| && b[i] == y && forall j :: 0 <= j < i ==> b[j] == Supported;
      assert (a + b)[|a| + i] == y;
      forall j | 0 <= j < |a| + i ensures (a + b)[j] == Supported {
        if j < |a| { assert a[j] in a; } else { assert (a + b)[j] == b[j - |a|]; }
      }
    }
  }

  lemma FirstUnique(ss: seq<SupportStatus>, x: SupportStatus, y: SupportStatus)
    requires First(ss, x) && First(ss, y)
    ensures x == y
  {
    if x != Supported {
      var i :| 0 <= i < |ss| && ss[i] == x && forall j :: 0 <= j < i ==> ss[j] == Supported;
      assert ss[i] in ss;
    }
    if y != Supported {
      var k :| 0 <= k < |ss| && ss[k] == y && forall j :: 0 <= j < k ==> ss[j] == Supported;
      assert ss[k] in ss;
    }
  }

  lemma FirstNone()
    ensures First([], Supported)
  {
  }

  lemma {:induction false} TypeFirst(ty: CType)
    ensures First(TypeStatuses(ty), TypeSupport(ty))
    decreases ty
  {
    hide First;
    FirstOne(ty.support);
    FirstNone();
    var inner, st := TypeStatuses(ty)[1..], Supported;
    match ty.kind {
      case Pointer(pointee) => TypeFirst(pointee); st := TypeSupport(pointee);
      case Array(element, _, _) => TypeFirst(element); st := TypeSupport(element);
      case Function(result, parameters, _, _) =>
        TypeFirst(result);
        ParametersFirst(parameters);
        FirstOfTwo(TypeStatuses(result), ParameterStatuses(parameters), TypeSupport(result),
                   ParameterSupport(parameters));
        st := OrElse(TypeSupport(result), ParameterSupport(parameters));
      case _ =>
    }
    assert TypeStatuses(ty) == [ty.support] + inner;
    FirstOfTwo([ty.support], inner, ty.support, st);
  }

  lemma {:induction false} ParametersFirst(parameters: seq<CParameter>)
    ensures First(ParameterStatuses(parameters), ParameterSupport(parameters))
    decreases parameters
  {
    hide First;
    FirstNone();
    if parameters != [] {
      assert parameters[0].ty < parameters[0];
      TypeFirst(parameters[0].ty);
      ParametersFirst(parameters[1..]);
      FirstOfTwo(TypeStatuses(parameters[0].ty), ParameterStatuses(parameters[1..]), TypeSupport(parameters[0].ty),
                 ParameterSupport(parameters[1..]));
    }
  }

  lemma {:induction false} MembersFirst(members: seq<Member>)
    ensures First(MemberStatuses(members), MemberSupport(members))
    decreases members
  {
    hide First;
    FirstNone();
    if members != [] {
      var (m, own) := (members[0], [members[0].support]);
      FirstOne(m.support);
      TypeFirst(m.ty);
      MembersFirst(members[1..]);
      FirstOfTwo(own, TypeStatuses(m.ty), m.support, TypeSupport(m.ty));
      FirstOfTwo(own + TypeStatuses(m.ty), MemberStatuses(members[1..]), OrElse(m.support, TypeSupport(m.ty)),
                 MemberSupport(members[1..]));
    }
  }

  lemma {:induction false} VariantsFirst(variants: seq<Variant>)
    ensures First(VariantStatuses(variants), VariantSupport(variants))
    decreases variants
  {
    hide First;
    if variants == [] {
      FirstNone();
      assert VariantStatuses(variants) == [];
    } else {
      FirstOne(variants[0].support);
      VariantsFirst(variants[1..]);
      FirstOfTwo([variants[0].support], VariantStatuses(variants[1..]), variants[0].support,
                 VariantSupport(variants[1..]));
      assert VariantStatuses(variants) == [variants[0].support] + VariantStatuses(variants[1..]);
    }
  }

  /** The status of a kind is the first one in it that is not supported. */
  lemma KindSupportMeans(kind: DeclarationKind, st: SupportStatus)
    ensures KindSupport(kind) == st <==> First(KindStatuses(kind), st)
  {
    hide First;
    FirstNone();
    match kind {
      case FunctionKind(_, result, parameters, _, convention) =>
        TypeFirst(result);
        MembersFirst(parameters);
        var bad := if convention.BadConvention?
          then NoSupport("PARC-E1206", "unsupported calling convention: " + convention.spelling) else Supported;
        if convention.BadConvention? { FirstOne(bad); }
        FirstOfTwo(TypeStatuses(result), MemberStatuses(parameters), TypeSupport(result), MemberSupport(parameters));
        FirstOfTwo(TypeStatuses(result) + MemberStatuses(parameters), if bad == Supported then [] else [bad],
                   OrElse(TypeSupport(result), MemberSupport(parameters)), bad);
      case RecordKind(_, _, fields) => MembersFirst(fields);
      case EnumKind(underlying, variants) =>
        VariantsFirst(variants);
        if underlying.Some? { TypeFirst(underlying.value); }
        FirstOfTwo(VariantStatuses(variants), if underlying.Some? then TypeStatuses(underlying.value) else [],
                   VariantSupport(variants), if underlying.Some? then TypeSupport(underlying.value) else Supported);
      case AliasKind(target) => TypeFirst(target);
      case VariableKind(_, ty, _) => TypeFirst(ty);
      case UnsupportedKind(_, spelling, code) => FirstOne(NoSupport(code, spelling));
    }
    if First(KindStatuses(kind), st) { FirstUnique(KindStatuses(kind), KindSupport(kind), st); }
  }

  // ----- two declarations of one entity ----------------------------------------------------

  predicate HasContent(kind: DeclarationKind) {
    (kind.RecordKind? && kind.complete) || (kind.EnumKind? && kind.variants != [])
  }

  /** Two functions with one signature: parameter names, attributes and text do not count. */
  ghost predicate OneSignature(a: DeclarationKind, b: DeclarationKind)
    requires a.FunctionKind? && b.FunctionKind?
  {
    && a.linkName == b.linkName && a.returnType == b.returnType
    && a.prototype == b.prototype && a.convention == b.convention
    && |a.parameters| == |b.parameters|
    && forall i :: 0 <= i < |a.parameters| ==> a.parameters[i].ty == b.parameters[i].ty
  }

  /** Two declarations that cannot be of one entity. */
  ghost predicate Clash(a: DeclarationKind, b: DeclarationKind) {
    if a.FunctionKind? && b.FunctionKind? then !OneSignature(a, b)
    else if a.RecordKind? && b.RecordKind? then a.recordKind != b.recordKind || (HasContent(a) && HasContent(b))
    else if a.EnumKind? && b.EnumKind? then a.underlying != b.underlying || (HasContent(a) && HasContent(b))
    else a != b
  }

  /** A redeclaration conflicts exactly in a clash, and otherwise replaces exactly when it alone has content. */
  lemma RedeclarationMeans(a: DeclarationKind, b: DeclarationKind)
    ensures Redeclaration(a, b) == Conflict <==> Clash(a, b)
    ensures Redeclaration(a, b) == Replace <==> !Clash(a, b) && HasContent(b) && !HasContent(a)
  {
  }

  // ----- the state after some steps --------------------------------------------------------

  /** The draft of a declaration after the first `k` steps. */
  function After(steps: seq<Step>, k: nat, id: Id): Draft
    requires k <= |steps|
  {
    DraftOf(Run(START, steps[..k]), id)
  }

  lemma OneMore(steps: seq<Step>, k: nat)
    requires k < |steps|
    ensures Run(START, steps[..k + 1]) == Stepped(Run(START, steps[..k]), steps[k])
  {
    hide Stepped;
    assert steps[..k + 1] == steps[..k] + [steps[k]];
    RunAppend(START, steps[..k], [steps[k]]);
    RunPrefix(Run(START, steps[..k]), [steps[k]], 1);
    assert [steps[k]][..1] == [steps[k]];
  }

  /** The kind given at `k` clashes with the one that the declaration has by then. */
  ghost predicate Clashes(steps: seq<Step>, k: nat, id: Id)
    requires k < |steps|
  {
    && steps[k].SetKind? && steps[k].id == id
    && After(steps, k, id).kind.Some? && Clash(After(steps, k, id).kind.value, steps[k].kind)
  }

  // ----- the status ------------------------------------------------------------------------

  /** The status that a step gives a declaration whatever it had. */
  ghost predicate Gives(steps: seq<Step>, k: nat, id: Id, st: SupportStatus)
    requires k < |steps|
  {
    match steps[k]
    case SetKind(j, kind) =>
      j == id && if Clashes(steps, k, id) then st == NoSupport("PARC-E1204", CONFLICT_REASON)
                 else st != Supported && First(KindStatuses(kind), st)
    case ApplyExtensions(j, e) =>
      j == id && if e.badVisibility then st == NoSupport("PARC-E1215", BAD_VISIBILITY)
                 else if e.badConvention then st == NoSupport("PARC-E1214", BAD_CONVENTION)
                 else e.badAsm && st == NoSupport("PARC-E1211", BAD_ASM)
    case ApplyAlignment(j, _) => j == id && st == NoSupport("PARC-E1216", ALIGNMENT)
    case _ => false
  }

  /** A step that only takes full support away. */
  predicate Softens(step: Step, id: Id) {
    step.ApplyExtensions? && step.id == id && step.extensions.unmodeled
    && !step.extensions.badAsm && !step.extensions.badConvention && !step.extensions.badVisibility
  }

  ghost predicate Silent(steps: seq<Step>, from: nat, to: nat, id: Id)
    requires to <= |steps|
  {
    forall k, st :: from <= k < to ==> !Gives(steps, k, id, st)
  }

  /** The last status given; without one, whether some step softened the declaration. */
  ghost predicate StatusAfter(steps: seq<Step>, n: nat, id: Id, st: SupportStatus)
    requires n <= |steps|
  {
    || (exists k :: 0 <= k < n && Gives(steps, k, id, st) && Silent(steps, k + 1, n, id))
    || (Silent(steps, 0, n, id)
        && st == if exists k :: 0 <= k < n && Softens(steps[k], id) then PartialSupport("PARC-P1205", UNMODELED)
                 else Supported)
  }

  lemma SilentMore(steps: seq<Step>, from: nat, n: nat, id: Id)
    requires from <= n < |steps| && Silent(steps, from, n, id) && forall st :: !Gives(steps, n, id, st)
    ensures Silent(steps, from, n + 1, id)
  {
  }

  /** What one step does to a status. */
  lemma StepStatus(steps: seq<Step>, n: nat, id: Id)
    requires n < |steps|
    ensures var (before, after) := (After(steps, n, id).support, After(steps, n + 1, id).support);
            || Gives(steps, n, id, after)
            || ((forall st :: !Gives(steps, n, id, st))
                && after == if before == Supported && Softens(steps[n], id) then PartialSupport("PARC-P1205", UNMODELED)
                            else before)
  {
    var s := Run(START, steps[..n]);
    OneMore(steps, n);
    hide Run, First, KindStatuses, Clash, Redeclaration;
    match steps[n]
    case SetKind(j, kind) => if j == id { SetKindStatus(steps, n, id); }
    case ApplyExtensions(j, e) => ExtendedStatus(s, j, e, id);
    case AddOccurrence(j, place) => OccurredKeeps(s, j, place);
    case _ =>
  }

  lemma SetKindStatus(steps: seq<Step>, n: nat, id: Id)
    requires n < |steps| && steps[n].SetKind? && steps[n].id == id
    ensures var st := DraftOf(KindSet(Run(START, steps[..n]), id, steps[n].kind), id).support;
            || Gives(steps, n, id, st)
            || ((forall x :: !Gives(steps, n, id, x)) && st == After(steps, n, id).support)
  {
    hide Run, First, KindStatuses, Clash, Redeclaration, KindSupport;
    var kind, d := steps[n].kind, After(steps, n, id);
    if d.kind.Some? { RedeclarationMeans(d.kind.value, kind); }
    forall x ensures KindSupport(kind) == x <==> First(KindStatuses(kind), x) { KindSupportMeans(kind, x); }
  }

  lemma ExtendedStatus(s: State, j: Id, e: Extensions, id: Id)
    ensures DraftOf(Extended(s, j, e), id).support
         == if j != id then DraftOf(s, id).support
            else if e.badVisibility then NoSupport("PARC-E1215", BAD_VISIBILITY)
            else if e.badConvention then NoSupport("PARC-E1214", BAD_CONVENTION)
            else if e.badAsm then NoSupport("PARC-E1211", BAD_ASM)
            else if e.unmodeled && DraftOf(s, id).support == Supported then PartialSupport("PARC-P1205", UNMODELED)
            else DraftOf(s, id).support
  {
  }

  /** After every run the status of a declaration is the last one given to it. */
  lemma {:induction false} StatusMeans(steps: seq<Step>, n: nat, id: Id)
    requires n <= |steps|
    ensures StatusAfter(steps, n, id, After(steps, n, id).support)
  {
    if n == 0 {
      assert steps[..0] == [];
    } else {
      StatusMeans(steps, n - 1, id);
      StepStatus(steps, n - 1, id);
      hide After, Gives, Softens;
      var (before, after) := (After(steps, n - 1, id).support, After(steps, n, id).support);
      if Gives(steps, n - 1, id, after) {
        assert Silent(steps, n, n, id);
      } else if Silent(steps, 0, n - 1, id) {
        SilentMore(steps, 0, n - 1, id);
        assert (exists k :: 0 <= k < n && Softens(steps[k], id))
          <==> (exists k :: 0 <= k < n - 1 && Softens(steps[k], id)) || Softens(steps[n - 1], id);
      } else {
        var k :| 0 <= k < n - 1 && Gives(steps, k, id, before) && Silent(steps, k + 1, n - 1, id);
        SilentMore(steps, k + 1, n - 1, id);
        GivenIsLost(steps, k, id, before);
      }
    }
  }

  lemma GivenIsLost(steps: seq<Step>, k: nat, id: Id, st: SupportStatus)
    requires k < |steps| && Gives(steps, k, id, st)
    ensures st != Supported
  {
  }

  lemma GivesOne(steps: seq<Step>, k: nat, id: Id, x: SupportStatus, y: SupportStatus)
    requires k < |steps| && Gives(steps, k, id, x) && Gives(steps, k, id, y)
    ensures x == y
  {
    hide First;
    if steps[k].SetKind? && !Clashes(steps, k, id) { FirstUnique(KindStatuses(steps[k].kind), x, y); }
  }

  /** There is one such status. */
  lemma StatusUnique(steps: seq<Step>, n: nat, id: Id, st: SupportStatus)
    requires n <= |steps|
    ensures StatusAfter(steps, n, id, st) <==> After(steps, n, id).support == st
  {
    StatusMeans(steps, n, id);
    hide After, Gives, Softens;
    var own := After(steps, n, id).support;
    if StatusAfter(steps, n, id, st) && st != own {
      if Silent(steps, 0, n, id) {
      } else {
        var k :| 0 <= k < n && Gives(steps, k, id, st) && Silent(steps, k + 1, n, id);
        var m :| 0 <= m < n && Gives(steps, m, id, own) && Silent(steps, m + 1, n, id);
        GivesOne(steps, k, id, st, if k == m then own else st);
      }
    }
  }

  // ----- the kind --------------------------------------------------------------------------

  /** The occurrences that the first `k` steps place. */
  function Before(steps: seq<Step>, k: nat, id: Id): seq<Occurrence>
    requires k <= |steps|
  {
    Placed(steps[..k], id)
  }

  lemma BeforeMeans(steps: seq<Step>, k: nat, id: Id)
    requires k <= |steps|
    ensures After(steps, k, id).occurrences == Before(steps, k, id)
    ensures steps[..|steps|] == steps
  {
    RunPlaces(START, steps[..k], id);
    assert DraftOf(START, id).occurrences + Before(steps, k, id) == Before(steps, k, id);
  }

  /** What a clash leaves: an unsupported declaration, spelled like the latest occurrence. */
  function ClashKind(placed: seq<Occurrence>): DeclarationKind {
    UnsupportedKind("invalid declaration",
                    if placed == [] then "conflicting redeclaration" else placed[|placed| - 1].spelling, "PARC-E1204")
  }

  ghost predicate NoClash(steps: seq<Step>, from: nat, to: nat, id: Id)
    requires to <= |steps|
  {
    forall k :: from <= k < to ==> !Clashes(steps, k, id)
  }

  /** The kind given at `k` stays to the end: the last clash leaves its kind, and without a clash the first kind with
      content counts, or else the first one. */
  ghost predicate KindAfter(steps: seq<Step>, n: nat, id: Id, kind: DeclarationKind)
    requires n <= |steps|
  {
    || (exists k :: 0 <= k < n && Clashes(steps, k, id) && NoClash(steps, k + 1, n, id)
                    && kind == ClashKind(Before(steps, k, id)))
    || (NoClash(steps, 0, n, id)
        && exists k :: 0 <= k < n && Sets(steps[k], id) && steps[k].kind == kind && Chosen(steps, k, n, id))
  }

  predicate Sets(step: Step, id: Id) { step.SetKind? && step.id == id }

  /** The first kind with content, or the first one of several without. */
  ghost predicate Chosen(steps: seq<Step>, k: nat, n: nat, id: Id)
    requires k < n <= |steps| && Sets(steps[k], id)
  {
    if HasContent(steps[k].kind)
    then forall m :: 0 <= m < k && Sets(steps[m], id) ==> !HasContent(steps[m].kind)
    else (forall m :: 0 <= m < k ==> !Sets(steps[m], id))
         && forall m :: 0 <= m < n && Sets(steps[m], id) ==> !HasContent(steps[m].kind)
  }

  /** What one step does to a kind. */
  lemma StepKind(steps: seq<Step>, n: nat, id: Id)
    requires n < |steps|
    ensures var (before, after) := (After(steps, n, id).kind, After(steps, n + 1, id).kind);
            after == if !Sets(steps[n], id) then before
                     else if before.None? then Some(steps[n].kind)
                     else if Clashes(steps, n, id) then Some(ClashKind(Before(steps, n, id)))
                     else if HasContent(steps[n].kind) && !HasContent(before.value) then Some(steps[n].kind)
                     else before
  {
    OneMore(steps, n);
    BeforeMeans(steps, n, id);
    if Sets(steps[n], id) {
      hide Run, Clash, Redeclaration, KindSupport, HasContent, Placed;
      var d := After(steps, n, id);
      if d.kind.Some? { RedeclarationMeans(d.kind.value, steps[n].kind); }
    } else {
      OtherStep(Run(START, steps[..n]), steps[n], id);
    }
  }

  /** A clash leaves a kind that a kind with content clashes with. */
  lemma ClashStays(steps: seq<Step>, n: nat, id: Id, placed: seq<Occurrence>)
    requires n < |steps| && After(steps, n, id).kind == Some(ClashKind(placed)) && !Clashes(steps, n, id)
    ensures After(steps, n + 1, id).kind == Some(ClashKind(placed))
  {
    StepKind(steps, n, id);
  }

  /** After every run the kind of a declaration is the one that its kinds agree on, or that of the last clash. */
  lemma {:induction false} KindMeans(steps: seq<Step>, n: nat, id: Id)
    requires n <= |steps|
    ensures var kind := After(steps, n, id).kind;
            if kind.None? then forall k :: 0 <= k < n ==> !Sets(steps[k], id)
            else KindAfter(steps, n, id, kind.value)
  {
    if n == 0 {
      assert steps[..0] == [];
    } else {
      KindMeans(steps, n - 1, id);
      StepKind(steps, n - 1, id);
      KindStep(steps, n - 1, id);
    }
  }

  lemma KindStep(steps: seq<Step>, n: nat, id: Id)
    requires n < |steps|
    requires var kind := After(steps, n, id).kind;
             if kind.None? then forall k :: 0 <= k < n ==> !Sets(steps[k], id)
             else KindAfter(steps, n, id, kind.value)
    requires var (before, after) := (After(steps, n, id).kind, After(steps, n + 1, id).kind);
             after == if !Sets(steps[n], id) then before
                      else if before.None? then Some(steps[n].kind)
                      else if Clashes(steps, n, id) then Some(ClashKind(Before(steps, n, id)))
                      else if HasContent(steps[n].kind) && !HasContent(before.value) then Some(steps[n].kind)
                      else before
    ensures var kind := After(steps, n + 1, id).kind;
            if kind.None? then forall k :: 0 <= k < n + 1 ==> !Sets(steps[k], id)
            else KindAfter(steps, n + 1, id, kind.value)
  {
    hide After, Clash, HasContent, Before, ClashKind;
    var (before, after) := (After(steps, n, id).kind, After(steps, n + 1, id).kind);
    if before.None? {
      assert NoClash(steps, 0, n + 1, id);
      if Sets(steps[n], id) { assert Chosen(steps, n, n + 1, id); }
    } else if Clashes(steps, n, id) {
      assert NoClash(steps, n + 1, n + 1, id);
    } else if NoClash(steps, 0, n, id) {
      KindUnclashed(steps, n, id);
    } else {
      var k :| 0 <= k < n && Clashes(steps, k, id) && NoClash(steps, k + 1, n, id)
               && before.value == ClashKind(Before(steps, k, id));
      ClashStays(steps, n, id, Before(steps, k, id));
      assert NoClash(steps, k + 1, n + 1, id);
    }
  }

  lemma KindUnclashed(steps: seq<Step>, n: nat, id: Id)
    requires n < |steps| && NoClash(steps, 0, n + 1, id) && After(steps, n, id).kind.Some?
    requires KindAfter(steps, n, id, After(steps, n, id).kind.value)
    requires var (before, after) := (After(steps, n, id).kind, After(steps, n + 1, id).kind);
             after == if !Sets(steps[n], id) then before
                      else if HasContent(steps[n].kind) && !HasContent(before.value) then Some(steps[n].kind)
                      else before
    ensures After(steps, n + 1, id).kind.Some? && KindAfter(steps, n + 1, id, After(steps, n + 1, id).kind.value)
  {
    hide After, Clashes, HasContent;
    var (before, after) := (After(steps, n, id).kind, After(steps, n + 1, id).kind);
    var k :| 0 <= k < n && Sets(steps[k], id) && steps[k].kind == before.value && Chosen(steps, k, n, id);
    if Sets(steps[n], id) && HasContent(steps[n].kind) && !HasContent(before.value) {
      assert Chosen(steps, n, n + 1, id);
    } else {
      assert Chosen(steps, k, n + 1, id);
    }
  }

  // ----- the diagnostics of the steps ------------------------------------------------------

  function LastOf(placed: seq<Occurrence>): Option<SourceRange> {
    if placed == [] then None else Some(placed[|placed| - 1].range)
  }

  /** A diagnostic of extraction that names a declaration. */
  predicate Names(d: Diagnostic, code: string, message: string, range: Option<SourceRange>, id: Id) {
    && d.code == code && d.stage == Stage.Extract && d.message == message
    && d.range == range && d.declaration == Some(id) && d.impact == ForcesPartial
  }

  /** An occurrence without a place, or with an attribute that has none. */
  predicate PlaceReport(place: Place, id: Id, d: Diagnostic) {
    && d.severity == Error
    && match place
       case NoRange => Names(d, "PARC-E1203", BAD_SPAN, None, id)
       case NoTokens(range) => Names(d, "PARC-E1203", BAD_TOKENS, Some(range), id)
       case NoText(range) => Names(d, "PARC-E1203", BAD_TEXT, Some(range), id)
       case At(o, bad) => bad && Names(d, "PARC-E1210", BAD_ATTRIBUTE, Some(o.range), id)
  }

  /** One report for each extension that cannot be modelled, at the latest occurrence. */
  predicate ExtensionReport(e: Extensions, range: Option<SourceRange>, id: Id, d: Diagnostic) {
    || (e.badAsm && d.severity == Error && Names(d, "PARC-E1211", BAD_ASM, range, id))
    || (e.badConvention && d.severity == Error && Names(d, "PARC-E1214", BAD_CONVENTION, range, id))
    || (e.badVisibility && d.severity == Error && Names(d, "PARC-E1215", BAD_VISIBILITY, range, id))
    || (e.unmodeled && d.severity == Warning && Names(d, "PARC-P1205", UNMODELED, range, id))
  }

  /** What a step reports. */
  ghost predicate Causes(steps: seq<Step>, k: nat, d: Diagnostic)
    requires k < |steps|
  {
    match steps[k]
    case AddOccurrence(id, place) =>
      PlaceReport(place, id, d)
    case SetKind(id, _) =>
      && Clashes(steps, k, id) && Before(steps, k, id) != [] && d.severity == Error
      && Names(d, "PARC-E1204", CONFLICT_REASON, LastOf(Before(steps, k, id)), id)
    case ApplyExtensions(id, e) =>
      ExtensionReport(e, LastOf(Before(steps, k, id)), id, d)
    case ApplyAlignment(id, range) => d.severity == Error && Names(d, "PARC-E1216", ALIGNMENT, range, id)
    case UnsizedField(id, field) => d.severity == Error && Names(d, "PARC-E1212", UNSIZED, Some(field), id)
    case UnboundDeclarator(message, range) =>
      d == Diagnostic("PARC-E1213", Stage.Extract, Error, ForcesRejected, message, range, None)
    case UnplacedTag => d == Diagnostic("PARC-E1203", Stage.Extract, Error, ForcesRejected, BAD_TAG, None, None)
    case StaticAssert(range) =>
      d == Diagnostic("PARC-P1200", Stage.Extract, Note, Informational, UNBOUND_ASSERT, range, None)
  }

  ghost predicate CausedBefore(steps: seq<Step>, n: nat, d: Diagnostic)
    requires n <= |steps|
  {
    exists k :: 0 <= k < n && Causes(steps, k, d)
  }

  lemma BrokenReports(s: State, on: bool, id: Id, code: string, reason: string, range: Option<SourceRange>,
                      d: Diagnostic)
    ensures d in Broken(s, on, id, code, reason, range).diagnostics
       <==> d in s.diagnostics || (on && d.severity == Error && Names(d, code, reason, range, id))
  {
  }

  lemma UnmodeledReports(s: State, on: bool, id: Id, range: Option<SourceRange>, d: Diagnostic)
    ensures d in Unmodeled(s, on, id, range).diagnostics
       <==> d in s.diagnostics || (on && d.severity == Warning && Names(d, "PARC-P1205", UNMODELED, range, id))
  {
  }

  lemma ExtendedReports(s: State, id: Id, e: Extensions, d: Diagnostic)
    ensures d in Extended(s, id, e).diagnostics
       <==> d in s.diagnostics || ExtensionReport(e, LastOf(DraftOf(s, id).occurrences), id, d)
  {
    hide Broken, Unmodeled, Names;
    var range := if id in s.drafts then LastRange(s.drafts[id]) else None;
    var s1 := Broken(s, e.badAsm, id, "PARC-E1211", BAD_ASM, range);
    var s2 := Broken(s1, e.badConvention, id, "PARC-E1214", BAD_CONVENTION, range);
    var s3 := Broken(s2, e.badVisibility, id, "PARC-E1215", BAD_VISIBILITY, range);
    BrokenReports(s, e.badAsm, id, "PARC-E1211", BAD_ASM, range, d);
    BrokenReports(s1, e.badConvention, id, "PARC-E1214", BAD_CONVENTION, range, d);
    BrokenReports(s2, e.badVisibility, id, "PARC-E1215", BAD_VISIBILITY, range, d);
    UnmodeledReports(s3, e.unmodeled, id, range, d);
  }

  lemma OccurredReports(s: State, id: Id, place: Place, d: Diagnostic)
    ensures d in Occurred(s, id, place).diagnostics
       <==> d in s.diagnostics || PlaceReport(place, id, d)
  {
  }

  lemma SetKindReports(steps: seq<Step>, k: nat, d: Diagnostic)
    requires k < |steps| && steps[k].SetKind?
    ensures d in KindSet(Run(START, steps[..k]), steps[k].id, steps[k].kind).diagnostics
       <==> d in Run(START, steps[..k]).diagnostics || Causes(steps, k, d)
  {
    var (id, kind) := (steps[k].id, steps[k].kind);
    BeforeMeans(steps, k, id);
    hide Run, Clash, Redeclaration, KindSupport, Placed, PointerKind;
    var draft := After(steps, k, id);
    if draft.kind.Some? { RedeclarationMeans(draft.kind.value, kind); }
  }

  lemma StepReports(steps: seq<Step>, k: nat, d: Diagnostic)
    requires k < |steps|
    ensures d in Run(START, steps[..k + 1]).diagnostics
       <==> d in Run(START, steps[..k]).diagnostics || Causes(steps, k, d)
  {
    OneMore(steps, k);
    var s := Run(START, steps[..k]);
    match steps[k]
    case SetKind(_, _) => SetKindReports(steps, k, d);
    case ApplyExtensions(id, e) =>
      BeforeMeans(steps, k, id);
      hide Run, Names;
      ExtendedReports(s, id, e, d);
    case AddOccurrence(id, place) =>
      hide Run, Names;
      OccurredReports(s, id, place, d);
    case ApplyAlignment(id, range) =>
      hide Run, Names;
      BrokenReports(s, true, id, "PARC-E1216", ALIGNMENT, range, d);
    case _ => hide Run;
  }

  /** The diagnostics of a run are exactly those that its steps cause. */
  lemma {:induction false} ReportsMean(steps: seq<Step>, n: nat, d: Diagnostic)
    requires n <= |steps|
    ensures d in Run(START, steps[..n]).diagnostics <==> CausedBefore(steps, n, d)
  {
    if n == 0 {
      assert steps[..0] == [];
    } else {
      hide Run, Causes;
      ReportsMean(steps, n - 1, d);
      StepReports(steps, n - 1, d);
    }
  }
}
