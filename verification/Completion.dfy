/** Proving a selection complete (src/contract/complete.rs): a worklist over the two-level
    need lattice.  `Walk` is the source's loop; the specification is the least map that holds
    the roots and is closed under each declaration's edges at its need. */
module Completion {
  import opened Wrappers
  import opened Tables
  import opened Contract

  datatype Need = OpaqueSufficient | Definition

  predicate Leq(a: Need, b: Need) { a == b || a.OpaqueSufficient? }

  type Requirements = map<Id, Need>
  type Edge = (Id, Need)

  datatype Step = Named(name: string) | At(index: nat)
  type Path = seq<Step>

  datatype Blocker =
    | PackageIncomplete(reasons: seq<Reason>)
    | MissingDeclaration(id: Id)
    | UnsupportedAt(id: Id, path: Path, reason: string)
    | IncompleteRecord(id: Id)
    | OpaqueRootIsNotRecord(id: Id)

  // ----- what one visit demands and reports ----------------------------------------------

  function TypeEdges(ty: CType, behind: bool): seq<Edge>
    decreases ty
  {
    match ty.kind
    case Pointer(pointee) => TypeEdges(pointee, true)
    case Array(element, _, _) => TypeEdges(element, behind)
    case Function(result, parameters, _, _) => TypeEdges(result, false) + ParameterEdges(parameters)
    case AliasRef(id) => [(id, if behind then OpaqueSufficient else Definition)]
    case EnumRef(id) => [(id, Definition)]
    case RecordRef(id) => [(id, if behind then OpaqueSufficient else Definition)]
    case _ => []
  }

  function ParameterEdges(parameters: seq<CParameter>): seq<Edge>
    decreases parameters
  {
    if parameters == [] then []
    else
      assert parameters[0].ty < parameters[0];
      TypeEdges(parameters[0].ty, false) + ParameterEdges(parameters[1..])
  }

  function MemberEdges(members: seq<Member>): seq<Edge> {
    if members == [] then [] else TypeEdges(members[0].ty, false) + MemberEdges(members[1..])
  }

  function KindEdges(kind: DeclarationKind, need: Need): seq<Edge> {
    match kind
    case FunctionKind(_, result, parameters, _, _) => TypeEdges(result, false) + MemberEdges(parameters)
    case RecordKind(_, _, fields) => if need == Definition then MemberEdges(fields) else []
    case EnumKind(underlying, _) => if underlying.Some? then TypeEdges(underlying.value, false) else []
    case AliasKind(target) => TypeEdges(target, need == OpaqueSufficient)
    case VariableKind(_, ty, _) => TypeEdges(ty, false)
    case UnsupportedKind(_, _, _) => []
  }

  function StatusFacts(owner: Id, path: Path, status: SupportStatus): seq<Blocker> {
    if status.Supported? then [] else [UnsupportedAt(owner, path, status.reason)]
  }

  function AttributeFacts(owner: Id, path: Path, attributes: seq<Attribute>, from: nat): seq<Blocker>
    requires from <= |attributes|
    decreases |attributes| - from
  {
    if from == |attributes| then []
    else
      var a := attributes[from];
      (if a.blocking then [UnsupportedAt(owner, path + [At(from)], a.spelling)] else [])
      + AttributeFacts(owner, path, attributes, from + 1)
  }

  function ConventionFacts(owner: Id, path: Path, convention: CallingConvention): seq<Blocker> {
    if convention.BadConvention? then [UnsupportedAt(owner, path + [Named("calling_convention")], convention.spelling)]
    else []
  }

  function BoundFacts(owner: Id, path: Path, bound: ArrayBound): seq<Blocker> {
    if bound.InvalidBound? then [UnsupportedAt(owner, path + [Named("bound")], bound.spelling)] else []
  }

  function TypeFacts(owner: Id, path: Path, ty: CType): seq<Blocker>
    decreases ty
  {
    StatusFacts(owner, path + [Named("support")], ty.support) + TypeKindFacts(owner, path, ty.kind)
  }

  function TypeKindFacts(owner: Id, path: Path, kind: CTypeKind): seq<Blocker>
    decreases kind
  {
    match kind
    case Pointer(pointee) => TypeFacts(owner, path + [Named("pointee")], pointee)
    case Array(element, bound, _) =>
      BoundFacts(owner, path, bound) + TypeFacts(owner, path + [Named("element")], element)
    case Function(_, _, _, _) => FunctionTypeFacts(owner, path, kind)
    case UnsupportedType(spelling) => [UnsupportedAt(owner, path, spelling)]
    case _ => []
  }

  function FunctionTypeFacts(owner: Id, path: Path, f: CTypeKind): seq<Blocker>
    requires f.Function?
    decreases f, 0
  {
    ConventionFacts(owner, path, f.convention)
    + TypeFacts(owner, path + [Named("return_type")], f.returnType)
    + ParameterFacts(owner, path, f.parameters, 0)
  }

  function ParameterFacts(owner: Id, path: Path, parameters: seq<CParameter>, index: nat): seq<Blocker>
    decreases parameters
  {
    if parameters == [] then []
    else
      assert parameters[0].ty < parameters[0];
      TypeFacts(owner, path + [Named("parameters"), At(index)], parameters[0].ty)
      + ParameterFacts(owner, path, parameters[1..], index + 1)
  }

  function OneMemberFacts(owner: Id, here: Path, m: Member): seq<Blocker> {
    StatusFacts(owner, here + [Named("support")], m.support)
    + AttributeFacts(owner, here + [Named("attributes")], m.attributes, 0)
    + TypeFacts(owner, here + [Named("ty")], m.ty)
  }

  function MemberFacts(owner: Id, path: Path, members: seq<Member>, from: nat): seq<Blocker>
    requires from <= |members|
    decreases |members| - from
  {
    if from == |members| then []
    else OneMemberFacts(owner, path + [At(from)], members[from]) + MemberFacts(owner, path, members, from + 1)
  }

  function VariantFacts(owner: Id, variants: seq<Variant>, from: nat): seq<Blocker>
    requires from <= |variants|
    decreases |variants| - from
  {
    if from == |variants| then []
    else
      var here := [Named("variants"), At(from)];
      StatusFacts(owner, here + [Named("support")], variants[from].support)
      + AttributeFacts(owner, here + [Named("attributes")], variants[from].attributes, 0)
      + VariantFacts(owner, variants, from + 1)
  }

  function OccurrenceFacts(owner: Id, occurrences: seq<Occurrence>, from: nat): seq<Blocker>
    requires from <= |occurrences|
    decreases |occurrences| - from
  {
    if from == |occurrences| then []
    else AttributeFacts(owner, [Named("occurrences"), At(from), Named("attributes")], occurrences[from].attributes, 0)
         + OccurrenceFacts(owner, occurrences, from + 1)
  }

  function CompletenessFacts(id: Id, complete: bool): seq<Blocker> {
    if complete then [] else [IncompleteRecord(id)]
  }

  function UnderlyingFacts(id: Id, underlying: Option<CType>): seq<Blocker> {
    if underlying.Some? then TypeFacts(id, [Named("explicit_underlying_type")], underlying.value) else []
  }

  function FunctionFacts(id: Id, result: CType, parameters: seq<Member>, convention: CallingConvention): seq<Blocker> {
    ConventionFacts(id, [], convention)
    + TypeFacts(id, [Named("return_type")], result)
    + MemberFacts(id, [Named("parameters")], parameters, 0)
  }

  function KindFacts(id: Id, kind: DeclarationKind, need: Need): seq<Blocker> {
    match kind
    case FunctionKind(_, result, parameters, _, convention) => FunctionFacts(id, result, parameters, convention)
    case RecordKind(_, complete, fields) =>
      if need == Definition then
        CompletenessFacts(id, complete) + MemberFacts(id, [Named("fields")], fields, 0)
      else []
    case EnumKind(underlying, variants) =>
      UnderlyingFacts(id, underlying) + VariantFacts(id, variants, 0)
    case AliasKind(target) => TypeFacts(id, [Named("target")], target)
    case VariableKind(_, ty, _) => TypeFacts(id, [Named("ty")], ty)
    case UnsupportedKind(_, spelling, _) => [UnsupportedAt(id, [Named("unsupported")], spelling)]
  }

  function DeclarationFacts(d: Declaration, need: Need): seq<Blocker> {
    StatusFacts(d.id, [Named("support")], d.support)
    + OccurrenceFacts(d.id, d.occurrences, 0)
    + KindFacts(d.id, d.kind, need)
  }

  /** A root of an opaque selection is never walked into unless it is a record. */
  predicate SkippedRoot(sel: Selection, d: Declaration, need: Need) {
    sel.OpaqueOnly? && need == OpaqueSufficient && !d.kind.RecordKind?
  }

  function Edges(p: Package, sel: Selection, id: Id, need: Need): seq<Edge> {
    match Find(p.declarations, id)
    case None => []
    case Some(d) => if SkippedRoot(sel, d, need) then [] else KindEdges(d.kind, need)
  }

  function Facts(p: Package, sel: Selection, id: Id, need: Need): seq<Blocker> {
    match Find(p.declarations, id)
    case None => [MissingDeclaration(id)]
    case Some(d) => if SkippedRoot(sel, d, need) then [OpaqueRootIsNotRecord(id)] else DeclarationFacts(d, need)
  }

  function RootsOf(ids: seq<Id>, need: Need): seq<Edge> {
    seq(|ids|, i requires 0 <= i < |ids| => (ids[i], need))
  }

  function SupportedRoots(declarations: seq<Declaration>): seq<Edge> {
    if declarations == [] then []
    else
      var d := declarations[0];
      (if d.support.Supported? then
         [(d.id, if d.kind.RecordKind? && !d.kind.complete then OpaqueSufficient else Definition)]
       else []) + SupportedRoots(declarations[1..])
  }

  function Roots(p: Package, sel: Selection): seq<Edge> {
    match sel
    case AllSupported => SupportedRoots(p.declarations)
    case Only(ids) => RootsOf(ids, Definition)
    case OpaqueOnly(ids) => RootsOf(ids, OpaqueSufficient)
  }

  function MacroCodes(macros: seq<Macro>): set<string> {
    set m | m in macros && !m.support.Supported? :: m.support.code
  }

  /** The diagnostics that no declaration, recovery or macro accounts for. */
  function ScopedTo(codes: set<string>): Diagnostic -> bool {
    (d: Diagnostic) => d.impact != Informational && d.declaration.None? && d.stage != Recovery && d.code !in codes
  }

  function PackageFacts(p: Package): seq<Blocker> {
    match p.completeness
    case Complete => []
    case Rejected(reasons) => [PackageIncomplete(reasons)]
    case PartialPackage(_) =>
      var scoped := Filter(ScopedTo(MacroCodes(p.macros)), p.diagnostics);
      if scoped == [] then [] else [PackageIncomplete(ReasonsOf(scoped))]
  }

  // ----- the specification ---------------------------------------------------------------

  predicate Holds(m: Requirements, e: Edge) { e.0 in m && Leq(e.1, m[e.0]) }

  predicate HoldsAll(m: Requirements, edges: seq<Edge>) { forall e :: e in edges ==> Holds(m, e) }

  predicate Below(m: Requirements, c: Requirements) { forall id :: id in m ==> Holds(c, (id, m[id])) }

  predicate Closed(p: Package, sel: Selection, m: Requirements) {
    forall id :: id in m ==> HoldsAll(m, Edges(p, sel, id, m[id]))
  }

  /** `m` is the least closed map that holds the roots: absent < Opaque < Definition. */
  ghost predicate IsClosure(p: Package, sel: Selection, m: Requirements) {
    && HoldsAll(m, Roots(p, sel))
    && Closed(p, sel, m)
    && forall c: Requirements :: HoldsAll(c, Roots(p, sel)) && Closed(p, sel, c) ==> Below(m, c)
  }

  /** The blockers of a closure: the package-level one and each member's facts at its need. */
  ghost predicate IsBlocker(p: Package, sel: Selection, m: Requirements, b: Blocker) {
    b in PackageFacts(p) || exists id :: id in m && b in Facts(p, sel, id, m[id])
  }

  lemma ClosureUnique(p: Package, sel: Selection, m: Requirements, n: Requirements)
    requires IsClosure(p, sel, m) && IsClosure(p, sel, n)
    ensures m == n
  {
    assert Below(m, n) && Below(n, m);
    forall id ensures id in m <==> id in n
              ensures id in m && id in n ==> m[id] == n[id]
    {
      if id in m { assert Holds(n, (id, m[id])); }
      if id in n { assert Holds(m, (id, n[id])); }
    }
  }

  // ----- needs are monotone --------------------------------------------------------------

  lemma {:induction false} TypeMonotone(ty: CType, c: Requirements)
    requires HoldsAll(c, TypeEdges(ty, false))
    ensures HoldsAll(c, TypeEdges(ty, true))
    decreases ty
  {
    match ty.kind
    case Array(element, _, _) => TypeMonotone(element, c);
    case AliasRef(id) => assert Holds(c, (id, Definition)) by { assert TypeEdges(ty, false) == [(id, Definition)]; }
    case RecordRef(id) => assert Holds(c, (id, Definition)) by { assert TypeEdges(ty, false) == [(id, Definition)]; }
    case _ =>
  }

  /** What a declaration demands as a definition covers what it demands as an opaque handle,
      and so does what it reports. */
  lemma NeedMonotone(p: Package, sel: Selection, id: Id, c: Requirements)
    ensures HoldsAll(c, Edges(p, sel, id, Definition)) ==> HoldsAll(c, Edges(p, sel, id, OpaqueSufficient))
    ensures !sel.OpaqueOnly? ==>
              forall b :: b in Facts(p, sel, id, OpaqueSufficient) ==> b in Facts(p, sel, id, Definition)
  {
    match Find(p.declarations, id)
    case None =>
    case Some(d) =>
      if d.kind.AliasKind? && HoldsAll(c, TypeEdges(d.kind.target, false)) {
        TypeMonotone(d.kind.target, c);
      }
  }

  // ----- the worklist --------------------------------------------------------------------

  datatype Frontier = Frontier(required: Requirements, queue: seq<Edge>)

  function Demand(f: Frontier, e: Edge): Frontier {
    if e.0 !in f.required || (f.required[e.0] != e.1 && Leq(f.required[e.0], e.1)) then
      Frontier(f.required[e.0 := e.1], f.queue + [e])
    else f
  }

  function DemandAll(f: Frontier, edges: seq<Edge>): Frontier
    decreases edges
  {
    if edges == [] then f else DemandAll(Demand(f, edges[0]), edges[1..])
  }

  lemma {:induction false} DemandAllAppend(f: Frontier, a: seq<Edge>, b: seq<Edge>)
    ensures DemandAll(f, a + b) == DemandAll(DemandAll(f, a), b)
    decreases a
  {
    if a == [] {
      assert a + b == b;
    } else {
      assert (a + b)[0] == a[0] && (a + b)[1..] == a[1..] + b;
      DemandAllAppend(Demand(f, a[0]), a[1..], b);
    }
  }

  /** Every queued entry is at most the recorded need. */
  predicate Queued(f: Frontier) { forall e :: e in f.queue ==> Holds(f.required, e) }

  /** `g` is reached from `f` by demanding `edges`: it keeps and covers them, queues every
      entry it raised, and raises nothing else. */
  ghost predicate Demanded(f: Frontier, edges: seq<Edge>, g: Frontier) {
    && Below(f.required, g.required) && HoldsAll(g.required, edges) && Queued(g)
    && (forall e :: e in f.queue ==> e in g.queue)
    && (forall id :: id in g.required ==>
          (id in f.required && g.required[id] == f.required[id]) || (id, g.required[id]) in g.queue)
    && (forall id :: id in g.required ==> id in f.required || exists n :: (id, n) in edges)
    && (g.required == f.required ==> g.queue == f.queue)
    && (forall c: Requirements :: Below(f.required, c) && HoldsAll(c, edges) ==> Below(g.required, c))
  }

  lemma {:induction false} DemandAllSpec(f: Frontier, edges: seq<Edge>)
    requires Queued(f)
    ensures Demanded(f, edges, DemandAll(f, edges))
    decreases edges
  {
    if edges != [] {
      var e, g := edges[0], Demand(f, edges[0]);
      assert edges == [e] + edges[1..];
      forall x | x in g.queue ensures Holds(g.required, x) {
        if x in f.queue { assert Holds(f.required, x); }
      }
      DemandAllSpec(g, edges[1..]);
      var h := DemandAll(f, edges);
      assert Holds(g.required, e);
      assert Holds(h.required, (e.0, g.required[e.0]));
      forall id | id in f.required ensures Holds(h.required, (id, f.required[id])) {
        assert Holds(g.required, (id, f.required[id]));
        assert Holds(h.required, (id, g.required[id]));
      }
      forall c: Requirements | Below(f.required, c) && HoldsAll(c, edges) ensures Below(h.required, c) {
        assert Holds(c, e);
        assert Below(g.required, c);
      }
    }
  }

  /** The three `&mut` accumulators of the source's walk, as one value. */
  datatype State = State(frontier: Frontier, blockers: seq<Blocker>)

  /** The state after demanding `edges` and reporting `facts`. */
  function Then(s: State, edges: seq<Edge>, facts: seq<Blocker>): State {
    State(DemandAll(s.frontier, edges), s.blockers + facts)
  }

  lemma ThenThen(s: State, e: seq<Edge>, f: seq<Blocker>, e': seq<Edge>, f': seq<Blocker>)
    ensures Then(Then(s, e, f), e', f') == Then(s, e + e', f + f')
  {
    DemandAllAppend(s.frontier, e, e');
    assert s.blockers + f + f' == s.blockers + (f + f');
  }

  lemma ThenReport(s: State, f: seq<Blocker>, e': seq<Edge>, f': seq<Blocker>)
    ensures Then(Then(s, [], f), e', f') == Then(s, e', f + f')
  {
    ThenThen(s, [], f, e', f');
    assert [] + e' == e';
  }

  class Walk {
    var required: Requirements
    var queue: seq<Edge>
    var blockers: seq<Blocker>

    constructor (initial: seq<Blocker>)
      ensures Now() == State(Frontier(map[], []), initial)
    {
      required, queue, blockers := map[], [], initial;
    }

    function Now(): State
      reads this
    {
      State(Frontier(required, queue), blockers)
    }

    method Enqueue(id: Id, need: Need)
      modifies this`required, this`queue
      ensures Now() == Then(old(Now()), [(id, need)], [])
    {
      if id !in required {
        required := required[id := need];
        queue := queue + [(id, need)];
      } else if required[id] == OpaqueSufficient && need == Definition {
        required := required[id := need];
        queue := queue + [(id, need)];
      }
      DemandOne(old(Now()).frontier, [(id, need)]);
    }

    method EnqueueAll(edges: seq<Edge>)
      modifies this`required, this`queue
      ensures Now() == Then(old(Now()), edges, [])
    {
      for i := 0 to |edges|
        invariant Then(Now(), edges[i..], []) == Then(old(Now()), edges, [])
      {
        ghost var before := Now();
        assert edges[i..] == [edges[i]] + edges[i + 1..];
        Enqueue(edges[i].0, edges[i].1);
        ThenThen(before, [edges[i]], [], edges[i + 1..], []);
      }
    }

    method Reject(id: Id, path: Path, reason: string)
      modifies this`blockers
      ensures Now() == Then(old(Now()), [], [UnsupportedAt(id, path, reason)])
    {
      blockers := blockers + [UnsupportedAt(id, path, reason)];
    }

    method RejectStatus(owner: Id, path: Path, status: SupportStatus)
      modifies this`blockers
      ensures Now() == Then(old(Now()), [], StatusFacts(owner, path, status))
    {
      match status
      case Supported =>
      case PartialSupport(_, reason) => Reject(owner, path, reason);
      case NoSupport(_, reason) => Reject(owner, path, reason);
    }

    method RejectAttributes(owner: Id, path: Path, attributes: seq<Attribute>)
      modifies this`blockers
      ensures Now() == Then(old(Now()), [], AttributeFacts(owner, path, attributes, 0))
    {
      for index := 0 to |attributes|
        invariant Then(Now(), [], AttributeFacts(owner, path, attributes, index))
               == Then(old(Now()), [], AttributeFacts(owner, path, attributes, 0))
      {
        ghost var before, rest := Now(), AttributeFacts(owner, path, attributes, index + 1);
        if attributes[index].blocking {
          Reject(owner, path + [At(index)], attributes[index].spelling);
          ThenReport(before, [UnsupportedAt(owner, path + [At(index)], attributes[index].spelling)], [], rest);
        }
      }
    }

    method RejectConvention(owner: Id, path: Path, convention: CallingConvention)
      modifies this`blockers
      ensures Now() == Then(old(Now()), [], ConventionFacts(owner, path, convention))
    {
      if convention.BadConvention? {
        Reject(owner, path + [Named("calling_convention")], convention.spelling);
      }
    }

    method VisitType(owner: Id, path: Path, ty: CType, behind: bool)
      modifies this
      ensures Now() == Then(old(Now()), TypeEdges(ty, behind), TypeFacts(owner, path, ty))
      decreases ty, 1
    {
      RejectStatus(owner, path + [Named("support")], ty.support);
      VisitTypeKind(owner, path, ty, behind);
      ThenReport(old(Now()), StatusFacts(owner, path + [Named("support")], ty.support),
               TypeEdges(ty, behind), TypeKindFacts(owner, path, ty.kind));
    }

    method VisitTypeKind(owner: Id, path: Path, ty: CType, behind: bool)
      modifies this
      ensures Now() == Then(old(Now()), TypeEdges(ty, behind), TypeKindFacts(owner, path, ty.kind))
      decreases ty, 0
    {
      match ty.kind
      case Pointer(pointee) =>
        VisitType(owner, path + [Named("pointee")], pointee, true);
      case Array(_, _, _) => VisitArray(owner, path, ty.kind, behind);
      case Function(_, _, _, _) => VisitFunctionType(owner, path, ty.kind);
      case AliasRef(id) => Enqueue(id, if behind then OpaqueSufficient else Definition);
      case EnumRef(id) => Enqueue(id, Definition);
      case RecordRef(id) => Enqueue(id, if behind then OpaqueSufficient else Definition);
      case UnsupportedType(spelling) => Reject(owner, path, spelling);
      case Void =>
      case Scalar(_) =>
    }

    method VisitArray(owner: Id, path: Path, a: CTypeKind, behind: bool)
      requires a.Array?
      modifies this
      ensures Now() == Then(old(Now()), TypeEdges(a.element, behind),
                            BoundFacts(owner, path, a.bound) + TypeFacts(owner, path + [Named("element")], a.element))
      decreases a
    {
      if a.bound.InvalidBound? {
        Reject(owner, path + [Named("bound")], a.bound.spelling);
      }
      VisitType(owner, path + [Named("element")], a.element, behind);
      ThenReport(old(Now()), BoundFacts(owner, path, a.bound),
                 TypeEdges(a.element, behind), TypeFacts(owner, path + [Named("element")], a.element));
    }

    method VisitFunctionType(owner: Id, path: Path, f: CTypeKind)
      requires f.Function?
      modifies this
      ensures Now() == Then(old(Now()), TypeEdges(f.returnType, false) + ParameterEdges(f.parameters),
                            FunctionTypeFacts(owner, path, f))
      decreases f
    {
      RejectConvention(owner, path, f.convention);
      VisitType(owner, path + [Named("return_type")], f.returnType, false);
      ghost var resultFacts := TypeFacts(owner, path + [Named("return_type")], f.returnType);
      ThenReport(old(Now()), ConventionFacts(owner, path, f.convention), TypeEdges(f.returnType, false), resultFacts);
      VisitParameters(owner, path, f.parameters);
      ThenThen(old(Now()), TypeEdges(f.returnType, false), ConventionFacts(owner, path, f.convention) + resultFacts,
               ParameterEdges(f.parameters), ParameterFacts(owner, path, f.parameters, 0));
    }

    method VisitParameters(owner: Id, path: Path, parameters: seq<CParameter>)
      modifies this
      ensures Now() == Then(old(Now()), ParameterEdges(parameters), ParameterFacts(owner, path, parameters, 0))
      decreases parameters
    {
      for index := 0 to |parameters|
        invariant Then(Now(), ParameterEdges(parameters[index..]),
                       ParameterFacts(owner, path, parameters[index..], index))
               == Then(old(Now()), ParameterEdges(parameters), ParameterFacts(owner, path, parameters, 0))
      {
        ghost var before, rest := Now(), parameters[index + 1..];
        var here, parameter := path + [Named("parameters"), At(index)], parameters[index];
        assert parameters[index..][0] == parameter && parameters[index..][1..] == rest;
        assert parameter.ty < parameter;
        VisitType(owner, here, parameter.ty, false);
        ThenThen(before, TypeEdges(parameter.ty, false), TypeFacts(owner, here, parameter.ty),
                 ParameterEdges(rest), ParameterFacts(owner, path, rest, index + 1));
      }
    }

    method VisitMember(owner: Id, here: Path, m: Member)
      modifies this
      ensures Now() == Then(old(Now()), TypeEdges(m.ty, false), OneMemberFacts(owner, here, m))
    {
      RejectStatus(owner, here + [Named("support")], m.support);
      RejectAttributes(owner, here + [Named("attributes")], m.attributes);
      ghost var status := StatusFacts(owner, here + [Named("support")], m.support);
      ghost var attributes := AttributeFacts(owner, here + [Named("attributes")], m.attributes, 0);
      ThenReport(old(Now()), status, [], attributes);
      VisitType(owner, here + [Named("ty")], m.ty, false);
      ThenReport(old(Now()), status + attributes, TypeEdges(m.ty, false), TypeFacts(owner, here + [Named("ty")], m.ty));
    }

    method VisitMembers(owner: Id, path: Path, members: seq<Member>)
      modifies this
      ensures Now() == Then(old(Now()), MemberEdges(members), MemberFacts(owner, path, members, 0))
    {
      for index := 0 to |members|
        invariant Then(Now(), MemberEdges(members[index..]), MemberFacts(owner, path, members, index))
               == Then(old(Now()), MemberEdges(members), MemberFacts(owner, path, members, 0))
      {
        ghost var before := Now();
        var m := members[index];
        assert members[index..][0] == m && members[index..][1..] == members[index + 1..];
        VisitMember(owner, path + [At(index)], m);
        ThenThen(before, TypeEdges(m.ty, false), OneMemberFacts(owner, path + [At(index)], m),
                 MemberEdges(members[index + 1..]), MemberFacts(owner, path, members, index + 1));
      }
    }

    method VisitVariants(owner: Id, variants: seq<Variant>)
      modifies this`blockers
      ensures Now() == Then(old(Now()), [], VariantFacts(owner, variants, 0))
    {
      for index := 0 to |variants|
        invariant Then(Now(), [], VariantFacts(owner, variants, index))
               == Then(old(Now()), [], VariantFacts(owner, variants, 0))
      {
        ghost var before := Now();
        var here, variant := [Named("variants"), At(index)], variants[index];
        RejectStatus(owner, here + [Named("support")], variant.support);
        RejectAttributes(owner, here + [Named("attributes")], variant.attributes);
        ghost var status := StatusFacts(owner, here + [Named("support")], variant.support);
        ghost var attributes := AttributeFacts(owner, here + [Named("attributes")], variant.attributes, 0);
        ThenReport(before, status, [], attributes);
        ThenReport(before, status + attributes, [], VariantFacts(owner, variants, index + 1));
      }
    }

    method VisitOccurrences(owner: Id, occurrences: seq<Occurrence>)
      modifies this`blockers
      ensures Now() == Then(old(Now()), [], OccurrenceFacts(owner, occurrences, 0))
    {
      for index := 0 to |occurrences|
        invariant Then(Now(), [], OccurrenceFacts(owner, occurrences, index))
               == Then(old(Now()), [], OccurrenceFacts(owner, occurrences, 0))
      {
        ghost var before := Now();
        var here := [Named("occurrences"), At(index), Named("attributes")];
        RejectAttributes(owner, here, occurrences[index].attributes);
        ThenReport(before, AttributeFacts(owner, here, occurrences[index].attributes, 0),
                 [], OccurrenceFacts(owner, occurrences, index + 1));
      }
    }

    method VisitFunction(id: Id, result: CType, parameters: seq<Member>, convention: CallingConvention)
      modifies this
      ensures Now() == Then(old(Now()), TypeEdges(result, false) + MemberEdges(parameters),
                            FunctionFacts(id, result, parameters, convention))
    {
      RejectConvention(id, [], convention);
      VisitType(id, [Named("return_type")], result, false);
      ghost var resultFacts := TypeFacts(id, [Named("return_type")], result);
      ThenReport(old(Now()), ConventionFacts(id, [], convention), TypeEdges(result, false), resultFacts);
      VisitMembers(id, [Named("parameters")], parameters);
      ThenThen(old(Now()), TypeEdges(result, false), ConventionFacts(id, [], convention) + resultFacts,
               MemberEdges(parameters), MemberFacts(id, [Named("parameters")], parameters, 0));
    }

    method VisitRecord(id: Id, complete: bool, fields: seq<Member>)
      modifies this
      ensures Now() == Then(old(Now()), MemberEdges(fields),
                            CompletenessFacts(id, complete) + MemberFacts(id, [Named("fields")], fields, 0))
    {
      if !complete {
        blockers := blockers + [IncompleteRecord(id)];
      }
      VisitMembers(id, [Named("fields")], fields);
      ThenReport(old(Now()), CompletenessFacts(id, complete),
               MemberEdges(fields), MemberFacts(id, [Named("fields")], fields, 0));
    }

    method VisitEnum(id: Id, underlying: Option<CType>, variants: seq<Variant>)
      modifies this
      ensures Now() == Then(old(Now()), if underlying.Some? then TypeEdges(underlying.value, false) else [],
                            UnderlyingFacts(id, underlying) + VariantFacts(id, variants, 0))
    {
      if underlying.Some? {
        VisitType(id, [Named("explicit_underlying_type")], underlying.value, false);
      }
      VisitVariants(id, variants);
      ThenThen(old(Now()), if underlying.Some? then TypeEdges(underlying.value, false) else [],
               UnderlyingFacts(id, underlying), [], VariantFacts(id, variants, 0));
    }

    method ValidateKind(id: Id, kind: DeclarationKind, need: Need)
      modifies this
      ensures Now() == Then(old(Now()), KindEdges(kind, need), KindFacts(id, kind, need))
    {
      match kind
      case FunctionKind(_, result, parameters, _, convention) => VisitFunction(id, result, parameters, convention);
      case RecordKind(_, complete, fields) =>
        if need == Definition {
          VisitRecord(id, complete, fields);
        }
      case EnumKind(underlying, variants) => VisitEnum(id, underlying, variants);
      case AliasKind(target) =>
        VisitType(id, [Named("target")], target, need == OpaqueSufficient);
      case VariableKind(_, ty, _) =>
        VisitType(id, [Named("ty")], ty, false);
      case UnsupportedKind(_, spelling, _) =>
        Reject(id, [Named("unsupported")], spelling);
    }

    method ValidateDeclaration(d: Declaration, need: Need)
      modifies this
      ensures Now() == Then(old(Now()), KindEdges(d.kind, need), DeclarationFacts(d, need))
    {
      RejectStatus(d.id, [Named("support")], d.support);
      VisitOccurrences(d.id, d.occurrences);
      ghost var status := StatusFacts(d.id, [Named("support")], d.support);
      ThenReport(old(Now()), status, [], OccurrenceFacts(d.id, d.occurrences, 0));
      ValidateKind(d.id, d.kind, need);
      ThenReport(old(Now()), status + OccurrenceFacts(d.id, d.occurrences, 0),
               KindEdges(d.kind, need), KindFacts(d.id, d.kind, need));
    }
  }

  lemma DemandOne(f: Frontier, edges: seq<Edge>)
    requires |edges| == 1
    ensures DemandAll(f, edges) == Demand(f, edges[0])
  {
    assert edges[1..] == [];
  }

  /** The ids any declaration refers to: the universe the walk stays in. */
  ghost function Mentioned(p: Package, sel: Selection): set<Id> {
    (set e | e in Roots(p, sel) :: e.0)
    + (set d, e | d in p.declarations && e in KindEdges(d.kind, Definition) :: e.0)
    + (set d, e | d in p.declarations && e in KindEdges(d.kind, OpaqueSufficient) :: e.0)
  }

  function Opaques(m: Requirements): set<Id> { set id | id in m && m[id] == OpaqueSufficient }

  /** What the walk knows between two queue pops. */
  ghost predicate Walking(p: Package, sel: Selection, f: Frontier, blockers: seq<Blocker>) {
    InRange(p, sel, f) && Pending(p, sel, f, blockers) && Reported(p, sel, f, blockers) && Least(p, sel, f)
  }

  ghost predicate InRange(p: Package, sel: Selection, f: Frontier) {
    && Queued(f)
    && HoldsAll(f.required, Roots(p, sel))
    && f.required.Keys <= Mentioned(p, sel)
    && (sel.OpaqueOnly? ==> forall id :: id in f.required ==> f.required[id] == OpaqueSufficient)
  }

  ghost predicate Pending(p: Package, sel: Selection, f: Frontier, blockers: seq<Blocker>) {
    forall id :: id in f.required ==> Settled(p, sel, f, blockers, id) || (id, f.required[id]) in f.queue
  }

  ghost predicate Reported(p: Package, sel: Selection, f: Frontier, blockers: seq<Blocker>) {
    && (forall b :: b in blockers ==> IsBlocker(p, sel, f.required, b))
    && (forall b :: b in PackageFacts(p) ==> b in blockers)
  }

  ghost predicate Least(p: Package, sel: Selection, f: Frontier) {
    forall c: Requirements :: HoldsAll(c, Roots(p, sel)) && Closed(p, sel, c) ==> Below(f.required, c)
  }

  /** A visited member: its edges are recorded and its facts are reported. */
  ghost predicate Settled(p: Package, sel: Selection, f: Frontier, blockers: seq<Blocker>, id: Id)
    requires id in f.required
  {
    && HoldsAll(f.required, Edges(p, sel, id, f.required[id]))
    && forall b :: b in Facts(p, sel, id, f.required[id]) ==> b in blockers
  }

  lemma FindMember(p: Package, id: Id)
    ensures match Find(p.declarations, id)
            case None => true
            case Some(d) => d in p.declarations && d.id == id
  {
    LookupFinds(DECLARATIONS, p.declarations, id);
  }

  /** A member's edges never leave the mentioned ids. */
  lemma EdgesMentioned(p: Package, sel: Selection, id: Id, need: Need)
    ensures forall e :: e in Edges(p, sel, id, need) ==> e.0 in Mentioned(p, sel)
  {
    FindMember(p, id);
  }

  function Without<T>(q: seq<T>, i: nat): seq<T>
    requires i < |q|
  {
    q[..i] + q[i + 1..]
  }

  lemma WithoutSpec<T>(q: seq<T>, i: nat)
    requires i < |q|
    ensures forall e :: e in q ==> e == q[i] || e in Without(q, i)
    ensures forall e :: e in Without(q, i) ==> e in q
  {
    assert q == q[..i] + [q[i]] + q[i + 1..];
  }

  /** The frontier `g` is `f` with entry `i` taken out, wherever it stands in the queue, and that
      member's edges demanded. */
  ghost predicate Visited(p: Package, sel: Selection, f: Frontier, i: nat, g: Frontier) {
    && i < |f.queue| && f.queue[i].0 in f.required
    && Demanded(Frontier(f.required, Without(f.queue, i)), Edges(p, sel, f.queue[i].0, f.required[f.queue[i].0]), g)
  }

  /** Taking out any up-to-date entry keeps the walk's invariant. */
  lemma VisitKeepsWalking(p: Package, sel: Selection, f: Frontier, i: nat, g: Frontier, blockers: seq<Blocker>)
    requires Walking(p, sel, f, blockers) && Visited(p, sel, f, i, g)
    ensures Walking(p, sel, g, blockers + Facts(p, sel, f.queue[i].0, f.required[f.queue[i].0]))
  {
    VisitInRange(p, sel, f, i, g);
    VisitPending(p, sel, f, i, g, blockers);
    VisitReported(p, sel, f, i, g, blockers);
    VisitLeast(p, sel, f, i, g);
  }

  /** Needs only rise. */
  lemma Raised(m: Requirements, n: Requirements, edges: seq<Edge>)
    requires Below(m, n) && HoldsAll(m, edges)
    ensures HoldsAll(n, edges)
  {
    forall e | e in edges ensures Holds(n, e) {
      assert Holds(m, e) && Holds(n, (e.0, m[e.0]));
    }
  }

  lemma VisitInRange(p: Package, sel: Selection, f: Frontier, i: nat, g: Frontier)
    requires InRange(p, sel, f) && Visited(p, sel, f, i, g)
    ensures InRange(p, sel, g)
  {
    var id := f.queue[i].0;
    WithoutSpec(f.queue, i);
    Raised(f.required, g.required, Roots(p, sel));
    EdgesMentioned(p, sel, id, f.required[id]);
    if sel.OpaqueOnly? {
      OpaqueOnlyEdges(p, sel, id);
      assert Below(g.required, f.required) by { assert Below(f.required, f.required); }
      forall x | x in g.required ensures g.required[x] == OpaqueSufficient {
        assert Holds(f.required, (x, g.required[x]));
      }
    }
  }

  lemma VisitPending(p: Package, sel: Selection, f: Frontier, i: nat, g: Frontier, blockers: seq<Blocker>)
    requires Pending(p, sel, f, blockers) && Visited(p, sel, f, i, g)
    ensures Pending(p, sel, g, blockers + Facts(p, sel, f.queue[i].0, f.required[f.queue[i].0]))
  {
    var id := f.queue[i].0;
    var reported := blockers + Facts(p, sel, id, f.required[id]);
    WithoutSpec(f.queue, i);
    forall x | x in g.required ensures Settled(p, sel, g, reported, x) || (x, g.required[x]) in g.queue {
      if (x, g.required[x]) !in g.queue && x != id {
        assert Settled(p, sel, f, blockers, x);
        Raised(f.required, g.required, Edges(p, sel, x, g.required[x]));
      }
    }
  }

  lemma VisitReported(p: Package, sel: Selection, f: Frontier, i: nat, g: Frontier, blockers: seq<Blocker>)
    requires InRange(p, sel, g) && Reported(p, sel, f, blockers) && Visited(p, sel, f, i, g)
    ensures Reported(p, sel, g, blockers + Facts(p, sel, f.queue[i].0, f.required[f.queue[i].0]))
  {
    var id := f.queue[i].0;
    forall b | b in blockers + Facts(p, sel, id, f.required[id]) ensures IsBlocker(p, sel, g.required, b) {
      if b !in PackageFacts(p) {
        assert IsBlocker(p, sel, f.required, b);
        var x :| x in f.required && b in Facts(p, sel, x, f.required[x]);
        assert Holds(g.required, (x, f.required[x]));
        NeedMonotone(p, sel, x, map[]);
        assert b in Facts(p, sel, x, g.required[x]);
      }
    }
  }

  lemma VisitLeast(p: Package, sel: Selection, f: Frontier, i: nat, g: Frontier)
    requires Least(p, sel, f) && Visited(p, sel, f, i, g)
    ensures Least(p, sel, g)
  {
    var id := f.queue[i].0;
    forall c: Requirements | HoldsAll(c, Roots(p, sel)) && Closed(p, sel, c) ensures Below(g.required, c) {
      assert Below(f.required, c) && Holds(c, (id, f.required[id]));
      NeedMonotone(p, sel, id, c);
      assert HoldsAll(c, Edges(p, sel, id, c[id]));
    }
  }

  lemma OpaqueOnlyEdges(p: Package, sel: Selection, id: Id)
    requires sel.OpaqueOnly?
    ensures Edges(p, sel, id, OpaqueSufficient) == []
  {
  }

  /** An empty queue means the closure is reached and the blockers are exactly its facts. */
  lemma WalkEnds(p: Package, sel: Selection, f: Frontier, blockers: seq<Blocker>)
    requires Walking(p, sel, f, blockers) && f.queue == []
    ensures IsClosure(p, sel, f.required)
    ensures forall b :: b in blockers ==> IsBlocker(p, sel, f.required, b)
    ensures forall b :: IsBlocker(p, sel, f.required, b) ==> b in blockers
  {
    forall id | id in f.required ensures HoldsAll(f.required, Edges(p, sel, id, f.required[id])) {
      assert Settled(p, sel, f, blockers, id);
    }
  }

  /** The walk starts with every root queued. */
  lemma WalkStarts(p: Package, sel: Selection, f: Frontier)
    requires f == DemandAll(Frontier(map[], []), Roots(p, sel))
    ensures Walking(p, sel, f, PackageFacts(p))
  {
    DemandAllSpec(Frontier(map[], []), Roots(p, sel));
    forall id | id in f.required ensures id in Mentioned(p, sel) {
      var n :| (id, n) in Roots(p, sel);
      assert (id, n).0 in Mentioned(p, sel);
    }
    if sel.OpaqueOnly? {
      OpaqueRootsHold(p, sel.ids);
      var roots := OpaqueRoots(sel.ids);
      assert Below(f.required, roots);
      forall id | id in f.required ensures f.required[id] == OpaqueSufficient {
        assert Holds(roots, (id, f.required[id]));
      }
    }
  }

  function OpaqueRoots(ids: seq<Id>): Requirements { map id | id in ids :: OpaqueSufficient }

  lemma OpaqueRootsHold(p: Package, ids: seq<Id>)
    ensures HoldsAll(OpaqueRoots(ids), Roots(p, OpaqueOnly(ids)))
  {
  }

  datatype CompletePackage = CompletePackage(package: Package, selection: Selection, closure: Requirements)

  /** One turn on entry `i`: a stale entry is dropped, any other is visited at its current need. */
  function Turn(p: Package, sel: Selection, s: State, i: nat): State
    requires i < |s.frontier.queue|
  {
    var (id, need) := s.frontier.queue[i];
    var rest := State(Frontier(s.frontier.required, Without(s.frontier.queue, i)), s.blockers);
    var current := if id in s.frontier.required then s.frontier.required[id] else need;
    if current != need && need == OpaqueSufficient then rest
    else Then(rest, Edges(p, sel, id, current), Facts(p, sel, id, current))
  }

  /** A turn on any entry keeps the walk's invariant and lowers its measure. */
  lemma TurnKeepsWalking(p: Package, sel: Selection, s: State, i: nat)
    requires Walking(p, sel, s.frontier, s.blockers) && i < |s.frontier.queue|
    ensures var t := Turn(p, sel, s, i);
            Walking(p, sel, t.frontier, t.blockers) && Shrunk(s.frontier, t.frontier)
  {
    hide KindEdges, DeclarationFacts, DemandAll, Edges, Facts;
    var f := s.frontier;
    var (id, need) := f.queue[i];
    assert Holds(f.required, f.queue[i]);
    var popped := Frontier(f.required, Without(f.queue, i));
    var current := f.required[id];
    if current != need && need == OpaqueSufficient {
      StaleKeepsWalking(p, sel, f, s.blockers, i);
    } else {
      var t := Turn(p, sel, s, i);
      WithoutSpec(f.queue, i);
      DemandAllSpec(popped, Edges(p, sel, id, current));
      VisitKeepsWalking(p, sel, f, i, t.frontier, s.blockers);
      VisitShrinks(f, popped, Edges(p, sel, id, current), t.frontier);
    }
  }

  /** One turn of the source's `while let` loop, on the first entry. */
  method Pop(p: Package, sel: Selection, walk: Walk)
    requires Sorted(DECLARATIONS, p.declarations)
    requires walk.queue != [] && Walking(p, sel, walk.Now().frontier, walk.blockers)
    modifies walk
    ensures walk.Now() == Turn(p, sel, old(walk.Now()), 0)
    ensures Walking(p, sel, walk.Now().frontier, walk.blockers)
    ensures Shrunk(old(walk.Now().frontier), walk.Now().frontier)
  {
    hide KindEdges, DeclarationFacts, DemandAll;
    ghost var before := walk.Now();
    var (id, need) := walk.queue[0];
    TurnKeepsWalking(p, sel, before, 0);
    assert Holds(before.frontier.required, before.frontier.queue[0]);
    assert Without(walk.queue, 0) == walk.queue[1..];
    walk.queue := walk.queue[1..];
    var current := walk.required[id];
    if current != need && need == OpaqueSufficient {
      return;
    }
    var found := BinarySearch(p.declarations, id);
    FindMember(p, id);
    if found.None? {
      walk.blockers := walk.blockers + [MissingDeclaration(id)];
    } else if SkippedRoot(sel, found.value, need) {
      walk.blockers := walk.blockers + [OpaqueRootIsNotRecord(id)];
    } else {
      walk.ValidateDeclaration(found.value, current);
    }
    NothingDemanded(walk.Now().frontier);
  }

  lemma NothingDemanded(f: Frontier)
    ensures DemandAll(f, []) == f
  {
  }

  /** `SourcePackage::into_complete`: succeeds exactly when the least closure of the selection
      has no blocker, and otherwise reports exactly that closure's blockers. */
  method IntoComplete(p: Package, sel: Selection) returns (r: Result<CompletePackage, seq<Blocker>>,
      ghost closure: Requirements)
    requires Sorted(DECLARATIONS, p.declarations)
    ensures IsClosure(p, sel, closure)
    ensures r.Ok? ==> r.value == CompletePackage(p, sel, closure) && forall b :: !IsBlocker(p, sel, closure, b)
    ensures r.Err? ==> r.error != []
    ensures r.Err? ==> forall b :: b in r.error ==> IsBlocker(p, sel, closure, b)
    ensures r.Err? ==> forall b :: IsBlocker(p, sel, closure, b) ==> b in r.error
  {
    hide IsClosure, IsBlocker, Mentioned, PackageFacts, Roots, DemandAll;
    var walk := new Walk(PackageFacts(p));
    walk.EnqueueAll(Roots(p, sel));
    WalkStarts(p, sel, walk.Now().frontier);
    while walk.queue != []
      invariant Walking(p, sel, walk.Now().frontier, walk.blockers)
      decreases Mentioned(p, sel) - walk.required.Keys, Opaques(walk.required), |walk.queue|
    {
      Pop(p, sel, walk);
    }
    closure := walk.required;
    WalkEnds(p, sel, walk.Now().frontier, walk.blockers);
    if walk.blockers != [] {
      assert walk.blockers[0] in walk.blockers;
      return Err(walk.blockers), closure;
    }
    return Ok(CompletePackage(p, sel, walk.required)), closure;
  }

  /** Dropping a stale entry loses nothing: the upgraded entry is queued or done. */
  lemma StalePending(p: Package, sel: Selection, f: Frontier, blockers: seq<Blocker>, i: nat)
    requires Pending(p, sel, f, blockers) && i < |f.queue|
    requires f.queue[i].0 in f.required && f.required[f.queue[i].0] != f.queue[i].1
    ensures Pending(p, sel, Frontier(f.required, Without(f.queue, i)), blockers)
  {
    var g := Frontier(f.required, Without(f.queue, i));
    WithoutSpec(f.queue, i);
    forall id | id in f.required ensures Settled(p, sel, g, blockers, id) || (id, f.required[id]) in g.queue {
      assert Settled(p, sel, f, blockers, id) || (id, f.required[id]) in f.queue;
    }
  }

  lemma StaleKeepsWalking(p: Package, sel: Selection, f: Frontier, blockers: seq<Blocker>, i: nat)
    requires Walking(p, sel, f, blockers) && i < |f.queue|
    requires f.queue[i].0 in f.required && f.required[f.queue[i].0] != f.queue[i].1
    ensures Walking(p, sel, Frontier(f.required, Without(f.queue, i)), blockers)
  {
    var g := Frontier(f.required, Without(f.queue, i));
    WithoutSpec(f.queue, i);
    StalePending(p, sel, f, blockers, i);
    assert InRange(p, sel, g) && Least(p, sel, g);
  }

  /** `g` has entered new ids, or upgraded a need, or only has a shorter queue than `f`. */
  ghost predicate Shrunk(f: Frontier, g: Frontier) {
    && f.required.Keys <= g.required.Keys
    && (f.required.Keys == g.required.Keys ==> Opaques(g.required) <= Opaques(f.required))
    && (f.required.Keys == g.required.Keys && Opaques(g.required) == Opaques(f.required) ==> |g.queue| < |f.queue|)
  }

  lemma VisitShrinks(f: Frontier, popped: Frontier, edges: seq<Edge>, g: Frontier)
    requires popped.required == f.required && |popped.queue| < |f.queue|
    requires Demanded(popped, edges, g)
    ensures Shrunk(f, g)
  {
    forall id | id in f.required ensures id in g.required && Leq(f.required[id], g.required[id]) {
      assert Holds(g.required, (id, f.required[id]));
    }
    if f.required.Keys == g.required.Keys && Opaques(g.required) == Opaques(f.required) {
      forall id | id in f.required ensures f.required[id] == g.required[id] {
        assert id in Opaques(f.required) <==> id in Opaques(g.required);
      }
      assert f.required == g.required;
    }
  }

  // ----- opaque selections ---------------------------------------------------------------

  /** An opaque selection's closure is its roots, all opaque: nothing behind them is needed. */
  lemma OpaqueSelectionClosure(p: Package, ids: seq<Id>, m: Requirements)
    requires IsClosure(p, OpaqueOnly(ids), m)
    ensures m == OpaqueRoots(ids)
  {
    var sel, roots := OpaqueOnly(ids), OpaqueRoots(ids);
    OpaqueRootsHold(p, ids);
    forall id | id in roots ensures HoldsAll(roots, Edges(p, sel, id, roots[id])) {
      OpaqueOnlyEdges(p, sel, id);
    }
    assert Below(m, roots);
    forall id | id in ids ensures id in m {
      var i :| 0 <= i < |ids| && ids[i] == id;
      assert Roots(p, sel)[i] == (id, OpaqueSufficient);
      assert Holds(m, (id, OpaqueSufficient));
    }
    forall id | id in m ensures id in ids && m[id] == OpaqueSufficient {
      assert Holds(roots, (id, m[id]));
    }
  }

  predicate Blocking(attributes: seq<Attribute>) { exists a :: a in attributes && a.blocking }

  lemma {:induction false} NoAttributeFacts(owner: Id, path: Path, attributes: seq<Attribute>, from: nat)
    requires from <= |attributes|
    ensures AttributeFacts(owner, path, attributes, from) == [] <==> !Blocking(attributes[from..])
    decreases |attributes| - from
  {
    if from < |attributes| {
      NoAttributeFacts(owner, path, attributes, from + 1);
      assert attributes[from..] == [attributes[from]] + attributes[from + 1..];
    }
  }

  lemma {:induction false} NoOccurrenceFacts(owner: Id, occurrences: seq<Occurrence>, from: nat)
    requires from <= |occurrences|
    ensures OccurrenceFacts(owner, occurrences, from) == []
       <==> forall o :: o in occurrences[from..] ==> !Blocking(o.attributes)
    decreases |occurrences| - from
  {
    if from < |occurrences| {
      var o := occurrences[from];
      NoAttributeFacts(owner, [Named("occurrences"), At(from), Named("attributes")], o.attributes, 0);
      assert o.attributes[0..] == o.attributes;
      NoOccurrenceFacts(owner, occurrences, from + 1);
      assert occurrences[from..] == [o] + occurrences[from + 1..];
    }
  }

  /** A record, complete or not, that is supported and carries no blocking attribute. */
  predicate FitForOpaque(p: Package, id: Id) {
    match Find(p.declarations, id)
    case None => false
    case Some(d) =>
      d.kind.RecordKind? && d.support.Supported? && forall o :: o in d.occurrences ==> !Blocking(o.attributes)
  }

  lemma OpaqueFacts(p: Package, ids: seq<Id>, id: Id)
    ensures Facts(p, OpaqueOnly(ids), id, OpaqueSufficient) == [] <==> FitForOpaque(p, id)
  {
    match Find(p.declarations, id)
    case None =>
    case Some(d) =>
      NoOccurrenceFacts(d.id, d.occurrences, 0);
      assert d.occurrences[0..] == d.occurrences;
  }

  /** An opaque selection completes exactly when nothing stands against the whole package and every
      root is a supported record without a blocking attribute, complete or not. */
  lemma OpaqueSelectionSucceeds(p: Package, ids: seq<Id>, m: Requirements)
    requires IsClosure(p, OpaqueOnly(ids), m)
    ensures (forall b :: !IsBlocker(p, OpaqueOnly(ids), m, b))
       <==> PackageFacts(p) == [] && forall id :: id in ids ==> FitForOpaque(p, id)
  {
    var sel := OpaqueOnly(ids);
    OpaqueSelectionClosure(p, ids, m);
    if forall b :: !IsBlocker(p, sel, m, b) {
      if PackageFacts(p) != [] { assert IsBlocker(p, sel, m, PackageFacts(p)[0]); }
      forall id | id in ids ensures FitForOpaque(p, id) {
        OpaqueFacts(p, ids, id);
        if !FitForOpaque(p, id) {
          assert id in m && Facts(p, sel, id, m[id])[0] in Facts(p, sel, id, m[id]);
          assert IsBlocker(p, sel, m, Facts(p, sel, id, m[id])[0]);
        }
      }
    }
    if PackageFacts(p) == [] && forall id :: id in ids ==> FitForOpaque(p, id) {
      forall b ensures !IsBlocker(p, sel, m, b) {
        if IsBlocker(p, sel, m, b) {
          var id :| id in m && b in Facts(p, sel, id, m[id]);
          OpaqueFacts(p, ids, id);
          assert false;
        }
      }
    }
  }
}
