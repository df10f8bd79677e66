/** What a declaration refers to, and why a reference-closed part of a table can be judged on
    its own: alias cycles, pointer chains and type checks give the same answer in any other
    table that holds the same declarations there. */
module References {
  import opened Wrappers
  import opened Tables
  import opened Contract
  import opened AliasGraph
  import opened Validation

  /** `enqueue_type_references`. */
  function TypeRefs(ty: CType): seq<Id>
    decreases ty
  {
    match ty.kind
    case Pointer(pointee) => TypeRefs(pointee)
    case Array(element, _, _) => TypeRefs(element)
    case Function(result, parameters, _, _) => TypeRefs(result) + ParameterRefs(parameters)
    case AliasRef(id) => [id]
    case RecordRef(id) => [id]
    case EnumRef(id) => [id]
    case _ => []
  }

  function ParameterRefs(parameters: seq<CParameter>): seq<Id>
    decreases parameters
  {
    if parameters == [] then []
    else
      assert parameters[0].ty < parameters[0];
      TypeRefs(parameters[0].ty) + ParameterRefs(parameters[1..])
  }

  function MemberRefs(members: seq<Member>): seq<Id> {
    if members == [] then [] else TypeRefs(members[0].ty) + MemberRefs(members[1..])
  }

  /** `enqueue_declaration_references`. */
  function KindRefs(kind: DeclarationKind): seq<Id> {
    match kind
    case FunctionKind(_, result, parameters, _, _) => TypeRefs(result) + MemberRefs(parameters)
    case RecordKind(_, _, fields) => MemberRefs(fields)
    case EnumKind(underlying, _) => if underlying.Some? then TypeRefs(underlying.value) else []
    case AliasKind(target) => TypeRefs(target)
    case VariableKind(_, ty, _) => TypeRefs(ty)
    case UnsupportedKind(_, _, _) => []
  }

  function Refs(d: Declaration): seq<Id> {
    (if d.scope.OwnerScope? then [d.scope.owner] else []) + KindRefs(d.kind)
  }

  predicate Within(ids: seq<Id>, s: set<Id>) { forall id :: id in ids ==> id in s }

  /** `s` is known to both tables, with the same kinds, and closed under references. */
  ghost predicate Shared(a: seq<Declaration>, b: seq<Declaration>, s: set<Id>) {
    && Sorted(DECLARATIONS, a) && Sorted(DECLARATIONS, b)
    && forall id :: id in s ==>
         && Known(a, id) && Known(b, id)
         && Find(a, id).value.kind == Find(b, id).value.kind
         && Within(KindRefs(Find(a, id).value.kind), s)
  }

  lemma {:induction false} AliasRefsAreRefs(ty: CType)
    ensures forall id :: id in AliasRefs(ty) ==> id in TypeRefs(ty)
    decreases ty
  {
    match ty.kind
    case Pointer(pointee) => AliasRefsAreRefs(pointee);
    case Array(element, _, _) => AliasRefsAreRefs(element);
    case Function(result, parameters, _, _) =>
      AliasRefsAreRefs(result);
      ParameterAliasRefsAreRefs(parameters);
    case _ =>
  }

  lemma {:induction false} ParameterAliasRefsAreRefs(parameters: seq<CParameter>)
    ensures forall id :: id in ParameterAliasRefs(parameters) ==> id in ParameterRefs(parameters)
    decreases parameters
  {
    if parameters != [] {
      assert parameters[0].ty < parameters[0];
      AliasRefsAreRefs(parameters[0].ty);
      ParameterAliasRefsAreRefs(parameters[1..]);
    }
  }

  lemma FindSpec(declarations: seq<Declaration>, id: Id)
    ensures Known(declarations, id) ==>
              Find(declarations, id).value in declarations && Find(declarations, id).value.id == id
    ensures !Known(declarations, id) ==> forall d :: d in declarations ==> d.id != id
    ensures Sorted(DECLARATIONS, declarations) ==>
              forall d :: d in declarations && d.id == id ==> Find(declarations, id) == Some(d)
  {
    LookupFinds(DECLARATIONS, declarations, id);
    if Sorted(DECLARATIONS, declarations) {
      forall d | d in declarations && d.id == id ensures Find(declarations, id) == Some(d) {
        LookupSorted(DECLARATIONS, declarations, d);
      }
    }
  }

  /** An edge of the alias graph, read off the table. */
  lemma EdgeSpec(declarations: seq<Declaration>, x: Id, y: Id)
    requires Sorted(DECLARATIONS, declarations)
    ensures IsEdge(AliasTable(declarations), x, y) <==>
            && Known(declarations, x) && Find(declarations, x).value.kind.AliasKind?
            && Known(declarations, y) && Find(declarations, y).value.kind.AliasKind?
            && y in AliasRefs(Find(declarations, x).value.kind.target)
  {
    AliasTableSpec(declarations);
    FindSpec(declarations, x);
    FindSpec(declarations, y);
  }

  lemma SharedEdge(a: seq<Declaration>, b: seq<Declaration>, s: set<Id>, x: Id, y: Id)
    requires Shared(a, b, s) && x in s && IsEdge(AliasTable(a), x, y)
    ensures y in s && IsEdge(AliasTable(b), x, y)
  {
    EdgeSpec(a, x, y);
    EdgeSpec(b, x, y);
    AliasRefsAreRefs(Find(a, x).value.kind.target);
  }

  /** No cycle through a shared declaration is new to either table. */
  lemma SharedCycle(a: seq<Declaration>, b: seq<Declaration>, s: set<Id>, x: Id)
    requires Shared(a, b, s) && x in s && Reaches(AliasTable(a), x, x)
    ensures HasCycle(AliasTable(b))
  {
    var g, h := AliasTable(a), AliasTable(b);
    var p :| IsPath(g, p) && p[0] == x && p[|p| - 1] == x;
    forall u, v | u in s && IsEdge(g, u, v) ensures v in s {
      SharedEdge(a, b, s, u, v);
    }
    PathStaysInside(g, s, p);
    forall i | 0 <= i < |p| - 1 ensures IsEdge(h, p[i], p[i + 1]) {
      SharedEdge(a, b, s, p[i], p[i + 1]);
    }
    assert IsPath(h, p);
    assert Reaches(h, x, x);
  }

  lemma {:induction false} SharedChain(a: seq<Declaration>, b: seq<Declaration>, s: set<Id>, kind: CTypeKind, n: nat)
    requires Shared(a, b, s) && (kind.AliasRef? ==> kind.id in s)
    ensures PointerWithin(a, kind, n) == PointerWithin(b, kind, n)
    decreases n
  {
    if n > 0 && kind.AliasRef? && Target(a, kind.id).Some? {
      var target := Find(a, kind.id).value.kind.target;
      assert target.kind.AliasRef? ==> target.kind.id in TypeRefs(target);
      SharedChain(a, b, s, target.kind, n - 1);
    }
  }

  /** Every type over shared declarations resolves to a pointer in both tables or in neither. */
  lemma SharedPointer(a: seq<Declaration>, b: seq<Declaration>, s: set<Id>, kind: CTypeKind)
    requires Shared(a, b, s) && (kind.AliasRef? ==> kind.id in s)
    ensures IsPointer(a, kind, {}) == IsPointer(b, kind, {})
  {
    IsPointerExact(a, kind, {});
    IsPointerExact(b, kind, {});
    forall n: nat ensures PointerWithin(a, kind, n) == PointerWithin(b, kind, n) {
      SharedChain(a, b, s, kind, n);
    }
  }

  lemma {:induction false} SharedType(a: seq<Declaration>, b: seq<Declaration>, s: set<Id>, ty: CType)
    requires Shared(a, b, s) && Within(TypeRefs(ty), s)
    ensures TypeChecks(a, ty) == TypeChecks(b, ty)
    decreases ty
  {
    assert ty.kind.AliasRef? ==> ty.kind.id in TypeRefs(ty);
    assert ty.kind.RecordRef? ==> ty.kind.id in TypeRefs(ty);
    assert ty.kind.EnumRef? ==> ty.kind.id in TypeRefs(ty);
    SharedPointer(a, b, s, ty.kind);
    match ty.kind
    case Pointer(pointee) => SharedType(a, b, s, pointee);
    case Array(element, _, _) => SharedType(a, b, s, element);
    case Function(result, parameters, _, _) =>
      SharedType(a, b, s, result);
      forall c | c in parameters ensures TypeChecks(a, c.ty) == TypeChecks(b, c.ty) {
        ParameterWithin(parameters, c);
        SharedType(a, b, s, c.ty);
      }
    case _ =>
  }

  lemma {:induction false} ParameterWithin(parameters: seq<CParameter>, c: CParameter)
    requires c in parameters
    ensures forall id :: id in TypeRefs(c.ty) ==> id in ParameterRefs(parameters)
  {
    if c != parameters[0] {
      assert c in parameters[1..];
      ParameterWithin(parameters[1..], c);
    }
  }

  lemma {:induction false} MemberWithin(members: seq<Member>, m: Member)
    requires m in members
    ensures forall id :: id in TypeRefs(m.ty) ==> id in MemberRefs(members)
  {
    if m != members[0] {
      assert m in members[1..];
      MemberWithin(members[1..], m);
    }
  }

  lemma SharedMembers(a: seq<Declaration>, b: seq<Declaration>, s: set<Id>, members: seq<Member>)
    requires Shared(a, b, s) && Within(MemberRefs(members), s)
    ensures forall m :: m in members ==> TypeChecks(a, m.ty) == TypeChecks(b, m.ty)
  {
    forall m | m in members ensures TypeChecks(a, m.ty) == TypeChecks(b, m.ty) {
      MemberWithin(members, m);
      SharedType(a, b, s, m.ty);
    }
  }

  /** The checks on a shared declaration come out the same in both tables. */
  lemma SharedKind(a: seq<Declaration>, b: seq<Declaration>, s: set<Id>, kind: DeclarationKind)
    requires Shared(a, b, s) && Within(KindRefs(kind), s)
    ensures KindChecks(a, kind) == KindChecks(b, kind)
  {
    match kind
    case FunctionKind(_, result, parameters, _, _) =>
      SharedType(a, b, s, result);
      SharedMembers(a, b, s, parameters);
    case RecordKind(_, _, fields) => SharedMembers(a, b, s, fields);
    case EnumKind(underlying, _) => if underlying.Some? { SharedType(a, b, s, underlying.value); }
    case AliasKind(target) => SharedType(a, b, s, target);
    case VariableKind(_, ty, _) => SharedType(a, b, s, ty);
    case UnsupportedKind(_, _, _) =>
  }

  lemma {:induction false} CheckedTypeRefs(declarations: seq<Declaration>, ty: CType)
    requires TypeChecks(declarations, ty)
    ensures forall id :: id in TypeRefs(ty) ==> Known(declarations, id)
    decreases ty
  {
    match ty.kind
    case Pointer(pointee) => CheckedTypeRefs(declarations, pointee);
    case Array(element, _, _) => CheckedTypeRefs(declarations, element);
    case Function(result, parameters, _, _) =>
      CheckedTypeRefs(declarations, result);
      CheckedParameterRefs(declarations, parameters);
    case _ =>
  }

  lemma {:induction false} CheckedParameterRefs(declarations: seq<Declaration>, parameters: seq<CParameter>)
    requires forall c :: c in parameters ==> TypeChecks(declarations, c.ty)
    ensures forall id :: id in ParameterRefs(parameters) ==> Known(declarations, id)
    decreases parameters
  {
    if parameters != [] {
      assert parameters[0].ty < parameters[0];
      CheckedTypeRefs(declarations, parameters[0].ty);
      CheckedParameterRefs(declarations, parameters[1..]);
    }
  }

  lemma {:induction false} CheckedMemberRefs(declarations: seq<Declaration>, members: seq<Member>)
    requires forall m :: m in members ==> TypeChecks(declarations, m.ty)
    ensures forall id :: id in MemberRefs(members) ==> Known(declarations, id)
  {
    if members != [] {
      CheckedTypeRefs(declarations, members[0].ty);
      CheckedMemberRefs(declarations, members[1..]);
    }
  }

  /** A validated declaration refers only to declarations of its own table. */
  lemma CheckedRefs(files: seq<File>, declarations: seq<Declaration>, d: Declaration)
    requires DeclarationChecks(files, declarations, d)
    ensures forall id :: id in Refs(d) ==> Known(declarations, id)
  {
    match d.kind
    case FunctionKind(_, result, parameters, _, _) =>
      CheckedTypeRefs(declarations, result);
      CheckedMemberRefs(declarations, parameters);
    case RecordKind(_, _, fields) => CheckedMemberRefs(declarations, fields);
    case EnumKind(underlying, _) => if underlying.Some? { CheckedTypeRefs(declarations, underlying.value); }
    case AliasKind(target) => CheckedTypeRefs(declarations, target);
    case VariableKind(_, ty, _) => CheckedTypeRefs(declarations, ty);
    case UnsupportedKind(_, _, _) =>
  }
}
