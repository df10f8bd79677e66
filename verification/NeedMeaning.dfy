/** What completion needs and when it succeeds (src/contract/complete.rs), said without the walk: which types are
    used by value and which only through a handle, chains of uses from the roots, and clean declarations. */
module NeedMeaning {
  import opened Wrappers
  import opened Tables
  import opened Contract
  import opened Completion

  // ----- uses of a declaration in a type -------------------------------------------------

  /** A value of type `ty` holds one of type `id`, or a function type in it takes or gives one; an enumeration is
      wanted whole wherever it is named. */
  predicate ByValue(ty: CType, id: Id)
    decreases ty
  {
    match ty.kind
    case AliasRef(i) => i == id
    case RecordRef(i) => i == id
    case EnumRef(i) => i == id
    case Array(element, _, _) => ByValue(element, id)
    case Function(result, parameters, _, _) =>
      ByValue(result, id) || exists c :: c in parameters && ByValue(c.ty, id)
    case Pointer(pointee) => BehindByValue(pointee, id)
    case _ => false
  }

  /** What is by value even behind a pointer: an enumeration, and the result and parameters of a function. */
  predicate BehindByValue(ty: CType, id: Id)
    decreases ty
  {
    match ty.kind
    case EnumRef(i) => i == id
    case Array(element, _, _) => BehindByValue(element, id)
    case Pointer(pointee) => BehindByValue(pointee, id)
    case Function(result, parameters, _, _) =>
      ByValue(result, id) || exists c :: c in parameters && ByValue(c.ty, id)
    case _ => false
  }

  /** A record or alias that `ty` names only behind a pointer. */
  predicate ByHandle(ty: CType, id: Id)
    decreases ty
  {
    match ty.kind
    case Pointer(pointee) => BehindByHandle(pointee, id)
    case Array(element, _, _) => ByHandle(element, id)
    case Function(result, parameters, _, _) =>
      ByHandle(result, id) || exists c :: c in parameters && ByHandle(c.ty, id)
    case _ => false
  }

  predicate BehindByHandle(ty: CType, id: Id)
    decreases ty
  {
    match ty.kind
    case AliasRef(i) => i == id
    case RecordRef(i) => i == id
    case Array(element, _, _) => BehindByHandle(element, id)
    case Pointer(pointee) => BehindByHandle(pointee, id)
    case Function(result, parameters, _, _) =>
      ByHandle(result, id) || exists c :: c in parameters && ByHandle(c.ty, id)
    case _ => false
  }

  // ----- uses of one declaration in another ----------------------------------------------

  predicate MembersUse(members: seq<Member>, id: Id) { exists m :: m in members && ByValue(m.ty, id) }

  predicate MembersHandle(members: seq<Member>, id: Id) { exists m :: m in members && ByHandle(m.ty, id) }

  /** A declaration wanted at `need` uses `id` by value: by a field, result, parameter, underlying type, target or
      variable.  A handle to a record looks at no field, and a handle to an alias is one to its target. */
  predicate UsesValue(kind: DeclarationKind, need: Need, id: Id) {
    match kind
    case FunctionKind(_, result, parameters, _, _) => ByValue(result, id) || MembersUse(parameters, id)
    case RecordKind(_, _, fields) => need == Definition && MembersUse(fields, id)
    case EnumKind(underlying, _) => underlying.Some? && ByValue(underlying.value, id)
    case AliasKind(target) => if need == Definition then ByValue(target, id) else BehindByValue(target, id)
    case VariableKind(_, ty, _) => ByValue(ty, id)
    case UnsupportedKind(_, _, _) => false
  }

  predicate UsesHandle(kind: DeclarationKind, need: Need, id: Id) {
    match kind
    case FunctionKind(_, result, parameters, _, _) => ByHandle(result, id) || MembersHandle(parameters, id)
    case RecordKind(_, _, fields) => need == Definition && MembersHandle(fields, id)
    case EnumKind(underlying, _) => underlying.Some? && ByHandle(underlying.value, id)
    case AliasKind(target) => if need == Definition then ByHandle(target, id) else BehindByHandle(target, id)
    case VariableKind(_, ty, _) => ByHandle(ty, id)
    case UnsupportedKind(_, _, _) => false
  }

  lemma {:induction false} TypeEdgesMean(ty: CType, id: Id)
    ensures (id, Definition) in TypeEdges(ty, false) <==> ByValue(ty, id)
    ensures (id, OpaqueSufficient) in TypeEdges(ty, false) <==> ByHandle(ty, id)
    ensures (id, Definition) in TypeEdges(ty, true) <==> BehindByValue(ty, id)
    ensures (id, OpaqueSufficient) in TypeEdges(ty, true) <==> BehindByHandle(ty, id)
    decreases ty
  {
    match ty.kind
    case Pointer(pointee) => TypeEdgesMean(pointee, id);
    case Array(element, _, _) => TypeEdgesMean(element, id);
    case Function(result, parameters, _, _) =>
      TypeEdgesMean(result, id);
      ParameterEdgesMean(parameters, id);
    case _ =>
  }

  lemma {:induction false} ParameterEdgesMean(parameters: seq<CParameter>, id: Id)
    ensures (id, Definition) in ParameterEdges(parameters) <==> exists c :: c in parameters && ByValue(c.ty, id)
    ensures (id, OpaqueSufficient) in ParameterEdges(parameters) <==> exists c :: c in parameters && ByHandle(c.ty, id)
    decreases parameters
  {
    if parameters != [] {
      assert parameters[0].ty < parameters[0];
      TypeEdgesMean(parameters[0].ty, id);
      ParameterEdgesMean(parameters[1..], id);
      assert parameters == [parameters[0]] + parameters[1..];
    }
  }

  lemma {:induction false} MemberEdgesMean(members: seq<Member>, id: Id)
    ensures (id, Definition) in MemberEdges(members) <==> MembersUse(members, id)
    ensures (id, OpaqueSufficient) in MemberEdges(members) <==> MembersHandle(members, id)
    decreases members
  {
    if members != [] {
      TypeEdgesMean(members[0].ty, id);
      MemberEdgesMean(members[1..], id);
      assert members == [members[0]] + members[1..];
    }
  }

  lemma KindEdgesMean(kind: DeclarationKind, need: Need, id: Id)
    ensures (id, Definition) in KindEdges(kind, need) <==> UsesValue(kind, need, id)
    ensures (id, OpaqueSufficient) in KindEdges(kind, need) <==> UsesHandle(kind, need, id)
  {
    match kind
    case FunctionKind(_, result, parameters, _, _) =>
      TypeEdgesMean(result, id);
      MemberEdgesMean(parameters, id);
    case RecordKind(_, _, fields) => MemberEdgesMean(fields, id);
    case EnumKind(underlying, _) => if underlying.Some? { TypeEdgesMean(underlying.value, id); }
    case AliasKind(target) => TypeEdgesMean(target, id);
    case VariableKind(_, ty, _) => TypeEdgesMean(ty, id);
    case UnsupportedKind(_, _, _) =>
  }

  // ----- chains from the roots -----------------------------------------------------------

  /** A supported declaration is a root as a definition, an incomplete record as a handle; a selection's ids are
      roots at the need that the selection says. */
  predicate IsRoot(p: Package, sel: Selection, id: Id, need: Need) {
    match sel
    case AllSupported =>
      exists d :: d in p.declarations && d.id == id && d.support == Supported
                  && (need == OpaqueSufficient <==> d.kind.RecordKind? && !d.kind.complete)
    case Only(ids) => id in ids && need == Definition
    case OpaqueOnly(ids) => id in ids && need == OpaqueSufficient
  }

  /** Nothing is looked at behind a handle that an opaque selection asks for, unless it is a record. */
  predicate Unopened(sel: Selection, d: Declaration, need: Need) {
    sel.OpaqueOnly? && need == OpaqueSufficient && !d.kind.RecordKind?
  }

  /** `a` wanted at its need makes `b` wanted at its own. */
  predicate Wants(p: Package, sel: Selection, a: Edge, b: Edge) {
    match Find(p.declarations, a.0)
    case None => false
    case Some(d) =>
      !Unopened(sel, d, a.1)
      && if b.1 == Definition then UsesValue(d.kind, a.1, b.0) else UsesHandle(d.kind, a.1, b.0)
  }

  /** Uses that follow on each other from a root. */
  predicate Chain(p: Package, sel: Selection, path: seq<Edge>) {
    && path != [] && IsRoot(p, sel, path[0].0, path[0].1)
    && forall i :: 0 < i < |path| ==> Wants(p, sel, path[i - 1], path[i])
  }

  ghost predicate Reached(p: Package, sel: Selection, id: Id, need: Need) {
    exists path :: Chain(p, sel, path) && path[|path| - 1] == (id, need)
  }

  lemma {:induction false} SupportedRootsMean(declarations: seq<Declaration>, e: Edge)
    ensures e in SupportedRoots(declarations) <==>
            exists d :: d in declarations && d.id == e.0 && d.support == Supported
                        && (e.1 == OpaqueSufficient <==> d.kind.RecordKind? && !d.kind.complete)
    decreases declarations
  {
    if declarations != [] {
      SupportedRootsMean(declarations[1..], e);
      assert declarations == [declarations[0]] + declarations[1..];
    }
  }

  lemma RootsMean(p: Package, sel: Selection, e: Edge)
    ensures e in Roots(p, sel) <==> IsRoot(p, sel, e.0, e.1)
  {
    match sel
    case AllSupported => SupportedRootsMean(p.declarations, e);
    case Only(ids) => RootsOfMean(ids, Definition, e);
    case OpaqueOnly(ids) => RootsOfMean(ids, OpaqueSufficient, e);
  }

  lemma RootsOfMean(ids: seq<Id>, need: Need, e: Edge)
    ensures e in RootsOf(ids, need) <==> e.0 in ids && e.1 == need
  {
    if e.0 in ids && e.1 == need {
      var i :| 0 <= i < |ids| && ids[i] == e.0;
      assert RootsOf(ids, need)[i] == e;
    }
  }

  lemma EdgesMean(p: Package, sel: Selection, a: Edge, b: Edge)
    ensures b in Edges(p, sel, a.0, a.1) <==> Wants(p, sel, a, b)
  {
    match Find(p.declarations, a.0)
    case None =>
    case Some(d) => KindEdgesMean(d.kind, a.1, b.0);
  }

  lemma ReachedRoot(p: Package, sel: Selection, e: Edge)
    requires IsRoot(p, sel, e.0, e.1)
    ensures Reached(p, sel, e.0, e.1)
  {
    assert Chain(p, sel, [e]);
  }

  lemma ReachedNext(p: Package, sel: Selection, a: Edge, b: Edge)
    requires Reached(p, sel, a.0, a.1) && Wants(p, sel, a, b)
    ensures Reached(p, sel, b.0, b.1)
  {
    hide IsRoot, Wants;
    var path :| Chain(p, sel, path) && path[|path| - 1] == a;
    var longer := path + [b];
    assert Chain(p, sel, longer);
    assert longer[|longer| - 1] == b;
  }

  /** A closed map that holds the roots holds every chain. */
  lemma {:induction false} ChainHeld(p: Package, sel: Selection, m: Requirements, path: seq<Edge>)
    requires HoldsAll(m, Roots(p, sel)) && Closed(p, sel, m) && Chain(p, sel, path)
    ensures Holds(m, path[|path| - 1])
    decreases |path|
  {
    hide IsRoot, Wants, Edges, Roots;
    var n := |path| - 1;
    if n == 0 {
      RootsMean(p, sel, path[0]);
    } else {
      var a, b := path[n - 1], path[n];
      assert Chain(p, sel, path[..n]);
      ChainHeld(p, sel, m, path[..n]);
      EdgesMean(p, sel, a, b);
      NeedMonotone(p, sel, a.0, m);
      assert HoldsAll(m, Edges(p, sel, a.0, m[a.0]));
    }
  }

  lemma ReachedHeld(p: Package, sel: Selection, m: Requirements, id: Id, need: Need)
    requires HoldsAll(m, Roots(p, sel)) && Closed(p, sel, m) && Reached(p, sel, id, need)
    ensures Holds(m, (id, need))
  {
    var path :| Chain(p, sel, path) && path[|path| - 1] == (id, need);
    ChainHeld(p, sel, m, path);
  }

  /** What the chains reach, at the highest need at which they do. */
  ghost function ReachedMap(p: Package, sel: Selection, m: Requirements): Requirements {
    map id | id in m && (Reached(p, sel, id, Definition) || Reached(p, sel, id, OpaqueSufficient)) ::
      if Reached(p, sel, id, Definition) then Definition else OpaqueSufficient
  }

  lemma ReachedMapClosed(p: Package, sel: Selection, m: Requirements)
    requires HoldsAll(m, Roots(p, sel)) && Closed(p, sel, m)
    ensures HoldsAll(ReachedMap(p, sel, m), Roots(p, sel)) && Closed(p, sel, ReachedMap(p, sel, m))
  {
    hide Chain, Edges, Roots, IsRoot, Wants, Reached;
    var c := ReachedMap(p, sel, m);
    forall e | e in Roots(p, sel) ensures Holds(c, e) {
      RootsMean(p, sel, e);
      ReachedRoot(p, sel, e);
      ReachedHeld(p, sel, m, e.0, e.1);
    }
    forall id, e | id in c && e in Edges(p, sel, id, c[id]) ensures Holds(c, e) {
      EdgesMean(p, sel, (id, c[id]), e);
      ReachedNext(p, sel, (id, c[id]), e);
      ReachedHeld(p, sel, m, e.0, e.1);
    }
  }

  /** The closure without the walk: an id is needed exactly when a chain reaches it, and as a definition exactly
      when a chain ends by using it so. */
  lemma NeedExactly(p: Package, sel: Selection, m: Requirements, id: Id)
    requires IsClosure(p, sel, m)
    ensures id in m && m[id] == Definition <==> Reached(p, sel, id, Definition)
    ensures id in m <==> Reached(p, sel, id, Definition) || Reached(p, sel, id, OpaqueSufficient)
  {
    hide Chain, Edges, Roots, Closed, Reached;
    var c := ReachedMap(p, sel, m);
    ReachedMapClosed(p, sel, m);
    assert Below(m, c);
    if id in m { assert Holds(c, (id, m[id])); }
    if Reached(p, sel, id, Definition) { ReachedHeld(p, sel, m, id, Definition); }
    if Reached(p, sel, id, OpaqueSufficient) { ReachedHeld(p, sel, m, id, OpaqueSufficient); }
  }
}
