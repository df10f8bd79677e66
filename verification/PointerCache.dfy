/** The extractor's pointer-alias cache (src/extract/mod.rs) against following the alias chain,
    which is what the validator does with the finished package. */
module PointerCache {
  import opened Wrappers
  import opened Tables
  import opened Contract
  import opened AliasGraph
  import opened Extract

  function TargetOf(s: State, id: Id): Option<CTypeKind> {
    match DraftOf(s, id).kind
    case Some(AliasKind(target)) => Some(target.kind)
    case _ => None
  }

  /** The chain of alias targets in the drafts meets a pointer within `n` steps. */
  ghost predicate ChainWithin(s: State, kind: CTypeKind, n: nat)
    decreases n
  {
    kind.Pointer?
    || (n > 0 && kind.AliasRef? && TargetOf(s, kind.id).Some? && ChainWithin(s, TargetOf(s, kind.id).value, n - 1))
  }

  ghost predicate Chains(s: State, id: Id) { exists n: nat :: ChainWithin(s, AliasRef(id), n) }

  /** The cache holds exactly the aliases whose chain meets a pointer. */
  ghost predicate CacheExact(s: State) { forall id :: CacheExactAt(s, id) }

  ghost predicate CacheExactAt(s: State, id: Id) { id in s.pointerAliases <==> Chains(s, id) }

  /** Another alias names `id` as its target. */
  ghost predicate Named(s: State, id: Id) { exists j :: j != id && TargetOf(s, j) == Some(AliasRef(id)) }

  lemma ChainStep(s: State, id: Id, kind: CTypeKind, n: nat)
    requires TargetOf(s, id) == Some(kind) && ChainWithin(s, kind, n)
    ensures Chains(s, id)
  {
    assert ChainWithin(s, AliasRef(id), n + 1);
  }

  /** The target of alias `id` is a pointer, or an alias in `aliases`. */
  predicate TargetCached(s: State, id: Id, aliases: set<Id>) {
    match TargetOf(s, id)
    case Some(target) => target.Pointer? || (target.AliasRef? && target.id in aliases)
    case None => false
  }

  /** Exactness says for each alias what the cache says of its target. */
  lemma ExactUnfolds(s: State, id: Id)
    requires CacheExact(s)
    ensures id in s.pointerAliases <==> TargetCached(s, id, s.pointerAliases)
  {
    assert CacheExactAt(s, id);
    if Chains(s, id) {
      var n: nat :| ChainWithin(s, AliasRef(id), n);
      var target := TargetOf(s, id).value;
      assert ChainWithin(s, target, n - 1);
      if target.AliasRef? {
        assert CacheExactAt(s, target.id);
      }
    }
    if TargetOf(s, id).Some? {
      var target := TargetOf(s, id).value;
      if target.Pointer? {
        assert ChainWithin(s, target, 0);
        ChainStep(s, id, target, 0);
      } else if target.AliasRef? && target.id in s.pointerAliases {
        assert CacheExactAt(s, target.id);
        var n: nat :| ChainWithin(s, AliasRef(target.id), n);
        ChainStep(s, id, target, n);
      }
    }
  }

  /** What `set_kind` does to targets and cache. */
  lemma KindSetTargets(s: State, id: Id, kind: DeclarationKind)
    ensures var t := KindSet(s, id, kind);
            && (forall j :: j != id ==> TargetOf(t, j) == TargetOf(s, j))
            && (forall j :: j != id ==> (j in t.pointerAliases <==> j in s.pointerAliases))
            && (id in t.pointerAliases <==> TargetCached(t, id, s.pointerAliases))
            && (TargetOf(s, id).Some? && TargetOf(t, id).Some? ==> TargetOf(t, id) == TargetOf(s, id))
  {
  }

  /** The new chains are among the cached ones. */
  lemma {:induction false} NewChainsCached(s: State, id: Id, kind: DeclarationKind, j: Id, n: nat)
    requires CacheExact(s)
    requires id in s.pointerAliases <==> id in KindSet(s, id, kind).pointerAliases
    requires ChainWithin(KindSet(s, id, kind), AliasRef(j), n)
    ensures j in s.pointerAliases
    decreases n
  {
    var t := KindSet(s, id, kind);
    KindSetTargets(s, id, kind);
    ExactUnfolds(s, j);
    var target := TargetOf(t, j).value;
    if target.AliasRef? { NewChainsCached(s, id, kind, target.id, n - 1); }
  }

  /** The old chains are still there. */
  lemma {:induction false} OldChainsStay(s: State, id: Id, kind: DeclarationKind, j: Id, n: nat)
    requires CacheExact(s)
    requires id in s.pointerAliases <==> id in KindSet(s, id, kind).pointerAliases
    requires ChainWithin(s, AliasRef(j), n)
    ensures ChainWithin(KindSet(s, id, kind), AliasRef(j), n)
    decreases n
  {
    KindSetTargets(s, id, kind);
    assert CacheExactAt(s, j);
    ExactUnfolds(s, j);
    var target := TargetOf(s, j).value;
    if target.AliasRef? { OldChainsStay(s, id, kind, target.id, n - 1); }
  }

  /** Chains that do not meet `id` are not changed. */
  lemma {:induction false} ChainsElsewhere(s: State, t: State, id: Id, j: Id, n: nat)
    requires forall k :: k != id ==> TargetOf(t, k) == TargetOf(s, k)
    requires !Named(s, id) && j != id
    ensures ChainWithin(s, AliasRef(j), n) <==> ChainWithin(t, AliasRef(j), n)
    decreases n
  {
    if n > 0 && TargetOf(s, j).Some? && TargetOf(s, j).value.AliasRef? {
      ChainsElsewhere(s, t, id, TargetOf(s, j).value.id, n - 1);
    }
  }

  lemma Elsewhere(s: State, t: State, id: Id, j: Id)
    requires forall k :: k != id ==> TargetOf(t, k) == TargetOf(s, k)
    requires !Named(s, id) && j != id
    ensures Chains(s, j) <==> Chains(t, j)
  {
    if Chains(s, j) {
      var n: nat :| ChainWithin(s, AliasRef(j), n);
      ChainsElsewhere(s, t, id, j, n);
    }
    if Chains(t, j) {
      var n: nat :| ChainWithin(t, AliasRef(j), n);
      ChainsElsewhere(s, t, id, j, n);
    }
  }

  lemma SameMembership(s: State, id: Id, kind: DeclarationKind)
    requires CacheExact(s)
    requires id in s.pointerAliases <==> id in KindSet(s, id, kind).pointerAliases
    ensures CacheExact(KindSet(s, id, kind))
  {
    var t := KindSet(s, id, kind);
    KindSetTargets(s, id, kind);
    forall j ensures CacheExactAt(t, j) {
      assert CacheExactAt(s, j);
      if Chains(t, j) {
        var n: nat :| ChainWithin(t, AliasRef(j), n);
        NewChainsCached(s, id, kind, j, n);
      }
      if Chains(s, j) {
        var n: nat :| ChainWithin(s, AliasRef(j), n);
        OldChainsStay(s, id, kind, j, n);
      }
    }
  }

  lemma Unnamed(s: State, id: Id, kind: DeclarationKind)
    requires CacheExact(s) && !Named(s, id)
    requires !(id in s.pointerAliases <==> id in KindSet(s, id, kind).pointerAliases)
    ensures CacheExact(KindSet(s, id, kind))
  {
    var t := KindSet(s, id, kind);
    KindSetTargets(s, id, kind);
    forall j ensures CacheExactAt(t, j) {
      if j != id {
        Elsewhere(s, t, id, j);
        assert CacheExactAt(s, j);
      } else {
        ChangedMember(s, id, kind);
      }
    }
  }

  lemma ChangedMember(s: State, id: Id, kind: DeclarationKind)
    requires CacheExact(s) && !Named(s, id)
    requires !(id in s.pointerAliases <==> id in KindSet(s, id, kind).pointerAliases)
    ensures CacheExactAt(KindSet(s, id, kind), id)
  {
    var t := KindSet(s, id, kind);
    KindSetTargets(s, id, kind);
    if Chains(t, id) {
      var n: nat :| ChainWithin(t, AliasRef(id), n);
      var target := TargetOf(t, id).value;
      assert ChainWithin(t, target, n - 1);
      if target.AliasRef? && target.id != id {
        Elsewhere(s, t, id, target.id);
        assert CacheExactAt(s, target.id);
      }
    }
    if id in t.pointerAliases {
      var target := TargetOf(t, id).value;
      if target.Pointer? {
        assert ChainWithin(t, target, 0);
        ChainStep(t, id, target, 0);
      } else {
        Elsewhere(s, t, id, target.id);
        assert CacheExactAt(s, target.id);
        var n: nat :| ChainWithin(t, AliasRef(target.id), n);
        ChainStep(t, id, target, n);
      }
    }
  }

  /** The call enters a new pointer alias, or takes one away by a conflict. */
  predicate Disturbs(s: State, id: Id, kind: DeclarationKind) {
    (DraftOf(s, id).kind.None? && PointerKind(Some(kind), s.pointerAliases))
    || (ActionOn(DraftOf(s, id), kind) == Conflict && id in s.pointerAliases)
  }

  lemma DisturbsMembership(s: State, id: Id, kind: DeclarationKind)
    requires CacheExact(s)
    ensures Disturbs(s, id, kind) <==> !(id in s.pointerAliases <==> id in KindSet(s, id, kind).pointerAliases)
  {
    ExactUnfolds(s, id);
  }

  /** An exact cache stays exact exactly when the call does not disturb its alias, or no other
      alias names that alias as its target. */
  lemma SetKindKeepsCache(s: State, id: Id, kind: DeclarationKind)
    requires CacheExact(s)
    ensures CacheExact(KindSet(s, id, kind)) <==> !Disturbs(s, id, kind) || !Named(s, id)
  {
    hide KindSet, Disturbs;
    DisturbsMembership(s, id, kind);
    MembershipKeepsCache(s, id, kind);
  }

  /** The same in terms of the alias's membership before and after. */
  lemma MembershipKeepsCache(s: State, id: Id, kind: DeclarationKind)
    requires CacheExact(s)
    ensures CacheExact(KindSet(s, id, kind)) <==>
            (id in s.pointerAliases <==> id in KindSet(s, id, kind).pointerAliases) || !Named(s, id)
  {
    var t := KindSet(s, id, kind);
    if id in s.pointerAliases <==> id in t.pointerAliases {
      SameMembership(s, id, kind);
    } else if !Named(s, id) {
      Unnamed(s, id, kind);
    } else if CacheExact(t) {
      var j :| j != id && TargetOf(s, j) == Some(AliasRef(id));
      KindSetTargets(s, id, kind);
      ExactUnfolds(s, j);
      ExactUnfolds(t, j);
      assert false;
    }
  }

  lemma OtherStepTargets(s: State, step: Step)
    requires !step.SetKind?
    ensures var t := Stepped(s, step);
            t.pointerAliases == s.pointerAliases && forall j :: TargetOf(t, j) == TargetOf(s, j)
  {
    hide Stepped;
    OtherStepAliases(s, step);
    forall j ensures TargetOf(Stepped(s, step), j) == TargetOf(s, j) {
      OtherStep(s, step, j);
    }
  }

  lemma OtherStepKeepsCache(s: State, t: State)
    requires CacheExact(s) && t.pointerAliases == s.pointerAliases && forall j :: TargetOf(t, j) == TargetOf(s, j)
    ensures CacheExact(t)
  {
    forall j ensures CacheExactAt(t, j) {
      assert CacheExactAt(s, j);
      if Chains(s, j) { var n: nat :| ChainWithin(s, AliasRef(j), n); SameChains(s, t, AliasRef(j), n); }
      if Chains(t, j) { var n: nat :| ChainWithin(t, AliasRef(j), n); SameChains(s, t, AliasRef(j), n); }
    }
  }

  lemma {:induction false} SameChains(s: State, t: State, kind: CTypeKind, n: nat)
    requires forall j :: TargetOf(t, j) == TargetOf(s, j)
    ensures ChainWithin(s, kind, n) <==> ChainWithin(t, kind, n)
    decreases n
  {
    if n > 0 && kind.AliasRef? && TargetOf(s, kind.id).Some? { SameChains(s, t, TargetOf(s, kind.id).value, n - 1); }
  }

  /** A typedef is set before another names it, and its redeclarations do not conflict. */
  ghost predicate Orderly(s: State, steps: seq<Step>)
    decreases steps
  {
    steps == [] || (OrderlyStep(s, steps[0]) && Orderly(Stepped(s, steps[0]), steps[1..]))
  }

  ghost predicate OrderlyStep(s: State, step: Step) {
    step.SetKind? ==>
      (DraftOf(s, step.id).kind == None && !Named(s, step.id))
      || (DraftOf(s, step.id).kind.Some? && ActionOn(DraftOf(s, step.id), step.kind) != Conflict)
  }

  /** Over every run with aliases defined before use and no conflict, the cache agrees with the
      chains at every moment. */
  lemma {:induction false} RunKeepsCache(s: State, steps: seq<Step>)
    requires CacheExact(s) && Orderly(s, steps)
    ensures CacheExact(Run(s, steps))
    decreases steps
  {
    if steps != [] {
      var step := steps[0];
      if step.SetKind? {
        MembershipKeepsCache(s, step.id, step.kind);
        if DraftOf(s, step.id).kind.Some? {
          KindSetTargets(s, step.id, step.kind);
          ExactUnfolds(s, step.id);
        }
      } else {
        OtherStepTargets(s, step);
        OtherStepKeepsCache(s, Stepped(s, step));
      }
      RunKeepsCache(Stepped(s, step), steps[1..]);
    }
  }

  lemma StartExact()
    ensures CacheExact(START)
  {
    forall id ensures CacheExactAt(START, id) {
      forall n: nat ensures !ChainWithin(START, AliasRef(id), n) { }
    }
  }

  /** `typedef int *A; typedef A B; typedef int A;`: the conflict on A leaves B in the cache,
      although B no longer leads to a pointer. */
  lemma StaleCache(a: Id, b: Id, pointer: CType, alias: CType, other: CType)
    requires a != b && pointer.kind.Pointer? && alias.kind == AliasRef(a) && other != pointer
    ensures var steps := [SetKind(a, AliasKind(pointer)), SetKind(b, AliasKind(alias)), SetKind(a, AliasKind(other))];
            var s := Run(START, steps);
            b in s.pointerAliases && !Chains(s, b)
  {
    hide KindSupport, ConflictReports;
    var x, y, z := SetKind(a, AliasKind(pointer)), SetKind(b, AliasKind(alias)), SetKind(a, AliasKind(other));
    var s1 := KindSet(START, a, x.kind);
    var s2 := KindSet(s1, b, y.kind);
    var s := KindSet(s2, a, z.kind);
    assert [x, y, z][1..] == [y, z] && [y, z][1..] == [z] && [z][1..] == [];
    assert Run(s2, [z]) == s;
    assert Run(s1, [y, z]) == s;
    assert TargetOf(s, a) == None;
    forall n: nat ensures !ChainWithin(s, AliasRef(b), n) {
      if n > 0 { assert !ChainWithin(s, AliasRef(a), n - 1); }
    }
  }

  // ----- the validator's answer ----------------------------------------------------------

  /** The finished declarations hold the kinds of the drafts. */
  ghost predicate Holds(s: State, declarations: seq<Declaration>) {
    forall id :: Target(declarations, id) == TargetOf(s, id)
  }

  lemma {:induction false} SameAsValidator(s: State, declarations: seq<Declaration>, kind: CTypeKind, n: nat)
    requires Holds(s, declarations)
    ensures ChainWithin(s, kind, n) <==> PointerWithin(declarations, kind, n)
    decreases n
  {
    if n > 0 && kind.AliasRef? && TargetOf(s, kind.id).Some? {
      SameAsValidator(s, declarations, TargetOf(s, kind.id).value, n - 1);
    }
  }

  /** After an orderly run the cache gives, for every type, the answer the validator computes by
      following the chain through the finished declarations. */
  lemma CacheIsValidator(steps: seq<Step>, declarations: seq<Declaration>, ty: CType)
    requires Orderly(START, steps) && Holds(Run(START, steps), declarations)
    ensures CachedPointer(ty, Run(START, steps).pointerAliases) <==> IsPointer(declarations, ty.kind, {})
  {
    var s := Run(START, steps);
    StartExact();
    RunKeepsCache(START, steps);
    IsPointerExact(declarations, ty.kind, {});
    if ty.kind.AliasRef? {
      assert CacheExactAt(s, ty.kind.id);
      if Chains(s, ty.kind.id) {
        var n: nat :| ChainWithin(s, AliasRef(ty.kind.id), n);
        SameAsValidator(s, declarations, ty.kind, n);
      }
      if ResolvesToPointer(declarations, ty.kind) {
        var n: nat :| PointerWithin(declarations, ty.kind, n);
        SameAsValidator(s, declarations, ty.kind, n);
      }
    } else if ty.kind.Pointer? {
      assert PointerWithin(declarations, ty.kind, 0);
    }
  }
}
