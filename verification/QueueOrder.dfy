/** The worklist of src/contract/complete.rs taken in any order: every order ends, reaches the same
    closure and reports the same blockers, and no id is queued more than twice. */
module QueueOrder {
  import opened Contract
  import opened Completion

  /** The queue entries taken out, one position a turn. */
  predicate CanTurn(p: Package, sel: Selection, s: State, picks: seq<nat>)
    decreases picks
  {
    picks == [] || (picks[0] < |s.frontier.queue| && CanTurn(p, sel, Turn(p, sel, s, picks[0]), picks[1..]))
  }

  function Turned(p: Package, sel: Selection, s: State, picks: seq<nat>): State
    requires CanTurn(p, sel, s, picks)
    decreases picks
  {
    if picks == [] then s else Turned(p, sel, Turn(p, sel, s, picks[0]), picks[1..])
  }

  /** The roots queued and the package-level blocker reported. */
  function Started(p: Package, sel: Selection): State {
    State(DemandAll(Frontier(map[], []), Roots(p, sel)), PackageFacts(p))
  }

  lemma {:induction false} TurnsKeepWalking(p: Package, sel: Selection, s: State, picks: seq<nat>)
    requires Walking(p, sel, s.frontier, s.blockers) && CanTurn(p, sel, s, picks)
    ensures var t := Turned(p, sel, s, picks); Walking(p, sel, t.frontier, t.blockers)
    decreases picks
  {
    hide Turn, Walking;
    if picks != [] {
      TurnKeepsWalking(p, sel, s, picks[0]);
      TurnsKeepWalking(p, sel, Turn(p, sel, s, picks[0]), picks[1..]);
    }
  }

  /** Whatever entry each turn takes, an empty queue leaves the least closure and its blockers. */
  lemma AnyOrder(p: Package, sel: Selection, picks: seq<nat>)
    requires CanTurn(p, sel, Started(p, sel), picks)
    requires Turned(p, sel, Started(p, sel), picks).frontier.queue == []
    ensures var t := Turned(p, sel, Started(p, sel), picks);
            && IsClosure(p, sel, t.frontier.required)
            && (forall b :: b in t.blockers ==> IsBlocker(p, sel, t.frontier.required, b))
            && (forall b :: IsBlocker(p, sel, t.frontier.required, b) ==> b in t.blockers)
  {
    hide Turn, Walking, IsClosure, IsBlocker;
    WalkStarts(p, sel, Started(p, sel).frontier);
    TurnsKeepWalking(p, sel, Started(p, sel), picks);
    var t := Turned(p, sel, Started(p, sel), picks);
    WalkEnds(p, sel, t.frontier, t.blockers);
  }

  /** Two orders end with the same needs and the same blockers. */
  lemma OrdersAgree(p: Package, sel: Selection, picks: seq<nat>, others: seq<nat>)
    requires CanTurn(p, sel, Started(p, sel), picks) && CanTurn(p, sel, Started(p, sel), others)
    requires Turned(p, sel, Started(p, sel), picks).frontier.queue == []
    requires Turned(p, sel, Started(p, sel), others).frontier.queue == []
    ensures var s, t := Turned(p, sel, Started(p, sel), picks), Turned(p, sel, Started(p, sel), others);
            s.frontier.required == t.frontier.required && forall b :: b in s.blockers <==> b in t.blockers
  {
    hide Turn, IsClosure, IsBlocker;
    AnyOrder(p, sel, picks);
    AnyOrder(p, sel, others);
    ClosureUnique(p, sel, Turned(p, sel, Started(p, sel), picks).frontier.required,
                  Turned(p, sel, Started(p, sel), others).frontier.required);
  }

  // ----- how often an id is queued -------------------------------------------------------

  function Entries(queue: seq<Edge>, id: Id): nat {
    if queue == [] then 0 else (if queue[0].0 == id then 1 else 0) + Entries(queue[1..], id)
  }

  /** How often an id may still enter the queue: new, or upgraded. */
  function Chances(m: Requirements, id: Id): nat {
    if id !in m then 2 else if m[id] == OpaqueSufficient then 1 else 0
  }

  function Account(f: Frontier, id: Id): nat { Entries(f.queue, id) + Chances(f.required, id) }

  lemma {:induction false} EntriesAppend(a: seq<Edge>, b: seq<Edge>, id: Id)
    ensures Entries(a + b, id) == Entries(a, id) + Entries(b, id)
    decreases a
  {
    if a == [] {
      assert a + b == b;
    } else {
      assert (a + b)[0] == a[0] && (a + b)[1..] == a[1..] + b;
      EntriesAppend(a[1..], b, id);
    }
  }

  lemma OneEntry(e: Edge, id: Id)
    ensures Entries([e], id) == if e.0 == id then 1 else 0
  {
    assert [e][1..] == [] && Entries([], id) == 0;
  }

  /** Demanding an edge spends a chance for each entry it queues. */
  lemma DemandAccount(f: Frontier, e: Edge, id: Id)
    ensures Account(Demand(f, e), id) <= Account(f, id)
  {
    EntriesAppend(f.queue, [e], id);
    OneEntry(e, id);
  }

  lemma {:induction false} DemandAllAccount(f: Frontier, edges: seq<Edge>, id: Id)
    ensures Account(DemandAll(f, edges), id) <= Account(f, id)
    decreases edges
  {
    hide Account;
    if edges != [] {
      DemandAccount(f, edges[0], id);
      DemandAllAccount(Demand(f, edges[0]), edges[1..], id);
    }
  }

  lemma WithoutEntries(queue: seq<Edge>, i: nat, id: Id)
    requires i < |queue|
    ensures Entries(queue, id) == Entries(Without(queue, i), id) + if queue[i].0 == id then 1 else 0
  {
    assert queue == queue[..i] + ([queue[i]] + queue[i + 1..]);
    EntriesAppend(queue[..i], [queue[i]] + queue[i + 1..], id);
    EntriesAppend([queue[i]], queue[i + 1..], id);
    EntriesAppend(queue[..i], queue[i + 1..], id);
    OneEntry(queue[i], id);
  }

  lemma TurnAccount(p: Package, sel: Selection, s: State, i: nat, id: Id)
    requires i < |s.frontier.queue|
    ensures Account(Turn(p, sel, s, i).frontier, id) + (if s.frontier.queue[i].0 == id then 1 else 0)
         <= Account(s.frontier, id)
  {
    var (j, need) := s.frontier.queue[i];
    var current := if j in s.frontier.required then s.frontier.required[j] else need;
    WithoutEntries(s.frontier.queue, i, id);
    DemandAllAccount(Frontier(s.frontier.required, Without(s.frontier.queue, i)), Edges(p, sel, j, current), id);
  }

  /** The turns of a run that take out an entry of `id`. */
  function TurnsOn(p: Package, sel: Selection, s: State, picks: seq<nat>, id: Id): nat
    requires CanTurn(p, sel, s, picks)
    decreases picks
  {
    if picks == [] then 0
    else (if s.frontier.queue[picks[0]].0 == id then 1 else 0)
         + TurnsOn(p, sel, Turn(p, sel, s, picks[0]), picks[1..], id)
  }

  lemma {:induction false} TurnsAccount(p: Package, sel: Selection, s: State, picks: seq<nat>, id: Id)
    requires CanTurn(p, sel, s, picks)
    ensures TurnsOn(p, sel, s, picks, id) + Account(Turned(p, sel, s, picks).frontier, id) <= Account(s.frontier, id)
    decreases picks
  {
    hide Account, Turn;
    if picks != [] {
      TurnAccount(p, sel, s, picks[0], id);
      TurnsAccount(p, sel, Turn(p, sel, s, picks[0]), picks[1..], id);
    }
  }

  /** In every order an id enters the queue at most twice: what was taken out and what is left. */
  lemma QueuedAtMostTwice(p: Package, sel: Selection, picks: seq<nat>, id: Id)
    requires CanTurn(p, sel, Started(p, sel), picks)
    ensures TurnsOn(p, sel, Started(p, sel), picks, id)
            + Entries(Turned(p, sel, Started(p, sel), picks).frontier.queue, id) <= 2
  {
    hide Turn;
    DemandAllAccount(Frontier(map[], []), Roots(p, sel), id);
    TurnsAccount(p, sel, Started(p, sel), picks, id);
  }

  // ----- every order ends ----------------------------------------------------------------

  /** The entries in the queue and those that may still enter it, over the ids in `ids`. */
  ghost function Total(f: Frontier, ids: set<Id>): nat {
    |f.queue| + 2 * |ids - f.required.Keys| + |Opaques(f.required)|
  }

  lemma OneMore(small: set<Id>, large: set<Id>, id: Id)
    requires id !in small && forall x :: x in large <==> x in small || x == id
    ensures |large| == |small| + 1
  {
    assert large == small + {id};
  }

  lemma DemandNew(f: Frontier, e: Edge, ids: set<Id>)
    requires e.0 in ids && f.required.Keys <= ids && e.0 !in f.required
    ensures Demand(f, e).required.Keys <= ids && Total(Demand(f, e), ids) <= Total(f, ids)
  {
    var m, n := f.required, f.required[e.0 := e.1];
    OneMore(ids - n.Keys, ids - m.Keys, e.0);
    if e.1 == OpaqueSufficient {
      OneMore(Opaques(m), Opaques(n), e.0);
    } else {
      assert Opaques(n) == Opaques(m);
    }
  }

  lemma DemandUpgrade(f: Frontier, e: Edge, ids: set<Id>)
    requires f.required.Keys <= ids && e.0 in f.required && Demand(f, e) != f
    ensures Demand(f, e).required.Keys <= ids && Total(Demand(f, e), ids) <= Total(f, ids)
  {
    var m, n := f.required, f.required[e.0 := e.1];
    assert n.Keys == m.Keys;
    OneMore(Opaques(n), Opaques(m), e.0);
  }

  lemma DemandTotal(f: Frontier, e: Edge, ids: set<Id>)
    requires e.0 in ids && f.required.Keys <= ids
    ensures Demand(f, e).required.Keys <= ids && Total(Demand(f, e), ids) <= Total(f, ids)
  {
    hide Total, Demand;
    if e.0 !in f.required {
      DemandNew(f, e, ids);
    } else if Demand(f, e) != f {
      DemandUpgrade(f, e, ids);
    }
  }

  lemma {:induction false} DemandAllTotal(f: Frontier, edges: seq<Edge>, ids: set<Id>)
    requires f.required.Keys <= ids && forall e :: e in edges ==> e.0 in ids
    ensures DemandAll(f, edges).required.Keys <= ids && Total(DemandAll(f, edges), ids) <= Total(f, ids)
    decreases edges
  {
    hide Total;
    if edges != [] {
      DemandTotal(f, edges[0], ids);
      DemandAllTotal(Demand(f, edges[0]), edges[1..], ids);
    }
  }

  lemma TurnTotal(p: Package, sel: Selection, s: State, i: nat)
    requires s.frontier.required.Keys <= Mentioned(p, sel) && i < |s.frontier.queue|
    ensures Total(Turn(p, sel, s, i).frontier, Mentioned(p, sel)) < Total(s.frontier, Mentioned(p, sel))
  {
    hide Demand, DemandAll, Edges, Facts, Mentioned, Opaques;
    var (j, need) := s.frontier.queue[i];
    var rest := Frontier(s.frontier.required, Without(s.frontier.queue, i));
    var current := if j in s.frontier.required then s.frontier.required[j] else need;
    EdgesMentioned(p, sel, j, current);
    DemandAllTotal(rest, Edges(p, sel, j, current), Mentioned(p, sel));
    assert |rest.queue| < |s.frontier.queue|;
  }

  lemma WalkMentioned(p: Package, sel: Selection, s: State)
    requires Walking(p, sel, s.frontier, s.blockers)
    ensures s.frontier.required.Keys <= Mentioned(p, sel)
  {
    hide Pending, Reported, Least, Mentioned, Roots;
  }

  lemma {:induction false} TurnsTotal(p: Package, sel: Selection, s: State, picks: seq<nat>)
    requires Walking(p, sel, s.frontier, s.blockers) && CanTurn(p, sel, s, picks)
    ensures |picks| <= Total(s.frontier, Mentioned(p, sel))
    decreases picks
  {
    hide Turn, Walking, Total, Mentioned;
    if picks != [] {
      TurnKeepsWalking(p, sel, s, picks[0]);
      WalkMentioned(p, sel, s);
      TurnTotal(p, sel, s, picks[0]);
      TurnsTotal(p, sel, Turn(p, sel, s, picks[0]), picks[1..]);
    }
  }

  lemma RootsMentioned(p: Package, sel: Selection)
    ensures forall e :: e in Roots(p, sel) ==> e.0 in Mentioned(p, sel)
  {
  }

  lemma StartTotal(ids: set<Id>)
    ensures Total(Frontier(map[], []), ids) == 2 * |ids|
  {
    var empty: Requirements := map[];
    assert ids - empty.Keys == ids && Opaques(empty) == {};
  }

  /** No order takes more turns than twice the mentioned ids. */
  lemma EveryOrderEnds(p: Package, sel: Selection, picks: seq<nat>)
    requires CanTurn(p, sel, Started(p, sel), picks)
    ensures |picks| <= 2 * |Mentioned(p, sel)|
  {
    hide Turn, Walking, CanTurn, DemandAll, PackageFacts, Roots, Mentioned, Total;
    WalkStarts(p, sel, Started(p, sel).frontier);
    TurnsTotal(p, sel, Started(p, sel), picks);
    RootsMentioned(p, sel);
    DemandAllTotal(Frontier(map[], []), Roots(p, sel), Mentioned(p, sel));
    StartTotal(Mentioned(p, sel));
  }
}
