/** Typedef chains (src/contract/validate.rs): the depth-first search for alias cycles and the
    loop that follows a chain to see whether a type is a pointer underneath. */
module AliasGraph {
  import opened Wrappers
  import opened Tables
  import opened Contract

  // ----- the alias graph -----------------------------------------------------------------

  /** `collect_alias_refs`: the aliases a type mentions anywhere. */
  function AliasRefs(ty: CType): seq<Id>
    decreases ty
  {
    match ty.kind
    case AliasRef(id) => [id]
    case Pointer(pointee) => AliasRefs(pointee)
    case Array(element, _, _) => AliasRefs(element)
    case Function(result, parameters, _, _) => AliasRefs(result) + ParameterAliasRefs(parameters)
    case _ => []
  }

  function ParameterAliasRefs(parameters: seq<CParameter>): seq<Id>
    decreases parameters
  {
    if parameters == [] then []
    else
      assert parameters[0].ty < parameters[0];
      AliasRefs(parameters[0].ty) + ParameterAliasRefs(parameters[1..])
  }

  type Graph = map<Id, seq<Id>>

  function AliasTable(declarations: seq<Declaration>): Graph {
    if declarations == [] then map[]
    else
      var d, before := declarations[|declarations| - 1], AliasTable(declarations[..|declarations| - 1]);
      if d.kind.AliasKind? then before[d.id := AliasRefs(d.kind.target)] else before
  }

  /** The table holds exactly the alias declarations. */
  lemma {:induction false} AliasTableSpec(declarations: seq<Declaration>)
    requires Sorted(DECLARATIONS, declarations)
    ensures forall d :: d in declarations && d.kind.AliasKind? ==>
              d.id in AliasTable(declarations) && AliasTable(declarations)[d.id] == AliasRefs(d.kind.target)
    ensures forall id :: id in AliasTable(declarations) ==>
              exists d :: d in declarations && d.id == id && d.kind.AliasKind?
  {
    if declarations != [] {
      var last, before := declarations[|declarations| - 1], declarations[..|declarations| - 1];
      AliasTableSpec(before);
      assert declarations == before + [last];
      assert forall d :: d in before ==> d.id < last.id;
    }
  }

  ghost predicate IsEdge(g: Graph, a: Id, b: Id) { a in g && b in g && b in g[a] }

  ghost predicate IsPath(g: Graph, p: seq<Id>) {
    |p| >= 2 && forall i :: 0 <= i < |p| - 1 ==> IsEdge(g, p[i], p[i + 1])
  }

  /** `b` is reached from `a` in one or more steps. */
  ghost predicate Reaches(g: Graph, a: Id, b: Id) {
    exists p :: IsPath(g, p) && p[0] == a && p[|p| - 1] == b
  }

  ghost predicate HasCycle(g: Graph) { exists a :: Reaches(g, a, a) }

  ghost predicate ClosedUnder(g: Graph, s: set<Id>) { forall a, b :: a in s && IsEdge(g, a, b) ==> b in s }

  lemma StepReaches(g: Graph, a: Id, b: Id)
    requires IsEdge(g, a, b)
    ensures Reaches(g, a, b)
  {
    assert IsPath(g, [a, b]);
  }

  lemma ReachesFurther(g: Graph, a: Id, b: Id, c: Id)
    requires Reaches(g, a, b) && IsEdge(g, b, c)
    ensures Reaches(g, a, c)
  {
    var p :| IsPath(g, p) && p[0] == a && p[|p| - 1] == b;
    assert IsPath(g, p + [c]);
  }

  lemma {:induction false} PathStaysInside(g: Graph, s: set<Id>, p: seq<Id>)
    requires ClosedUnder(g, s) && IsPath(g, p) && p[0] in s
    ensures forall i :: 0 <= i < |p| ==> p[i] in s
  {
    assert IsEdge(g, p[0], p[1]);
    if |p| > 2 {
      var rest := p[1..];
      forall i | 0 <= i < |rest| - 1 ensures IsEdge(g, rest[i], rest[i + 1]) {
        assert IsEdge(g, p[i + 1], p[i + 2]);
      }
      PathStaysInside(g, s, rest);
      assert forall i :: 1 <= i < |p| ==> p[i] == rest[i - 1];
    }
  }

  lemma LandsInside(g: Graph, s: set<Id>, a: Id, b: Id)
    requires ClosedUnder(g, s) && Reaches(g, a, b)
    requires forall c :: IsEdge(g, a, c) ==> c in s
    ensures b in s
  {
    var p :| IsPath(g, p) && p[0] == a && p[|p| - 1] == b;
    assert IsEdge(g, p[0], p[1]);
    if |p| > 2 {
      var rest := p[1..];
      forall i | 0 <= i < |rest| - 1 ensures IsEdge(g, rest[i], rest[i + 1]) {
        assert IsEdge(g, p[i + 1], p[i + 2]);
      }
      PathStaysInside(g, s, rest);
      assert rest[|rest| - 1] == b;
    }
  }

  lemma ReachesStart(g: Graph, a: Id, b: Id)
    requires Reaches(g, a, b)
    ensures a in g && b in g
  {
    var p :| IsPath(g, p) && p[0] == a && p[|p| - 1] == b;
    assert IsEdge(g, p[0], p[1]) && IsEdge(g, p[|p| - 2], p[|p| - 1]);
  }

  // ----- the depth-first search ----------------------------------------------------------

  /** Finished nodes are closed under edges and lie on no cycle. */
  ghost predicate Clean(g: Graph, active: set<Id>, complete: set<Id>) {
    && active !! complete
    && ClosedUnder(g, complete)
    && forall c :: c in complete ==> !Reaches(g, c, c)
  }

  /** A node all of whose successors are finished may be finished too. */
  lemma FinishNode(g: Graph, active: set<Id>, complete: set<Id>, id: Id)
    requires Clean(g, active, complete) && id in active
    requires forall b :: IsEdge(g, id, b) ==> b in complete
    ensures Clean(g, active - {id}, complete + {id})
  {
    if Reaches(g, id, id) {
      LandsInside(g, complete, id, id);
      assert false;
    }
  }

  /** The node is on a cycle, or its edges lead to one. */
  ghost predicate Leads(g: Graph, a: Id) { exists c :: (c == a || Reaches(g, a, c)) && Reaches(g, c, c) }

  lemma {:induction false} ReachesAfter(g: Graph, a: Id, b: Id, c: Id)
    requires IsEdge(g, a, b) && Reaches(g, b, c)
    ensures Reaches(g, a, c)
  {
    var p :| IsPath(g, p) && p[0] == b && p[|p| - 1] == c;
    var longer := [a] + p;
    forall i | 0 <= i < |longer| - 1 ensures IsEdge(g, longer[i], longer[i + 1]) {
      if i > 0 { assert longer[i] == p[i - 1] && longer[i + 1] == p[i]; }
    }
    assert IsPath(g, longer) && longer[|longer| - 1] == c;
  }

  lemma LeadsBack(g: Graph, a: Id, b: Id)
    requires IsEdge(g, a, b) && Leads(g, b)
    ensures Leads(g, a)
  {
    var c :| (c == b || Reaches(g, b, c)) && Reaches(g, c, c);
    if c == b { StepReaches(g, a, b); } else { ReachesAfter(g, a, b, c); }
  }

  /** Nothing that is finished and clean leads to a cycle. */
  lemma CleanLeadsNowhere(g: Graph, complete: set<Id>, a: Id)
    requires Clean(g, {}, complete) && a in complete
    ensures !Leads(g, a)
  {
    forall c | Reaches(g, a, c) ensures c in complete {
      LandsInside(g, complete, a, c);
    }
  }

  /** An alias that only leads to a cycle, `a` with target `b` with target `b`. */
  lemma LeadsOnly(a: Id, b: Id)
    requires a != b
    ensures var g := map[a := [b], b := [b]]; Leads(g, a) && !Reaches(g, a, a)
  {
    var g := map[a := [b], b := [b]];
    StepReaches(g, b, b);
    StepReaches(g, a, b);
    if Reaches(g, a, a) { var x := LastStep(g, a, a); }
  }

  lemma LastStep(g: Graph, a: Id, b: Id) returns (x: Id)
    requires Reaches(g, a, b)
    ensures IsEdge(g, x, b)
  {
    var p :| IsPath(g, p) && p[0] == a && p[|p| - 1] == b;
    x := p[|p| - 2];
    assert IsEdge(g, p[|p| - 2], p[|p| - 1]);
  }

  /** The search's two node sets. */
  class AliasSearch {
    const graph: Graph
    var active: set<Id>
    var complete: set<Id>

    constructor (graph: Graph)
      ensures this.graph == graph && active == {} && complete == {}
    {
      this.graph := graph;
      active, complete := {}, {};
    }

    /** `alias_cycle`: true when the search meets an active node. */
    method Visit(id: Id) returns (cyclic: bool)
      requires id in graph && active <= graph.Keys
      requires forall a :: a in active ==> Reaches(graph, a, id)
      modifies this
      ensures active == old(active)
      ensures cyclic ==> Leads(graph, id)
      ensures old(Clean(graph, active, complete)) && old(active) == {} ==> (cyclic <==> Leads(graph, id))
      ensures old(Clean(graph, active, complete)) && !cyclic ==>
                Clean(graph, active, complete) && id in complete && old(complete) <= complete
      decreases graph.Keys - active
    {
      if id in complete {
        if Clean(graph, {}, complete) { CleanLeadsNowhere(graph, complete, id); }
        return false;
      }
      if id in active {
        return true;
      }
      active := active + {id};
      cyclic := false;
      var successors, i := graph[id], 0;
      while i < |successors| && !cyclic
        invariant 0 <= i <= |successors| && active == old(active) + {id}
        invariant cyclic ==> Leads(graph, id)
        invariant old(Clean(graph, active, complete)) && !cyclic ==>
                    && Clean(graph, active, complete) && old(complete) <= complete
                    && forall j :: 0 <= j < i && successors[j] in graph ==> successors[j] in complete
        decreases |successors| - i, !cyclic
      {
        var next := successors[i];
        if next in graph {
          assert IsEdge(graph, id, next);
          StepReaches(graph, id, next);
          forall a | a in old(active) ensures Reaches(graph, a, next) {
            ReachesFurther(graph, a, id, next);
          }
          cyclic := Visit(next);
          if cyclic { LeadsBack(graph, id, next); }
        }
        i := i + 1;
      }
      if old(Clean(graph, active, complete)) && !cyclic {
        FinishNode(graph, active, complete, id);
      }
      active := active - {id};
      complete := complete + {id};
      if Clean(graph, {}, complete) { CleanLeadsNowhere(graph, complete, id); }
    }
  }

  /** `validate_alias_cycles`: reports at least one id exactly when the aliases form a cycle, whatever the order in
      which the roots are tried, each id once, and only ids that lead to a cycle. */
  method ValidateAliasCycles(graph: Graph) returns (violations: seq<Id>)
    ensures violations != [] <==> HasCycle(graph)
    ensures forall id :: id in violations ==> id in graph && Leads(graph, id)
    ensures forall i, j :: 0 <= i < j < |violations| ==> violations[i] != violations[j]
  {
    violations := [];
    var search := new AliasSearch(graph);
    var todo := graph.Keys;
    while todo != {}
      invariant todo <= graph.Keys && search.graph == graph && search.active == {}
      invariant forall id :: id in violations ==> id in graph && id !in todo && Leads(graph, id)
      invariant forall i, j :: 0 <= i < j < |violations| ==> violations[i] != violations[j]
      invariant violations == [] ==>
                  Clean(graph, {}, search.complete) && graph.Keys - todo <= search.complete
      decreases todo
    {
      var id :| id in todo;
      var cyclic := search.Visit(id);
      if cyclic {
        violations := violations + [id];
      }
      todo := todo - {id};
    }
    if violations != [] { assert violations[0] in violations; }
    if violations == [] && HasCycle(graph) {
      var a :| Reaches(graph, a, a);
      ReachesStart(graph, a, a);
      assert false;
    }
  }

  // ----- following a chain ---------------------------------------------------------------

  function Target(declarations: seq<Declaration>, id: Id): Option<CTypeKind> {
    match Find(declarations, id)
    case Some(d) => if d.kind.AliasKind? then Some(d.kind.target.kind) else None
    case None => None
  }

  /** The chain of alias targets from `kind` meets a pointer within `n` steps. */
  ghost predicate PointerWithin(declarations: seq<Declaration>, kind: CTypeKind, n: nat)
    decreases n
  {
    kind.Pointer?
    || (n > 0 && kind.AliasRef? && Target(declarations, kind.id).Some?
        && PointerWithin(declarations, Target(declarations, kind.id).value, n - 1))
  }

  ghost predicate ResolvesToPointer(declarations: seq<Declaration>, kind: CTypeKind) {
    exists n: nat :: PointerWithin(declarations, kind, n)
  }

  lemma {:induction false} PointerWithinMore(declarations: seq<Declaration>, kind: CTypeKind, n: nat, m: nat)
    requires PointerWithin(declarations, kind, n) && n <= m
    ensures PointerWithin(declarations, kind, m)
    decreases n
  {
    if !kind.Pointer? {
      PointerWithinMore(declarations, Target(declarations, kind.id).value, n - 1, m - 1);
    }
  }

  function Ids(declarations: seq<Declaration>): set<Id> { set d | d in declarations :: d.id }

  /** The value of the source's loop: a chain is cut when it meets a visited alias again. */
  function IsPointer(declarations: seq<Declaration>, kind: CTypeKind, visited: set<Id>): bool
    decreases Ids(declarations) - visited
  {
    if kind.Pointer? then true
    else if kind.AliasRef? && kind.id !in visited && Target(declarations, kind.id).Some? then
      LookupFinds(DECLARATIONS, declarations, kind.id);
      assert kind.id in Ids(declarations);
      IsPointer(declarations, Target(declarations, kind.id).value, visited + {kind.id})
    else false
  }

  /** The kind at which a chain ends, or is cut. */
  function Resolve(declarations: seq<Declaration>, kind: CTypeKind, visited: set<Id>): CTypeKind
    decreases Ids(declarations) - visited
  {
    if kind.AliasRef? && kind.id !in visited && Target(declarations, kind.id).Some? then
      LookupFinds(DECLARATIONS, declarations, kind.id);
      assert kind.id in Ids(declarations);
      Resolve(declarations, Target(declarations, kind.id).value, visited + {kind.id})
    else kind
  }

  /** Being a pointer is ending at one. */
  lemma {:induction false} PointerResolved(declarations: seq<Declaration>, kind: CTypeKind, visited: set<Id>)
    ensures IsPointer(declarations, kind, visited) <==> Resolve(declarations, kind, visited).Pointer?
    decreases Ids(declarations) - visited
  {
    if kind.AliasRef? && kind.id !in visited && Target(declarations, kind.id).Some? {
      LookupFinds(DECLARATIONS, declarations, kind.id);
      assert kind.id in Ids(declarations);
      PointerResolved(declarations, Target(declarations, kind.id).value, visited + {kind.id});
    }
  }

  method TypeIsEffectivelyPointer(declarations: seq<Declaration>, ty: CType) returns (r: bool)
    ensures r == IsPointer(declarations, ty.kind, {})
  {
    var kind, visited := ty.kind, {};
    while true
      invariant IsPointer(declarations, kind, visited) == IsPointer(declarations, ty.kind, {})
      decreases Ids(declarations) - visited
    {
      if kind.Pointer? {
        return true;
      }
      if !kind.AliasRef? || kind.id in visited {
        return false;
      }
      var target := Target(declarations, kind.id);
      if target.None? {
        return false;
      }
      LookupFinds(DECLARATIONS, declarations, kind.id);
      assert kind.id in Ids(declarations);
      visited := visited + {kind.id};
      kind := target.value;
    }
  }

  /** A chain that returns to a visited alias never meets a pointer, so cutting it is exact. */
  lemma {:induction false} IsPointerExact(declarations: seq<Declaration>, kind: CTypeKind, visited: set<Id>)
    requires forall v, n: nat :: v in visited && PointerWithin(declarations, AliasRef(v), n) ==>
               n > 0 && PointerWithin(declarations, kind, n - 1)
    ensures IsPointer(declarations, kind, visited) <==> ResolvesToPointer(declarations, kind)
    decreases Ids(declarations) - visited
  {
    if kind.Pointer? {
      assert PointerWithin(declarations, kind, 0);
    } else if kind.AliasRef? && Target(declarations, kind.id).Some? {
      var next := Target(declarations, kind.id).value;
      if kind.id in visited {
        forall n: nat ensures !PointerWithin(declarations, kind, n) {
          NeverPointer(declarations, kind.id, n);
        }
      } else {
        LookupFinds(DECLARATIONS, declarations, kind.id);
        assert kind.id in Ids(declarations);
        forall v, n: nat | v in visited + {kind.id} && PointerWithin(declarations, AliasRef(v), n)
          ensures n > 0 && PointerWithin(declarations, next, n - 1)
        {
          if v in visited {
            PointerWithinMore(declarations, next, n - 2, n - 1);
          }
        }
        IsPointerExact(declarations, next, visited + {kind.id});
        if ResolvesToPointer(declarations, kind) {
          var n: nat :| PointerWithin(declarations, kind, n);
          assert PointerWithin(declarations, next, n - 1);
        }
        if ResolvesToPointer(declarations, next) {
          var n: nat :| PointerWithin(declarations, next, n);
          assert PointerWithin(declarations, kind, n + 1);
        }
      }
    }
  }

  lemma {:induction false} NeverPointer(declarations: seq<Declaration>, id: Id, n: nat)
    requires forall m: nat :: PointerWithin(declarations, AliasRef(id), m) ==>
               m > 0 && PointerWithin(declarations, AliasRef(id), m - 1)
    ensures !PointerWithin(declarations, AliasRef(id), n)
  {
    if n > 0 {
      NeverPointer(declarations, id, n - 1);
    }
  }
}
