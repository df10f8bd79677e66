/** The enumerator counter of `lower_enum` (src/extract/mod.rs), section 6.7.2.2 of
    ISO/IEC 9899:2011. */
module Enumerators {
  import opened Wrappers
  import opened ConstEval
  import C = CInteger

  /** `placed`: the span and the name are usable; `textual`: so is the text of the expression;
      `tokenized`: so are the tokens of the whole. */
  datatype Enumerator =
    Enumerator(name: string, expression: Option<Expr>, placed: bool, textual: bool, tokenized: bool)

  /** `increment_exact_integer`: one more in the 128-bit type of the tag, or nothing. */
  function Increment(x: Exact): Option<Exact> {
    match x
    case Signed(v) => if v + 1 <= I128_MAX then Some(Signed(v + 1)) else None
    case Unsigned(v) => if v + 1 <= U128_MAX then Some(Unsigned(v + 1)) else None
  }

  /** The state of the counter: the value of the next implicit enumerator, the values so far. */
  datatype Counter = Counter(next: Option<Exact>, values: Environment)

  const START := Counter(Some(Signed(0)), map[])

  function After(c: Counter, name: string, value: Option<Exact>): Counter {
    Counter(match value case Some(v) => Increment(v) case None => None,
            match value case Some(v) => c.values[name := v] case None => c.values)
  }

  function ValueOf(s: C.Sizes, c: Counter, e: Enumerator): Option<Exact> {
    match e.expression case Some(expression) => EvalExact(s, c.values, expression) case None => c.next
  }

  /** The values of the enumerators from `c` on; `None` is an unevaluated one. */
  function Enumerate(s: C.Sizes, c: Counter, es: seq<Enumerator>): seq<Option<Exact>>
    decreases es
  {
    if es == [] then []
    else
      var value := ValueOf(s, c, es[0]);
      [value] + Enumerate(s, After(c, es[0].name, value), es[1..])
  }

  datatype Lowered = Lowered(name: string, value: Option<Exact>)

  /** The enumerators that take part in the count. */
  function Counting(es: seq<Enumerator>): seq<Enumerator> {
    if es == [] then [] else (if es[0].placed then [es[0]] else []) + Counting(es[1..])
  }

  /** An enumerator without tokens, or unevaluated without text, counts but is not emitted. */
  predicate Emits(e: Enumerator, value: Option<Exact>) {
    e.tokenized && (value.None? && e.expression.Some? ==> e.textual)
  }

  function Emitted(es: seq<Enumerator>, values: seq<Option<Exact>>): seq<Lowered>
    requires |es| == |values|
  {
    if es == [] then []
    else (if Emits(es[0], values[0]) then [Lowered(es[0].name, values[0])] else []) + Emitted(es[1..], values[1..])
  }

  /** What the loop still has to emit from `c` on. */
  function Rest(s: C.Sizes, c: Counter, es: seq<Enumerator>): seq<Lowered> {
    EnumerateLength(s, c, Counting(es));
    Emitted(Counting(es), Enumerate(s, c, Counting(es)))
  }

  lemma RestEnds(s: C.Sizes, c: Counter)
    ensures Rest(s, c, []) == []
  {
  }

  lemma RestUnfolds(s: C.Sizes, c: Counter, e: Enumerator, es: seq<Enumerator>)
    ensures var value := ValueOf(s, c, e);
            Rest(s, c, [e] + es) == if e.placed then
              (if Emits(e, value) then [Lowered(e.name, value)] else []) + Rest(s, After(c, e.name, value), es)
            else Rest(s, c, es)
  {
    assert ([e] + es)[0] == e && ([e] + es)[1..] == es;
    var value, counting := ValueOf(s, c, e), Counting(es);
    if e.placed {
      assert ([e] + counting)[0] == e && ([e] + counting)[1..] == counting;
      var more := Enumerate(s, After(c, e.name, value), counting);
      assert Enumerate(s, c, [e] + counting) == [value] + more && ([value] + more)[1..] == more;
    } else {
      assert [] + counting == counting;
    }
  }

  /** The loop over the enumerators: one without a place is passed over as if it were not there. */
  method LowerEnumerators(s: C.Sizes, es: seq<Enumerator>) returns (lowered: seq<Lowered>)
    ensures lowered == Rest(s, START, es)
  {
    hide Rest, EvalExact, Increment, Emits;
    var next: Option<Exact> := Some(Signed(0));
    var known: Environment := map[];
    lowered := [];
    assert es[0..] == es;
    for i := 0 to |es|
      invariant lowered + Rest(s, Counter(next, known), es[i..]) == Rest(s, START, es)
    {
      assert es[i..] == [es[i]] + es[i + 1..];
      RestUnfolds(s, Counter(next, known), es[i], es[i + 1..]);
      if !es[i].placed { continue; }
      ghost var before := Counter(next, known);
      var value: Option<Exact>;
      match es[i].expression {
        case Some(expression) =>
          value := EvalExact(s, known, expression);
          if value.Some? { next := Increment(value.value); } else { next := None; }
        case None =>
          value := next;
          if next.Some? { next := Increment(next.value); }
      }
      assert value == ValueOf(s, before, es[i]);
      if value.Some? { known := known[es[i].name := value.value]; }
      assert Counter(next, known) == After(before, es[i].name, value);
      if Emits(es[i], value) { lowered := lowered + [Lowered(es[i].name, value)]; }
    }
    RestEnds(s, Counter(next, known));
  }

  // ----- the values, one by one ----------------------------------------------------------

  lemma {:induction false} EnumerateLength(s: C.Sizes, c: Counter, es: seq<Enumerator>)
    ensures |Enumerate(s, c, es)| == |es|
    decreases es
  {
    if es != [] { EnumerateLength(s, After(c, es[0].name, ValueOf(s, c, es[0])), es[1..]); }
  }

  /** The counter in front of enumerator `i`. */
  function CounterAt(s: C.Sizes, es: seq<Enumerator>, i: nat): Counter
    requires i <= |es|
    decreases i
  {
    if i == 0 then START
    else
      var c := CounterAt(s, es, i - 1);
      After(c, es[i - 1].name, ValueOf(s, c, es[i - 1]))
  }

  /** The value that each enumerator gets. */
  function ValueAt(s: C.Sizes, es: seq<Enumerator>, i: nat): Option<Exact>
    requires i < |es|
  {
    ValueOf(s, CounterAt(s, es, i), es[i])
  }

  lemma {:induction false} EnumerateFrom(s: C.Sizes, es: seq<Enumerator>, i: nat, k: nat)
    requires i <= k < |es|
    ensures |Enumerate(s, CounterAt(s, es, i), es[i..])| == |es| - i
    ensures Enumerate(s, CounterAt(s, es, i), es[i..])[k - i] == ValueAt(s, es, k)
    decreases k - i
  {
    EnumerateLength(s, CounterAt(s, es, i), es[i..]);
    assert es[i..][0] == es[i] && es[i..][1..] == es[i + 1..];
    if i < k { EnumerateFrom(s, es, i + 1, k); }
  }

  /** `v + k` with the tag of `v`, when the 128-bit type of the tag holds it. */
  function Advance(v: Exact, k: nat): Option<Exact> {
    match v
    case Signed(n) => if n + k <= I128_MAX then Some(Signed(n + k)) else None
    case Unsigned(n) => if n + k <= U128_MAX then Some(Unsigned(n + k)) else None
  }

  /** No enumerator in `(i, k]` has an expression. */
  predicate ImplicitRun(es: seq<Enumerator>, i: int, k: nat)
    requires -1 <= i <= k < |es|
  {
    forall j :: i < j <= k ==> es[j].expression.None?
  }

  /** After enumerator `i` without further expressions, enumerator `k` is `k - i` more with the same
      tag, unevaluated exactly past the 128-bit range or after an unevaluated `i`. */
  lemma {:induction false} ImplicitValues(s: C.Sizes, es: seq<Enumerator>, i: nat, k: nat)
    requires i <= k < |es| && ImplicitRun(es, i, k)
    requires ValueAt(s, es, i).Some? ==> Valid(ValueAt(s, es, i).value)
    ensures ValueAt(s, es, k) == match ValueAt(s, es, i) case Some(v) => Advance(v, k - i) case None => None
    decreases k - i
  {
    if i < k {
      ImplicitValues(s, es, i, k - 1);
      assert es[k].expression.None?;
      assert ValueAt(s, es, k) == CounterAt(s, es, k).next;
    }
  }

  /** Without any expression so far, the values count from zero. */
  lemma {:induction false} FirstValues(s: C.Sizes, es: seq<Enumerator>, k: nat)
    requires k < |es| && ImplicitRun(es, -1, k)
    ensures ValueAt(s, es, k) == Advance(Signed(0), k)
    decreases k
  {
    assert es[k].expression.None?;
    if k > 0 { FirstValues(s, es, k - 1); }
  }

  function LastExplicit(es: seq<Enumerator>, k: nat): (i: int)
    requires k < |es|
    ensures -1 <= i <= k && ImplicitRun(es, i, k) && (i >= 0 ==> es[i].expression.Some?)
  {
    if es[k].expression.Some? then k else if k == 0 then -1 else LastExplicit(es, k - 1)
  }

  /** The names of evaluated enumerators with their latest values. */
  function Known(es: seq<Enumerator>, values: seq<Option<Exact>>): Environment
    requires |es| == |values|
    decreases |es|
  {
    if es == [] then map[]
    else
      var n := |es| - 1;
      var before := Known(es[..n], values[..n]);
      match values[n] case Some(v) => before[es[n].name := v] case None => before
  }

  /** What the language makes of enumerator `k`, given the values before it: the value of the last
      expression, read with the names before that, plus the distance from it. */
  function Counted(s: C.Sizes, es: seq<Enumerator>, values: seq<Option<Exact>>, k: nat): Option<Exact>
    requires k < |es| == |values|
  {
    var i := LastExplicit(es, k);
    if i < 0 then Advance(Signed(0), k)
    else
      match EvalExact(s, Known(es[..i], values[..i]), es[i].expression.value)
      case Some(v) => Advance(v, k - i)
      case None => None
  }

  lemma ValueValid(s: C.Sizes, c: Counter, e: Enumerator)
    requires C.Target(s) && (c.next.Some? ==> Valid(c.next.value))
    requires forall name :: name in c.values ==> Valid(c.values[name])
    ensures ValueOf(s, c, e).Some? ==> Valid(ValueOf(s, c, e).value)
  {
    if e.expression.Some? && EvalExact(s, c.values, e.expression.value).Some? {
      EvalExactValid(s, c.values, e.expression.value);
    }
  }

  lemma {:induction false} ValuesValid(s: C.Sizes, es: seq<Enumerator>, i: nat)
    requires C.Target(s) && i <= |es|
    ensures CounterAt(s, es, i).next.Some? ==> Valid(CounterAt(s, es, i).next.value)
    ensures forall name :: name in CounterAt(s, es, i).values ==> Valid(CounterAt(s, es, i).values[name])
    decreases i
  {
    if i > 0 {
      ValuesValid(s, es, i - 1);
      ValueValid(s, CounterAt(s, es, i - 1), es[i - 1]);
    }
  }

  lemma {:induction false} KnownIsCounter(s: C.Sizes, es: seq<Enumerator>, values: seq<Option<Exact>>, i: nat)
    requires i <= |es| == |values| && forall j :: 0 <= j < i ==> values[j] == ValueAt(s, es, j)
    ensures Known(es[..i], values[..i]) == CounterAt(s, es, i).values
    decreases i
  {
    hide EvalExact, Increment, ValueOf;
    if i > 0 {
      KnownIsCounter(s, es, values, i - 1);
      assert es[..i][..i - 1] == es[..i - 1] && values[..i][..i - 1] == values[..i - 1];
      assert values[i - 1] == ValueAt(s, es, i - 1);
    }
  }

  lemma CountedIsValue(s: C.Sizes, es: seq<Enumerator>, values: seq<Option<Exact>>, k: nat)
    requires C.Target(s) && k < |es| == |values| && forall j :: 0 <= j < k ==> values[j] == ValueAt(s, es, j)
    ensures Counted(s, es, values, k) == ValueAt(s, es, k)
  {
    var i := LastExplicit(es, k);
    if i < 0 {
      FirstValues(s, es, k);
    } else {
      KnownIsCounter(s, es, values, i);
      ValuesValid(s, es, i);
      ValueValid(s, CounterAt(s, es, i), es[i]);
      ImplicitValues(s, es, i, k);
    }
  }

  lemma {:induction false} CountedUnique(s: C.Sizes, es: seq<Enumerator>, values: seq<Option<Exact>>, n: nat)
    requires C.Target(s) && n <= |es| == |values|
    requires forall k :: 0 <= k < |es| ==> values[k] == Counted(s, es, values, k)
    ensures forall k :: 0 <= k < n ==> values[k] == ValueAt(s, es, k)
    decreases n
  {
    if n > 0 {
      CountedUnique(s, es, values, n - 1);
      CountedIsValue(s, es, values, n - 1);
    }
  }

  lemma EnumerateValues(s: C.Sizes, es: seq<Enumerator>)
    ensures |Enumerate(s, START, es)| == |es|
    ensures forall k :: 0 <= k < |es| ==> Enumerate(s, START, es)[k] == ValueAt(s, es, k)
  {
    EnumerateLength(s, START, es);
    assert es[0..] == es;
    forall k | 0 <= k < |es| ensures Enumerate(s, START, es)[k] == ValueAt(s, es, k) {
      EnumerateFrom(s, es, 0, k);
    }
  }

  /** The lowered values are the only ones that follow the counting rule at every enumerator. */
  lemma EnumerateCounts(s: C.Sizes, es: seq<Enumerator>, values: seq<Option<Exact>>)
    requires C.Target(s)
    ensures values == Enumerate(s, START, es)
       <==> |values| == |es| && forall k :: 0 <= k < |es| ==> values[k] == Counted(s, es, values, k)
  {
    EnumerateValues(s, es);
    if values == Enumerate(s, START, es) {
      forall k | 0 <= k < |es| ensures values[k] == Counted(s, es, values, k) {
        CountedIsValue(s, es, values, k);
      }
    }
    if |values| == |es| && forall k :: 0 <= k < |es| ==> values[k] == Counted(s, es, values, k) {
      CountedUnique(s, es, values, |es|);
      assert values == Enumerate(s, START, es);
    }
  }

  // ----- against the typed evaluation ----------------------------------------------------

  /** The names in scope of enumerator `k`: those of the enclosing scope, and the enumerators before
      it, each of type `int`. */
  function Scope(outer: TypedEnvironment, es: seq<Enumerator>, values: seq<int>, k: nat): TypedEnvironment
    requires k <= |es| == |values|
    decreases k
  {
    if k == 0 then outer
    else Scope(outer, es, values, k - 1)[es[k - 1].name := C.Typed(C.INT, values[k - 1])]
  }

  /** What the language computes for the expression of enumerator `k`, where it defines one. */
  function Meant(s: C.Sizes, outer: TypedEnvironment, es: seq<Enumerator>, values: seq<int>, k: nat): Option<C.Typed>
    requires C.Target(s) && k < |es| == |values|
  {
    match es[k].expression
    case Some(expression) => EvalC(s, Scope(outer, es, values, k), expression)
    case None => None
  }

  /** `values[k]` is what the language gives enumerator `k`: an `int`, equal to its expression, or one
      more than the value before it, or zero. */
  predicate Standard(s: C.Sizes, outer: TypedEnvironment, es: seq<Enumerator>, values: seq<int>, k: nat)
    requires C.Target(s) && k < |es| == |values|
  {
    && C.InRange(s, C.INT, values[k])
    && match es[k].expression
       case Some(_) => Meant(s, outer, es, values, k).Some? ==> Meant(s, outer, es, values, k).value.value == values[k]
       case None => values[k] == if k == 0 then 0 else values[k - 1] + 1
  }

  /** Enumerator `k` has only constants that the code tags as the language types them, and is left
      unevaluated wherever the language computes nothing. */
  ghost predicate Fair(s: C.Sizes, outer: TypedEnvironment, es: seq<Enumerator>, values: seq<int>, k: nat)
    requires C.Target(s) && k < |es| == |values|
  {
    es[k].expression.Some? ==>
      && AllConstants(es[k].expression.value, SignedIn(s))
      && (ValueAt(s, es, k).Some? ==> Meant(s, outer, es, values, k).Some?)
  }

  /** Section 6.7: no identifier is declared twice in a scope. */
  predicate Distinct(es: seq<Enumerator>) { forall i, j :: 0 <= i < j < |es| ==> es[i].name != es[j].name }

  lemma {:induction false} KnownNames(s: C.Sizes, es: seq<Enumerator>, k: nat, name: string)
    requires k <= |es| && name in CounterAt(s, es, k).values
    ensures exists j :: 0 <= j < k && es[j].name == name
    decreases k
  {
    if k > 0 && es[k - 1].name != name { KnownNames(s, es, k - 1, name); }
  }

  /** The counter in front of an enumerator agrees with the language: so do its names, and its next
      value, if it has one. */
  ghost predicate InStep(s: C.Sizes, outer: TypedEnvironment, es: seq<Enumerator>, values: seq<int>, k: nat)
    requires C.Target(s) && k <= |es| == |values|
  {
    var next := CounterAt(s, es, k).next;
    && EnvironmentsAgree(s, CounterAt(s, es, k).values, Scope(outer, es, values, k))
    && (next.Some? ==> next.value.value == if k == 0 then 0 else values[k - 1] + 1)
    && (next.Some? && next.value.Unsigned? ==> next.value.value >= 0)
  }

  lemma StepAgrees(s: C.Sizes, outer: TypedEnvironment, es: seq<Enumerator>, values: seq<int>, k: nat)
    requires C.Target(s) && k < |es| == |values| && InStep(s, outer, es, values, k)
    requires Standard(s, outer, es, values, k) && Fair(s, outer, es, values, k)
    ensures ValueAt(s, es, k).Some? ==> Represents(s, ValueAt(s, es, k).value, C.Typed(C.INT, values[k]))
  {
    hide EvalExact, EvalC, AllConstants, CounterAt, Scope, SignedIn;
    if es[k].expression.Some? && ValueAt(s, es, k).Some? {
      EvalExactSound(s, CounterAt(s, es, k).values, Scope(outer, es, values, k), es[k].expression.value);
    }
  }

  lemma {:induction false} StaysInStep(s: C.Sizes, outer: TypedEnvironment, es: seq<Enumerator>, values: seq<int>,
                                       n: nat)
    requires C.Target(s) && n <= |es| == |values| && Distinct(es)
    requires forall k :: 0 <= k < n ==> Standard(s, outer, es, values, k) && Fair(s, outer, es, values, k)
    ensures InStep(s, outer, es, values, n)
    decreases n
  {
    hide EvalExact, EvalC, Standard, Fair;
    if n > 0 {
      var k := n - 1;
      StaysInStep(s, outer, es, values, k);
      StepAgrees(s, outer, es, values, k);
      if es[k].name in CounterAt(s, es, k).values { KnownNames(s, es, k, es[k].name); }
    }
  }

  /** Every evaluated enumerator has the value that the language gives it, for constants tagged as the
      language types them and expressions that the language defines. */
  lemma EnumeratorsSound(s: C.Sizes, outer: TypedEnvironment, es: seq<Enumerator>, values: seq<int>)
    requires C.Target(s) && |es| == |values| && Distinct(es)
    requires forall k :: 0 <= k < |es| ==> Standard(s, outer, es, values, k) && Fair(s, outer, es, values, k)
    ensures var lowered := Enumerate(s, START, es);
            |lowered| == |es| && forall k :: 0 <= k < |es| && lowered[k].Some? ==> lowered[k].value.value == values[k]
  {
    hide Standard, Fair;
    EnumerateValues(s, es);
    forall k | 0 <= k < |es| && ValueAt(s, es, k).Some? ensures ValueAt(s, es, k).value.value == values[k] {
      StaysInStep(s, outer, es, values, k);
      StepAgrees(s, outer, es, values, k);
    }
  }

  lemma {:induction false} EmittedValues(es: seq<Enumerator>, values: seq<Option<Exact>>, l: Lowered)
    requires |es| == |values| && l in Emitted(es, values)
    ensures exists k :: 0 <= k < |es| && es[k].name == l.name && values[k] == l.value
  {
    if Emits(es[0], values[0]) && l == Lowered(es[0].name, values[0]) {
      assert es[0].name == l.name && values[0] == l.value;
    } else {
      assert l in Emitted(es[1..], values[1..]);
      EmittedValues(es[1..], values[1..], l);
      var k :| 0 <= k < |es| - 1 && es[1..][k].name == l.name && values[1..][k] == l.value;
      assert es[k + 1].name == l.name && values[k + 1] == l.value;
    }
  }

  /** Whatever is emitted with a value has the value that the language gives it in the enumeration
      without the enumerators that have no place, even next to ones that count but are not emitted. */
  lemma EmittedSound(s: C.Sizes, outer: TypedEnvironment, es: seq<Enumerator>, values: seq<int>, l: Lowered)
    requires C.Target(s) && |Counting(es)| == |values| && Distinct(Counting(es))
    requires forall k :: 0 <= k < |values| ==>
               Standard(s, outer, Counting(es), values, k) && Fair(s, outer, Counting(es), values, k)
    requires l in Rest(s, START, es) && l.value.Some?
    ensures exists k :: 0 <= k < |values| && Counting(es)[k].name == l.name && values[k] == l.value.value.value
  {
    hide Standard, Fair;
    var counting := Counting(es);
    EnumeratorsSound(s, outer, counting, values);
    EmittedValues(counting, Enumerate(s, START, counting), l);
    var k :| 0 <= k < |values| && counting[k].name == l.name && Enumerate(s, START, counting)[k] == l.value;
    assert values[k] == l.value.value.value;
  }

  // ----- exactly what is emitted ---------------------------------------------------------

  /** The positions below `n` that satisfy `ok`, in order. */
  ghost predicate Positions(ps: seq<nat>, n: nat, ok: nat -> bool) {
    && (forall i, j :: 0 <= i < j < |ps| ==> ps[i] < ps[j])
    && forall p: nat :: p in ps <==> p < n && ok(p)
  }

  lemma FirstIn(a: seq<nat>)
    ensures a == [] || a[0] in a
  {
  }

  lemma {:induction false} PositionsUnique(a: seq<nat>, b: seq<nat>, n: nat, ok: nat -> bool)
    requires Positions(a, n, ok) && Positions(b, n, ok)
    ensures a == b
    decreases |a|
  {
    if a == [] {
      FirstIn(b);
    } else {
      assert a[|a| - 1] in a && a[|a| - 1] in b;
      assert b[|b| - 1] in b && b[|b| - 1] in a;
      var last := a[|a| - 1];
      assert b[|b| - 1] == last;
      PositionsShorter(a, n, ok);
      PositionsShorter(b, n, ok);
      PositionsUnique(a[..|a| - 1], b[..|b| - 1], last, ok);
    }
  }

  lemma PositionsShorter(a: seq<nat>, n: nat, ok: nat -> bool)
    requires Positions(a, n, ok) && a != []
    ensures Positions(a[..|a| - 1], a[|a| - 1], ok)
  {
    var (m, last) := (|a| - 1, a[|a| - 1]);
    assert a == a[..m] + [last];
    assert a[m] in a;
    forall p | p in a[..m] ensures p < last {
      var i :| 0 <= i < m && a[..m][i] == p;
      assert a[i] == p;
    }
    forall p: nat ensures p in a <==> p in a[..m] || p == last { }
  }

  lemma PositionsGrow(ps: seq<nat>, n: nat, ok: nat -> bool) returns (more: seq<nat>)
    requires Positions(ps, n, ok)
    ensures Positions(more, n + 1, ok) && more == if ok(n) then ps + [n] else ps
  {
    more := if ok(n) then ps + [n] else ps;
    assert forall i :: 0 <= i < |ps| ==> ps[i] in ps;
    forall p: nat ensures p in more <==> p in ps || (p == n && ok(n)) { }
  }

  function Placed(es: seq<Enumerator>): nat -> bool { (p: nat) => p < |es| && es[p].placed }

  function At(es: seq<Enumerator>, ps: seq<nat>): seq<Enumerator>
    requires forall p :: p in ps ==> p < |es|
  {
    seq(|ps|, i requires 0 <= i < |ps| => assert ps[i] in ps; es[ps[i]])
  }

  lemma CountingUnfolds(e: Enumerator, es: seq<Enumerator>)
    ensures Counting([e] + es) == (if e.placed then [e] else []) + Counting(es)
  {
    assert ([e] + es)[1..] == es;
  }

  lemma {:induction false} CountingSnoc(es: seq<Enumerator>, e: Enumerator)
    ensures Counting(es + [e]) == Counting(es) + if e.placed then [e] else []
  {
    hide Counting;
    var last := if e.placed then [e] else [];
    if es == [] {
      CountingUnfolds(e, []);
      assert es + [e] == [e] + [];
      assert Counting([]) == [] by { NothingCounts(); }
    } else {
      var first, rest := if es[0].placed then [es[0]] else [], es[1..];
      CountingSnoc(rest, e);
      CountingUnfolds(es[0], rest);
      CountingUnfolds(es[0], rest + [e]);
      assert es == [es[0]] + rest && es + [e] == [es[0]] + (rest + [e]);
      assert first + (Counting(rest) + last) == (first + Counting(rest)) + last;
    }
  }

  lemma NothingCounts()
    ensures Counting([]) == []
  {
  }

  lemma {:induction false} CountingPlaced(es: seq<Enumerator>, n: nat) returns (ps: seq<nat>)
    requires n <= |es|
    ensures Positions(ps, n, Placed(es)) && Counting(es[..n]) == At(es, ps)
  {
    if n == 0 {
      ps := [];
    } else {
      var before := CountingPlaced(es, n - 1);
      assert es[..n] == es[..n - 1] + [es[n - 1]];
      CountingSnoc(es[..n - 1], es[n - 1]);
      ps := PositionsGrow(before, n - 1, Placed(es));
    }
  }

  /** Counting passes over exactly the enumerators without a place. */
  lemma CountingMeans(es: seq<Enumerator>, ps: seq<nat>)
    requires Positions(ps, |es|, Placed(es))
    ensures Counting(es) == At(es, ps)
  {
    var own := CountingPlaced(es, |es|);
    assert es[..|es|] == es;
    PositionsUnique(own, ps, |es|, Placed(es));
  }

  /** The enumerator has tokens, and an expression without a value has text. */
  function Usable(es: seq<Enumerator>, values: seq<Option<Exact>>): nat -> bool
    requires |es| == |values|
  {
    (k: nat) => k < |es| && es[k].tokenized && (values[k].Some? || es[k].expression.None? || es[k].textual)
  }

  function Picked(es: seq<Enumerator>, values: seq<Option<Exact>>, ks: seq<nat>): seq<Lowered>
    requires |es| == |values| && forall k :: k in ks ==> k < |es|
  {
    seq(|ks|, i requires 0 <= i < |ks| => assert ks[i] in ks; Lowered(es[ks[i]].name, values[ks[i]]))
  }

  lemma {:induction false} EmittedSnoc(es: seq<Enumerator>, values: seq<Option<Exact>>, e: Enumerator,
                                       value: Option<Exact>)
    requires |es| == |values|
    ensures Emitted(es + [e], values + [value])
         == Emitted(es, values) + if Emits(e, value) then [Lowered(e.name, value)] else []
  {
    if es == [] {
      assert es + [e] == [e] && [e][1..] == [] && values + [value] == [value] && [value][1..] == [];
    } else {
      assert (es + [e])[0] == es[0] && (es + [e])[1..] == es[1..] + [e];
      assert (values + [value])[0] == values[0] && (values + [value])[1..] == values[1..] + [value];
      EmittedSnoc(es[1..], values[1..], e, value);
    }
  }

  lemma {:induction false} EmittedUsable(es: seq<Enumerator>, values: seq<Option<Exact>>, n: nat)
    returns (ks: seq<nat>)
    requires n <= |es| == |values|
    ensures Positions(ks, n, Usable(es, values)) && Emitted(es[..n], values[..n]) == Picked(es, values, ks)
  {
    if n == 0 {
      ks := [];
    } else {
      var before := EmittedUsable(es, values, n - 1);
      assert es[..n] == es[..n - 1] + [es[n - 1]] && values[..n] == values[..n - 1] + [values[n - 1]];
      EmittedSnoc(es[..n - 1], values[..n - 1], es[n - 1], values[n - 1]);
      ks := PositionsGrow(before, n - 1, Usable(es, values));
    }
  }

  /** The loop emits exactly the usable ones of the enumerators with a place, in order and each with its name and the
      value that the counting rule gives it, whether or not it has one. */
  lemma EmittedExactly(s: C.Sizes, es: seq<Enumerator>, ps: seq<nat>, values: seq<Option<Exact>>, ks: seq<nat>)
    requires C.Target(s) && Positions(ps, |es|, Placed(es)) && |values| == |ps|
    requires forall k :: 0 <= k < |ps| ==> values[k] == Counted(s, At(es, ps), values, k)
    requires Positions(ks, |ps|, Usable(At(es, ps), values))
    ensures Rest(s, START, es) == Picked(At(es, ps), values, ks)
  {
    hide Counted, Enumerate;
    var counting := At(es, ps);
    CountingMeans(es, ps);
    EnumerateCounts(s, counting, values);
    var own := EmittedUsable(counting, values, |counting|);
    assert counting[..|counting|] == counting && values[..|values|] == values;
    PositionsUnique(own, ks, |counting|, Usable(counting, values));
  }
}
