/** Calling conventions: `declarator_calling_convention` (src/extract/types.rs), which reads the attributes
    of a declarator and of the declarators inside it, and `calling_convention` (src/extract/mod.rs), which
    reads all the attributes of a function declaration. */
module Conventions {
  import opened Wrappers
  import opened Contract
  import D = Declarators

  /** An attribute as `modeled_calling_convention` sees it. */
  datatype Attribute =
    | Modeled(spelling: string, convention: string)
    | Malformed(spelling: string)
    | OtherAttribute(spelling: string)

  /** The attributes of a declarator, those among its pointer qualifiers, and the nested declarator. */
  datatype Attributed =
    Attributed(attributes: seq<Attribute>, pointerAttributes: seq<Attribute>, inner: Option<Attributed>)

  // ----- the two searches ----------------------------------------------------------------

  /** The variables of the search; `ok` is false once it has failed. */
  datatype Search = Search(found: Option<string>, spellings: seq<string>, ok: bool)

  const NOTHING := Search(None, [], true)

  function See(s: Search, a: Attribute): Search {
    if !s.ok then s
    else
      match a
      case Modeled(spelling, convention) =>
        if s.found.Some? && s.found.value != convention then Search(s.found, s.spellings + [spelling], false)
        else Search(Some(convention), s.spellings + [spelling], true)
      case Malformed(spelling) => Search(s.found, s.spellings + [spelling], false)
      case OtherAttribute(_) => s
  }

  function SeeAll(s: Search, attributes: seq<Attribute>): Search
    decreases attributes
  {
    if attributes == [] then s else SeeAll(See(s, attributes[0]), attributes[1..])
  }

  lemma {:induction false} SeeAllAppend(s: Search, a: seq<Attribute>, b: seq<Attribute>)
    ensures SeeAll(s, a + b) == SeeAll(SeeAll(s, a), b)
    decreases a
  {
    if a == [] {
      assert a + b == b;
    } else {
      assert (a + b)[0] == a[0] && (a + b)[1..] == a[1..] + b;
      SeeAllAppend(See(s, a[0]), a[1..], b);
    }
  }

  lemma {:induction false} FailureStays(s: Search, attributes: seq<Attribute>)
    requires !s.ok
    ensures SeeAll(s, attributes) == s
    decreases attributes
  {
    if attributes != [] { FailureStays(s, attributes[1..]); }
  }

  /** The attributes of a declarator and of the declarators inside it. */
  function Inward(d: Attributed): seq<Attribute> {
    d.attributes + if d.inner.Some? then Inward(d.inner.value) else []
  }

  function Joined(spellings: seq<string>): string {
    if spellings == [] then ""
    else if |spellings| == 1 then spellings[0]
    else spellings[0] + " " + Joined(spellings[1..])
  }

  function Outcome(s: Search): CallingConvention {
    if !s.ok then BadConvention(Joined(s.spellings))
    else match s.found case Some(c) => NamedConvention(c) case None => DefaultConvention
  }

  function ConventionOf(attributes: seq<Attribute>): CallingConvention { Outcome(SeeAll(NOTHING, attributes)) }

  /** `visit`: false as soon as an attribute is malformed or disagrees. */
  method Visit(d: Attributed, s: Search) returns (r: Search)
    requires s.ok
    ensures r == SeeAll(s, Inward(d))
    decreases d
  {
    ghost var inside := if d.inner.Some? then Inward(d.inner.value) else [];
    r := s;
    for i := 0 to |d.attributes|
      invariant r.ok && SeeAll(r, d.attributes[i..]) == SeeAll(s, d.attributes)
    {
      assert d.attributes[i..][0] == d.attributes[i] && d.attributes[i..][1..] == d.attributes[i + 1..];
      r := See(r, d.attributes[i]);
      if !r.ok {
        FailureStays(r, d.attributes[i + 1..]);
        FailureStays(r, inside);
        SeeAllAppend(s, d.attributes, inside);
        return;
      }
    }
    SeeAllAppend(s, d.attributes, inside);
    if d.inner.Some? {
      r := Visit(d.inner.value, r);
    }
  }

  method DeclaratorCallingConvention(d: Attributed) returns (c: CallingConvention)
    ensures c == ConventionOf(Inward(d))
  {
    var s := Visit(d, NOTHING);
    if !s.ok { return BadConvention(Joined(s.spellings)); }
    c := match s.found case Some(convention) => NamedConvention(convention) case None => DefaultConvention;
  }

  /** `collect_declarator_extensions`: pointer attributes are included. */
  function Collected(d: Attributed): seq<Attribute> {
    d.attributes + (d.pointerAttributes + if d.inner.Some? then Collected(d.inner.value) else [])
  }

  /** `declaration_extensions`. */
  function DeclarationAttributes(specifiers: seq<Attribute>, d: Attributed): seq<Attribute> {
    specifiers + Collected(d)
  }

  /** `calling_convention`, on the attributes from the specifiers inward. */
  method DeclarationConvention(attributes: seq<Attribute>) returns (r: Result<CallingConvention, string>)
    ensures r.Ok? ==> r.value == ConventionOf(attributes)
    ensures r.Err? <==> ConventionOf(attributes).BadConvention?
    ensures r.Err? ==>
              exists k :: 0 <= k < |attributes| && NoneFails(attributes, k) && Fails(attributes, k)
                && r.error == if attributes[k].Malformed? then attributes[k].spelling
                              else Words(Spoken(attributes[..k + 1]))
  {
    hide Fails, Words, Spoken, Joined;
    var found: Option<string> := None;
    var spellings: seq<string> := [];
    for i := 0 to |attributes|
      invariant Search(found, spellings, true) == SeeAll(NOTHING, attributes[..i]) && NoneFails(attributes, i)
    {
      Progress(attributes, i);
      OneMore(attributes, i);
      FailsNow(attributes, i);
      if Fails(attributes, i) { FailsAt(attributes, i); }
      match attributes[i]
      case Malformed(spelling) => return Err(spelling);
      case OtherAttribute(_) =>
      case Modeled(spelling, convention) =>
        spellings := spellings + [spelling];
        if found.Some? && found.value != convention {
          FailedText(attributes, i);
          return Err(Joined(spellings));
        }
        found := Some(convention);
    }
    assert attributes[..|attributes|] == attributes;
    return Ok(if found.Some? then NamedConvention(found.value) else DefaultConvention);
  }

  lemma FailsNow(attributes: seq<Attribute>, n: nat)
    requires n < |attributes| && NoneFails(attributes, n)
    ensures Fails(attributes, n) <==> !See(SeeAll(NOTHING, attributes[..n]), attributes[n]).ok
  {
    Progress(attributes, n);
  }

  lemma FailedText(attributes: seq<Attribute>, n: nat)
    requires n < |attributes| && NoneFails(attributes, n) && attributes[n].Modeled?
    ensures Joined(SeeAll(NOTHING, attributes[..n]).spellings + [attributes[n].spelling])
         == Words(Spoken(attributes[..n + 1]))
  {
    Progress(attributes, n);
    OneMore(attributes, n);
    JoinedWords(Spoken(attributes[..n + 1]));
  }

  // ----- what they find ------------------------------------------------------------------

  predicate Silent(attributes: seq<Attribute>) { forall a :: a in attributes ==> a.OtherAttribute? }

  /** Nothing is malformed, and whatever names a convention names `c`. */
  predicate Unanimous(attributes: seq<Attribute>, c: string) {
    forall a :: a in attributes ==> !a.Malformed? && (a.Modeled? ==> a.convention == c)
  }

  lemma {:induction false} SearchSpec(s: Search, attributes: seq<Attribute>)
    requires s.ok
    ensures var t := SeeAll(s, attributes);
            && (t.ok && t.found.None? <==> s.found.None? && Silent(attributes))
            && forall c :: t.ok && t.found == Some(c) <==>
                 Unanimous(attributes, c) && (s.found == Some(c) || (s.found.None? && !Silent(attributes)))
    decreases attributes
  {
    if attributes != [] {
      var a, rest, next := attributes[0], attributes[1..], See(s, attributes[0]);
      assert attributes == [a] + rest;
      assert Silent(attributes) <==> a.OtherAttribute? && Silent(rest);
      forall c ensures Unanimous(attributes, c) <==>
                 !a.Malformed? && (a.Modeled? ==> a.convention == c) && Unanimous(rest, c) { }
      if next.ok { SearchSpec(next, rest); } else { FailureStays(next, rest); }
      assert Silent(rest) ==> forall c :: Unanimous(rest, c);
    }
  }

  /** The order of the attributes does not matter: a convention is found exactly when at least one
      attribute names one, all that do name the same, and none is malformed. */
  lemma ConventionSpec(attributes: seq<Attribute>)
    ensures ConventionOf(attributes) == DefaultConvention <==> Silent(attributes)
    ensures forall c :: ConventionOf(attributes) == NamedConvention(c)
                   <==> Unanimous(attributes, c) && !Silent(attributes)
  {
    SearchSpec(NOTHING, attributes);
  }

  /** More attributes can only turn a convention into a conflict, or give one where there was none. */
  lemma MoreAttributes(few: seq<Attribute>, many: seq<Attribute>, c: string)
    requires forall a :: a in few ==> a in many
    requires ConventionOf(few) == NamedConvention(c)
    ensures ConventionOf(many) == NamedConvention(c) || ConventionOf(many).BadConvention?
  {
    ConventionSpec(few);
    ConventionSpec(many);
    var a :| a in few && a.Modeled?;
    match ConventionOf(many)
    case NamedConvention(e) => assert Unanimous(many, e) && a in many;
    case _ =>
  }

  lemma {:induction false} InwardCollected(d: Attributed)
    ensures forall a :: a in Inward(d) ==> a in Collected(d)
    decreases d
  {
    if d.inner.Some? { InwardCollected(d.inner.value); }
  }

  /** The convention of a function declaration is that of its type, which leaves out the attributes of
      specifiers and pointers, exactly when it is the default or an attribute of a declarator names it. */
  lemma ConventionsAgree(specifiers: seq<Attribute>, d: Attributed)
    requires !ConventionOf(DeclarationAttributes(specifiers, d)).BadConvention?
    ensures ConventionOf(Inward(d)) == ConventionOf(DeclarationAttributes(specifiers, d))
       <==> Silent(DeclarationAttributes(specifiers, d)) || !Silent(Inward(d))
  {
    var all, few := DeclarationAttributes(specifiers, d), Inward(d);
    InwardCollected(d);
    assert forall a :: a in few ==> a in all;
    ConventionSpec(all);
    ConventionSpec(few);
    if !Silent(all) {
      var c := ConventionOf(all).name;
      assert Unanimous(all, c);
      assert Unanimous(few, c);
    }
  }

  // ----- the functions of one declarator -------------------------------------------------

  /** The attributes stand on the declarator's own nesting levels. */
  predicate Fits(d: D.Declarator, a: Attributed) {
    d.kind.Nested? == a.inner.Some? && (d.kind.Nested? ==> Fits(d.kind.inner, a.inner.value))
  }

  function WithConvention(derived: seq<D.Derived>, c: CallingConvention): (r: seq<D.Derived>)
    ensures |r| == |derived|
  {
    if derived == [] then []
    else [if derived[0].FunctionOf? then derived[0].(convention := c) else derived[0]]
         + WithConvention(derived[1..], c)
  }

  /** Each function suffix gets the convention found from its own level inward. */
  function Resolved(d: D.Declarator, a: Attributed): D.Declarator
    requires Fits(d, a)
  {
    var derived := WithConvention(d.derived, ConventionOf(Inward(a)));
    if d.kind.Nested? then D.Declarator(D.Nested(Resolved(d.kind.inner, a.inner.value)), derived)
    else D.Declarator(d.kind, derived)
  }

  predicate AllFunctions(layers: seq<D.Layer>, c: CallingConvention) {
    forall l :: l in layers && l.FunctionLayer? ==> l.convention == c
  }

  lemma {:induction false} LevelConventions(aliases: set<Id>, derived: seq<D.Derived>, c: CallingConvention,
                                            arrayAllowed: bool)
    ensures AllFunctions(D.PointerLayers(WithConvention(derived, c)), c)
    ensures AllFunctions(D.SuffixLayers(aliases, WithConvention(derived, c), arrayAllowed), c)
    decreases derived
  {
    if derived != [] {
      LevelConventions(aliases, derived[1..], c, arrayAllowed);
      LevelConventions(aliases, derived[1..], c, false);
      assert WithConvention(derived, c)[1..] == WithConvention(derived[1..], c);
    }
  }

  /** The innermost attributes. */
  function Nearest(a: Attributed): Attributed {
    if a.inner.Some? then Nearest(a.inner.value) else a
  }

  lemma {:induction false} NearestInside(a: Attributed)
    ensures forall x :: x in Inward(Nearest(a)) ==> x in Inward(a)
    decreases a
  {
    if a.inner.Some? { NearestInside(a.inner.value); }
  }

  predicate SameOrBad(layers: seq<D.Layer>, c: CallingConvention) {
    forall l :: l in layers && l.FunctionLayer? ==> l.convention == c || l.convention.BadConvention?
  }

  /** A convention on the level nearest the name spreads: every function of the lowered type, however
      far out, has it too, or none because of a conflict. */
  lemma {:induction false} NearestSpreads(aliases: set<Id>, d: D.Declarator, a: Attributed, arrayAllowed: bool)
    requires Fits(d, a) && ConventionOf(Inward(Nearest(a))).NamedConvention?
    ensures SameOrBad(D.Layers(aliases, Resolved(d, a), arrayAllowed), ConventionOf(Inward(Nearest(a))))
    decreases d
  {
    hide ConventionOf, D.SuffixLayers, D.PointerLayers, Inward;
    var c, own := ConventionOf(Inward(Nearest(a))), ConventionOf(Inward(a));
    var derived := WithConvention(d.derived, own);
    LevelConventions(aliases, d.derived, own, arrayAllowed);
    NearestInside(a);
    MoreAttributes(Inward(Nearest(a)), Inward(a), c.name);
    if d.kind.Nested? {
      NearestSpreads(aliases, d.kind.inner, a.inner.value, D.StillAllowed(derived, arrayAllowed));
    }
  }

  // ----- which attributes are seen, and what is said of a bad list -----------------------

  /** The declarator `k` levels inside. */
  function LevelAt(d: Attributed, k: nat): Option<Attributed>
    decreases k
  {
    if k == 0 then Some(d) else if d.inner.Some? then LevelAt(d.inner.value, k - 1) else None
  }

  /** `a` is an attribute of some level, or of its pointers if they count. */
  ghost predicate Stands(d: Attributed, a: Attribute, pointers: bool) {
    exists k: nat :: StandsAt(d, a, pointers, k)
  }

  predicate StandsAt(d: Attributed, a: Attribute, pointers: bool, k: nat) {
    var level := LevelAt(d, k);
    level.Some? && (a in level.value.attributes || (pointers && a in level.value.pointerAttributes))
  }

  lemma StandsInside(d: Attributed, a: Attribute, pointers: bool)
    ensures Stands(d, a, pointers)
       <==> || a in d.attributes || (pointers && a in d.pointerAttributes)
            || (d.inner.Some? && Stands(d.inner.value, a, pointers))
  {
    if Stands(d, a, pointers) {
      var k: nat :| StandsAt(d, a, pointers, k);
      if k > 0 { assert StandsAt(d.inner.value, a, pointers, k - 1); }
    }
    if a in d.attributes || (pointers && a in d.pointerAttributes) { assert StandsAt(d, a, pointers, 0); }
    if d.inner.Some? && Stands(d.inner.value, a, pointers) {
      var k: nat :| StandsAt(d.inner.value, a, pointers, k);
      assert StandsAt(d, a, pointers, k + 1);
    }
  }

  /** The search for a type sees exactly the attributes of the declarator's levels, and that for a declaration those
      of their pointers as well. */
  lemma {:induction false} SeenExactly(d: Attributed, a: Attribute)
    ensures a in Inward(d) <==> Stands(d, a, false)
    ensures a in Collected(d) <==> Stands(d, a, true)
    decreases d
  {
    hide Stands;
    StandsInside(d, a, false);
    StandsInside(d, a, true);
    if d.inner.Some? { SeenExactly(d.inner.value, a); }
  }

  // ----- what is said of a bad list ------------------------------------------------------

  /** The attribute at `k` is malformed, or names another convention than one before it. */
  predicate Fails(attributes: seq<Attribute>, k: nat)
    requires k < |attributes|
  {
    match attributes[k]
    case Malformed(_) => true
    case Modeled(_, convention) =>
      exists j :: 0 <= j < k && attributes[j].Modeled? && attributes[j].convention != convention
    case OtherAttribute(_) => false
  }

  predicate NoneFails(attributes: seq<Attribute>, n: nat)
    requires n <= |attributes|
  {
    forall j :: 0 <= j < n ==> !Fails(attributes, j)
  }

  /** The texts of the attributes that say something. */
  function Spoken(attributes: seq<Attribute>): seq<string> {
    if attributes == [] then []
    else
      var last := attributes[|attributes| - 1];
      Spoken(attributes[..|attributes| - 1]) + if last.OtherAttribute? then [] else [last.spelling]
  }

  /** Texts with a blank between them. */
  function Words(texts: seq<string>): string {
    if texts == [] then "" else if |texts| == 1 then texts[0]
    else Words(texts[..|texts| - 1]) + (" " + texts[|texts| - 1])
  }

  lemma {:induction false} JoinedWords(texts: seq<string>)
    ensures Joined(texts) == Words(texts)
    decreases |texts|
  {
    if |texts| > 1 {
      var (n, rest) := (|texts| - 1, texts[1..]);
      JoinedWords(rest);
      JoinedWords(texts[..n]);
      assert texts[..n][1..] == rest[..n - 1] && rest[n - 1] == texts[n];
      if n > 1 {
        JoinedWords(rest[..n - 1]);
        assert Joined(texts[..n]) == texts[0] + " " + Joined(rest[..n - 1]);
        assert texts[0] + " " + (Words(rest[..n - 1]) + (" " + texts[n]))
            == (texts[0] + " " + Words(rest[..n - 1])) + (" " + texts[n]);
      } else {
        assert texts[..1] == [texts[0]] && rest == [texts[1]];
      }
    }
  }

  lemma OneMore(attributes: seq<Attribute>, n: nat)
    requires n < |attributes|
    ensures SeeAll(NOTHING, attributes[..n + 1]) == See(SeeAll(NOTHING, attributes[..n]), attributes[n])
    ensures attributes[..n + 1][..n] == attributes[..n]
  {
    assert attributes[..n + 1] == attributes[..n] + [attributes[n]];
    SeeAllAppend(NOTHING, attributes[..n], [attributes[n]]);
    assert [attributes[n]][1..] == [];
  }

  /** Before anything fails, all texts are collected and all conventions named so far are the one found. */
  lemma {:induction false} Progress(attributes: seq<Attribute>, n: nat)
    requires n <= |attributes| && NoneFails(attributes, n)
    ensures var s := SeeAll(NOTHING, attributes[..n]);
            && s.ok && s.spellings == Spoken(attributes[..n])
            && (forall j :: 0 <= j < n && attributes[j].Modeled? ==> s.found == Some(attributes[j].convention))
            && (s.found.Some? ==>
                  exists j :: 0 <= j < n && attributes[j].Modeled? && attributes[j].convention == s.found.value)
  {
    if n > 0 {
      var k := n - 1;
      Progress(attributes, k);
      OneMore(attributes, k);
      assert !Fails(attributes, k);
    }
  }

  lemma FailsAt(attributes: seq<Attribute>, k: nat)
    requires k < |attributes| && NoneFails(attributes, k) && Fails(attributes, k)
    ensures ConventionOf(attributes) == BadConvention(Words(Spoken(attributes[..k + 1])))
  {
    Progress(attributes, k);
    OneMore(attributes, k);
    var s := SeeAll(NOTHING, attributes[..k + 1]);
    assert attributes == attributes[..k + 1] + attributes[k + 1..];
    SeeAllAppend(NOTHING, attributes[..k + 1], attributes[k + 1..]);
    FailureStays(s, attributes[k + 1..]);
    JoinedWords(s.spellings);
  }

  /** A list is bad exactly when some attribute is malformed or disagrees, and then it is reported with the texts up
      to the first such attribute. */
  lemma {:induction false} BadMeans(attributes: seq<Attribute>, n: nat)
    requires n <= |attributes| && NoneFails(attributes, n)
    ensures NoneFails(attributes, |attributes|) <==> !ConventionOf(attributes).BadConvention?
    ensures !NoneFails(attributes, |attributes|) ==>
              exists k :: 0 <= k < |attributes| && NoneFails(attributes, k) && Fails(attributes, k)
                          && ConventionOf(attributes) == BadConvention(Words(Spoken(attributes[..k + 1])))
    decreases |attributes| - n
  {
    if n == |attributes| {
      Progress(attributes, n);
      assert attributes[..n] == attributes;
    } else if Fails(attributes, n) {
      FailsAt(attributes, n);
    } else {
      BadMeans(attributes, n + 1);
    }
  }
}
