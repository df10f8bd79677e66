/** Occurrence ids (`add_occurrence` in src/extract/mod.rs, `remap_extraction` in src/scan/mod.rs): an
    occurrence is numbered among those of its declaration with the same tokens, and its id is the digest
    of declaration, file, tokens and number.  Whatever files the ranges are mapped to, no two occurrences
    of a declaration get the same id, as the validator demands. */
module OccurrenceIds {
  import opened Framing
  import opened Tables
  import opened Contract
  import opened Extract
  import I = Identity
  import X = Extractor

  type Tokens = seq<Field>

  /** How often `key` occurs. */
  function Count<T(==)>(s: seq<T>, key: T): nat {
    if s == [] then 0 else Count(s[..|s| - 1], key) + if s[|s| - 1] == key then 1 else 0
  }

  lemma CountPush<T>(s: seq<T>, x: T, key: T)
    ensures Count(s + [x], key) == Count(s, key) + if x == key then 1 else 0
  {
    assert (s + [x])[..|s|] == s;
  }

  /** `occurrence_ordinals`, with the requests made so far. */
  class OccurrenceOrdinals {
    var ordinals: map<(Id, Tokens), nat>
    ghost var requests: seq<(Id, Tokens)>

    ghost predicate Valid()
      reads this
    {
      forall key :: Count(requests, key) == if key in ordinals then ordinals[key] else 0
    }

    constructor ()
      ensures Valid() && requests == []
    {
      ordinals, requests := map[], [];
    }

    /** The number of an occurrence is that of the equal ones before it. */
    method Next(id: Id, tokens: Tokens) returns (ordinal: nat)
      requires Valid()
      modifies this
      ensures Valid() && requests == old(requests) + [(id, tokens)]
      ensures ordinal == Count(old(requests), (id, tokens)) == Count(Own(old(requests), id), tokens)
    {
      var key := (id, tokens);
      ordinal := if key in ordinals then ordinals[key] else 0;
      ordinals := ordinals[key := ordinal + 1];
      forall other { CountPush(requests, key, other); }
      CountOwn(requests, id, tokens);
      requests := requests + [key];
    }
  }

  /** The tokens of the occurrences of one declaration, in order. */
  function Own(requests: seq<(Id, Tokens)>, id: Id): seq<Tokens> {
    if requests == [] then []
    else
      var n := |requests| - 1;
      Own(requests[..n], id) + if requests[n].0 == id then [requests[n].1] else []
  }

  /** Numbering across declarations is numbering inside each. */
  lemma {:induction false} CountOwn(requests: seq<(Id, Tokens)>, id: Id, tokens: Tokens)
    ensures Count(requests, (id, tokens)) == Count(Own(requests, id), tokens)
    decreases |requests|
  {
    if requests != [] {
      var n := |requests| - 1;
      CountOwn(requests[..n], id, tokens);
      if requests[n].0 == id {
        CountPush(Own(requests[..n], id), requests[n].1, tokens);
      } else {
        assert Own(requests, id) == Own(requests[..n], id);
      }
    }
  }

  lemma {:induction false} CountGrows<T>(s: seq<T>, i: nat, j: nat, key: T)
    requires i <= j <= |s|
    ensures Count(s[..i], key) <= Count(s[..j], key)
    decreases j
  {
    if i < j {
      assert s[..j][..j - 1] == s[..j - 1];
      CountGrows(s, i, j - 1, key);
    }
  }

  /** Two equal requests get different numbers. */
  lemma NumbersDiffer<T>(s: seq<T>, i: nat, j: nat)
    requires i < j < |s| && s[i] == s[j]
    ensures Count(s[..i], s[i]) < Count(s[..j], s[j])
  {
    assert s[..i + 1][..i] == s[..i] && s[..i + 1][i] == s[i];
    CountGrows(s, i + 1, j, s[i]);
  }

  // ----- ids -----------------------------------------------------------------------------

  /** Tokens and number fit the 64-bit fields of the framing. */
  predicate Fits(tokens: seq<Tokens>) {
    |tokens| < TWO_64 && forall t :: t in tokens ==> |Frames(t)| < TWO_64
  }

  lemma {:induction false} CountBound<T>(s: seq<T>, key: T)
    ensures Count(s, key) <= |s|
    decreases |s|
  {
    if s != [] { CountBound(s[..|s| - 1], key); }
  }

  /** Occurrence `i` of the declaration `owner`, in the file its range is mapped to. */
  function Numbered(owner: Field, files: seq<Field>, tokens: seq<Tokens>, i: nat): I.Occurrence
    requires i < |tokens| == |files| && Fits(tokens)
  {
    CountBound(tokens[..i], tokens[i]);
    I.Occurrence(owner, files[i], tokens[i], Count(tokens[..i], tokens[i]))
  }

  lemma NumberedDiffer(owner: Field, files: seq<Field>, tokens: seq<Tokens>, i: nat, j: nat)
    requires i < j < |tokens| == |files| && Fits(tokens)
    ensures Frames(I.OccurrenceFields(Numbered(owner, files, tokens, i)))
         != Frames(I.OccurrenceFields(Numbered(owner, files, tokens, j)))
  {
    var a, b := Numbered(owner, files, tokens, i), Numbered(owner, files, tokens, j);
    if tokens[i] == tokens[j] { NumbersDiffer(tokens, i, j); }
    assert a != b;
    I.OccurrenceInjective(a, b);
  }

  ghost predicate Injective(digest: string -> Id) { forall a, b :: digest(a) == digest(b) ==> a == b }

  /** The ids of `occurrences` are the digests of the numbered occurrences. */
  ghost predicate Derived(occurrences: seq<Occurrence>, owner: Field, files: seq<Field>, tokens: seq<Tokens>,
                          digest: string -> Id)
  {
    && |occurrences| == |tokens| == |files| && Fits(tokens)
    && forall i :: 0 <= i < |tokens| ==>
         occurrences[i].id == digest(Frames(I.OccurrenceFields(Numbered(owner, files, tokens, i))))
  }

  predicate DistinctIds(occurrences: seq<Occurrence>) {
    forall i, j :: 0 <= i < j < |occurrences| ==> occurrences[i].id != occurrences[j].id
  }

  lemma DerivedDistinct(occurrences: seq<Occurrence>, owner: Field, files: seq<Field>, tokens: seq<Tokens>,
                        digest: string -> Id)
    requires Injective(digest) && Derived(occurrences, owner, files, tokens, digest)
    ensures DistinctIds(occurrences)
  {
    hide Numbered, Fits, Frames, I.OccurrenceFields;
    forall i, j | 0 <= i < j < |occurrences| ensures occurrences[i].id != occurrences[j].id {
      NumberedDiffer(owner, files, tokens, i, j);
    }
  }

  // ----- what extraction emits -----------------------------------------------------------

  /** The occurrences that a run places on `id`. */
  function Placed(steps: seq<Step>, id: Id): seq<Occurrence>
    decreases steps
  {
    if steps == [] then []
    else PlacedBy(steps[0], id) + Placed(steps[1..], id)
  }

  function PlacedBy(step: Step, id: Id): seq<Occurrence> {
    if step.AddOccurrence? && step.id == id && step.place.At? then [step.place.occurrence] else []
  }

  lemma StepPlaces(s: State, step: Step, id: Id)
    ensures DraftOf(Stepped(s, step), id).occurrences == DraftOf(s, id).occurrences + PlacedBy(step, id)
  {
    var before := DraftOf(s, id).occurrences;
    assert before + [] == before;
    match step
    case SetKind(_, _) =>
    case AddOccurrence(_, _) =>
    case _ =>
      StepWeakens(s, step);
      assert OnlyWeakensAt(DraftOf(s, id), DraftOf(Stepped(s, step), id));
  }

  lemma {:induction false} RunPlaces(s: State, steps: seq<Step>, id: Id)
    ensures DraftOf(Run(s, steps), id).occurrences == DraftOf(s, id).occurrences + Placed(steps, id)
    decreases steps
  {
    hide Stepped;
    if steps != [] {
      StepPlaces(s, steps[0], id);
      RunPlaces(Stepped(s, steps[0]), steps[1..], id);
    }
  }

  /** Distinct ids come out strictly ordered. */
  lemma SortedStrictly(s: seq<Occurrence>)
    requires DistinctIds(s)
    ensures Sorted(OCCURRENCES, X.SortById(s)) && (s != [] ==> X.SortById(s) != [])
  {
    var t := X.SortById(s);
    X.SortByIdSpec(s);
    assert |t| == |multiset(t)| == |multiset(s)| == |s|;
    forall i, j | 0 <= i < j < |t| ensures t[i].id < t[j].id {
      if t[i].id == t[j].id { TwiceInMultiset(s, t, i, j); }
    }
  }

  lemma TwiceInMultiset(s: seq<Occurrence>, t: seq<Occurrence>, i: nat, j: nat)
    requires multiset(s) == multiset(t) && i < j < |t| && t[i].id == t[j].id
    ensures !DistinctIds(s)
  {
    if t[i] != t[j] {
      assert t[i] in multiset(t) && t[j] in multiset(t);
      var a :| 0 <= a < |s| && s[a] == t[i];
      var b :| 0 <= b < |s| && s[b] == t[j];
      assert s[a].id == s[b].id && a != b;
    } else {
      CountedTwice(t, i, j);
      var a, b := TwoPlaces(s, t[i]);
      assert s[a].id == s[b].id;
    }
  }

  lemma CountedTwice<T>(t: seq<T>, i: nat, j: nat)
    requires i < j < |t| && t[i] == t[j]
    ensures multiset(t)[t[i]] >= 2
  {
    assert t == t[..j] + [t[j]] + t[j + 1..] && t[..j][i] == t[i];
  }

  lemma TwoPlaces<T>(s: seq<T>, x: T) returns (a: nat, b: nat)
    requires multiset(s)[x] >= 2
    ensures a < b < |s| && s[a] == s[b] == x
  {
    assert x in multiset(s);
    a :| 0 <= a < |s| && s[a] == x;
    var front, back := s[..a], s[a + 1..];
    assert s == front + [x] + back;
    if x in front {
      b := a;
      a :| 0 <= a < |front| && front[a] == x;
    } else {
      assert multiset(front)[x] == 0 && multiset(back)[x] >= 1;
      var k :| 0 <= k < |back| && back[k] == x;
      b := a + 1 + k;
    }
  }

  lemma NothingPlaced(steps: seq<Step>, id: Id)
    ensures DraftOf(START, id).occurrences + Placed(steps, id) == Placed(steps, id)
  {
  }

  lemma EmittedSorted(metadata: map<Id, Meta>, s: State, id: Id)
    requires s.drafts.Keys <= metadata.Keys && X.EmittedAt(metadata, s.drafts, id).Some?
    ensures X.EmittedAt(metadata, s.drafts, id).value.occurrences == X.SortById(DraftOf(s, id).occurrences)
    ensures DraftOf(s, id).occurrences != []
  {
    hide X.SortById;
  }

  /** Wherever the ranges are mapped to, the occurrences sort into strictly ascending ids. */
  lemma DerivedSorted(occurrences: seq<Occurrence>, owner: Field, files: seq<Field>, tokens: seq<Tokens>,
                      digest: string -> Id)
    requires Injective(digest) && Derived(occurrences, owner, files, tokens, digest)
    ensures Sorted(OCCURRENCES, X.SortById(occurrences))
    ensures multiset(X.SortById(occurrences)) == multiset(occurrences)
    ensures occurrences != [] ==> X.SortById(occurrences) != []
  {
    hide Derived, Injective, Sorted;
    DerivedDistinct(occurrences, owner, files, tokens, digest);
    SortedStrictly(occurrences);
    X.SortByIdSpec(occurrences);
  }

  /** After every run, an emitted declaration passes the validator's checks on its occurrences: there is
      one, and their ids ascend strictly. */
  lemma EmittedOccurrences(metadata: map<Id, Meta>, steps: seq<Step>, id: Id, owner: Field, files: seq<Field>,
                           tokens: seq<Tokens>, digest: string -> Id)
    requires Run(START, steps).drafts.Keys <= metadata.Keys
    requires X.EmittedAt(metadata, Run(START, steps).drafts, id).Some?
    requires Injective(digest) && Derived(Placed(steps, id), owner, files, tokens, digest)
    ensures var emitted := X.EmittedAt(metadata, Run(START, steps).drafts, id).value.occurrences;
            && emitted != [] && Sorted(OCCURRENCES, emitted) && multiset(emitted) == multiset(Placed(steps, id))
  {
    hide Run, Derived, Injective, Sorted, X.EmittedAt, X.SortById, Placed;
    EmittedSorted(metadata, Run(START, steps), id);
    RunPlaces(START, steps, id);
    NothingPlaced(steps, id);
    DerivedSorted(Placed(steps, id), owner, files, tokens, digest);
  }
}
