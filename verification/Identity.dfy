/** The field lists that the ids of entities, occurrences and children are digests of
    (src/contract/ids.rs).  The digest itself is taken to be injective. */
module Identity {
  import opened Framing

  datatype Namespace = Ordinary | Tag

  /** Ids inside a scope are the bytes of their digests. */
  datatype EntityScope = TranslationUnit | FileScope(file: Field) | OwnerScope(owner: Field)

  datatype Entity =
    | Named(namespace: Namespace, scope: EntityScope, name: Field)
    | Anonymous(scope: EntityScope, tokenDigest: Field, ordinal: U64)

  function NamespaceLabel(n: Namespace): Field { match n case Ordinary => "ordinary" case Tag => "tag" }

  function ScopeFields(s: EntityScope): seq<Field> {
    match s
    case TranslationUnit => ["translation-unit"]
    case FileScope(file) => ["file", file]
    case OwnerScope(owner) => ["owner", owner]
  }

  /** `EntityId::named` and `EntityId::anonymous`. */
  function EntityFields(e: Entity): seq<Field> {
    match e
    case Named(namespace, scope, name) => [NamespaceLabel(namespace)] + (ScopeFields(scope) + [name])
    case Anonymous(scope, digest, ordinal) => ["anonymous"] + (ScopeFields(scope) + [digest, Word64(ordinal)])
  }

  lemma ScopeTags(a: EntityScope, b: EntityScope)
    requires ScopeFields(a)[0] == ScopeFields(b)[0]
    ensures |ScopeFields(a)| == |ScopeFields(b)|
    ensures (a.TranslationUnit? <==> b.TranslationUnit?) && (a.FileScope? <==> b.FileScope?)
  {
  }

  lemma ScopeSplits(a: EntityScope, r: seq<Field>, b: EntityScope, s: seq<Field>)
    requires ScopeFields(a) + r == ScopeFields(b) + s
    ensures a == b && r == s
  {
    var x, y := ScopeFields(a), ScopeFields(b);
    assert (x + r)[0] == x[0] && (y + s)[0] == y[0];
    ScopeTags(a, b);
    Peel(x, r, y, s);
    if !a.TranslationUnit? { assert x[1] == y[1]; }
  }

  lemma EntityLabels(a: Entity, b: Entity)
    requires EntityFields(a)[0] == EntityFields(b)[0]
    ensures a.Named? <==> b.Named?
    ensures a.Named? ==> a.namespace == b.namespace
  {
  }

  lemma EntityFieldsInjective(a: Entity, b: Entity)
    requires EntityFields(a) == EntityFields(b)
    ensures a == b
  {
    EntityLabels(a, b);
    if a.Named? {
      var r, s := ScopeFields(a.scope) + [a.name], ScopeFields(b.scope) + [b.name];
      Peel([NamespaceLabel(a.namespace)], r, [NamespaceLabel(b.namespace)], s);
      ScopeSplits(a.scope, [a.name], b.scope, [b.name]);
      assert [a.name][0] == [b.name][0];
    } else {
      var x, y := [a.tokenDigest, Word64(a.ordinal)], [b.tokenDigest, Word64(b.ordinal)];
      Peel(["anonymous"], ScopeFields(a.scope) + x, ["anonymous"], ScopeFields(b.scope) + y);
      ScopeSplits(a.scope, x, b.scope, y);
      assert x[0] == y[0] && x[1] == y[1];
      WordsInjective();
    }
  }

  /** Two entities, named or anonymous, in whatever scopes, are hashed from the same bytes exactly
      when they are the same. */
  lemma EntityInjective(a: Entity, b: Entity)
    ensures Frames(EntityFields(a)) == Frames(EntityFields(b)) <==> a == b
  {
    hide EntityFields;
    if Frames(EntityFields(a)) == Frames(EntityFields(b)) {
      FramesInjective(EntityFields(a), EntityFields(b));
      EntityFieldsInjective(a, b);
    }
  }

  /** An occurrence of a declaration or macro: its id, file, tokens and duplicate ordinal. */
  datatype Occurrence = Occurrence(owner: Field, file: Field, tokens: seq<Field>, ordinal: U64)

  /** `OccurrenceId::derive` with the framed tokens as one field. */
  function OccurrenceFields(o: Occurrence): seq<Field>
    requires |Frames(o.tokens)| < TWO_64
  {
    [o.owner, o.file, Frames(o.tokens), Word64(o.ordinal)]
  }

  lemma OccurrenceInjective(a: Occurrence, b: Occurrence)
    requires |Frames(a.tokens)| < TWO_64 && |Frames(b.tokens)| < TWO_64
    ensures Frames(OccurrenceFields(a)) == Frames(OccurrenceFields(b)) <==> a == b
  {
    var x, y := OccurrenceFields(a), OccurrenceFields(b);
    if Frames(x) == Frames(y) {
      FramesInjective(x, y);
      assert x[0] == y[0] && x[1] == y[1] && x[2] == y[2] && x[3] == y[3];
      FramesInjective(a.tokens, b.tokens);
      WordsInjective();
    }
  }

  datatype Role = Parameter | Field_ | EnumVariant

  function RoleLabel(r: Role): Field {
    match r case Parameter => "parameter" case Field_ => "field" case EnumVariant => "enum-variant"
  }

  /** A child of a declaration: a parameter by position, a member by name, or one without a name by
      its tokens. */
  datatype Child =
    | ParameterAt(parent: Field, ordinal: U64)
    | NamedChild(parent: Field, role: Role, name: Field)
    | UnnamedChild(parent: Field, role: Role, tokens: seq<Field>, ordinal: U64)

  function RoleOf(c: Child): Role { if c.ParameterAt? then Parameter else c.role }

  /** What the source asks of a child: parameters are not named, names are not empty. */
  predicate ChildAllowed(c: Child) {
    match c
    case ParameterAt(_, _) => true
    case NamedChild(_, role, name) => role != Parameter && name != ""
    case UnnamedChild(_, _, tokens, _) => |Frames(tokens)| < TWO_64
  }

  function ChildKey(c: Child): Field
    requires ChildAllowed(c)
  {
    match c
    case ParameterAt(_, _) => "semantic-ordinal"
    case NamedChild(_, _, name) => name
    case UnnamedChild(_, _, tokens, _) => Frames(tokens)
  }

  function ChildOrdinal(c: Child): U64 { if c.NamedChild? then 0 else c.ordinal }

  /** `ChildId::derive`. */
  function ChildFields(c: Child): seq<Field>
    requires ChildAllowed(c)
  {
    [c.parent, RoleLabel(RoleOf(c)), ChildKey(c), Word64(ChildOrdinal(c))]
  }

  lemma RoleLabels(a: Role, b: Role)
    requires RoleLabel(a) == RoleLabel(b)
    ensures a == b
  {
  }

  /** Children are told apart by their bytes except where a name, or the parameter key, is itself
      the framing of an unnamed child's tokens. */
  lemma ChildrenCollide(a: Child, b: Child)
    requires ChildAllowed(a) && ChildAllowed(b)
    ensures Frames(ChildFields(a)) == Frames(ChildFields(b))
       <==> && a.parent == b.parent && RoleOf(a) == RoleOf(b)
            && ChildKey(a) == ChildKey(b) && ChildOrdinal(a) == ChildOrdinal(b)
    ensures Frames(ChildFields(a)) == Frames(ChildFields(b)) && (a.UnnamedChild? <==> b.UnnamedChild?) ==> a == b
  {
    var x, y := ChildFields(a), ChildFields(b);
    if Frames(x) == Frames(y) {
      FramesInjective(x, y);
      assert x[0] == y[0] && x[1] == y[1] && x[2] == y[2] && x[3] == y[3];
      RoleLabels(RoleOf(a), RoleOf(b));
      WordsInjective();
      if a.UnnamedChild? && b.UnnamedChild? { FramesInjective(a.tokens, b.tokens); }
    }
  }

  lemma {:induction false} HighByteZero(n: nat, k: nat, m: nat)
    requires n < Power(k) && k < m
    ensures LittleEndian(n, m)[k] == '\0'
    decreases k
  {
    if k > 0 { HighByteZero(n / 256, k - 1, m - 1); }
  }

  lemma FramesStart(tokens: seq<Field>)
    requires tokens != []
    ensures |Frames(tokens)| >= 8 && Frames(tokens)[7] == Word64(|tokens[0]|)[7]
  {
  }

  /** A framing of tokens shorter than 2 to the 56th has a zero byte, which no name has: the two
      never collide. */
  lemma NamesAreNotFramings(name: Field, tokens: seq<Field>)
    requires name != "" && '\0' !in name
    requires forall t :: t in tokens ==> |t| < Power(7)
    ensures name != Frames(tokens)
  {
    if tokens != [] {
      assert tokens[0] in tokens;
      FramesStart(tokens);
      HighByteZero(|tokens[0]|, 7, 8);
    }
  }

  /** Names have no zero byte, and no token has 2 to the 56th bytes. */
  predicate Plain(c: Child) {
    match c
    case ParameterAt(_, _) => true
    case NamedChild(_, _, name) => '\0' !in name
    case UnnamedChild(_, _, tokens, _) => forall t :: t in tokens ==> |t| < Power(7)
  }

  lemma KeysApart(a: Child, b: Child)
    requires ChildAllowed(a) && ChildAllowed(b) && Plain(a) && Plain(b)
    requires a.UnnamedChild? && !b.UnnamedChild?
    ensures ChildKey(a) != ChildKey(b)
  {
    hide Frames;
    NamesAreNotFramings(ChildKey(b), a.tokens);
  }

  /** Two children, however they are named, are hashed from the same bytes exactly when they are the
      same. */
  lemma ChildInjective(a: Child, b: Child)
    requires ChildAllowed(a) && ChildAllowed(b) && Plain(a) && Plain(b)
    ensures Frames(ChildFields(a)) == Frames(ChildFields(b)) <==> a == b
  {
    hide ChildFields, ChildKey, Frames;
    ChildrenCollide(a, b);
    if a.UnnamedChild? && !b.UnnamedChild? { KeysApart(a, b); }
    if b.UnnamedChild? && !a.UnnamedChild? { KeysApart(b, a); }
  }
}
