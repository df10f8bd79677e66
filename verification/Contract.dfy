/** The source contract (src/contract): packages, declarations, types and diagnostics,
    with the fields that checking, completion and composition look at.  Data that is only
    carried or compared whole (names, spellings, provenance, fingerprints) is kept as text. */
module Contract {
  import opened Wrappers
  import opened Tables

  /** A declaration, file, macro or occurrence id: a digest, compared byte by byte.  Only
      equality and the total order matter here. */
  type Id = nat

  datatype SourceRange = SourceRange(file: Id, start: nat, end: nat)

  datatype SupportStatus =
    | Supported
    | PartialSupport(code: string, reason: string)
    | NoSupport(code: string, reason: string)

  datatype Qualifiers = Qualifiers(isConst: bool, isVolatile: bool, isRestrict: bool, isAtomic: bool)

  const NO_QUALIFIERS := Qualifiers(false, false, false, false)

  datatype Nullability = Unspecified | Nonnull | Nullable | NullUnspecified

  datatype CallingConvention = DefaultConvention | NamedConvention(name: string) | BadConvention(spelling: string)

  datatype Prototype = Prototyped(variadic: bool) | UnspecifiedParameters

  datatype ArrayBound =
    | Fixed(elements: nat)
    | Incomplete
    | Flexible
    | Variable(expression: string)
    | StaticMinimum(minimum: nat)
    | StaticVariable(expression: string)
    | InvalidBound(spelling: string)

  datatype CType = CType(qualifiers: Qualifiers, nullability: Nullability, kind: CTypeKind, support: SupportStatus)

  datatype CTypeKind =
    | Void
    | Scalar(name: string)
    | Pointer(pointee: CType)
    | Array(element: CType, bound: ArrayBound, parameterQualifiers: Qualifiers)
    | Function(returnType: CType, parameters: seq<CParameter>, prototype: Prototype, convention: CallingConvention)
    | AliasRef(id: Id)
    | RecordRef(id: Id)
    | EnumRef(id: Id)
    | UnsupportedType(spelling: string)

  datatype CParameter = CParameter(name: Option<string>, ty: CType)

  /** An attribute; `blocking` is the disposition "unsupported and ABI relevant". */
  datatype Attribute = Attribute(spelling: string, blocking: bool)

  datatype Occurrence = Occurrence(
    id: Id, range: SourceRange, spelling: string, attributes: seq<Attribute>, detail: string)

  /** A function parameter or a record field. */
  datatype Member = Member(ty: CType, attributes: seq<Attribute>, support: SupportStatus, detail: string)

  datatype Variant = Variant(name: string, attributes: seq<Attribute>, support: SupportStatus, detail: string)

  datatype RecordKind = Struct | Union

  datatype DeclarationKind =
    | FunctionKind(linkName: string, returnType: CType, parameters: seq<Member>,
                   prototype: Prototype, convention: CallingConvention)
    | RecordKind(recordKind: RecordKind, complete: bool, fields: seq<Member>)
    | EnumKind(underlying: Option<CType>, variants: seq<Variant>)
    | AliasKind(target: CType)
    | VariableKind(linkName: string, ty: CType, threadLocal: bool)
    | UnsupportedKind(category: string, spelling: string, code: string)

  datatype Scope = TranslationUnit | FileScope(file: Id) | OwnerScope(owner: Id)

  /** `header` stands for the identity key, name, linkage and visibility. */
  datatype Declaration = Declaration(
    id: Id, scope: Scope, header: string, occurrences: seq<Occurrence>,
    support: SupportStatus, kind: DeclarationKind)

  datatype File = File(id: Id, isEntry: bool, detail: string)

  /** `header` stands for the identity file, name, form, category, body, tokens and value. */
  datatype Macro = Macro(id: Id, header: string, support: SupportStatus, occurrences: seq<Occurrence>)

  datatype Stage = Configuration | Preprocess | Parse | Recovery | Extract | ContractStage {
    function Rank(): nat {
      match this
      case Configuration => 0
      case Preprocess => 1
      case Parse => 2
      case Recovery => 3
      case Extract => 4
      case ContractStage => 5
    }
  }

  datatype Severity = Note | Warning | Error {
    function Rank(): nat { if Note? then 0 else if Warning? then 1 else 2 }
  }

  datatype Impact = Informational | ForcesPartial | ForcesRejected {
    function Rank(): nat { if Informational? then 0 else if ForcesPartial? then 1 else 2 }
  }

  datatype Diagnostic = Diagnostic(
    code: string, stage: Stage, severity: Severity, impact: Impact, message: string,
    range: Option<SourceRange>, declaration: Option<Id>)

  datatype Reason = Reason(code: string, message: string, range: Option<SourceRange>)

  datatype Completeness = Complete | PartialPackage(reasons: seq<Reason>) | Rejected(reasons: seq<Reason>)

  /** `settings` stands for the six input fields that must agree exactly. */
  datatype Inputs = Inputs(entryFiles: seq<Id>, settings: string)

  datatype Package = Package(
    target: string, files: seq<File>, inputs: Inputs, declarations: seq<Declaration>,
    macros: seq<Macro>, diagnostics: seq<Diagnostic>, completeness: Completeness)

  datatype Selection = AllSupported | Only(ids: seq<Id>) | OpaqueOnly(ids: seq<Id>)

  // ----- the canonical orders ------------------------------------------------------------

  function Self<T>(x: T): T { x }

  predicate IdLess(a: Id, b: Id) { a < b }

  function FileKey(f: File): Id { f.id }
  function DeclarationKey(d: Declaration): Id { d.id }
  function OccurrenceKey(o: Occurrence): Id { o.id }
  function MacroKey(m: Macro): Id { m.id }

  const FILES := Schema(FileKey, IdLess)
  const DECLARATIONS := Schema(DeclarationKey, IdLess)
  const OCCURRENCES := Schema(OccurrenceKey, IdLess)
  const MACROS := Schema(MacroKey, IdLess)
  const IDS := Schema(Self<Id>, IdLess)
  const REASONS := Schema(Self<Reason>, ReasonLess)
  const DIAGNOSTICS := Schema(Self<Diagnostic>, DiagnosticLess)

  /** Code-point order, which is also the order of the UTF-8 bytes. */
  predicate TextLess(a: string, b: string) {
    if b == [] then false
    else if a == [] then true
    else a[0] < b[0] || (a[0] == b[0] && TextLess(a[1..], b[1..]))
  }

  predicate RangeLess(a: Option<SourceRange>, b: Option<SourceRange>) {
    match (a, b)
    case (_, None) => false
    case (None, Some(_)) => true
    case (Some(x), Some(y)) =>
      x.file < y.file
      || (x.file == y.file && (x.start < y.start || (x.start == y.start && x.end < y.end)))
  }

  predicate ReasonLess(a: Reason, b: Reason) {
    if a.code != b.code then TextLess(a.code, b.code)
    else if a.message != b.message then TextLess(a.message, b.message)
    else RangeLess(a.range, b.range)
  }

  predicate DeclarationLess(a: Option<Id>, b: Option<Id>) {
    b.Some? && (a.None? || a.value < b.value)
  }

  predicate DiagnosticLess(a: Diagnostic, b: Diagnostic) {
    if a.code != b.code then TextLess(a.code, b.code)
    else if a.stage != b.stage then a.stage.Rank() < b.stage.Rank()
    else if a.severity != b.severity then a.severity.Rank() < b.severity.Rank()
    else if a.impact != b.impact then a.impact.Rank() < b.impact.Rank()
    else if a.message != b.message then TextLess(a.message, b.message)
    else if a.range != b.range then RangeLess(a.range, b.range)
    else DeclarationLess(a.declaration, b.declaration)
  }

  lemma {:induction false} TextOrder(a: string, b: string, c: string)
    ensures !TextLess(a, a)
    ensures a == b || TextLess(a, b) || TextLess(b, a)
    ensures TextLess(a, b) && TextLess(b, c) ==> TextLess(a, c)
  {
    if a != [] {
      TextOrder(a[1..], if b == [] then [] else b[1..], if c == [] then [] else c[1..]);
      if b != [] && a[0] == b[0] && a[1..] == b[1..] {
        assert a == [a[0]] + a[1..] == b;
      }
    }
  }

  lemma ReasonsOrdered()
    ensures REASONS.Valid()
  {
    forall a: Reason, b: Reason, c: Reason
      ensures !ReasonLess(a, a) && (a == b || ReasonLess(a, b) || ReasonLess(b, a))
      ensures ReasonLess(a, b) && ReasonLess(b, c) ==> ReasonLess(a, c)
    {
      TextOrder(a.code, b.code, c.code);
      TextOrder(b.code, c.code, a.code);
      TextOrder(a.message, b.message, c.message);
      TextOrder(b.message, c.message, a.message);
    }
  }

  lemma DiagnosticsOrdered()
    ensures DIAGNOSTICS.Valid()
  {
    forall a: Diagnostic, b: Diagnostic, c: Diagnostic
      ensures !DiagnosticLess(a, a) && (a == b || DiagnosticLess(a, b) || DiagnosticLess(b, a))
      ensures DiagnosticLess(a, b) && DiagnosticLess(b, c) ==> DiagnosticLess(a, c)
    {
      TextOrder(a.code, b.code, c.code);
      TextOrder(b.code, c.code, a.code);
      TextOrder(a.message, b.message, c.message);
      TextOrder(b.message, c.message, a.message);
    }
  }

  // ----- look-ups ------------------------------------------------------------------------

  function Find(declarations: seq<Declaration>, id: Id): Option<Declaration> {
    Lookup(DECLARATIONS, declarations, id)
  }

  predicate Known(declarations: seq<Declaration>, id: Id) {
    Find(declarations, id).Some?
  }

  function ReasonOf(d: Diagnostic): Reason { Reason(d.code, d.message, d.range) }

  function ReasonsOf(diagnostics: seq<Diagnostic>): seq<Reason> {
    seq(|diagnostics|, i requires 0 <= i < |diagnostics| => ReasonOf(diagnostics[i]))
  }

  /** `SourcePackage::declaration`: the binary search over the ordered table. */
  method BinarySearch(declarations: seq<Declaration>, id: Id) returns (r: Option<Declaration>)
    requires Sorted(DECLARATIONS, declarations)
    ensures r == Find(declarations, id)
  {
    var low, high := 0, |declarations|;
    while low < high
      invariant 0 <= low <= high <= |declarations|
      invariant forall i :: 0 <= i < low ==> declarations[i].id < id
      invariant forall i :: high <= i < |declarations| ==> id < declarations[i].id
    {
      var middle := (low + high) / 2;
      if declarations[middle].id < id {
        low := middle + 1;
      } else if id < declarations[middle].id {
        high := middle;
      } else {
        LookupSorted(DECLARATIONS, declarations, declarations[middle]);
        return Some(declarations[middle]);
      }
    }
    LookupFinds(DECLARATIONS, declarations, id);
    return None;
  }
}
