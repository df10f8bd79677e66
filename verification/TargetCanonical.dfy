/** The canonical target encoding (src/contract/target.rs): the bytes that a target fingerprint is
    taken of. */
module TargetCanonical {
  import opened Wrappers
  import opened Framing

  const TARGET_CANONICAL_FORMAT := "follang.parc.target-canonical.v1"

  datatype Architecture =
    | X86 | X8664 | Arm | Aarch64 | RiscV32 | RiscV64 | PowerPc
    | PowerPc64 | S390x | Mips | Mips64 | Sparc64 | Wasm32 | Wasm64

  datatype OperatingSystem =
    | Linux | AndroidOs | Darwin | MacOs | Ios | TvOs
    | WatchOs | WindowsOs | FreeBsd | NetBsd | OpenBsd | DragonFly | NoSystem

  datatype Environment =
    | NoEnvironment | GnuEnvironment | GnuAbi64 | Musl
    | MsvcEnvironment | AndroidEnvironment | Eabi | Eabihf | Simulator

  datatype ObjectFormat = Elf | MachO | Coff | WasmFormat | Xcoff

  datatype Endian = Little | Big

  datatype LanguageStandard = C89 | C95 | C99 | C11 | C17 | C23

  datatype ExtensionFamily = Strict | GnuFamily | ClangFamily | MsvcFamily

  datatype CompilerFamily = Gcc | Clang | AppleClang | Msvc

  datatype Signedness = Signed | Unsigned

  datatype Representation = TwosComplement | OnesComplement | SignMagnitude

  function ArchitectureName(x: Architecture): Field {
    match x
    case X86 => "x86"
    case X8664 => "x86_64"
    case Arm => "arm"
    case Aarch64 => "aarch64"
    case RiscV32 => "riscv32"
    case RiscV64 => "riscv64"
    case PowerPc => "power_pc"
    case PowerPc64 => "power_pc64"
    case S390x => "s390x"
    case Mips => "mips"
    case Mips64 => "mips64"
    case Sparc64 => "sparc64"
    case Wasm32 => "wasm32"
    case Wasm64 => "wasm64"
  }

  function OperatingSystemName(x: OperatingSystem): Field {
    match x
    case Linux => "linux"
    case AndroidOs => "android"
    case Darwin => "darwin"
    case MacOs => "mac_os"
    case Ios => "ios"
    case TvOs => "tv_os"
    case WatchOs => "watch_os"
    case WindowsOs => "windows"
    case FreeBsd => "free_bsd"
    case NetBsd => "net_bsd"
    case OpenBsd => "open_bsd"
    case DragonFly => "dragon_fly"
    case NoSystem => "none"
  }

  function EnvironmentName(x: Environment): Field {
    match x
    case NoEnvironment => "none"
    case GnuEnvironment => "gnu"
    case GnuAbi64 => "gnu_abi64"
    case Musl => "musl"
    case MsvcEnvironment => "msvc"
    case AndroidEnvironment => "android"
    case Eabi => "eabi"
    case Eabihf => "eabihf"
    case Simulator => "simulator"
  }

  function ObjectFormatName(x: ObjectFormat): Field {
    match x
    case Elf => "elf"
    case MachO => "mach_o"
    case Coff => "coff"
    case WasmFormat => "wasm"
    case Xcoff => "xcoff"
  }

  function EndianName(x: Endian): Field {
    match x
    case Little => "little"
    case Big => "big"
  }

  function LanguageStandardName(x: LanguageStandard): Field {
    match x
    case C89 => "c89"
    case C95 => "c95"
    case C99 => "c99"
    case C11 => "c11"
    case C17 => "c17"
    case C23 => "c23"
  }

  function ExtensionFamilyName(x: ExtensionFamily): Field {
    match x
    case Strict => "strict"
    case GnuFamily => "gnu"
    case ClangFamily => "clang"
    case MsvcFamily => "msvc"
  }

  function CompilerFamilyName(x: CompilerFamily): Field {
    match x
    case Gcc => "gcc"
    case Clang => "clang"
    case AppleClang => "apple_clang"
    case Msvc => "msvc"
  }

  function SignednessName(x: Signedness): Field {
    match x
    case Signed => "signed"
    case Unsigned => "unsigned"
  }

  function RepresentationName(x: Representation): Field {
    match x
    case TwosComplement => "twos_complement"
    case OnesComplement => "ones_complement"
    case SignMagnitude => "sign_magnitude"
  }

  datatype ScalarLayout = ScalarLayout(storageBits: U16, alignmentBits: U16)

  datatype IntegerLayout = IntegerLayout(scalar: ScalarLayout, signedness: Signedness, representation: Representation)

  datatype FloatingFormat =
    | IeeeBinary32 | IeeeBinary64 | IeeeBinary128 | X87Extended80 | IbmDoubleDouble128
    | Decimal32 | Decimal64 | Decimal128
    | ExplicitFormat(name: Field, radix: U16, precisionBits: U16)

  datatype FloatingLayout = FloatingLayout(scalar: ScalarLayout, format: FloatingFormat)

  datatype CDataModelClass = ILP32 | LP64 | LLP64 | ILP64 | Explicit(name: Field)

  datatype CDataModel = CDataModel(
    class_: CDataModelClass, charBit: U16, charSignedness: Signedness, signedInteger: Representation,
    bool_: ScalarLayout, char_: ScalarLayout, short: ScalarLayout, int_: ScalarLayout, long: ScalarLayout,
    longLong: ScalarLayout, int128: Option<ScalarLayout>, pointer: ScalarLayout,
    float: FloatingLayout, double: FloatingLayout, longDouble: FloatingLayout,
    wchar: IntegerLayout, sizeT: IntegerLayout, ptrdiffT: IntegerLayout)

  type FieldList = fs: seq<Field> | |fs| < TWO_64 witness []

  datatype ExtensionProfile = ExtensionProfile(family: ExtensionFamily, enabled: FieldList)

  datatype Compiler = Compiler(
    family: CompilerFamily, logicalExecutable: Field, executableContent: Field, versionText: Field,
    reportedTarget: Field, version: Field)

  datatype Sysroot = Sysroot(logicalPath: Field, content: Field)

  datatype TargetSpecParts = TargetSpecParts(
    triple: Field, architecture: Architecture, vendor: Field, operatingSystem: OperatingSystem,
    environment: Environment, objectFormat: ObjectFormat, endian: Endian, pointerWidth: U16,
    model: CDataModel, standard: LanguageStandard, extensions: ExtensionProfile, compiler: Compiler,
    sysroot: Option<Sysroot>, abiFlags: FieldList)

  // ----- the fields, section by section --------------------------------------------------

  function HeaderFields(p: TargetSpecParts): seq<Field> {
    [TARGET_CANONICAL_FORMAT, p.triple, ArchitectureName(p.architecture), p.vendor,
     OperatingSystemName(p.operatingSystem),
     EnvironmentName(p.environment), ObjectFormatName(p.objectFormat), EndianName(p.endian), Word16(p.pointerWidth)]
  }

  function ScalarFields(x: ScalarLayout): seq<Field> { [Word16(x.storageBits), Word16(x.alignmentBits)] }

  function ClassFields(c: CDataModelClass): seq<Field> {
    match c
    case ILP32 => ["ilp32"]
    case LP64 => ["lp64"]
    case LLP64 => ["llp64"]
    case ILP64 => ["ilp64"]
    case Explicit(name) => ["explicit", name]
  }

  function BasicFields(m: CDataModel): seq<Field> {
    [Word16(m.charBit), SignednessName(m.charSignedness), RepresentationName(m.signedInteger)]
    + (ScalarFields(m.bool_) + (ScalarFields(m.char_) + (ScalarFields(m.short) + (ScalarFields(m.int_)
    + (ScalarFields(m.long) + ScalarFields(m.longLong))))))
  }

  function Int128Fields(x: Option<ScalarLayout>): seq<Field> {
    match x case Some(layout) => ["some"] + ScalarFields(layout) case None => ["none"]
  }

  function FormatFields(f: FloatingFormat): seq<Field> {
    match f
    case IeeeBinary32 => ["ieee_binary32"]
    case IeeeBinary64 => ["ieee_binary64"]
    case IeeeBinary128 => ["ieee_binary128"]
    case X87Extended80 => ["x87_extended80"]
    case IbmDoubleDouble128 => ["ibm_double_double128"]
    case Decimal32 => ["decimal32"]
    case Decimal64 => ["decimal64"]
    case Decimal128 => ["decimal128"]
    case ExplicitFormat(name, radix, bits) => ["explicit", name, Word16(radix), Word16(bits)]
  }

  function FloatingFields(x: FloatingLayout): seq<Field> { ScalarFields(x.scalar) + FormatFields(x.format) }

  function IntegerFields(x: IntegerLayout): seq<Field> {
    ScalarFields(x.scalar) + [SignednessName(x.signedness), RepresentationName(x.representation)]
  }

  /** The remainder of the model from the pointer layout on. */
  function LayoutFields(m: CDataModel): seq<Field> {
    ScalarFields(m.pointer) + (FloatingFields(m.float) + (FloatingFields(m.double) + (FloatingFields(m.longDouble)
    + (IntegerFields(m.wchar) + (IntegerFields(m.sizeT) + IntegerFields(m.ptrdiffT))))))
  }

  function ModelFields(m: CDataModel): seq<Field> {
    ClassFields(m.class_) + (BasicFields(m) + (Int128Fields(m.int128) + LayoutFields(m)))
  }

  function ListFields(fs: FieldList): seq<Field> { [Word64(|fs|)] + fs }

  function CompilerFields(c: Compiler): seq<Field> {
    [CompilerFamilyName(c.family), c.logicalExecutable, c.executableContent, c.versionText, c.reportedTarget, c.version]
  }

  function SysrootFields(s: Option<Sysroot>): seq<Field> {
    match s case Some(x) => ["some", x.logicalPath, x.content] case None => ["none"]
  }

  function PartsFields(p: TargetSpecParts): seq<Field> {
    HeaderFields(p) + (ModelFields(p.model)
    + ([LanguageStandardName(p.standard), ExtensionFamilyName(p.extensions.family)]
    + (ListFields(p.extensions.enabled) + (CompilerFields(p.compiler)
    + (SysrootFields(p.sysroot) + ListFields(p.abiFlags))))))
  }

  // ----- the encoder ---------------------------------------------------------------------

  class TargetCanonicalEncoder {
    var bytes: string
    ghost var fields: seq<Field>

    ghost predicate Valid()
      reads this
    {
      bytes == Frames(fields)
    }

    constructor ()
      ensures Valid() && fields == []
    {
      bytes := "";
      fields := [];
    }

    method Bytes(value: Field)
      requires Valid()
      modifies this
      ensures Valid() && fields == old(fields) + [value]
    {
      hide Frames, Word64;
      FramesPush(fields, value);
      bytes := bytes + Word64(|value|);
      bytes := bytes + value;
      fields := fields + [value];
      assert bytes == Frames(old(fields)) + Frame(value);
    }

    method Word(value: U16)
      requires Valid()
      modifies this
      ensures Valid() && fields == old(fields) + [Word16(value)]
    {
      Bytes(Word16(value));
    }

    method Count(value: U64)
      requires Valid()
      modifies this
      ensures Valid() && fields == old(fields) + [Word64(value)]
    {
      Bytes(Word64(value));
    }

    method Scalar(layout: ScalarLayout)
      requires Valid()
      modifies this
      ensures Valid() && fields == old(fields) + ScalarFields(layout)
    {
      Word(layout.storageBits);
      Word(layout.alignmentBits);
    }

    /** A counted list. */
    method List(values: FieldList)
      requires Valid()
      modifies this
      ensures Valid() && fields == old(fields) + ListFields(values)
    {
      hide Frames, Word64;
      Count(|values|);
      for i := 0 to |values|
        invariant Valid() && fields == old(fields) + ([Word64(|values|)] + values[..i])
      {
        Bytes(values[i]);
        assert values[..i + 1] == values[..i] + [values[i]];
      }
      assert values[..|values|] == values;
    }

    /** `encode_integer_layout`. */
    method IntegerLayout(layout: IntegerLayout)
      requires Valid()
      modifies this
      ensures Valid() && fields == old(fields) + IntegerFields(layout)
    {
      Scalar(layout.scalar);
      Bytes(SignednessName(layout.signedness));
      Bytes(RepresentationName(layout.representation));
    }

    method Format(format: FloatingFormat)
      requires Valid()
      modifies this
      ensures Valid() && fields == old(fields) + FormatFields(format)
    {
      hide Frames, Word16;
      match format {
        case IeeeBinary32 => Bytes("ieee_binary32");
        case IeeeBinary64 => Bytes("ieee_binary64");
        case IeeeBinary128 => Bytes("ieee_binary128");
        case X87Extended80 => Bytes("x87_extended80");
        case IbmDoubleDouble128 => Bytes("ibm_double_double128");
        case Decimal32 => Bytes("decimal32");
        case Decimal64 => Bytes("decimal64");
        case Decimal128 => Bytes("decimal128");
        case ExplicitFormat(name, radix, bits) =>
          Bytes("explicit");
          Bytes(name);
          Word(radix);
          Word(bits);
      }
    }

    /** `encode_floating_layout`. */
    method FloatingLayout(layout: FloatingLayout)
      requires Valid()
      modifies this
      ensures Valid() && fields == old(fields) + FloatingFields(layout)
    {
      Scalar(layout.scalar);
      Format(layout.format);
    }

    method Class(c: CDataModelClass)
      requires Valid()
      modifies this
      ensures Valid() && fields == old(fields) + ClassFields(c)
    {
      hide Frames;
      match c {
        case ILP32 => Bytes("ilp32");
        case LP64 => Bytes("lp64");
        case LLP64 => Bytes("llp64");
        case ILP64 => Bytes("ilp64");
        case Explicit(name) =>
          Bytes("explicit");
          Bytes(name);
      }
    }

    method Basics(m: CDataModel)
      requires Valid()
      modifies this
      ensures Valid() && fields == old(fields) + BasicFields(m)
    {
      hide Frames, Word16, SignednessName, RepresentationName;
      Word(m.charBit);
      Bytes(SignednessName(m.charSignedness));
      Bytes(RepresentationName(m.signedInteger));
      Scalar(m.bool_);
      Scalar(m.char_);
      Scalar(m.short);
      Scalar(m.int_);
      Scalar(m.long);
      Scalar(m.longLong);
    }

    method Int128(x: Option<ScalarLayout>)
      requires Valid()
      modifies this
      ensures Valid() && fields == old(fields) + Int128Fields(x)
    {
      match x {
        case Some(layout) =>
          Bytes("some");
          Scalar(layout);
        case None => Bytes("none");
      }
    }

    /** `encode_c_data_model`. */
    method CDataModel(m: CDataModel)
      requires Valid()
      modifies this
      ensures Valid() && fields == old(fields) + ModelFields(m)
    {
      hide Frames, ClassFields, BasicFields, Int128Fields, LayoutFields;
      Class(m.class_);
      Basics(m);
      Int128(m.int128);
      Layouts(m);
    }

    method Layouts(m: CDataModel)
      requires Valid()
      modifies this
      ensures Valid() && fields == old(fields) + LayoutFields(m)
    {
      hide Frames, ScalarFields, FloatingFields, IntegerFields;
      Scalar(m.pointer);
      FloatingLayout(m.float);
      FloatingLayout(m.double);
      FloatingLayout(m.longDouble);
      IntegerLayout(m.wchar);
      IntegerLayout(m.sizeT);
      IntegerLayout(m.ptrdiffT);
    }

    method SysrootPart(s: Option<Sysroot>)
      requires Valid()
      modifies this
      ensures Valid() && fields == old(fields) + SysrootFields(s)
    {
      match s {
        case Some(x) =>
          Bytes("some");
          Bytes(x.logicalPath);
          Bytes(x.content);
        case None => Bytes("none");
      }
    }

    method Header(p: TargetSpecParts)
      requires Valid()
      modifies this
      ensures Valid() && fields == old(fields) + HeaderFields(p)
    {
      hide Frames, Word16, ArchitectureName, OperatingSystemName, EnvironmentName, ObjectFormatName, EndianName;
      Bytes(TARGET_CANONICAL_FORMAT);
      Bytes(p.triple);
      Bytes(ArchitectureName(p.architecture));
      Bytes(p.vendor);
      Bytes(OperatingSystemName(p.operatingSystem));
      Bytes(EnvironmentName(p.environment));
      Bytes(ObjectFormatName(p.objectFormat));
      Bytes(EndianName(p.endian));
      Word(p.pointerWidth);
    }

    method CompilerPart(c: Compiler)
      requires Valid()
      modifies this
      ensures Valid() && fields == old(fields) + CompilerFields(c)
    {
      Bytes(CompilerFamilyName(c.family));
      Bytes(c.logicalExecutable);
      Bytes(c.executableContent);
      Bytes(c.versionText);
      Bytes(c.reportedTarget);
      Bytes(c.version);
    }
  }

  /** `canonical_parts_bytes`. */
  method CanonicalPartsBytes(p: TargetSpecParts) returns (bytes: string)
    ensures bytes == Frames(PartsFields(p))
  {
    hide Frames, HeaderFields, ModelFields, ListFields, CompilerFields, SysrootFields;
    hide LanguageStandardName, ExtensionFamilyName;
    var encoder := new TargetCanonicalEncoder();
    encoder.Header(p);
    encoder.CDataModel(p.model);
    encoder.Bytes(LanguageStandardName(p.standard));
    encoder.Bytes(ExtensionFamilyName(p.extensions.family));
    encoder.List(p.extensions.enabled);
    encoder.CompilerPart(p.compiler);
    encoder.SysrootPart(p.sysroot);
    encoder.List(p.abiFlags);
    assert encoder.fields == PartsFields(p);
    bytes := encoder.bytes;
  }

  // ----- injectivity ---------------------------------------------------------------------

  lemma ArchitectureNames(a: Architecture, b: Architecture)
    requires ArchitectureName(a) == ArchitectureName(b)
    ensures a == b
  {
  }

  lemma OperatingSystemNames(a: OperatingSystem, b: OperatingSystem)
    requires OperatingSystemName(a) == OperatingSystemName(b)
    ensures a == b
  {
  }

  lemma EnvironmentNames(a: Environment, b: Environment)
    requires EnvironmentName(a) == EnvironmentName(b)
    ensures a == b
  {
  }

  lemma ObjectFormatNames(a: ObjectFormat, b: ObjectFormat)
    requires ObjectFormatName(a) == ObjectFormatName(b)
    ensures a == b
  {
  }

  lemma StandardNames(a: LanguageStandard, b: LanguageStandard)
    requires LanguageStandardName(a) == LanguageStandardName(b)
    ensures a == b
  {
  }

  lemma SmallNames(e: Endian, f: Endian, g: Signedness, h: Signedness, r: Representation, s: Representation)
    ensures EndianName(e) == EndianName(f) ==> e == f
    ensures SignednessName(g) == SignednessName(h) ==> g == h
    ensures RepresentationName(r) == RepresentationName(s) ==> r == s
  {
  }

  lemma FamilyNames(a: ExtensionFamily, b: ExtensionFamily, c: CompilerFamily, d: CompilerFamily)
    ensures ExtensionFamilyName(a) == ExtensionFamilyName(b) ==> a == b
    ensures CompilerFamilyName(c) == CompilerFamilyName(d) ==> c == d
  {
  }

  /** Each section can be read off the front of a list of fields: equal lists have equal sections
      and equal remainders.  The section lemmas below all have this form. */
  lemma ScalarSplits(a: ScalarLayout, r: seq<Field>, b: ScalarLayout, s: seq<Field>)
    requires ScalarFields(a) + r == ScalarFields(b) + s
    ensures a == b && r == s
  {
    Peel(ScalarFields(a), r, ScalarFields(b), s);
    assert ScalarFields(a)[0] == ScalarFields(b)[0] && ScalarFields(a)[1] == ScalarFields(b)[1];
    WordsInjective();
  }

  lemma FirstField(a: seq<Field>, r: seq<Field>, b: seq<Field>, s: seq<Field>)
    requires a != [] && b != [] && a + r == b + s
    ensures a[0] == b[0]
  {
    assert (a + r)[0] == a[0] && (b + s)[0] == b[0];
  }

  lemma ClassTags(a: CDataModelClass, b: CDataModelClass)
    requires ClassFields(a)[0] == ClassFields(b)[0]
    ensures |ClassFields(a)| == |ClassFields(b)| && (!a.Explicit? ==> a == b)
  {
  }

  lemma ClassSplits(a: CDataModelClass, r: seq<Field>, b: CDataModelClass, s: seq<Field>)
    requires ClassFields(a) + r == ClassFields(b) + s
    ensures a == b && r == s
  {
    FirstField(ClassFields(a), r, ClassFields(b), s);
    ClassTags(a, b);
    Peel(ClassFields(a), r, ClassFields(b), s);
    if a.Explicit? { assert ClassFields(a)[1] == ClassFields(b)[1]; }
  }

  lemma FormatTags(a: FloatingFormat, b: FloatingFormat)
    requires FormatFields(a)[0] == FormatFields(b)[0]
    ensures |FormatFields(a)| == |FormatFields(b)| && (!a.ExplicitFormat? ==> a == b)
  {
  }

  lemma FormatSplits(a: FloatingFormat, r: seq<Field>, b: FloatingFormat, s: seq<Field>)
    requires FormatFields(a) + r == FormatFields(b) + s
    ensures a == b && r == s
  {
    var x, y := FormatFields(a), FormatFields(b);
    FirstField(x, r, y, s);
    FormatTags(a, b);
    Peel(x, r, y, s);
    if a.ExplicitFormat? {
      assert x[1] == y[1] && x[2] == y[2] && x[3] == y[3];
      WordsInjective();
    }
  }

  lemma FloatingSplits(a: FloatingLayout, r: seq<Field>, b: FloatingLayout, s: seq<Field>)
    requires FloatingFields(a) + r == FloatingFields(b) + s
    ensures a == b && r == s
  {
    hide FormatFields, ScalarFields;
    var x, y := FormatFields(a.format) + r, FormatFields(b.format) + s;
    assert ScalarFields(a.scalar) + x == FloatingFields(a) + r;
    assert ScalarFields(b.scalar) + y == FloatingFields(b) + s;
    ScalarSplits(a.scalar, x, b.scalar, y);
    FormatSplits(a.format, r, b.format, s);
  }

  lemma IntegerSplits(a: IntegerLayout, r: seq<Field>, b: IntegerLayout, s: seq<Field>)
    requires IntegerFields(a) + r == IntegerFields(b) + s
    ensures a == b && r == s
  {
    var x, y := IntegerFields(a), IntegerFields(b);
    Peel(x, r, y, s);
    assert x[0] == y[0] && x[1] == y[1] && x[2] == y[2] && x[3] == y[3];
    WordsInjective();
    SmallNames(Little, Little, a.signedness, b.signedness, a.representation, b.representation);
  }

  lemma BasicSplits(a: CDataModel, r: seq<Field>, b: CDataModel, s: seq<Field>)
    requires BasicFields(a) + r == BasicFields(b) + s
    ensures a.charBit == b.charBit && a.charSignedness == b.charSignedness && a.signedInteger == b.signedInteger
    ensures a.bool_ == b.bool_ && a.char_ == b.char_ && a.short == b.short && a.int_ == b.int_
    ensures a.long == b.long && a.longLong == b.longLong && r == s
  {
    hide SignednessName, RepresentationName, Word16, ScalarFields;
    var a5, b5 := ScalarFields(a.longLong) + r, ScalarFields(b.longLong) + s;
    var a4, b4 := ScalarFields(a.long) + a5, ScalarFields(b.long) + b5;
    var a3, b3 := ScalarFields(a.int_) + a4, ScalarFields(b.int_) + b4;
    var a2, b2 := ScalarFields(a.short) + a3, ScalarFields(b.short) + b3;
    var a1, b1 := ScalarFields(a.char_) + a2, ScalarFields(b.char_) + b2;
    var a0, b0 := ScalarFields(a.bool_) + a1, ScalarFields(b.bool_) + b1;
    var x := [Word16(a.charBit), SignednessName(a.charSignedness), RepresentationName(a.signedInteger)];
    var y := [Word16(b.charBit), SignednessName(b.charSignedness), RepresentationName(b.signedInteger)];
    assert BasicFields(a) + r == x + a0 && BasicFields(b) + s == y + b0;
    Peel(x, a0, y, b0);
    assert x[0] == y[0] && x[1] == y[1] && x[2] == y[2];
    WordsInjective();
    SmallNames(Little, Little, a.charSignedness, b.charSignedness, a.signedInteger, b.signedInteger);
    ScalarSplits(a.bool_, a1, b.bool_, b1);
    ScalarSplits(a.char_, a2, b.char_, b2);
    ScalarSplits(a.short, a3, b.short, b3);
    ScalarSplits(a.int_, a4, b.int_, b4);
    ScalarSplits(a.long, a5, b.long, b5);
    ScalarSplits(a.longLong, r, b.longLong, s);
  }

  lemma Int128Splits(a: Option<ScalarLayout>, r: seq<Field>, b: Option<ScalarLayout>, s: seq<Field>)
    requires Int128Fields(a) + r == Int128Fields(b) + s
    ensures a == b && r == s
  {
    FirstField(Int128Fields(a), r, Int128Fields(b), s);
    assert Int128Fields(a)[0] == if a.Some? then "some" else "none";
    assert Int128Fields(b)[0] == if b.Some? then "some" else "none";
    Peel(Int128Fields(a), r, Int128Fields(b), s);
    if a.Some? {
      assert Int128Fields(a)[1..] == ScalarFields(a.value) && Int128Fields(b)[1..] == ScalarFields(b.value);
      ScalarSplits(a.value, [], b.value, []);
    }
  }

  lemma ListSplits(a: FieldList, r: seq<Field>, b: FieldList, s: seq<Field>)
    requires ListFields(a) + r == ListFields(b) + s
    ensures a == b && r == s
  {
    FirstField(ListFields(a), r, ListFields(b), s);
    WordsInjective();
    Peel(ListFields(a), r, ListFields(b), s);
    assert ListFields(a)[1..] == a && ListFields(b)[1..] == b;
  }

  lemma SysrootSplits(a: Option<Sysroot>, r: seq<Field>, b: Option<Sysroot>, s: seq<Field>)
    requires SysrootFields(a) + r == SysrootFields(b) + s
    ensures a == b && r == s
  {
    var x, y := SysrootFields(a), SysrootFields(b);
    FirstField(x, r, y, s);
    assert x[0] == if a.Some? then "some" else "none";
    assert y[0] == if b.Some? then "some" else "none";
    Peel(x, r, y, s);
    if a.Some? { assert x[1] == y[1] && x[2] == y[2]; }
  }

  lemma CompilerSplits(a: Compiler, r: seq<Field>, b: Compiler, s: seq<Field>)
    requires CompilerFields(a) + r == CompilerFields(b) + s
    ensures a == b && r == s
  {
    var x, y := CompilerFields(a), CompilerFields(b);
    Peel(x, r, y, s);
    assert x[0] == y[0] && x[1] == y[1] && x[2] == y[2] && x[3] == y[3] && x[4] == y[4] && x[5] == y[5];
    FamilyNames(Strict, Strict, a.family, b.family);
  }

  lemma HeaderSplits(a: TargetSpecParts, r: seq<Field>, b: TargetSpecParts, s: seq<Field>)
    requires HeaderFields(a) + r == HeaderFields(b) + s
    ensures a.triple == b.triple && a.architecture == b.architecture && a.vendor == b.vendor
    ensures a.operatingSystem == b.operatingSystem && a.environment == b.environment
    ensures a.objectFormat == b.objectFormat && a.endian == b.endian && a.pointerWidth == b.pointerWidth && r == s
  {
    hide ArchitectureName, OperatingSystemName, EnvironmentName, ObjectFormatName, EndianName, Word16;
    var x, y := HeaderFields(a), HeaderFields(b);
    Peel(x, r, y, s);
    assert x[1] == y[1] && x[2] == y[2] && x[3] == y[3] && x[4] == y[4];
    assert x[5] == y[5] && x[6] == y[6] && x[7] == y[7] && x[8] == y[8];
    ArchitectureNames(a.architecture, b.architecture);
    OperatingSystemNames(a.operatingSystem, b.operatingSystem);
    EnvironmentNames(a.environment, b.environment);
    ObjectFormatNames(a.objectFormat, b.objectFormat);
    SmallNames(a.endian, b.endian, Signed, Signed, TwosComplement, TwosComplement);
    WordsInjective();
  }

  lemma LayoutsSplit(a: CDataModel, r: seq<Field>, b: CDataModel, s: seq<Field>)
    requires LayoutFields(a) + r == LayoutFields(b) + s
    ensures a.pointer == b.pointer && a.float == b.float && a.double == b.double && a.longDouble == b.longDouble
    ensures a.wchar == b.wchar && a.sizeT == b.sizeT && a.ptrdiffT == b.ptrdiffT && r == s
  {
    hide ScalarFields, FloatingFields, IntegerFields;
    var a6, b6 := IntegerFields(a.ptrdiffT) + r, IntegerFields(b.ptrdiffT) + s;
    var a5, b5 := IntegerFields(a.sizeT) + a6, IntegerFields(b.sizeT) + b6;
    var a4, b4 := IntegerFields(a.wchar) + a5, IntegerFields(b.wchar) + b5;
    var a3, b3 := FloatingFields(a.longDouble) + a4, FloatingFields(b.longDouble) + b4;
    var a2, b2 := FloatingFields(a.double) + a3, FloatingFields(b.double) + b3;
    var a1, b1 := FloatingFields(a.float) + a2, FloatingFields(b.float) + b2;
    assert LayoutFields(a) + r == ScalarFields(a.pointer) + a1;
    assert LayoutFields(b) + s == ScalarFields(b.pointer) + b1;
    ScalarSplits(a.pointer, a1, b.pointer, b1);
    FloatingSplits(a.float, a2, b.float, b2);
    FloatingSplits(a.double, a3, b.double, b3);
    FloatingSplits(a.longDouble, a4, b.longDouble, b4);
    IntegerSplits(a.wchar, a5, b.wchar, b5);
    IntegerSplits(a.sizeT, a6, b.sizeT, b6);
    IntegerSplits(a.ptrdiffT, r, b.ptrdiffT, s);
  }

  lemma ModelSplits(a: CDataModel, r: seq<Field>, b: CDataModel, s: seq<Field>)
    requires ModelFields(a) + r == ModelFields(b) + s
    ensures a == b && r == s
  {
    hide ClassFields, BasicFields, Int128Fields, LayoutFields;
    var a3, b3 := LayoutFields(a) + r, LayoutFields(b) + s;
    var a2, b2 := Int128Fields(a.int128) + a3, Int128Fields(b.int128) + b3;
    var a1, b1 := BasicFields(a) + a2, BasicFields(b) + b2;
    assert ModelFields(a) + r == ClassFields(a.class_) + a1;
    assert ModelFields(b) + s == ClassFields(b.class_) + b1;
    ClassSplits(a.class_, a1, b.class_, b1);
    BasicSplits(a, a2, b, b2);
    Int128Splits(a.int128, a3, b.int128, b3);
    LayoutsSplit(a, r, b, s);
  }

  /** Targets with equal field lists are equal. */
  lemma PartsInjective(a: TargetSpecParts, b: TargetSpecParts)
    requires PartsFields(a) == PartsFields(b)
    ensures a == b
  {
    hide HeaderFields, ModelFields, ListFields, CompilerFields, SysrootFields;
    hide LanguageStandardName, ExtensionFamilyName;
    var a5, b5 := SysrootFields(a.sysroot) + ListFields(a.abiFlags), SysrootFields(b.sysroot) + ListFields(b.abiFlags);
    var a4, b4 := CompilerFields(a.compiler) + a5, CompilerFields(b.compiler) + b5;
    var a3, b3 := ListFields(a.extensions.enabled) + a4, ListFields(b.extensions.enabled) + b4;
    var a2 := [LanguageStandardName(a.standard), ExtensionFamilyName(a.extensions.family)];
    var b2 := [LanguageStandardName(b.standard), ExtensionFamilyName(b.extensions.family)];
    HeaderSplits(a, ModelFields(a.model) + (a2 + a3), b, ModelFields(b.model) + (b2 + b3));
    ModelSplits(a.model, a2 + a3, b.model, b2 + b3);
    Peel(a2, a3, b2, b3);
    assert a2[0] == b2[0] && a2[1] == b2[1];
    StandardNames(a.standard, b.standard);
    FamilyNames(a.extensions.family, b.extensions.family, Gcc, Gcc);
    ListSplits(a.extensions.enabled, a4, b.extensions.enabled, b4);
    CompilerSplits(a.compiler, a5, b.compiler, b5);
    SysrootSplits(a.sysroot, ListFields(a.abiFlags), b.sysroot, ListFields(b.abiFlags));
    assert ListFields(a.abiFlags) + [] == ListFields(a.abiFlags);
    assert ListFields(b.abiFlags) + [] == ListFields(b.abiFlags);
    ListSplits(a.abiFlags, [], b.abiFlags, []);
  }

  /** Two targets have the same canonical bytes exactly when they are the same. */
  lemma CanonicalBytesInjective(a: TargetSpecParts, b: TargetSpecParts)
    ensures Frames(PartsFields(a)) == Frames(PartsFields(b)) <==> a == b
  {
    hide PartsFields;
    if Frames(PartsFields(a)) == Frames(PartsFields(b)) {
      FramesInjective(PartsFields(a), PartsFields(b));
      PartsInjective(a, b);
    }
  }
}
