/** The bytes of the canonical encodings, written out: the framing of one field (src/contract/canonical.rs), the
    fields of one target in their order (src/contract/target.rs), and those behind ids (src/contract/ids.rs). */
module CanonicalExample {
  import opened Wrappers
  import opened Framing
  import opened TargetCanonical
  import I = Identity

  /** The number that bytes stand for, lowest first. */
  function Value(bytes: string): nat { if bytes == "" then 0 else bytes[0] as nat + 256 * Value(bytes[1..]) }

  lemma {:induction false} WordValue(n: nat, k: nat)
    requires n < Power(k)
    ensures Value(LittleEndian(n, k)) == n && forall i :: 0 <= i < k ==> LittleEndian(n, k)[i] as nat < 256
    decreases k
  {
    if k > 0 {
      var word := LittleEndian(n, k);
      WordValue(n / 256, k - 1);
      assert word[0] == (n % 256) as char && word[1..] == LittleEndian(n / 256, k - 1);
      forall i | 0 <= i < k ensures word[i] as nat < 256 {
        if i > 0 { assert word[i] == word[1..][i - 1]; }
      }
    }
  }

  /** A field is framed by eight bytes that stand for its length, lowest first, and then the field. */
  lemma FrameLayout(f: Field)
    ensures |Frame(f)| == 8 + |f| && Value(Frame(f)[..8]) == |f| && Frame(f)[8..] == f
    ensures forall i :: 0 <= i < 8 ==> Frame(f)[i] as nat < 256
  {
    PowerEight();
    WordValue(|f|, 8);
    assert Frame(f)[..8] == LittleEndian(|f|, 8);
  }

  /** Numbers of a target are two bytes, counts are eight. */
  lemma NumberLayout(n: U16, m: U64)
    ensures |Word16(n)| == 2 && Value(Word16(n)) == n
    ensures |Word64(m)| == 8 && Value(Word64(m)) == m
  {
    PowerEight();
    WordValue(n, 2);
    WordValue(m, 8);
  }

  /** A number below 256 as two bytes. */
  function Two(n: nat): string
    requires n < 256
  {
    [n as char, 0 as char]
  }

  lemma SmallWord(n: U16)
    requires n < 256
    ensures Word16(n) == Two(n)
  {
    assert LittleEndian(n, 2) == [(n % 256) as char] + LittleEndian(n / 256, 1);
    assert LittleEndian(n / 256, 1) == [0 as char] + LittleEndian(0, 0);
  }

  lemma ScalarText(a: U16, b: U16)
    requires a < 256 && b < 256
    ensures ScalarFields(ScalarLayout(a, b)) == [Two(a), Two(b)]
  {
    SmallWord(a);
    SmallWord(b);
  }

  /** A target all of whose fields differ. */
  const MODEL: CDataModel :=
    CDataModel(Explicit("model"), 8, Unsigned, OnesComplement, ScalarLayout(1, 2), ScalarLayout(3, 4),
               ScalarLayout(5, 6), ScalarLayout(7, 8), ScalarLayout(9, 10), ScalarLayout(11, 12),
               Some(ScalarLayout(13, 14)), ScalarLayout(15, 16),
               FloatingLayout(ScalarLayout(17, 18), IeeeBinary32), FloatingLayout(ScalarLayout(19, 20), IeeeBinary64),
               FloatingLayout(ScalarLayout(21, 22), ExplicitFormat("format", 23, 24)),
               IntegerLayout(ScalarLayout(25, 26), Signed, TwosComplement),
               IntegerLayout(ScalarLayout(27, 28), Unsigned, SignMagnitude),
               IntegerLayout(ScalarLayout(29, 30), Signed, OnesComplement))

  const TARGET: TargetSpecParts :=
    TargetSpecParts("triple", Aarch64, "vendor", FreeBsd, Musl, MachO, Big, 31, MODEL, C17,
                    ExtensionProfile(ClangFamily, ["enabled"]),
                    Compiler(AppleClang, "executable", "content", "text", "reported", "version"),
                    Some(Sysroot("path", "root")), ["flag", "other"])

  const HEADER: seq<string> :=
    ["follang.parc.target-canonical.v1", "triple", "aarch64", "vendor", "free_bsd", "musl", "mach_o", "big", Two(31)]

  const BASIC: seq<string> :=
    [Two(8), "unsigned", "ones_complement", Two(1), Two(2), Two(3), Two(4), Two(5), Two(6), Two(7), Two(8), Two(9),
     Two(10), Two(11), Two(12)]

  const LAYOUTS: seq<string> :=
    [Two(15), Two(16), Two(17), Two(18), "ieee_binary32", Two(19), Two(20), "ieee_binary64", Two(21), Two(22),
     "explicit", "format", Two(23), Two(24), Two(25), Two(26), "signed", "twos_complement", Two(27), Two(28),
     "unsigned", "sign_magnitude", Two(29), Two(30), "signed", "ones_complement"]

  const COMPILER: seq<string> := ["apple_clang", "executable", "content", "text", "reported", "version"]

  lemma HeaderText()
    ensures HeaderFields(TARGET) == HEADER
  {
    SmallWord(31);
  }

  lemma BasicText()
    ensures BasicFields(MODEL) == BASIC
  {
    hide ScalarFields, Word16, Two;
    SmallWord(8);
    ScalarText(1, 2);
    ScalarText(3, 4);
    ScalarText(5, 6);
    ScalarText(7, 8);
    ScalarText(9, 10);
    ScalarText(11, 12);
  }

  lemma LayoutText()
    ensures LayoutFields(MODEL) == LAYOUTS
  {
    hide ScalarFields, Word16, Two;
    SmallWord(23);
    SmallWord(24);
    ScalarText(15, 16);
    ScalarText(17, 18);
    ScalarText(19, 20);
    ScalarText(21, 22);
    ScalarText(25, 26);
    ScalarText(27, 28);
    ScalarText(29, 30);
  }

  /** The fields of that target, one after the other. */
  lemma TargetText()
    ensures PartsFields(TARGET)
         == HEADER + (["explicit", "model"] + (BASIC + ((["some", Two(13), Two(14)]) + LAYOUTS))
                      + (["c17", "clang"] + ([Word64(1), "enabled"] + (COMPILER
                      + (["some", "path", "root"] + [Word64(2), "flag", "other"])))))
  {
    hide HeaderFields, BasicFields, LayoutFields, ScalarFields, Word64, Two;
    HeaderText();
    BasicText();
    LayoutText();
    ScalarText(13, 14);
  }

  /** The fields behind the ids of entities, occurrences and children, one of each kind. */
  lemma IdentityText()
    ensures I.EntityFields(I.Named(I.Ordinary, I.TranslationUnit, "n")) == ["ordinary", "translation-unit", "n"]
    ensures I.EntityFields(I.Named(I.Tag, I.FileScope("f"), "n")) == ["tag", "file", "f", "n"]
    ensures I.EntityFields(I.Anonymous(I.OwnerScope("o"), "d", 7)) == ["anonymous", "owner", "o", "d", Word64(7)]
    ensures |Frames(["t"])| < TWO_64
    ensures I.OccurrenceFields(I.Occurrence("o", "f", ["t"], 7)) == ["o", "f", Frames(["t"]), Word64(7)]
    ensures I.ChildFields(I.ParameterAt("p", 7)) == ["p", "parameter", "semantic-ordinal", Word64(7)]
    ensures I.ChildFields(I.NamedChild("p", I.Field_, "n")) == ["p", "field", "n", Word64(0)]
    ensures I.ChildFields(I.UnnamedChild("p", I.EnumVariant, ["t"], 7))
         == ["p", "enum-variant", Frames(["t"]), Word64(7)]
  {
    hide Word64;
    assert Frames(["t"]) == Frame("t") + Frames([]);
  }
}
