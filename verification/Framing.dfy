/** Length framing (src/contract/canonical.rs, src/contract/ids.rs): a field is written as the
    64-bit little-endian length and the bytes.  Bytes are characters below 256, so that a text is
    its UTF-8 bytes; nothing here depends on the bound. */
module Framing {
  const TWO_64 := 0x1_0000_0000_0000_0000

  /** A byte string whose length fits `u64`. */
  type Field = f: string | |f| < TWO_64 witness ""

  type U16 = n: nat | n < 0x1_0000

  type U64 = n: nat | n < TWO_64

  /** The `k` low bytes, lowest first. */
  function LittleEndian(n: nat, k: nat): (r: string)
    ensures |r| == k
    decreases k
  {
    if k == 0 then "" else [(n % 256) as char] + LittleEndian(n / 256, k - 1)
  }

  function Power(k: nat): nat { if k == 0 then 1 else 256 * Power(k - 1) }

  lemma {:induction false} LittleEndianInjective(n: nat, m: nat, k: nat)
    requires n < Power(k) && m < Power(k) && LittleEndian(n, k) == LittleEndian(m, k)
    ensures n == m
    decreases k
  {
    if k > 0 {
      var a, b := LittleEndian(n, k), LittleEndian(m, k);
      assert a[0] == b[0] && a[1..] == b[1..];
      assert ((n % 256) as char) as int == ((m % 256) as char) as int;
      LittleEndianInjective(n / 256, m / 256, k - 1);
    }
  }

  lemma PowerEight()
    ensures Power(8) == TWO_64 && Power(2) == 0x1_0000
  {
    assert Power(2) == 256 * Power(1) && Power(3) == 256 * Power(2) && Power(4) == 256 * Power(3);
    assert Power(5) == 256 * Power(4) && Power(6) == 256 * Power(5) && Power(7) == 256 * Power(6);
  }

  function Word64(n: U64): (r: Field)
    ensures |r| == 8
  {
    LittleEndian(n, 8)
  }

  function Word16(n: U16): Field { LittleEndian(n, 2) }

  lemma WordsInjective()
    ensures forall n: U64, m: U64 :: Word64(n) == Word64(m) ==> n == m
    ensures forall n: U16, m: U16 :: Word16(n) == Word16(m) ==> n == m
  {
    PowerEight();
    forall n: U64, m: U64 | Word64(n) == Word64(m) ensures n == m { LittleEndianInjective(n, m, 8); }
    forall n: U16, m: U16 | Word16(n) == Word16(m) ensures n == m { LittleEndianInjective(n, m, 2); }
  }

  /** `push_field`. */
  function Frame(f: Field): string { Word64(|f|) + f }

  function Frames(fields: seq<Field>): string {
    if fields == [] then "" else Frame(fields[0]) + Frames(fields[1..])
  }

  lemma {:induction false} FramesAppend(a: seq<Field>, b: seq<Field>)
    ensures Frames(a + b) == Frames(a) + Frames(b)
    decreases a
  {
    if a == [] {
      assert a + b == b;
    } else {
      assert (a + b)[0] == a[0] && (a + b)[1..] == a[1..] + b;
      FramesAppend(a[1..], b);
      assert Frame(a[0]) + (Frames(a[1..]) + Frames(b)) == (Frame(a[0]) + Frames(a[1..])) + Frames(b);
    }
  }

  lemma EmptyFrames()
    ensures Frames([]) == ""
  {
  }

  lemma FramesPush(fields: seq<Field>, f: Field)
    ensures Frames(fields + [f]) == Frames(fields) + Frame(f)
  {
    FramesAppend(fields, [f]);
    assert [f][1..] == [] && Frames([f]) == Frame(f) + "";
  }

  /** The first field and what is behind it can be read back. */
  lemma FrameSplits(f: Field, r: string, g: Field, s: string)
    requires Frame(f) + r == Frame(g) + s
    ensures f == g && r == s
  {
    var x, y := Frame(f) + r, Frame(g) + s;
    assert x[..8] == Word64(|f|) && y[..8] == Word64(|g|);
    WordsInjective();
    assert x[8..8 + |f|] == f && y[8..8 + |g|] == g;
    assert x[8 + |f|..] == r && y[8 + |g|..] == s;
  }

  /** Equal framings are framings of the same fields. */
  lemma {:induction false} FramesInjective(a: seq<Field>, b: seq<Field>)
    requires Frames(a) == Frames(b)
    ensures a == b
    decreases a
  {
    hide Word64;
    if a != [] && b != [] {
      FrameSplits(a[0], Frames(a[1..]), b[0], Frames(b[1..]));
      FramesInjective(a[1..], b[1..]);
      assert a == [a[0]] + a[1..] && b == [b[0]] + b[1..];
    }
  }

  /** `canonical_tokens_bytes`. */
  method CanonicalTokensBytes(tokens: seq<Field>) returns (bytes: string)
    ensures bytes == Frames(tokens)
  {
    hide Frames, Word64;
    EmptyFrames();
    bytes := "";
    for i := 0 to |tokens|
      invariant bytes == Frames(tokens[..i])
    {
      hide Frames, Word64;
      FramesPush(tokens[..i], tokens[i]);
      assert tokens[..i + 1] == tokens[..i] + [tokens[i]];
      bytes := bytes + Word64(|tokens[i]|) + tokens[i];
      assert bytes == Frames(tokens[..i]) + Frame(tokens[i]);
    }
    assert tokens[..|tokens|] == tokens;
  }

  /** A prefix of known length can be taken off two equal lists. */
  lemma Peel(a: seq<Field>, r: seq<Field>, b: seq<Field>, s: seq<Field>)
    requires |a| == |b| && a + r == b + s
    ensures a == b && r == s
  {
    assert a == (a + r)[..|a|] && b == (b + s)[..|b|];
    assert r == (a + r)[|a|..] && s == (b + s)[|b|..];
  }
}
