/** Characters, white space and names of the C parser (src/parser/prelude.rs,
    src/parser/identifiers_and_integers.rs).  A position is the text that is left. */
module Scanning {
  import opened Wrappers

  predicate NameStart(c: char) { c == '_' || 'a' <= c <= 'z' || 'A' <= c <= 'Z' }

  predicate NameChar(c: char) { NameStart(c) || '0' <= c <= '9' }

  /** The rest of a `#` line, up to its newline. */
  function DropLine(s: string): (r: string)
    ensures |r| <= |s|
  {
    if s == "" || s[0] == '\n' then s else DropLine(s[1..])
  }

  /** The rule `_`: blanks, newlines and directive lines. */
  function Skip(s: string): (r: string)
    ensures |r| <= |s|
    decreases |s|
  {
    if s == "" then s
    else if s[0] == ' ' || s[0] == '\t' then Skip(s[1..])
    else if s[0] == '\n' then Skip(Directive(s[1..]))
    else if s[0] == '\r' && |s| > 1 && s[1] == '\n' then Skip(Directive(s[2..]))
    else s
  }

  function Directive(s: string): (r: string)
    ensures |r| <= |s|
  {
    if s != "" && s[0] == '#' then DropLine(s[1..]) else s
  }

  function NameLength(s: string): (n: nat)
    ensures n <= |s|
  {
    if s == "" || !NameChar(s[0]) then 0 else 1 + NameLength(s[1..])
  }

  function Strip(s: string, prefix: string): (r: Option<string>)
    ensures r.Some? ==> |r.value| == |s| - |prefix|
  {
    if prefix <= s then Some(s[|prefix|..]) else None
  }

  lemma {:induction false} NameSplit(s: string)
    ensures NameLength(s[..NameLength(s)]) == NameLength(s)
    ensures NameLength(s) < |s| ==> !NameChar(s[NameLength(s)])
  {
    var n := NameLength(s);
    if n > 0 {
      NameSplit(s[1..]);
      assert s[..n][1..] == s[1..][..n - 1];
    }
  }

  lemma {:induction false} SkipIdempotent(s: string)
    ensures Skip(Skip(s)) == Skip(s)
    decreases |s|
  {
    if s == "" {
    } else if s[0] == ' ' || s[0] == '\t' {
      SkipIdempotent(s[1..]);
    } else if s[0] == '\n' {
      SkipIdempotent(Directive(s[1..]));
    } else if s[0] == '\r' && |s| > 1 && s[1] == '\n' {
      SkipIdempotent(Directive(s[2..]));
    }
  }
}
