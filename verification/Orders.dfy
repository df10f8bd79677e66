/** The canonical order of diagnostics and reasons (src/contract/diagnostics.rs): field by field, in the order of their
    declaration. */
module Orders {
  import opened Wrappers
  import opened Tables
  import opened Contract

  /** A proper prefix, or a smaller character behind a common prefix. */
  ghost predicate TextBefore(a: string, b: string) {
    exists i :: 0 <= i <= |a| && i < |b| && a[..i] == b[..i] && (i == |a| || a[i] < b[i])
  }

  lemma {:induction false} TextMeans(a: string, b: string)
    ensures TextLess(a, b) <==> TextBefore(a, b)
  {
    if b != [] {
      if a == [] {
        assert a[..0] == b[..0];
      } else {
        TextMeans(a[1..], b[1..]);
        if TextLess(a, b) {
          if a[0] < b[0] {
            assert a[..0] == b[..0];
          } else {
            var i :| 0 <= i <= |a[1..]| && i < |b[1..]| && a[1..][..i] == b[1..][..i]
                     && (i == |a[1..]| || a[1..][i] < b[1..][i]);
            assert a[..i + 1] == [a[0]] + a[1..][..i] && b[..i + 1] == [b[0]] + b[1..][..i];
          }
        }
        if TextBefore(a, b) {
          var i :| 0 <= i <= |a| && i < |b| && a[..i] == b[..i] && (i == |a| || a[i] < b[i]);
          if i > 0 {
            assert a[0] == a[..i][0] && b[0] == b[..i][0];
            assert a[1..][..i - 1] == a[..i][1..] && b[1..][..i - 1] == b[..i][1..];
          }
        }
      }
    }
  }

  const STAGES: seq<Stage> := [Configuration, Preprocess, Parse, Recovery, Stage.Extract, ContractStage]
  const SEVERITIES: seq<Severity> := [Note, Warning, Error]
  const IMPACTS: seq<Impact> := [Informational, ForcesPartial, ForcesRejected]

  /** `a` stands before `b` in a list. */
  predicate Listed<T(==)>(list: seq<T>, a: T, b: T) {
    exists i, j :: 0 <= i < j < |list| && list[i] == a && list[j] == b
  }

  /** No range before any, then by file, start and end. */
  predicate RangeBefore(a: Option<SourceRange>, b: Option<SourceRange>) {
    b.Some? && (a.None?
                || a.value.file < b.value.file
                || (a.value.file == b.value.file && a.value.start < b.value.start)
                || (a.value.file == b.value.file && a.value.start == b.value.start && a.value.end < b.value.end))
  }

  /** The seven fields in order: code, stage, severity, impact, message, range, declaration. */
  predicate SameField(a: Diagnostic, b: Diagnostic, k: nat) {
    match k
    case 0 => a.code == b.code
    case 1 => a.stage == b.stage
    case 2 => a.severity == b.severity
    case 3 => a.impact == b.impact
    case 4 => a.message == b.message
    case 5 => a.range == b.range
    case _ => a.declaration == b.declaration
  }

  ghost predicate FieldBefore(a: Diagnostic, b: Diagnostic, k: nat) {
    match k
    case 0 => TextBefore(a.code, b.code)
    case 1 => Listed(STAGES, a.stage, b.stage)
    case 2 => Listed(SEVERITIES, a.severity, b.severity)
    case 3 => Listed(IMPACTS, a.impact, b.impact)
    case 4 => TextBefore(a.message, b.message)
    case 5 => RangeBefore(a.range, b.range)
    case _ => b.declaration.Some? && (a.declaration.None? || a.declaration.value < b.declaration.value)
  }

  lemma RanksMean(a: Diagnostic, b: Diagnostic)
    ensures a.stage.Rank() < b.stage.Rank() <==> Listed(STAGES, a.stage, b.stage)
    ensures a.severity.Rank() < b.severity.Rank() <==> Listed(SEVERITIES, a.severity, b.severity)
    ensures a.impact.Rank() < b.impact.Rank() <==> Listed(IMPACTS, a.impact, b.impact)
  {
    assert STAGES[a.stage.Rank()] == a.stage && STAGES[b.stage.Rank()] == b.stage;
    assert SEVERITIES[a.severity.Rank()] == a.severity && SEVERITIES[b.severity.Rank()] == b.severity;
    assert IMPACTS[a.impact.Rank()] == a.impact && IMPACTS[b.impact.Rank()] == b.impact;
    assert forall i :: 0 <= i < 6 ==> STAGES[i].Rank() == i;
    assert forall i :: 0 <= i < 3 ==> SEVERITIES[i].Rank() == i && IMPACTS[i].Rank() == i;
  }

  /** A diagnostic comes before another when it does in the first field in which they differ. */
  lemma DiagnosticMeans(a: Diagnostic, b: Diagnostic)
    ensures DiagnosticLess(a, b)
       <==> exists k: nat :: k < 7 && FieldBefore(a, b, k) && forall j: nat :: j < k ==> SameField(a, b, j)
  {
    RanksMean(a, b);
    TextMeans(a.code, b.code);
    TextMeans(a.message, b.message);
    TextOrder(a.code, b.code, a.code);
    TextOrder(a.message, b.message, a.message);
    hide TextLess, TextBefore, Listed;
    var k: nat := if a.code != b.code then 0 else if a.stage != b.stage then 1 else if a.severity != b.severity then 2
                  else if a.impact != b.impact then 3 else if a.message != b.message then 4
                  else if a.range != b.range then 5 else 6;
    assert forall j: nat :: j < k ==> SameField(a, b, j);
    assert k < 6 ==> !SameField(a, b, k);
    assert DiagnosticLess(a, b) <==> FieldBefore(a, b, k);
  }
}
