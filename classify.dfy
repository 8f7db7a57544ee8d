/** The two private classifiers of the report class: issue type and severity label. */
module Classify {
  import opened SonarTypes
  import opened PhpStrings

  const SecurityWord: string := "security"

  /** `source` mentions "security" in some mix of upper and lower case. */
  ghost predicate MentionsSecurity(source: string)
  {
    exists i: nat :: MatchesAt(source, SecurityWord, i)
  }

  /** `convertErrorToType`: a set rule source that mentions security makes a vulnerability. */
  function IssueTypeOf(source: Option<string>): (t: IssueType)
    ensures t == Vulnerability <==> source.Some? && MentionsSecurity(source.value)
    ensures t == Bug <==> source.None? || !MentionsSecurity(source.value)
  {
    if source.Some? && Stripos(source.value, SecurityWord).Some? then Vulnerability else Bug
  }

  /**
   * `convertErrorToSonarSeverity`: a first-match table on the integer
   * severity and the type string. Each ensures gives the exact set of
   * inputs that receive one label.
   */
  function SonarSeverity(kind: string, severity: int): (r: Severity)
    ensures r == Critical <==> severity >= 6 || (severity == 5 && kind == "ERROR")
    ensures r == Major <==> severity == 5 && kind == "WARNING"
    ensures r == Minor <==> 3 <= severity <= 4 || (severity == 5 && kind != "ERROR" && kind != "WARNING")
    ensures r == Info <==> severity < 3
  {
    if severity >= 6 then Critical
    else if kind == "ERROR" && severity >= 5 then Critical
    else if kind == "WARNING" && severity >= 5 then Major
    else if severity >= 3 then Minor
    else Info
  }

  /** For a fixed type string, raising the severity never lowers the label. */
  lemma SeverityMonotonic(kind: string, low: int, high: int)
    requires low <= high
    ensures Rank(SonarSeverity(kind, low)) <= Rank(SonarSeverity(kind, high))
  {
  }

  /** For a fixed severity, an error ranks at least as high as a warning, and a warning at least as high as any other type. */
  lemma SeverityKindOrder(kind: string, severity: int)
    ensures Rank(SonarSeverity("WARNING", severity)) <= Rank(SonarSeverity("ERROR", severity))
    ensures Rank(SonarSeverity(kind, severity)) <= Rank(SonarSeverity("ERROR", severity))
    ensures kind != "ERROR" ==> Rank(SonarSeverity(kind, severity)) <= Rank(SonarSeverity("WARNING", severity))
  {
  }

  /** Folding case in the rule source never changes the issue type. */
  lemma {:induction false} IssueTypeIgnoresCase(source: string, folded: string)
    requires |folded| == |source|
    requires forall k :: 0 <= k < |source| ==> FoldCase(folded[k]) == FoldCase(source[k])
    ensures IssueTypeOf(Some(source)) == IssueTypeOf(Some(folded))
  {
    forall i: nat | MatchesAt(source, SecurityWord, i) ensures MatchesAt(folded, SecurityWord, i) {
      forall k | 0 <= k < |SecurityWord| ensures FoldCase(folded[i + k]) == FoldCase(SecurityWord[k]) {
        assert FoldCase(folded[i + k]) == FoldCase(source[i + k]);
      }
    }
    forall i: nat | MatchesAt(folded, SecurityWord, i) ensures MatchesAt(source, SecurityWord, i) {
      forall k | 0 <= k < |SecurityWord| ensures FoldCase(source[i + k]) == FoldCase(SecurityWord[k]) {
        assert FoldCase(folded[i + k]) == FoldCase(source[i + k]);
      }
    }
  }

  /** A sniff code under a "Security" standard is a vulnerability; one that never spells the word, or an unset source, is a bug. */
  lemma IssueTypeExamples()
    ensures IssueTypeOf(Some("Security.Foo")) == Vulnerability
    ensures IssueTypeOf(Some("Generic.Bar")) == Bug
    ensures IssueTypeOf(None) == Bug
  {
    assert MatchesAt("Security.Foo", SecurityWord, 0) by {
      forall k | 0 <= k < |SecurityWord| ensures FoldCase("Security.Foo"[k]) == FoldCase(SecurityWord[k]) {
      }
    }
    var bar := "Generic.Bar";
    forall i: nat ensures !MatchesAt(bar, SecurityWord, i) {
      if i + |SecurityWord| <= |bar| {
        assert bar[i] == 'G' || bar[i] == 'e' || bar[i] == 'n' by {
          assert i <= 3;
          assert bar[0] == 'G' && bar[1] == 'e' && bar[2] == 'n' && bar[3] == 'e';
        }
        assert FoldCase(bar[i + 0]) != FoldCase(SecurityWord[0]);
      }
    }
  }
}
