/**
 * The report class itself: `generateFileReport`, which writes one
 * comma-terminated record per finding of a file, and `generate`, which
 * closes the document. The output stream is a string the method returns;
 * `json_encode` is the parameter `encode`; the working directory is the
 * parameter `cwd`.
 */
module SonarReport {
  import opened SonarTypes
  import opened PhpStrings
  import opened Classify

  /** A finding together with the line and column keys it was filed under. */
  datatype Located = Located(line: int, column: int, error: Finding)

  // ---------------------------------------------------------------------
  // Iteration order of the three foreach loops
  // ---------------------------------------------------------------------

  /** The findings of one column, in array order. */
  function LocateErrors(line: int, column: int, errors: seq<Finding>): (r: seq<Located>)
    ensures |r| == |errors|
    ensures forall k :: 0 <= k < |errors| ==> r[k] == Located(line, column, errors[k])
  {
    if |errors| == 0 then []
    else LocateErrors(line, column, errors[..|errors| - 1]) + [Located(line, column, errors[|errors| - 1])]
  }

  /** The findings of one line, column after column; every entry is filed under that line. */
  function FlattenColumns(line: int, columns: seq<ColumnErrors>): (r: seq<Located>)
    ensures forall k :: 0 <= k < |r| ==> r[k].line == line
  {
    if |columns| == 0 then []
    else
      var last := columns[|columns| - 1];
      FlattenColumns(line, columns[..|columns| - 1]) + LocateErrors(line, last.column, last.errors)
  }

  /** The findings of a file in the order the loops visit them: line, then column, then array order. */
  function Flatten(messages: seq<LineErrors>): seq<Located>
  {
    if |messages| == 0 then []
    else
      var last := messages[|messages| - 1];
      Flatten(messages[..|messages| - 1]) + FlattenColumns(last.line, last.columns)
  }

  /** Number of findings in a file report. */
  function FindingCount(messages: seq<LineErrors>): nat
  {
    if |messages| == 0 then 0
    else ColumnFindingCount(messages[0].columns) + FindingCount(messages[1..])
  }

  function ColumnFindingCount(columns: seq<ColumnErrors>): nat
  {
    if |columns| == 0 then 0 else |columns[0].errors| + ColumnFindingCount(columns[1..])
  }

  lemma {:induction false} FlattenColumnsAppend(line: int, a: seq<ColumnErrors>, b: seq<ColumnErrors>)
    ensures FlattenColumns(line, a + b) == FlattenColumns(line, a) + FlattenColumns(line, b)
    decreases |b|
  {
    if |b| == 0 {
      assert a + b == a;
    } else {
      var init, last := b[..|b| - 1], b[|b| - 1];
      var tail := LocateErrors(line, last.column, last.errors);
      assert (a + b)[..|a + b| - 1] == a + init && (a + b)[|a + b| - 1] == last;
      assert FlattenColumns(line, a + b) == FlattenColumns(line, a + init) + tail;
      FlattenColumnsAppend(line, a, init);
      ConcatAssoc(FlattenColumns(line, a), FlattenColumns(line, init), tail);
    }
  }

  /** Findings of earlier lines come before those of later lines: flattening distributes over concatenation. */
  lemma {:induction false} FlattenAppend(a: seq<LineErrors>, b: seq<LineErrors>)
    ensures Flatten(a + b) == Flatten(a) + Flatten(b)
    decreases |b|
  {
    if |b| == 0 {
      assert a + b == a;
    } else {
      var init, last := b[..|b| - 1], b[|b| - 1];
      var tail := FlattenColumns(last.line, last.columns);
      assert (a + b)[..|a + b| - 1] == a + init && (a + b)[|a + b| - 1] == last;
      assert Flatten(a + b) == Flatten(a + init) + tail;
      FlattenAppend(a, init);
      ConcatAssoc(Flatten(a), Flatten(init), tail);
    }
  }

  /** A single line with a single column yields its findings in array order. */
  lemma FlattenSingle(line: int, column: int, errors: seq<Finding>)
    ensures Flatten([LineErrors(line, [ColumnErrors(column, errors)])]) == LocateErrors(line, column, errors)
  {
    var cols := [ColumnErrors(column, errors)];
    var m := [LineErrors(line, cols)];
    assert m[..|m| - 1] == [];
    assert cols[..|cols| - 1] == [];
    assert FlattenColumns(line, cols) == [] + LocateErrors(line, column, errors);
    assert Flatten(m) == [] + FlattenColumns(line, cols);
  }

  lemma ConcatAssoc<T>(a: seq<T>, b: seq<T>, c: seq<T>)
    ensures (a + b) + c == a + (b + c)
  {
  }

  lemma FlattenColumnsStep(line: int, columns: seq<ColumnErrors>, j: nat)
    requires j < |columns|
    ensures FlattenColumns(line, columns[..j + 1])
      == FlattenColumns(line, columns[..j]) + LocateErrors(line, columns[j].column, columns[j].errors)
  {
    assert columns[..j + 1][..j] == columns[..j];
  }

  lemma FlattenStep(messages: seq<LineErrors>, i: nat)
    requires i < |messages|
    ensures Flatten(messages[..i + 1]) == Flatten(messages[..i]) + FlattenColumns(messages[i].line, messages[i].columns)
  {
    assert messages[..i + 1][..i] == messages[..i];
  }

  lemma {:induction false} FlattenColumnsCount(line: int, columns: seq<ColumnErrors>)
    ensures |FlattenColumns(line, columns)| == ColumnFindingCount(columns)
    decreases |columns|
  {
    if |columns| > 0 {
      var first := [columns[0]];
      assert columns == first + columns[1..];
      FlattenColumnsAppend(line, first, columns[1..]);
      assert first[..0] == [];
      FlattenColumnsCount(line, columns[1..]);
    }
  }

  /** No finding is dropped or merged: one located entry per finding. */
  lemma {:induction false} FlattenCount(messages: seq<LineErrors>)
    ensures |Flatten(messages)| == FindingCount(messages)
    decreases |messages|
  {
    if |messages| > 0 {
      var first := [messages[0]];
      assert messages == first + messages[1..];
      FlattenAppend(first, messages[1..]);
      assert first[..0] == [];
      FlattenColumnsCount(messages[0].line, messages[0].columns);
      FlattenCount(messages[1..]);
    }
  }

  // ---------------------------------------------------------------------
  // Path normalisation
  // ---------------------------------------------------------------------

  /**
   * The `if (isset(...) && $report['filename'][0] == '/')` step: an absolute
   * path loses every occurrence of `cwd + "/"`; an unset, empty or
   * relative path is left alone.
   */
  function NormalizeFilename(filename: Option<string>, cwd: string): (r: Option<string>)
    ensures r.None? <==> filename.None?
    ensures filename.Some? && (|filename.value| == 0 || filename.value[0] != '/') ==> r == filename
    ensures r.Some? ==> |r.value| <= |filename.value|
  {
    match filename
    case None => None
    case Some(path) =>
      if |path| > 0 && path[0] == '/' then Some(RemoveOccurrences(path, cwd + "/")) else filename
  }

  /** A path below the working directory becomes relative to it. */
  lemma NormalizeUnderCwd(cwd: string, rel: string)
    requires !Contains(rel, cwd + "/")
    ensures |cwd + "/" + rel| > 0 && (cwd + "/" + rel)[0] == '/' <==> |cwd| == 0 || cwd[0] == '/'
    ensures |cwd| == 0 || cwd[0] == '/' ==> NormalizeFilename(Some(cwd + "/" + rel), cwd) == Some(rel)
  {
    assert cwd + "/" + rel == (cwd + "/") + rel;
    RemoveLeadingOccurrence(cwd + "/", rel);
  }

  /** The filename after `n` passes through the innermost loop body. */
  function NormalizeTimes(filename: Option<string>, cwd: string, n: nat): Option<string>
  {
    if n == 0 then filename else NormalizeFilename(NormalizeTimes(filename, cwd, n - 1), cwd)
  }

  /** A filename that a second normalisation leaves alone. */
  predicate StableFilename(filename: Option<string>, cwd: string)
  {
    NormalizeFilename(NormalizeFilename(filename, cwd), cwd) == NormalizeFilename(filename, cwd)
  }

  lemma {:induction false} NormalizeTimesStable(filename: Option<string>, cwd: string, n: nat)
    requires StableFilename(filename, cwd) && n > 0
    ensures NormalizeTimes(filename, cwd, n) == NormalizeFilename(filename, cwd)
    decreases n
  {
    if n > 1 {
      NormalizeTimesStable(filename, cwd, n - 1);
    }
  }

  /** A path that holds no `cwd + "/"` anywhere, such as a file outside the working directory, is left unchanged. */
  lemma NormalizeOutsideCwd(filename: Option<string>, cwd: string)
    requires filename.Some? && !Contains(filename.value, cwd + "/")
    ensures NormalizeFilename(filename, cwd) == filename
    ensures StableFilename(filename, cwd)
  {
    if |filename.value| > 0 && filename.value[0] == '/' {
      RemoveOccurrencesAbsent(filename.value, cwd + "/");
    }
  }

  /** Unset and relative paths are stable, and so is a path below the working directory. */
  lemma StableCases(filename: Option<string>, cwd: string, rel: string)
    ensures filename.None? ==> StableFilename(filename, cwd)
    ensures filename.Some? && (|filename.value| == 0 || filename.value[0] != '/') ==> StableFilename(filename, cwd)
    ensures filename == Some(cwd + "/" + rel) && !Contains(rel, cwd + "/") ==> StableFilename(filename, cwd)
  {
    if filename == Some(cwd + "/" + rel) && !Contains(rel, cwd + "/") {
      NormalizeUnderCwd(cwd, rel);
      if |rel| > 0 && rel[0] == '/' {
        RemoveOccurrencesAbsent(rel, cwd + "/");
      }
    }
  }

  // ---------------------------------------------------------------------
  // Records
  // ---------------------------------------------------------------------

  /** The error copy after `$error['message'] = strtr(...)`: only the message changes, and it holds no control character. */
  function Escaped(error: Finding): (e: Finding)
    ensures e.source == error.source && e.severity == error.severity && e.kind == error.kind
    ensures |e.message| == |error.message| + CountControl(error.message)
    ensures forall i :: 0 <= i < |e.message| ==> !IsControl(e.message[i])
  {
    error.(message := Escape(error.message))
  }

  /**
   * The `$issue` array literal: a one-line range from column 0 to the
   * finding's column, labelled by the two classifiers.
   */
  function BuildIssue(line: int, column: int, error: Finding, filePath: Option<string>): (r: Issue)
    ensures r.engineId == EngineId && r.ruleId == error.source && r.filePath == filePath
    ensures r.startLine == r.endLine == line && r.startColumn == 0 && r.endColumn == column
    ensures r.issueType == Vulnerability <==> error.source.Some? && MentionsSecurity(error.source.value)
    ensures r.message == error.message
    ensures r.severity == Critical <==> error.severity >= 6 || (error.severity == 5 && error.kind == "ERROR")
    ensures r.severity == Major <==> error.severity == 5 && error.kind == "WARNING"
    ensures r.severity == Minor <==> 3 <= error.severity <= 4 || (error.severity == 5 && error.kind != "ERROR" && error.kind != "WARNING")
    ensures r.severity == Info <==> error.severity < 3
  {
    Issue(EngineId, error.source, IssueTypeOf(error.source), SonarSeverity(error.kind, error.severity),
          error.message, filePath, line, line, 0, column)
  }

  /** The records the emitter builds, as written: the k-th one sees the filename normalised k + 1 times. */
  function FileIssues(located: seq<Located>, filename: Option<string>, cwd: string): seq<Issue>
  {
    if |located| == 0 then []
    else
      var last := located[|located| - 1];
      FileIssues(located[..|located| - 1], filename, cwd)
        + [BuildIssue(last.line, last.column, Escaped(last.error), NormalizeTimes(filename, cwd, |located|))]
  }

  /** The records with the path normalised once per file, as the surrounding comment intends. */
  function IntendedFileIssues(located: seq<Located>, filename: Option<string>, cwd: string): (r: seq<Issue>)
    ensures |r| == |located|
  {
    if |located| == 0 then []
    else
      var last := located[|located| - 1];
      IntendedFileIssues(located[..|located| - 1], filename, cwd)
        + [BuildIssue(last.line, last.column, Escaped(last.error), NormalizeFilename(filename, cwd))]
  }

  /** What each record holds, field by field, for the finding it comes from. */
  lemma {:induction false} IssueRecordFields(located: seq<Located>, filename: Option<string>, cwd: string)
    ensures |FileIssues(located, filename, cwd)| == |located|
    ensures forall k :: 0 <= k < |located| ==>
      var issue, loc := FileIssues(located, filename, cwd)[k], located[k];
      && issue.engineId == "PHP_CodeSniffer"
      && issue.ruleId == loc.error.source
      && issue.issueType == IssueTypeOf(loc.error.source)
      && issue.severity == SonarSeverity(loc.error.kind, loc.error.severity)
      && issue.message == Escape(loc.error.message)
      && issue.filePath == NormalizeTimes(filename, cwd, k + 1)
      && issue.startLine == loc.line && issue.endLine == loc.line
      && issue.startColumn == 0 && issue.endColumn == loc.column
    decreases |located|
  {
    if |located| > 0 {
      IssueRecordFields(located[..|located| - 1], filename, cwd);
    }
  }

  /** In the intended emitter every record of a file carries the same, once-normalised path. */
  lemma {:induction false} IntendedSameFilePath(located: seq<Located>, filename: Option<string>, cwd: string)
    ensures |IntendedFileIssues(located, filename, cwd)| == |located|
    ensures forall k :: 0 <= k < |located| ==>
      IntendedFileIssues(located, filename, cwd)[k].filePath == NormalizeFilename(filename, cwd)
    decreases |located|
  {
    if |located| > 0 {
      IntendedSameFilePath(located[..|located| - 1], filename, cwd);
    }
  }

  /** What each record of the corrected list holds, for the finding it comes from. */
  lemma {:induction false} IntendedRecordFields(located: seq<Located>, filename: Option<string>, cwd: string)
    ensures forall k :: 0 <= k < |located| ==>
      var issue, loc := IntendedFileIssues(located, filename, cwd)[k], located[k];
      && issue.ruleId == loc.error.source
      && issue.issueType == IssueTypeOf(loc.error.source)
      && issue.severity == SonarSeverity(loc.error.kind, loc.error.severity)
      && issue.message == Escape(loc.error.message)
      && issue.startLine == loc.line && issue.endLine == loc.line
      && issue.startColumn == 0 && issue.endColumn == loc.column
    decreases |located|
  {
    if |located| > 0 {
      IntendedRecordFields(located[..|located| - 1], filename, cwd);
    }
  }

  /** For every filename that normalises in one pass, the emitter as written agrees with the intended one. */
  lemma {:induction false} AsWrittenMatchesIntended(located: seq<Located>, filename: Option<string>, cwd: string)
    requires StableFilename(filename, cwd)
    ensures FileIssues(located, filename, cwd) == IntendedFileIssues(located, filename, cwd)
    decreases |located|
  {
    if |located| > 0 {
      AsWrittenMatchesIntended(located[..|located| - 1], filename, cwd);
      NormalizeTimesStable(filename, cwd, |located|);
    }
  }

  /** For a filename that normalises in one pass, every record of the file as written carries the same path. */
  lemma AsWrittenSameFilePath(located: seq<Located>, filename: Option<string>, cwd: string)
    requires StableFilename(filename, cwd)
    ensures |FileIssues(located, filename, cwd)| == |located|
    ensures forall k :: 0 <= k < |located| ==>
      FileIssues(located, filename, cwd)[k].filePath == NormalizeFilename(filename, cwd)
  {
    IssueRecordFields(located, filename, cwd);
    AsWrittenMatchesIntended(located, filename, cwd);
    IntendedSameFilePath(located, filename, cwd);
  }

  /**
   * Two findings of one file: a severity-6 error of a security sniff on
   * line 10, column 4 and a severity-2 warning of a generic sniff on line
   * 20, column 1. They become a critical vulnerability and an INFO bug, in
   * line order.
   */
  lemma TwoFindingExample(filename: Option<string>, cwd: string)
    ensures var messages := [
              LineErrors(10, [ColumnErrors(4, [Finding("a", Some("Security.Foo"), 6, "ERROR")])]),
              LineErrors(20, [ColumnErrors(1, [Finding("b", Some("Generic.Bar"), 2, "WARNING")])])];
            var issues := FileIssues(Flatten(messages), filename, cwd);
            && |issues| == 2
            && issues[0].issueType == Vulnerability && issues[0].severity == Critical
            && issues[0].startLine == 10 && issues[0].endColumn == 4
            && issues[1].issueType == Bug && issues[1].severity == Info
            && issues[1].startLine == 20 && issues[1].endColumn == 1
  {
    var e1 := Finding("a", Some("Security.Foo"), 6, "ERROR");
    var e2 := Finding("b", Some("Generic.Bar"), 2, "WARNING");
    var l1 := LineErrors(10, [ColumnErrors(4, [e1])]);
    var l2 := LineErrors(20, [ColumnErrors(1, [e2])]);
    FlattenAppend([l1], [l2]);
    FlattenSingle(10, 4, [e1]);
    FlattenSingle(20, 1, [e2]);
    assert [l1] + [l2] == [l1, l2];
    var located := Flatten([l1, l2]);
    assert located == [Located(10, 4, e1), Located(20, 1, e2)];
    IssueRecordFields(located, filename, cwd);
    IssueTypeExamples();
  }

  /**
   * With the working directory "/a", the absolute path "//a/a/x" loses its
   * inner "/a/" on the first finding and becomes "/a/x", which is still
   * absolute and loses "/a/" again on the second finding: two records of
   * one file name different paths.
   */
  lemma FilePathDrifts()
    ensures var f := Finding("m", None, 5, "ERROR");
            var located := [Located(1, 1, f), Located(1, 1, f)];
            var issues := FileIssues(located, Some("//a/a/x"), "/a");
            |issues| == 2 && issues[0].filePath == Some("/a/x") && issues[1].filePath == Some("x")
  {
    RemoveInnerOccurrence();
    RemoveLeadingOccurrence("/a/", "x");
    assert "/a/" + "x" == "/a/x";
    var f := Finding("m", None, 5, "ERROR");
    IssueRecordFields([Located(1, 1, f), Located(1, 1, f)], Some("//a/a/x"), "/a");
  }

  lemma RemoveInnerOccurrence()
    ensures RemoveOccurrences("//a/a/x", "/a/") == "/a/x"
  {
    var pat := "/a/";
    var s := "//a/a/x";
    assert s[..3] != pat by { assert s[1] != pat[1]; }
    assert s[1..] == pat + "a/x";
    assert !Contains("a/x", pat) by {
      forall i: nat | i <= 3 ensures !OccursAt("a/x", pat, i) {
        if i == 0 { assert "a/x"[0] != pat[0]; }
      }
    }
    RemoveLeadingOccurrence(pat, "a/x");
  }

  /**
   * `str_replace` removes `cwd + "/"` wherever it occurs, not only as a
   * prefix: with the working directory "/app", "/var/app/x.php" becomes
   * "/varx.php".
   */
  lemma NormalizeStripsInnerCwd()
    ensures NormalizeFilename(Some("/var/app/x.php"), "/app") == Some("/varx.php")
  {
    var pat, rest := "/app/", "x.php";
    assert "/app" + "/" == pat;
    assert !Contains(rest, pat) by {
      forall i: nat | i <= 5 ensures !OccursAt(rest, pat, i) {
        if i == 0 { assert rest[0] != pat[0]; }
      }
    }
    RemoveLeadingOccurrence(pat, rest);
    var s3 := ['r'] + (pat + rest);
    var s2 := ['a'] + s3;
    var s1 := ['v'] + s2;
    var s0 := ['/'] + s1;
    SkipHead(s3, pat);
    SkipHead(s2, pat);
    SkipHead(s1, pat);
    SkipHead(s0, pat);
    SpellInnerSubject();
    SpellInnerResult();
  }

  lemma SpellInnerSubject()
    ensures ['/'] + (['v'] + (['a'] + (['r'] + ("/app/" + "x.php")))) == "/var/app/x.php"
  {
  }

  lemma SpellInnerResult()
    ensures ['/'] + (['v'] + (['a'] + (['r'] + "x.php"))) == "/varx.php"
  {
  }

  /** One step of the `str_replace` scan that finds no match at the head. */
  lemma SkipHead(s: string, pat: string)
    requires 1 < |pat| <= |s| && (s[0] != pat[0] || s[1] != pat[1])
    ensures RemoveOccurrences(s, pat) == [s[0]] + RemoveOccurrences(s[1..], pat)
  {
    assert s[..|pat|][0] == s[0] && s[..|pat|][1] == s[1];
  }

  // ---------------------------------------------------------------------
  // Output text
  // ---------------------------------------------------------------------

  /** The text `echo json_encode($issue).','` writes for each record, in order. */
  function Render(encode: Issue -> string, issues: seq<Issue>): string
  {
    if |issues| == 0 then ""
    else Render(encode, issues[..|issues| - 1]) + encode(issues[|issues| - 1]) + ","
  }

  /** Fragments of successive files concatenate into the fragment of all their records. */
  lemma {:induction false} RenderAppend(encode: Issue -> string, a: seq<Issue>, b: seq<Issue>)
    ensures Render(encode, a + b) == Render(encode, a) + Render(encode, b)
    decreases |b|
  {
    if |b| == 0 {
      assert a + b == a;
    } else {
      var init, last := b[..|b| - 1], b[|b| - 1];
      var tail := encode(last) + ",";
      assert (a + b)[..|a + b| - 1] == a + init && (a + b)[|a + b| - 1] == last;
      assert Render(encode, a + b) == Render(encode, a + init) + tail;
      RenderAppend(encode, a, init);
      ConcatAssoc(Render(encode, a), Render(encode, init), tail);
    }
  }

  /** One chunk per record: record `k`'s encoding followed by a comma occupies its own slice. */
  lemma {:induction false} RenderChunks(encode: Issue -> string, issues: seq<Issue>, k: nat)
    requires k < |issues|
    ensures Render(encode, issues) ==
      Render(encode, issues[..k]) + encode(issues[k]) + "," + Render(encode, issues[k + 1..])
  {
    assert issues == issues[..k] + [issues[k]] + issues[k + 1..];
    RenderAppend(encode, issues[..k] + [issues[k]], issues[k + 1..]);
    RenderAppend(encode, issues[..k], [issues[k]]);
    assert [issues[k]][..0] == [];
  }

  /** Emitting one more record: the as-written filename has been normalised once more. */
  lemma EmitStep(encode: Issue -> string, written: seq<Located>, next: Located, filename: Option<string>, cwd: string)
    ensures |written + [next]| == |written| + 1
    ensures NormalizeTimes(filename, cwd, |written + [next]|) == NormalizeFilename(NormalizeTimes(filename, cwd, |written|), cwd)
    ensures Render(encode, FileIssues(written + [next], filename, cwd))
      == Render(encode, FileIssues(written, filename, cwd))
         + encode(BuildIssue(next.line, next.column, Escaped(next.error),
                             NormalizeFilename(NormalizeTimes(filename, cwd, |written|), cwd))) + ","
  {
    var all := written + [next];
    assert all[..|all| - 1] == written;
    var issues := FileIssues(all, filename, cwd);
    assert issues[..|issues| - 1] == FileIssues(written, filename, cwd);
  }

  /** Extending a prefix of `c` by its next element. */
  lemma SnocSlice<T>(a: seq<T>, c: seq<T>, k: nat)
    requires k <= |c|
    ensures k == 0 ==> a + c[..k] == a
    ensures k == |c| ==> c[..k] == c
    ensures 0 < k ==> a + c[..k] == (a + c[..k - 1]) + [c[k - 1]]
  {
    if 0 < k {
      assert c[..k] == c[..k - 1] + [c[k - 1]];
    }
  }

  /**
   * `generateFileReport`: three nested loops over the lines, the columns
   * of each line and the findings at each column. Each finding is escaped,
   * the filename is normalised again, and the record is echoed with a
   * trailing comma. Returns the text echoed for the file and the method's
   * boolean result.
   */
  method GenerateFileReport(messages: seq<LineErrors>, filename: Option<string>, cwd: string, encode: Issue -> string)
    returns (fragment: string, processed: bool)
    ensures fragment == Render(encode, FileIssues(Flatten(messages), filename, cwd))
    ensures processed
  {
    fragment := "";
    var currentFilename := filename;
    ghost var done: seq<Located> := [];
    var i := 0;
    while i < |messages|
      invariant 0 <= i <= |messages|
      invariant done == Flatten(messages[..i])
      invariant currentFilename == NormalizeTimes(filename, cwd, |done|)
      invariant fragment == Render(encode, FileIssues(done, filename, cwd))
    {
      var line := messages[i].line;
      var lineErrors := messages[i].columns;
      ghost var beforeLine := done;
      var j := 0;
      while j < |lineErrors|
        invariant 0 <= j <= |lineErrors|
        invariant done == beforeLine + FlattenColumns(line, lineErrors[..j])
        invariant currentFilename == NormalizeTimes(filename, cwd, |done|)
        invariant fragment == Render(encode, FileIssues(done, filename, cwd))
      {
        var column := lineErrors[j].column;
        var colErrors := lineErrors[j].errors;
        ghost var beforeColumn := done;
        ghost var cells := LocateErrors(line, column, colErrors);
        var k := 0;
        SnocSlice(beforeColumn, cells, 0);
        while k < |colErrors|
          invariant 0 <= k <= |colErrors|
          invariant done == beforeColumn + cells[..k]
          invariant currentFilename == NormalizeTimes(filename, cwd, |done|)
          invariant fragment == Render(encode, FileIssues(done, filename, cwd))
        {
          var error := Escaped(colErrors[k]);
          currentFilename := NormalizeFilename(currentFilename, cwd);
          var issue := BuildIssue(line, column, error, currentFilename);
          fragment := fragment + encode(issue) + ",";
          EmitStep(encode, done, cells[k], filename, cwd);
          SnocSlice(beforeColumn, cells, k + 1);
          done := done + [cells[k]];
          k := k + 1;
        }
        assert done == beforeColumn + cells by {
          SnocSlice(beforeColumn, cells, k);
        }
        FlattenColumnsStep(line, lineErrors, j);
        ConcatAssoc(beforeLine, FlattenColumns(line, lineErrors[..j]), cells);
        j := j + 1;
      }
      assert lineErrors[..j] == lineErrors;
      FlattenStep(messages, i);
      i := i + 1;
    }
    assert messages[..i] == messages;
    processed := true;
  }

  // ---------------------------------------------------------------------
  // Finalizer
  // ---------------------------------------------------------------------

  const Opening: string := "{\"issues\":["
  const Closing: string := "]}"

  /** `generate`: `printf('{"issues":[%s]}', rtrim($cachedData, ','))`. */
  function Generate(cachedData: string): (doc: string)
    ensures |doc| >= |Opening| + |Closing|
    ensures doc[..|Opening|] == Opening && doc[|doc| - |Closing|..] == Closing
    ensures doc[|Opening|..|doc| - |Closing|] <= cachedData
  {
    Opening + RTrimComma(cachedData) + Closing
  }

  /** Nothing reported gives an empty issue list. */
  lemma GenerateEmpty()
    ensures Generate("") == "{\"issues\":[]}"
  {
  }

  /** Text that does not end in a comma is wrapped without losing a character. */
  lemma GenerateKeepsText(cachedData: string)
    requires |cachedData| == 0 || cachedData[|cachedData| - 1] != ','
    ensures Generate(cachedData) == Opening + cachedData + Closing
  {
  }

  /** Any number of trailing commas is removed, not just one. */
  lemma GenerateTrimsAllCommas(cachedData: string, n: nat)
    ensures Generate(cachedData + Commas(n)) == Generate(cachedData)
  {
    RTrimCommaIgnoresTrailing(cachedData, n);
  }

  /** The encodings of the records, in order. */
  function Encodings(encode: Issue -> string, issues: seq<Issue>): (r: seq<string>)
    ensures |r| == |issues| && forall k :: 0 <= k < |issues| ==> r[k] == encode(issues[k])
  {
    if |issues| == 0 then [] else Encodings(encode, issues[..|issues| - 1]) + [encode(issues[|issues| - 1])]
  }

  /** Strings separated by single commas. */
  function Join(parts: seq<string>): string
  {
    if |parts| == 0 then ""
    else if |parts| == 1 then parts[0]
    else Join(parts[..|parts| - 1]) + "," + parts[|parts| - 1]
  }

  /**
   * The encoder produces a non-empty text that does not end with a comma.
   * A successful `json_encode` of an array ends with a brace; a failed one
   * returns false, which `echo` writes as the empty text, and that is the
   * case this predicate excludes.
   */
  predicate WellEnded(encode: Issue -> string, issues: seq<Issue>)
  {
    forall k :: 0 <= k < |issues| ==> |encode(issues[k])| > 0 && encode(issues[k])[|encode(issues[k])| - 1] != ','
  }

  lemma {:induction false} RenderIsJoinedList(encode: Issue -> string, issues: seq<Issue>)
    requires |issues| > 0 && WellEnded(encode, issues)
    ensures Render(encode, issues) == Join(Encodings(encode, issues)) + ","
    decreases |issues|
  {
    var init := issues[..|issues| - 1];
    var parts := Encodings(encode, issues);
    assert parts[..|parts| - 1] == Encodings(encode, init);
    if |issues| > 1 {
      assert WellEnded(encode, init) by {
        forall k | 0 <= k < |init| ensures init[k] == issues[k] { }
      }
      RenderIsJoinedList(encode, init);
    } else {
      assert init == [];
    }
  }

  /**
   * End to end: the fragment of a run, closed by the finalizer, is the
   * comma-separated list of the record encodings, in order.
   */
  lemma ReportIsIssueList(encode: Issue -> string, issues: seq<Issue>)
    requires WellEnded(encode, issues)
    ensures Generate(Render(encode, issues)) == Opening + Join(Encodings(encode, issues)) + Closing
  {
    if |issues| > 0 {
      RenderIsJoinedList(encode, issues);
      JoinWellEnded(encode, issues);
      var body := Join(Encodings(encode, issues));
      assert body + "," == body + Commas(1);
      RTrimCommaDropsRun(body, 1);
    }
  }

  lemma {:induction false} JoinWellEnded(encode: Issue -> string, issues: seq<Issue>)
    requires |issues| > 0 && WellEnded(encode, issues)
    ensures var body := Join(Encodings(encode, issues)); |body| > 0 && body[|body| - 1] != ','
  {
    var parts := Encodings(encode, issues);
    var last := parts[|parts| - 1];
    assert last == encode(issues[|issues| - 1]);
    if |parts| > 1 {
      assert Join(parts) == Join(parts[..|parts| - 1]) + "," + last;
    }
  }
}
