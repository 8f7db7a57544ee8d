# Sonar report for PHP_CodeSniffer, modelled in Dafny

`Symbiote\PHP_CodeSniffer\Sonar` is a phpcs report class. It turns the findings phpcs collected for each file into SonarQube's "generic external issue" JSON document. phpcs calls `generateFileReport` once per file, and that method echoes one `json_encode`d issue record per finding, each followed by a comma. At the end of the run phpcs passes everything echoed so far to `generate`. That method strips the trailing commas and wraps the text in `{"issues":[` … `]}`.

The model has four modules:

- `SonarTypes` (sonar_types.dfy): the phpcs error array (`Finding`), the nested `messages` structure (`LineErrors`, `ColumnErrors`), the `$issue` array (`Issue`) and the label enumerations `Severity` and `IssueType`.
- `PhpStrings` (php_strings.dfy): the four PHP string functions the class calls. Each is restricted to the way the class calls it:
  - `strtr` with the three-entry table becomes `Escape`;
  - `str_replace` with an empty replacement becomes `RemoveOccurrences`;
  - `stripos` becomes `Stripos`, with ASCII case folding;
  - `rtrim` with the character list `,` becomes `RTrimComma`.
- `Classify` (classify.dfy): `convertErrorToType` and `convertErrorToSonarSeverity`, as pure functions.
- `SonarReport` (report.dfy) holds:
  - `generateFileReport`, as a method with the three nested loops and a string buffer;
  - its specification `FileIssues`, which gives the records in loop order;
  - `generate`, as a pure function, and the lemmas that connect the two.

Ambient inputs become parameters:

- the working directory that `getcwd()` returns is `cwd`;
- `json_encode` is an arbitrary function `encode: Issue -> string`;
- the text that `echo` and `printf` write is the string that the method or function returns.

Four behaviours of the code differ from what a reader of the adapter's purpose might expect. The model follows the code in each case:

- **Iteration order.** One might expect lines and columns to be visited in ascending key order. The code iterates the arrays in PHP insertion order and never sorts, so `Flatten` keeps the order of the input sequences.
- **Comma stripping.** One might expect the finalizer to strip exactly one trailing comma. `rtrim($cachedData, ',')` strips all of them (`GenerateTrimsAllCommas`).
- **Path normalisation.** One might expect the path to be normalised once per file. The code does it inside the innermost loop, once per finding. See "## Findings".
- **Stripping the working directory.** One might expect only a leading `cwd + "/"` to be removed. `str_replace` removes it wherever it occurs in an absolute path: the text before the leftmost occurrence is kept and the scan resumes after it (`RemoveLeftmostOccurrence`, for all inputs). With the working directory "/app", "/var/app/x.php" becomes "/varx.php" (`NormalizeStripsInnerCwd`).

The escaping done by `strtr` loses information. A raw newline and a backslash followed by `n` escape to the same two characters (`EscapeConflatesLookalike`). The round trip holds only for messages that contain no backslash followed by `n`, `r` or `t` (`EscapeRoundTrip`).

## Model

| member | source | states |
|---|---|---|
| `Classify.IssueTypeOf` | src/Sonar.php:114-120 | The type is VULNERABILITY exactly when the source is set and contains "security" at some offset, ignoring ASCII case. Otherwise it is BUG. |
| `Classify.IssueTypeIgnoresCase` | src/Sonar.php:115 | Changing the ASCII case of any letters in the rule source never changes the issue type. |
| `Classify.IssueTypeExamples` | src/Sonar.php:114-120 | "Security.Foo" gives VULNERABILITY. "Generic.Bar" and an unset source give BUG. |
| `Classify.SonarSeverity` | src/Sonar.php:130-153 | Gives the exact inputs for each label. CRITICAL: severity ≥ 6, or 5 with type "ERROR". MAJOR: 5 with "WARNING". MINOR: 3–4, or 5 with any other type string. INFO: below 3. |
| `Classify.SeverityMonotonic` | src/Sonar.php:135-151 | For a fixed type string, a higher severity never gives a lower label. |
| `Classify.SeverityKindOrder` | src/Sonar.php:139-145 | At a fixed severity, "ERROR" ranks at least as high as "WARNING", and "WARNING" at least as high as any other type string. |
| `PhpStrings.Escape` | src/Sonar.php:38-45 | The escaped message contains no newline, carriage return or tab. Its length is the original length plus the number of such characters. |
| `PhpStrings.EscapeAppend` | src/Sonar.php:38-45 | Escaping works character by character: it distributes over concatenation. |
| `PhpStrings.EscapeKeepsPlainText` | src/Sonar.php:38-45 | A message without control characters is left unchanged. |
| `PhpStrings.EscapeRoundTrip` | src/Sonar.php:38-45 | Unescaping the escaped message recovers it whenever the message contains no backslash followed by n, r or t. |
| `PhpStrings.EscapeInjective` | src/Sonar.php:38-45 | Two such messages with equal escapes are equal. |
| `PhpStrings.EscapeConflatesLookalike` | src/Sonar.php:38-45 | A raw newline and the two characters backslash and n have the same escape, so escaping is not injective in general. |
| `PhpStrings.RemoveOccurrences` | src/Sonar.php:50 | Its own contract states only that the result is never longer than the subject. Two lemmas hold for all inputs and together fix the result on every subject: `RemoveLeftmostOccurrence` and `RemoveOccurrencesAbsent`. `RemoveInnerOccurrence` and `NormalizeStripsInnerCwd` are concrete instances. |
| `PhpStrings.RemoveLeftmostOccurrence` | src/Sonar.php:50 | For every subject `u + pat + v` where `pat` first occurs right after `u`: the text `u` is copied, that occurrence is deleted, and the scan resumes on `v`. |
| `PhpStrings.RemoveOccurrencesAbsent` | src/Sonar.php:50 | `str_replace` leaves a subject that holds no occurrence of the search string unchanged. |
| `PhpStrings.RemoveLeadingOccurrence` | src/Sonar.php:50 | A leading occurrence followed by text free of the search string leaves exactly that text. |
| `PhpStrings.Stripos` | src/Sonar.php:115 | A position is found exactly when a case-insensitive match exists. The position found is a match, and no earlier position is. |
| `PhpStrings.FindFolded` | src/Sonar.php:115 | The search returns the leftmost case-insensitive match at or after its start, or reports that none exists. |
| `PhpStrings.RTrimComma` | src/Sonar.php:109 | The result is a prefix of the input and does not end in a comma, and every character it drops is a comma. |
| `PhpStrings.RTrimCommaIgnoresTrailing` | src/Sonar.php:109 | Appending any number of commas does not change the trimmed text. |
| `PhpStrings.RTrimCommaDropsRun` | src/Sonar.php:109 | A text not ending in a comma, followed by n commas, trims back to exactly that text. |
| `SonarReport.LocateErrors` | src/Sonar.php:37 | The findings of one column keep their array order and each carries that line and column. |
| `SonarReport.FlattenColumns` | src/Sonar.php:36-37 | Every entry of a line carries that line's key. The column order is stated by `FlattenColumnsAppend` and the count by `FlattenColumnsCount`. |
| `SonarReport.Flatten` | src/Sonar.php:35-37 | No contract of its own. The line, column and array order of the three loops is stated by `FlattenAppend`, `FlattenColumnsAppend` and `FlattenSingle`, and the entry count by `FlattenCount`. |
| `SonarReport.FlattenAppend` | src/Sonar.php:35-37 | The findings of earlier lines are all emitted before those of later lines: flattening distributes over concatenation. |
| `SonarReport.FlattenColumnsAppend` | src/Sonar.php:36-37 | Within a line, the findings of earlier columns come before those of later columns. |
| `SonarReport.FlattenSingle` | src/Sonar.php:35-37 | One line with one column yields its findings in array order. |
| `SonarReport.FlattenCount` | src/Sonar.php:35-37 | There is exactly one entry per finding, with nothing filtered or merged. |
| `SonarReport.FlattenColumnsCount` | src/Sonar.php:36-37 | A line yields as many entries as it has findings across its columns. |
| `SonarReport.NormalizeFilename` | src/Sonar.php:49-51 | An unset path stays unset. An empty path, or one that does not start with "/", is unchanged. A normalised path is never longer. |
| `SonarReport.NormalizeStripsInnerCwd` | src/Sonar.php:49-50 | With the working directory "/app", "/var/app/x.php" becomes "/varx.php": `cwd + "/"` is removed inside the path, not only at its start. |
| `SonarReport.NormalizeOutsideCwd` | src/Sonar.php:49-51 | A path that contains no `cwd + "/"` anywhere, for example a file outside the working directory, is returned unchanged and is stable under a second normalisation. |
| `SonarReport.NormalizeUnderCwd` | src/Sonar.php:49-51 | For an absolute working directory, `cwd + "/" + rel` becomes `rel` when `rel` does not contain `cwd + "/"`. |
| `SonarReport.StableCases` | src/Sonar.php:49-51 | Unset paths, relative paths and paths `cwd + "/" + rel` of that kind are unchanged by a second normalisation. |
| `SonarReport.NormalizeTimes` | src/Sonar.php:35-51 | No contract of its own. It is the filename after n passes through the innermost loop body, which overwrites `$report['filename']` each time. `NormalizeTimesStable` and `FilePathDrifts` state its behaviour. |
| `SonarReport.NormalizeTimesStable` | src/Sonar.php:35-51 | When a second normalisation changes nothing, normalising any positive number of times equals normalising once. |
| `SonarReport.Escaped` | src/Sonar.php:38-45 | Only the message of the error copy changes. The escaped message holds no newline, carriage return or tab, and is longer by the number of such characters. |
| `SonarReport.BuildIssue` | src/Sonar.php:53-68 | The record names the engine "PHP_CodeSniffer", the rule source and the given path, and spans one line from column 0 to the finding's column. It is a vulnerability exactly when the source mentions "security". It carries the error's message as given. Each of the labels CRITICAL, MAJOR, MINOR and INFO is given for exactly the inputs `convertErrorToSonarSeverity` gives that label. |
| `SonarReport.FileIssues` | src/Sonar.php:35-68 | No contract of its own. It is the records as the loops build them, where record k sees the filename normalised k+1 times. `IssueRecordFields` states each record field by field. |
| `SonarReport.IntendedFileIssues` | src/Sonar.php:47-68 | There is one record per finding. This is the corrected record list, which normalises the path once per file. `IntendedSameFilePath` states the path of every record. |
| `SonarReport.IntendedRecordFields` | src/Sonar.php:38-68 | In the corrected record list, each record carries the source as ruleId, the classified type and severity, the escaped message, startLine = endLine = its line, startColumn 0 and endColumn = its column. |
| `SonarReport.IssueRecordFields` | src/Sonar.php:53-68 | There is one record per finding, in order. Each has engineId "PHP_CodeSniffer", ruleId = source, the classified type and severity, and the escaped message. Each has startLine = endLine = its line, startColumn 0 and endColumn = its column. Record k carries the filename normalised k+1 times. |
| `SonarReport.TwoFindingExample` | src/Sonar.php:53-68 | A severity-6 error from "Security.Foo" on line 10 and a severity-2 warning from "Generic.Bar" on line 20 give, in that order, a CRITICAL VULNERABILITY and an INFO BUG with the right lines and end columns. |
| `SonarReport.IntendedSameFilePath` | src/Sonar.php:47-60 | With normalisation done once per file, every record of the file carries the same path, the normalised filename. |
| `SonarReport.AsWrittenMatchesIntended` | src/Sonar.php:35-60 | When a second normalisation changes nothing, the records as written equal the intended ones. |
| `SonarReport.AsWrittenSameFilePath` | src/Sonar.php:49-60 | For such filenames every record of the file as written carries the same, normalised path. |
| `SonarReport.FilePathDrifts` | src/Sonar.php:35-51 | With cwd "/a" and filename "//a/a/x", the first record of a file gets "/a/x" and the second gets "x". |
| `SonarReport.RemoveInnerOccurrence` | src/Sonar.php:50 | `str_replace("/a/", "", "//a/a/x")` is "/a/x", which still starts with "/". |
| `SonarReport.Render` | src/Sonar.php:70 | No contract of its own. It is the echoed text: each record's encoding followed by a comma. `RenderAppend`, `RenderChunks` and `RenderIsJoinedList` state its shape. |
| `SonarReport.RenderAppend` | src/Sonar.php:70 | The text echoed for a sequence of records is the concatenation of the texts for its parts, which covers fragments of successive files. |
| `SonarReport.RenderChunks` | src/Sonar.php:70 | Record k contributes exactly `encode(record) + ","`, after the text of the records before it and before the text of those after it. |
| `SonarReport.GenerateFileReport` | src/Sonar.php:33-77 | The three nested loops echo exactly the records `FileIssues(Flatten(messages))` in order, each followed by a comma. The method returns true for every input, including a file with no findings. |
| `SonarReport.Generate` | src/Sonar.php:109 | The document starts with `{"issues":[` and ends with `]}`, and what lies between is a prefix of the cached data. |
| `SonarReport.GenerateEmpty` | src/Sonar.php:109 | An empty run gives `{"issues":[]}`. |
| `SonarReport.GenerateKeepsText` | src/Sonar.php:109 | Cached data that does not end in a comma is wrapped without losing a character. |
| `SonarReport.GenerateTrimsAllCommas` | src/Sonar.php:109 | Any number of trailing commas is removed, not just one. |
| `SonarReport.RenderIsJoinedList` | src/Sonar.php:70 | When every encoding is non-empty and does not end in a comma, the echoed text is the comma-joined encodings plus one final comma. |
| `SonarReport.ReportIsIssueList` | src/Sonar.php:109 | Under that condition, the finalised report of the echoed records is `{"issues":[` + encodings joined by single commas + `]}`. |
| `SonarReport.Encodings` | src/Sonar.php:70 | The encodings list has one entry per record: entry k is `encode(record k)`. |

## Findings

| source | as written | input that shows it | evidently intended | confidence | as-written member | corrected member |
|---|---|---|---|---|---|---|
| src/Sonar.php:35-51 | The `str_replace(getcwd().'/', '', …)` normalisation sits inside the innermost loop. It is re-applied to the already normalised filename once per finding, and `str_replace` is not idempotent. | cwd "/a", filename "//a/a/x", two findings: the first record gets "/a/x", which is still absolute, and the second gets "x". | The path is normalised once per file, and all records of a file name the same path. | not executed; medium (the path shape is unusual) | `SonarReport.FilePathDrifts` | `SonarReport.IntendedSameFilePath` |

`SonarReport.GenerateFileReport` models the loop as written (`FileIssues` with `NormalizeTimes`). `SonarReport.IntendedFileIssues` is the corrected definition. `SonarReport.AsWrittenMatchesIntended` proves that the two agree for every filename that a second normalisation leaves alone. `SonarReport.StableCases` and `SonarReport.NormalizeOutsideCwd` give sufficient conditions for that, not a complete list:
- unset paths;
- relative paths;
- paths that contain no `cwd + "/"` at all;
- absolute paths under `cwd` that do not contain `cwd + "/"` again.

## Left out

- `json_encode` is not modelled. It is the parameter `encode`: any function from records to text. Its escaping of quotes, backslashes, slashes and Unicode is not captured. A successful `json_encode` of an array ends in `}`. On failure, for example on invalid UTF-8 in a message or rule source, it returns false, which `echo` writes as nothing. An `encode` that returns "" for that record reproduces this, and `GenerateFileReport` covers it: the record's chunk is a lone ",", and the finished document holds an empty list element. `ReportIsIssueList` requires `WellEnded`, which excludes exactly that case.
- `echo` and `printf` are output I/O. They are modelled as the returned string. Output buffering by the phpcs harness, and the concatenation of fragments across files and worker processes, are done by the harness. `RenderAppend` covers that concatenation.
- `getcwd()` reads process state. It is the parameter `cwd`.
- The `File $phpcsFile` object, `$showSources` and `$width` have no effect on the output, so they are not parameters. The same holds for the totals, `$interactive` and `$toScreen` of `generate`.
- `NormalizeFilename` treats an empty filename as unchanged. In PHP, `""[0]` raises a warning and compares unequal to "/". The warning is not modelled.
- Severities are integers. PHP's comparison of non-numeric severities is not modelled.
- An unset `source` is `None`, and its `ruleId` is `None` (PHP's `null`). The warning PHP 8 raises for the undefined array key is not modelled. The type is then BUG, as `isset` decides.
- An unset `type` key in `convertErrorToSonarSeverity` is not modelled. `kind` is always a string, and a missing key behaves like any string other than "ERROR" or "WARNING".
- PHP strings are byte strings. The model uses `char` sequences, one `char` per byte. Filenames and the working directory may hold any bytes, for example "/home/josé" in UTF-8. The model is still exact, because every operation either compares bytes for equality or folds ASCII letters only:
  - `strtr` and `rtrim` test single bytes;
  - `str_replace` and the `[0] == '/'` test compare byte for byte;
  - `stripos` folds only A–Z.
- `Stripos` folds ASCII letters only, as `stripos` does from PHP 8.2. Earlier PHP versions folded according to the current locale.
- Generate: its own contract states only the envelope shape and that the middle is a prefix of the input. What is removed, and that only commas are removed, is stated by `PhpStrings.RTrimComma` and the Generate lemmas.
