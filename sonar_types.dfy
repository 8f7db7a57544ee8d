/** Values exchanged between PHP_CodeSniffer and the Sonar report adapter. */
module SonarTypes {

  /** A value that PHP may leave unset (`isset` fails, or the key holds null). */
  datatype Option<T> = None | Some(value: T)

  /** Severity labels of SonarQube's generic external issue format. */
  datatype Severity = Info | Minor | Major | Critical

  /** Position of a label on the scale INFO < MINOR < MAJOR < CRITICAL. */
  function Rank(s: Severity): nat
  {
    match s
    case Info => 0
    case Minor => 1
    case Major => 2
    case Critical => 3
  }

  /** Issue types the adapter emits (the format knows more; the adapter uses two). */
  datatype IssueType = Bug | Vulnerability

  /**
   * One phpcs error array as the adapter reads it: `message`, `source`
   * (the sniff code, which may be unset), the integer `severity` and the
   * `type` string, normally "ERROR" or "WARNING".
   */
  datatype Finding = Finding(message: string, source: Option<string>, severity: int, kind: string)

  /** `$report['messages'][$line][$column]`: the findings at one column, in array order. */
  datatype ColumnErrors = ColumnErrors(column: int, errors: seq<Finding>)

  /** `$report['messages'][$line]`: the columns of one line, in array order. */
  datatype LineErrors = LineErrors(line: int, columns: seq<ColumnErrors>)

  /** The `$issue` array that is handed to `json_encode`. */
  datatype Issue = Issue(
    engineId: string,
    ruleId: Option<string>,
    issueType: IssueType,
    severity: Severity,
    message: string,
    filePath: Option<string>,
    startLine: int,
    endLine: int,
    startColumn: int,
    endColumn: int)

  const EngineId: string := "PHP_CodeSniffer"
}
