/**
 * The issue-to-diagnostic mapping of the CSSLint language server: every issue the
 * checker reports for a document becomes one zero-width diagnostic, in order.
 */
module Lint {

  /** One issue reported by the checker: 1-based line and column, a kind tag and a message. */
  datatype RawIssue = RawIssue(line: int, col: int, kind: string, message: string)

  /** The two severities this server ever reports. */
  datatype Severity = Error | Warning

  /** A 0-based position in a document. */
  datatype Position = Position(line: int, character: int)

  datatype Range = Range(start: Position, end: Position)

  /** A diagnostic as sent to the editor; this server sets no `source` or `code`. */
  datatype Diagnostic = Diagnostic(severity: Severity, range: Range, message: string)

  /** Translates one checker issue into the diagnostic published for it. */
  function ToDiagnostic(issue: RawIssue): (d: Diagnostic)
    ensures d.severity == Warning <==> issue.kind == "warning"
    ensures d.severity == Error <==> issue.kind != "warning"
    ensures d.range.start == Position(issue.line - 1, issue.col - 1)
    ensures d.range.end == d.range.start
    ensures d.message == issue.message
  {
    var severity := if issue.kind == "warning" then Warning else Error;
    var at := Position(issue.line - 1, issue.col - 1);
    Diagnostic(severity, Range(at, at), issue.message)
  }

  /** What of an issue survives in its diagnostic: everything but the exact non-warning kind. */
  datatype Finding = Finding(line: int, col: int, isWarning: bool, message: string)

  function FindingOf(issue: RawIssue): Finding
  {
    Finding(issue.line, issue.col, issue.kind == "warning", issue.message)
  }

  /** Reads the reported 1-based location, warning-ness and message back out of a diagnostic. */
  function Recover(d: Diagnostic): Finding
  {
    Finding(d.range.start.line + 1, d.range.start.character + 1, d.severity == Warning, d.message)
  }

  lemma RecoverToDiagnostic(issue: RawIssue)
    ensures Recover(ToDiagnostic(issue)) == FindingOf(issue)
  {
  }

  /** Two issues give the same diagnostic exactly when they agree on everything a finding keeps. */
  lemma ToDiagnosticSame(a: RawIssue, b: RawIssue)
    ensures ToDiagnostic(a) == ToDiagnostic(b) <==> FindingOf(a) == FindingOf(b)
  {
  }

  /** The full diagnostic list for an issue list: one entry per issue, in the same order. */
  function Diagnostics(issues: seq<RawIssue>): (ds: seq<Diagnostic>)
    ensures |ds| == |issues|
    ensures forall i :: 0 <= i < |issues| ==> ds[i] == ToDiagnostic(issues[i])
  {
    if issues == [] then [] else [ToDiagnostic(issues[0])] + Diagnostics(issues[1..])
  }

  /**
   * The loop of validateTextDocument: walks the issues by index and pushes one
   * diagnostic per issue.
   */
  method BuildDiagnostics(issues: seq<RawIssue>) returns (diagnostics: seq<Diagnostic>)
    ensures diagnostics == Diagnostics(issues)
  {
    diagnostics := [];
    var i := 0;
    while i < |issues|
      invariant 0 <= i <= |issues|
      invariant |diagnostics| == i
      invariant forall k :: 0 <= k < i ==> diagnostics[k] == ToDiagnostic(issues[k])
    {
      diagnostics := diagnostics + [ToDiagnostic(issues[i])];
      i := i + 1;
    }
  }

  /** Mapping splits over concatenation: no issue is dropped, duplicated or moved. */
  lemma DiagnosticsAppend(a: seq<RawIssue>, b: seq<RawIssue>)
    ensures Diagnostics(a + b) == Diagnostics(a) + Diagnostics(b)
  {
  }

  /** Two issue lists give the same diagnostic list exactly when they agree finding by finding. */
  lemma DiagnosticsSame(a: seq<RawIssue>, b: seq<RawIssue>)
    ensures Diagnostics(a) == Diagnostics(b) <==>
            |a| == |b| && forall i :: 0 <= i < |a| ==> FindingOf(a[i]) == FindingOf(b[i])
  {
    if Diagnostics(a) == Diagnostics(b) {
      forall i | 0 <= i < |a| ensures FindingOf(a[i]) == FindingOf(b[i]) {
        ToDiagnosticSame(a[i], b[i]);
      }
    } else if |a| == |b| {
      var k :| 0 <= k < |a| && Diagnostics(a)[k] != Diagnostics(b)[k];
      ToDiagnosticSame(a[k], b[k]);
    }
  }

  /** The diagnostics of severity `s`, in order. */
  function OfSeverity(ds: seq<Diagnostic>, s: Severity): seq<Diagnostic>
  {
    if ds == [] then []
    else (if ds[0].severity == s then [ds[0]] else []) + OfSeverity(ds[1..], s)
  }

  /** The issues whose kind is `"warning"` (when `warning`) or anything else (otherwise), in order. */
  function OfKind(issues: seq<RawIssue>, warning: bool): seq<RawIssue>
  {
    if issues == [] then []
    else (if (issues[0].kind == "warning") == warning then [issues[0]] else []) + OfKind(issues[1..], warning)
  }

  /**
   * Severity is a two-bucket split of the issue kinds: the warnings published are
   * exactly the mapped `"warning"` issues, the errors exactly the mapped issues of
   * every other kind, each in source order.
   */
  lemma {:induction false} SeverityBuckets(issues: seq<RawIssue>)
    ensures OfSeverity(Diagnostics(issues), Warning) == Diagnostics(OfKind(issues, true))
    ensures OfSeverity(Diagnostics(issues), Error) == Diagnostics(OfKind(issues, false))
  {
    if issues != [] {
      var ds := Diagnostics(issues);
      assert ds[1..] == Diagnostics(issues[1..]);
      SeverityBuckets(issues[1..]);
      var head := [issues[0]];
      DiagnosticsAppend(if issues[0].kind == "warning" then head else [], OfKind(issues[1..], true));
      DiagnosticsAppend(if issues[0].kind != "warning" then head else [], OfKind(issues[1..], false));
    }
  }
}
