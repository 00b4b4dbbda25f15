# CSSLint language server — a Dafny model

This project models the server half of the `vscode-csslint` extension: a language
server that keeps the editor's open CSS documents, runs CSSLint on a document's full
text whenever it is opened or changed, and sends the editor one diagnostic per issue
the linter reports. It also models the server's small amount of state: the document
table, the `maxNumberOfProblems` setting, the workspace root and the stream of
`sendDiagnostics` calls.

- `wrappers.dfy` — `Option`, standing for JavaScript's `undefined`/`null`.
- `lint.dfy` (module `Lint`) — the pure issue-to-diagnostic mapping. An issue at 1-based
  line L and column C becomes a zero-width diagnostic at (L-1, C-1). It is a Warning
  exactly when the issue's type is `"warning"` and an Error otherwise, and it keeps the
  message unchanged. `BuildDiagnostics` is the index loop of `validateTextDocument`. It
  is proved equal to the recursive specification `Diagnostics`: one entry per issue, in
  order. The lemmas show that the mapping splits over concatenation and that severity
  splits the issue kinds into two buckets. They also show that the only issue
  information lost is which non-warning kind an issue had.
- `server.dfy` (module `CssLintServer`) — class `Server`. Its fields are the document
  table (`uri -> text`), `maxNumberOfProblems: Option<int>` (unset until the first
  configuration change), `workspaceRoot` and the append-only `published` log. Its
  methods are the handlers. CSSLint is the constructor parameter `lint`, a
  deterministic function from text to issues.

Observations on the code as written:
- Each diagnostic list is published in full. `maxNumberOfProblems` is stored but
  never read, so no list is truncated.
- The configuration handler reads `settings.languageServerExample.maxNumberOfProblems`.
  When that section is missing, the read throws. The model then changes nothing and
  `DidChangeConfiguration` returns `ok == false`. The client (`client/src/extension.ts:33`)
  synchronises a section named `cssLanguageClient` instead. With that client, the
  source would therefore take this error path.
- No `source` tag is set on diagnostics, and closing a document publishes nothing.

## Model

| member | source | states |
|---|---|---|
| `Lint.ToDiagnostic` | server/src/server.ts:81-96 | severity is Warning iff the issue type is exactly `"warning"`, Error for every other type; start is (line-1, col-1); end equals start; message unchanged |
| `Lint.RecoverToDiagnostic` | server/src/server.ts:91-95 | the diagnostic's start plus one gives back the issue's 1-based line and column; its message and warning-ness are the issue's |
| `Lint.ToDiagnosticSame` | server/src/server.ts:84-95 | two issues map to the same diagnostic iff they agree on line, column, message and being a warning |
| `Lint.Diagnostics` | server/src/server.ts:75-97 | the list published for an issue list has exactly one entry per issue, the i-th being the mapping of the i-th issue (nothing dropped or reordered) |
| `Lint.BuildDiagnostics` | server/src/server.ts:80-97 | the push loop over `issues.messages` produces exactly `Diagnostics(issues)` |
| `Lint.DiagnosticsAppend` | server/src/server.ts:80-97 | mapping the concatenation of two issue lists is the concatenation of their mappings (order is preserved) |
| `Lint.DiagnosticsSame` | server/src/server.ts:80-97 | two issue lists publish the same list iff they have the same length and agree issue by issue on line, column, message and warning-ness |
| `Lint.SeverityBuckets` | server/src/server.ts:82-88 | the published warnings are exactly the mapped `"warning"` issues, and the published errors exactly the mapped issues of all other types, each in order |
| `CssLintServer.MaxNumberOfProblems` | server/src/server.ts:68 | a present non-zero setting is kept (negative values too); an absent setting or 0 becomes 100; the result is never falsy |
| `CssLintServer.MaxNumberOfProblemsStable` | server/src/server.ts:68 | feeding a stored cap back in as the setting leaves it unchanged |
| `CssLintServer.Server.constructor` | server/src/server.ts:23-63 | empty document table, `maxNumberOfProblems` and `workspaceRoot` unset, nothing published |
| `CssLintServer.Server.Initialize` | server/src/server.ts:31-43 | records the supplied root path as `workspaceRoot`; declares full text sync and a completion provider with `resolveProvider` true |
| `CssLintServer.Server.ValidateTextDocument` | server/src/server.ts:73-102 | appends exactly one publish for the document's uri, carrying the full mapping of the checker's issues for its text (an empty list when there are none) |
| `CssLintServer.Server.DidChangeContent` | server/src/server.ts:45-49 | stores the new text for the uri, then publishes exactly once, for that uri, the full mapping of the new text |
| `CssLintServer.Server.DidClose` | server/src/server.ts:21-26 | the document manager drops the uri from the table; nothing is published |
| `CssLintServer.Server.DidChangeConfiguration` | server/src/server.ts:66-71 | with a settings section: stores the falsy-means-100 value and makes one publish per open document, none twice, each the full mapping of its current text; without one: nothing changes; the document table never changes |
| `CssLintServer.Server.RevalidateAll` | server/src/server.ts:70 | appends one publish per uri in the table, no uri twice, each carrying the full mapping of that document's text; earlier publishes are kept |
| `CssLintServer.SweepStep` | server/src/server.ts:70 | validating one more not-yet-visited document extends a partial sweep by exactly that document |
| `CssLintServer.ValidateTwice` | server/src/server.ts:73-101 | validating a document twice with unchanged text publishes two identical lists |

## Left out

- The connection itself (`createConnection`, IPC reader and writer, `connection.listen()`): message transport, not logic. `sendDiagnostics` is modelled as appending to `published`.
- The CSSLint engine: only its result type is modelled. It is the uninterpreted parameter `lint`.
- The `TextDocuments` manager's internals: it is modelled only as the uri-to-text table that open, change and close events update.
- `onDidChangeWatchedFiles`: it only writes a console message.
- Completion: `resolveProvider` is declared, but the server has no completion handler.
- `Lint.ToDiagnostic`: issue lines and columns are integers. An issue without a line or column would give `NaN` in JavaScript, and the model does not represent that case.
- `CssLintServer.MaxNumberOfProblems`: settings values are integers. Non-integer and `NaN` settings (`NaN` is falsy) are not modelled.
- `CssLintServer.Server.DidChangeConfiguration`: the payload is the `languageServerExample` section, or nothing when it is absent. A `change.settings` that is itself undefined would also throw, and the model treats that like a missing section.
- `CssLintServer.Server.RevalidateAll`: the order in which `documents.all()` lists documents is not modelled. The model visits them in an arbitrary order.
- Cap truncation, clearing diagnostics on close, rejecting negative caps and recovering from checker failures: this code does none of these.
