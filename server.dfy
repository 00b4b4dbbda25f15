/**
 * The event-driven state of the CSSLint language server: the open documents, the
 * `maxNumberOfProblems` setting, the workspace root, and the log of diagnostics
 * it has sent to the editor.
 */
module CssLintServer {
  import opened Wrappers
  import opened Lint

  /** An open document as the document manager hands it to the handlers. */
  datatype TextDocument = TextDocument(uri: string, text: string)

  /** One `sendDiagnostics` call: the full replacement diagnostic list for `uri`. */
  datatype Publish = Publish(uri: string, diagnostics: seq<Diagnostic>)

  datatype TextDocumentSyncKind = NoSync | Full | Incremental

  datatype CompletionOptions = CompletionOptions(resolveProvider: bool)

  datatype ServerCapabilities =
    ServerCapabilities(textDocumentSync: TextDocumentSyncKind, completionProvider: CompletionOptions)

  datatype InitializeResult = InitializeResult(capabilities: ServerCapabilities)

  /** The `languageServerExample` section of a configuration change. */
  datatype ExampleSettings = ExampleSettings(maxNumberOfProblems: Option<int>)

  const DefaultMaxNumberOfProblems: int := 100

  /**
   * `maxNumberOfProblems || 100`: a present non-zero value is kept (negative ones
   * too), an absent value or 0 falls back to the default. The result is never falsy.
   */
  function MaxNumberOfProblems(setting: Option<int>): (cap: int)
    ensures setting.Some? && setting.value != 0 ==> cap == setting.value
    ensures setting.None? || setting.value == 0 ==> cap == DefaultMaxNumberOfProblems
    ensures cap != 0
  {
    match setting
    case Some(v) => if v != 0 then v else DefaultMaxNumberOfProblems
    case None => DefaultMaxNumberOfProblems
  }

  /** Feeding a stored cap back in as the setting keeps it. */
  lemma MaxNumberOfProblemsStable(setting: Option<int>)
    ensures MaxNumberOfProblems(Some(MaxNumberOfProblems(setting))) == MaxNumberOfProblems(setting)
  {
  }

  /**
   * `entries` are the publish calls of one revalidation sweep over `docs`: one call
   * per open document, no uri twice, each carrying the full mapping of that
   * document's current text.
   */
  ghost predicate OnePublishPerDocument(docs: map<string, string>, entries: seq<Publish>,
                                        lint: string -> seq<RawIssue>)
  {
    |entries| == |docs|
    && (forall i :: 0 <= i < |entries| ==>
          entries[i].uri in docs && entries[i].diagnostics == Diagnostics(lint(docs[entries[i].uri])))
    && (forall i, j :: 0 <= i < j < |entries| ==> entries[i].uri != entries[j].uri)
    && (forall u :: u in docs ==> exists i :: 0 <= i < |entries| && entries[i].uri == u)
  }

  class Server {
    /** The checker: a deterministic function from a document's text to its issues. */
    const lint: string -> seq<RawIssue>
    /** The document manager's table: uri to latest full text. */
    var documents: map<string, string>
    var maxNumberOfProblems: Option<int>
    var workspaceRoot: Option<string>
    /** Every `sendDiagnostics` call so far, oldest first. */
    var published: seq<Publish>

    constructor (lint: string -> seq<RawIssue>)
      ensures this.lint == lint
      ensures documents == map[] && maxNumberOfProblems == None && workspaceRoot == None
      ensures published == []
    {
      this.lint := lint;
      documents := map[];
      maxNumberOfProblems := None;
      workspaceRoot := None;
      published := [];
    }

    /** Records the workspace root and declares full sync and completion with resolve. */
    method Initialize(rootPath: Option<string>) returns (result: InitializeResult)
      modifies this`workspaceRoot
      ensures workspaceRoot == rootPath
      ensures result.capabilities.textDocumentSync == Full
      ensures result.capabilities.completionProvider.resolveProvider
    {
      workspaceRoot := rootPath;
      result := InitializeResult(ServerCapabilities(Full, CompletionOptions(true)));
    }

    /** Checks one document and publishes its complete diagnostic list, possibly empty. */
    method ValidateTextDocument(doc: TextDocument)
      modifies this`published
      ensures published == old(published) + [Publish(doc.uri, Diagnostics(lint(doc.text)))]
      ensures |published[|published| - 1].diagnostics| == |lint(doc.text)|
    {
      var issues := lint(doc.text);
      var diagnostics := BuildDiagnostics(issues);
      published := published + [Publish(doc.uri, diagnostics)];
    }

    /**
     * A document was opened or its content changed: the manager stores the new full
     * text, then the document is validated.
     */
    method DidChangeContent(uri: string, text: string)
      modifies this`documents, this`published
      ensures documents == old(documents)[uri := text]
      ensures published == old(published) + [Publish(uri, Diagnostics(lint(text)))]
    {
      documents := documents[uri := text];
      ValidateTextDocument(TextDocument(uri, text));
    }

    /** A document was closed: the manager drops it; nothing is published. */
    method DidClose(uri: string)
      modifies this`documents
      ensures documents == old(documents) - {uri}
    {
      documents := documents - {uri};
    }

    /**
     * A configuration change. Without a `languageServerExample` section the property
     * read throws and nothing changes (`ok` is false). Otherwise the setting is stored
     * with the falsy-means-100 default and every open document is revalidated once.
     */
    method DidChangeConfiguration(languageServerExample: Option<ExampleSettings>) returns (ok: bool)
      modifies this`maxNumberOfProblems, this`published
      ensures ok <==> languageServerExample.Some?
      ensures !ok ==> maxNumberOfProblems == old(maxNumberOfProblems) && published == old(published)
      ensures ok ==> maxNumberOfProblems == Some(MaxNumberOfProblems(languageServerExample.value.maxNumberOfProblems))
      ensures |old(published)| <= |published| && published[..|old(published)|] == old(published)
      ensures ok ==> OnePublishPerDocument(documents, published[|old(published)|..], lint)
      ensures documents == old(documents)
    {
      if languageServerExample.None? {
        return false;
      }
      maxNumberOfProblems := Some(MaxNumberOfProblems(languageServerExample.value.maxNumberOfProblems));
      RevalidateAll();
      ok := true;
    }

    /** `documents.all().forEach(validateTextDocument)`, in the manager's (unspecified) order. */
    method RevalidateAll()
      modifies this`published
      ensures |old(published)| <= |published| && published[..|old(published)|] == old(published)
      ensures OnePublishPerDocument(documents, published[|old(published)|..], lint)
    {
      var docs := documents;
      var remaining := docs.Keys;
      ghost var sweep: seq<Publish> := [];
      while remaining != {}
        invariant documents == docs
        invariant remaining <= docs.Keys
        invariant published == old(published) + sweep
        invariant |sweep| + |remaining| == |docs|
        invariant SweptSoFar(docs, remaining, sweep, lint)
        decreases remaining
      {
        var uri :| uri in remaining;
        ValidateTextDocument(TextDocument(uri, docs[uri]));
        SweepStep(docs, remaining, sweep, lint, uri);
        sweep := sweep + [Publish(uri, Diagnostics(lint(docs[uri])))];
        remaining := remaining - {uri};
      }
      assert published[|old(published)|..] == sweep;
    }
  }

  /**
   * `sweep` holds one publish for each document of `docs` outside `remaining`, none
   * twice, each with the full mapping of that document's text.
   */
  ghost predicate SweptSoFar(docs: map<string, string>, remaining: set<string>, sweep: seq<Publish>,
                             lint: string -> seq<RawIssue>)
  {
    (forall i :: 0 <= i < |sweep| ==>
       sweep[i].uri in docs && sweep[i].uri !in remaining
       && sweep[i].diagnostics == Diagnostics(lint(docs[sweep[i].uri])))
    && (forall i, j :: 0 <= i < j < |sweep| ==> sweep[i].uri != sweep[j].uri)
    && (forall u :: u in docs && u !in remaining ==> exists i :: 0 <= i < |sweep| && sweep[i].uri == u)
  }

  /** Validating one more remaining document extends the sweep. */
  lemma SweepStep(docs: map<string, string>, remaining: set<string>, sweep: seq<Publish>,
                  lint: string -> seq<RawIssue>, uri: string)
    requires uri in remaining && remaining <= docs.Keys
    requires SweptSoFar(docs, remaining, sweep, lint)
    ensures SweptSoFar(docs, remaining - {uri}, sweep + [Publish(uri, Diagnostics(lint(docs[uri])))], lint)
  {
    var sweep' := sweep + [Publish(uri, Diagnostics(lint(docs[uri])))];
    forall u | u in docs && u !in remaining - {uri}
      ensures exists i :: 0 <= i < |sweep'| && sweep'[i].uri == u
    {
      if u == uri {
        assert sweep'[|sweep|].uri == u;
      } else {
        var i :| 0 <= i < |sweep| && sweep[i].uri == u;
        assert sweep'[i].uri == u;
      }
    }
  }

  /** Validating a document twice with unchanged text publishes the same list twice. */
  method ValidateTwice(server: Server, doc: TextDocument)
    modifies server`published
    ensures |server.published| == |old(server.published)| + 2
    ensures server.published[|server.published| - 1] == server.published[|server.published| - 2]
  {
    server.ValidateTextDocument(doc);
    server.ValidateTextDocument(doc);
  }
}
