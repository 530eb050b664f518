/** The handler's collaborators, whose code is not part of this model, as
    function-valued fields of `Env`, plus the request and quick-fix records
    the handler exchanges with them. */
module Collaborators {
  import opened Wrappers
  import opened Syntax
  import opened Resolution

  /** `OmniSharp.Common.Request`: the buffer and the position an edit is
      requested at. */
  datatype Request = Request(buffer: string, line: int, column: int, fileName: string)

  /** A code action offered by NRefactory. `edit` identifies the edit that
      running the action performs. */
  datatype CodeAction = CodeAction(description: string, edit: nat)

  /** A code issue with the actions that would fix it; an action may be null. */
  datatype CodeIssue = CodeIssue(actions: seq<Option<CodeAction>>)

  /** `QuickFix`, the record of an ambiguity notice. */
  datatype QuickFix = QuickFix(fileName: string, line: int, column: int, text: string)

  /** Behaviour of the collaborators, uninterpreted:
      - `parse(text, file)`: the syntax tree of `BufferParser.ParsedContent`;
      - `resolve(text, file, n)`: what a `CSharpAstResolver` built from the
        parse of `text` says about node `n`;
      - `addUsingActions(req)`: `new AddUsingAction().GetActions(context)`;
      - `redundantUsingIssues(req)`: `new RedundantUsingDirectiveIssue().GetIssues(context, null)`;
      - `sortUsingsActions(req)`: `new SortUsingsAction().GetActions(context)`;
      - `runActions(req, acts)`: the document text once `acts` have run, in
        order, through one `OmniSharpScript` on the context of `req`;
      - `insertUsing(req, ns)`: the document text after
        `UsingHelper.InsertUsingAndRemoveRedundantNamespaceUsage(context, script, ns)`.
      Each context is `OmniSharpRefactoringContext.GetContext` of the request. */
  datatype Env = Env(
    parse: (string, string) -> AstNode,
    resolve: (string, string, AstNode) -> Outcome,
    addUsingActions: Request -> seq<CodeAction>,
    redundantUsingIssues: Request -> seq<CodeIssue>,
    sortUsingsActions: Request -> seq<Option<CodeAction>>,
    runActions: (Request, seq<CodeAction>) -> string,
    insertUsing: (Request, string) -> string)

  /** `CreateRequest(buffer, node)`: a request for `buffer` positioned at the
      start of `node`'s region, in the handler's current file. */
  function CreateRequest(buffer: string, node: AstNode, fileName: string): Request
  {
    Request(buffer, node.region.beginLine, node.region.beginColumn, fileName)
  }

  /** A request carries its buffer and file name unchanged and sees its node
      only through the start of the node's region: two nodes give the same
      request exactly when they start at the same place. */
  lemma RequestSeesOnlyStart(buffer: string, a: AstNode, b: AstNode, fileName: string)
    ensures CreateRequest(buffer, a, fileName).buffer == buffer
    ensures CreateRequest(buffer, a, fileName).fileName == fileName
    ensures CreateRequest(buffer, a, fileName) == CreateRequest(buffer, b, fileName) <==> a.region == b.region
  {
  }

  /** The resolver built from the parse of `text`, applied to node objects. */
  function ResolverOf(env: Env, text: string, fileName: string): Ref -> Outcome
  {
    (n: Ref) => env.resolve(text, fileName, n.node)
  }
}
