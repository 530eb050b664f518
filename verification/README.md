# FixUsings: a Dafny model of OmniSharp's import fixer

This project models `FixUsingsHandler`, the OmniSharp server component that
normalises the `using` directives of one C# buffer. A call to `FixUsings`
does four things:

1. It removes redundant usings.
2. It sorts the usings.
3. It adds `using System.Linq;` when query syntax needs it.
4. It runs a resolve-and-patch loop. The loop finds the next node the
   resolver cannot bind, asks NRefactory's `AddUsingAction` for candidate
   edits, and then either applies the single `using` edit or records an
   ambiguity notice. It repeats until the scan finds nothing.

The parser, the resolver and the code-action engines belong to NRefactory and
are not part of this model. They appear as function-valued fields of
`Collaborators.Env` and are otherwise left unconstrained.

Modules, leaf first:

- `Wrappers`: `Option`, which stands for a C# reference that may be null, and `Result`.
- `Linq`: the LINQ operators the handler uses: `FirstOrDefault` (`FirstOrNone`), `Where`, and the index search `FirstIndex` behind both `FirstOrDefault` and the `SkipWhile` that `Scanner.StartOf` models.
- `Syntax`: syntax nodes and their pre-order `Descendants`. `Ref` is a node
  object tagged with the parse it came from. Every `ParsedContent` call builds
  fresh objects, and C# compares nodes by reference.
- `Resolution`: the three resolution outcomes the handler distinguishes.
- `Collaborators`: requests, code actions, quick fixes and the collaborator record `Env`.
- `Scanner`: `GetNextUnresolvedNode`, both overloads, with a declarative reference definition `ChosenFrom`.
- `Passes`: `RemoveUsings`, `SortUsings`, `AddLinqForQueryIfMissing` and `RunActions`.
- `Iteration`: a generic `while (pending) state = step(state);` loop with a
  bound on its turns, and `Reaches`, the states it passes through.
- `FixLoop`: `GetNodeToAddUsing`, one turn of the loop (`Step`), and the loop
  run for a bounded number of turns (`Run`), built on `Iteration`.
- `FixUsingsHandler`: the handler object with its ambiguity list, and `FixUsings` with its response.

Behaviour the model follows from the code:

- A turn counts the candidate actions whose description starts with `"using"`.
  If there are none, it records an ambiguity notice, exactly as it does for
  two or more.
- The ambiguous branch and the no-progress branch resume the scan at the
  target node itself, which is inclusive. They do not resume after it.
- These resumed scans run over `tree`, the tree of the first parse, because
  that variable is never reassigned. After the loop has re-parsed once, the
  target is an object of a newer parse. `SkipWhile` therefore never meets it,
  and the loop ends, even if later references are still unresolved. This is
  `FixLoop.NoProgressAfterReparseEndsLoop`. Before any re-parse, the resumed
  scan does start at the target (`FixLoop.ResumeStartsAtTargetBeforeReparse`).
- Nothing bounds the number of turns. `Run` takes a fuel argument, and
  `FixUsings` reports `Unfinished` when the fuel runs out.
- The response carries the buffer and the list of the first state, reached
  turn by turn from the loop's start, whose scan found no node. The list is
  the handler's own field, so it also holds the notices of earlier calls.

## Model

| member | source | states |
|---|---|---|
| `Linq.FirstOrNone` | OmniSharp/CodeActions/FixUsingsHandler.cs:134 | `FirstOrDefault` is null exactly when no element satisfies the predicate, and otherwise the earliest element that does |
| `Linq.Where` | OmniSharp/CodeActions/FixUsingsHandler.cs:57 | every kept action satisfies the filter; the result is empty iff no action qualifies; it is no longer than the input |
| `Linq.WhereCounts` | OmniSharp/CodeActions/FixUsingsHandler.cs:57 | each qualifying action is kept as often as it is listed, and nothing else is kept |
| `Linq.WhereConcat` | OmniSharp/CodeActions/FixUsingsHandler.cs:57 | filtering distributes over concatenation, so the kept actions stay in their listed order |
| `Linq.WhereSingleton` | OmniSharp/CodeActions/FixUsingsHandler.cs:57-58 | the filter keeps exactly one action iff exactly one position qualifies, and then the kept action is that one |
| `Scanner.StartOf` | OmniSharp/CodeActions/FixUsingsHandler.cs:187 | `SkipWhile(n => n != after)` starts at the first occurrence of `after`, inclusive, and yields nothing when `after` does not occur |
| `Scanner.NextUnresolved` | OmniSharp/CodeActions/FixUsingsHandler.cs:185-199 | the choice meets the reference definition from `after` on; `None` when `after` is absent; an unknown identifier is returned whenever one exists in the range; a member is returned only when no identifier does |
| `Scanner.ChosenFromUnique` | OmniSharp/CodeActions/FixUsingsHandler.cs:185-199 | the reference definition (earliest identifier, else earliest member, else nothing) determines the choice uniquely |
| `Scanner.NextUnresolvedInTree` | OmniSharp/CodeActions/FixUsingsHandler.cs:180-183 | starting at the first child covers every descendant of the tree |
| `Syntax.FirstChildIsFirstDescendant` | OmniSharp/CodeActions/FixUsingsHandler.cs:182 | the first child is the first pre-order descendant; a tree without children has no descendants |
| `Syntax.DescendantsTransitive` | OmniSharp/CodeActions/FixUsingsHandler.cs:111 | a descendant of a descendant is a descendant |
| `Collaborators.RequestSeesOnlyStart` | OmniSharp/CodeActions/FixUsingsHandler.cs:151-159 | a request keeps the buffer and the handler's file name, and two nodes give the same request exactly when their regions start at the same line and column |
| `FixLoop.NodeToAddUsing` | OmniSharp/CodeActions/FixUsingsHandler.cs:97-112 | the target is the first descendant rendered as the identifier (or member name); none when no descendant is so rendered |
| `FixLoop.AmbiguityNotice` | OmniSharp/CodeActions/FixUsingsHandler.cs:67-73 | the notice sits at the request's line and column in the request's file, and its text is the target's rendering quoted in backticks followed by ` is ambiguous`, from which that rendering is recovered |
| `FixLoop.Resume` | OmniSharp/CodeActions/FixUsingsHandler.cs:74 | the resumed scan is the reference choice over the first tree from the target on, with the current resolver; a target from a later parse yields nothing |
| `FixLoop.Step` | OmniSharp/CodeActions/FixUsingsHandler.cs:44-91 | a null target throws; the first tree is kept; at most one notice is appended, in ambiguity form; a changed buffer means a re-parse and a scan of the new tree from its start; an unchanged buffer means a scan of the first tree from the target |
| `FixLoop.StepAmbiguous` | OmniSharp/CodeActions/FixUsingsHandler.cs:57-76 | with zero or several `using` candidates, the buffer is kept and exactly one notice is added, at the target's line and column in the handler's file, reading `` `name` is ambiguous ``; the scan resumes at the target |
| `FixLoop.StepRunsOnlyUsingAction` | OmniSharp/CodeActions/FixUsingsHandler.cs:57-86 | with exactly one `using` candidate only that action runs; if the text is unchanged no notice is added and the scan resumes at the target |
| `FixLoop.StepReparsesAfterEdit` | OmniSharp/CodeActions/FixUsingsHandler.cs:57-91 | when the one `using` action changes the text, the text is re-parsed, a fresh resolver is built and the new tree is scanned from its start; the list and the first tree are kept |
| `FixLoop.StepKeepsConsistent` | OmniSharp/CodeActions/FixUsingsHandler.cs:78-91 | the pending node always belongs to the latest parse of the buffer and carries the current resolver's outcome |
| `FixLoop.ReachesKeepsConsistent` | OmniSharp/CodeActions/FixUsingsHandler.cs:44-91 | any number of turns from a consistent state keeps the pending node in the latest parse, carrying the current resolver's outcome |
| `FixLoop.ResumeStartsAtTargetBeforeReparse` | OmniSharp/CodeActions/FixUsingsHandler.cs:74 | before any re-parse, the target is in the first tree, so the resumed scan starts at it |
| `FixLoop.NoProgressAfterReparseEndsLoop` | OmniSharp/CodeActions/FixUsingsHandler.cs:74-91 | after a re-parse, a turn that keeps the buffer leaves no node, and the loop finishes with that buffer |
| `FixLoop.ReachesExtends` | OmniSharp/CodeActions/FixUsingsHandler.cs:44-92 | any number of turns keeps the first tree and the earlier notices, and appends only ambiguity notices for the file |
| `FixLoop.TurnsStop` | OmniSharp/CodeActions/FixUsingsHandler.cs:44-92 | the bounded loop stops at a reached state with no node, at a reached state whose turn throws, or after all its turns at a state that still has a node |
| `FixLoop.Run` | OmniSharp/CodeActions/FixUsingsHandler.cs:44-94 | the loop finishes with the buffer and list of a state reached within the fuel whose scan found no node, throws what the turn of a reached state throws, or runs out of fuel at a reached state; the list only grows, by ambiguity notices |
| `FixLoop.RunFinishesAtNullNode` | OmniSharp/CodeActions/FixUsingsHandler.cs:44-94 | conversely, a state with no node reached within the fuel is where the loop finishes, with its buffer and list |
| `FixLoop.RunThrowsWhereTurnThrows` | OmniSharp/CodeActions/FixUsingsHandler.cs:44-50 | conversely, a reached state whose turn throws is where the loop throws |
| `Iteration.Run` | OmniSharp/CodeActions/FixUsingsHandler.cs:44-92 | a `while` loop with a turn bound stops where nothing is pending, where a turn throws, or with its turns used up, each at a state its turns reach |
| `Iteration.ReachesDeterministic` | OmniSharp/CodeActions/FixUsingsHandler.cs:44-92 | a given number of turns leads to one state only |
| `Iteration.ReachesOnlyThroughPending` | OmniSharp/CodeActions/FixUsingsHandler.cs:44 | the loop condition is tested before every turn: nothing is reached past a state with nothing pending |
| `Iteration.RunStopsWhereNothingPending` | OmniSharp/CodeActions/FixUsingsHandler.cs:44-92 | a state with nothing pending, reached within the bound, is where the loop stops |
| `Iteration.RunRaisesWhereTurnThrows` | OmniSharp/CodeActions/FixUsingsHandler.cs:44-92 | a reached state whose turn throws, within the bound, is where the loop throws |
| `Passes.UsingFirstGuardsPasses` | OmniSharp/CodeActions/FixUsingsHandler.cs:225-228 | a `using` or `using` alias declaration as the first top-level node is where `RemoveUsings` and `SortUsings` consult their detectors, and a first `using System.Linq;` leaves `AddLinqForQueryIfMissing` with nothing to do |
| `Passes.NoUsingKindPassesThrough` | OmniSharp/CodeActions/FixUsingsHandler.cs:225-228 | query clauses and other nodes are not using declarations: a tree whose top-level nodes are all of those kinds passes `RemoveUsings` and `SortUsings` unchanged |
| `Passes.NonNull` | OmniSharp/CodeActions/FixUsingsHandler.cs:119-125 | no more actions are run than are listed |
| `Passes.NonNullCounts` | OmniSharp/CodeActions/FixUsingsHandler.cs:119-125 | exactly the non-null actions are run, each as often as listed |
| `Passes.NonNullConcat` | OmniSharp/CodeActions/FixUsingsHandler.cs:119-125 | dropping nulls distributes over concatenation, so the actions run in their listed order |
| `Passes.RunActionsSkipsNull` | OmniSharp/CodeActions/FixUsingsHandler.cs:114-128 | a null anywhere in the list changes nothing about the resulting text |
| `Passes.RunActionsRunsAllPresent` | OmniSharp/CodeActions/FixUsingsHandler.cs:114-128 | a list without nulls is run whole and in order, and the text is the script's result |
| `Passes.RemoveUsings` | OmniSharp/CodeActions/FixUsingsHandler.cs:130-149 | identity without a top-level using or alias declaration; otherwise runs the first issue's actions at the first such declaration, or keeps the buffer when there are no issues |
| `Passes.RemoveUsingsUsesFirstIssueOnly` | OmniSharp/CodeActions/FixUsingsHandler.cs:140-145 | issues after the first make no difference |
| `Passes.SortUsings` | OmniSharp/CodeActions/FixUsingsHandler.cs:161-177 | identity without a top-level using or alias declaration; otherwise runs the sort actions offered at the first such declaration |
| `Passes.AddLinqForQueryIfMissing` | OmniSharp/CodeActions/FixUsingsHandler.cs:201-223 | identity when some using declaration names `System.Linq` or no query clause exists; otherwise inserts `System.Linq` at the first query clause |
| `Passes.AddLinqIdempotentOnceImported` | OmniSharp/CodeActions/FixUsingsHandler.cs:201-214 | once the inserted import parses, a second run changes nothing |
| `FixUsingsHandler.PrePasses` | OmniSharp/CodeActions/FixUsingsHandler.cs:34-36 | without a top-level using declaration the first two passes leave the buffer alone, so the result is what `AddLinqForQueryIfMissing` makes of the request's buffer; a buffer that also imports `System.Linq` or has no query clause passes unchanged |
| `FixUsingsHandler.PrePassesRemovesThenSorts` | OmniSharp/CodeActions/FixUsingsHandler.cs:34-36 | with a top-level using declaration, the first redundant-using issue's actions run at it first (or nothing, without issues), `SortUsings` then works on that output, and `AddLinqForQueryIfMissing` on what sorting leaves |
| `FixUsingsHandler.Start` | OmniSharp/CodeActions/FixUsingsHandler.cs:34-42 | the loop starts on the passes' output, before any re-parse, with the handler's list |
| `FixUsingsHandler.InitialState` | OmniSharp/CodeActions/FixUsingsHandler.cs:37-42 | the loop starts on the pre-passed buffer, with no re-parse yet, and its first node is chosen over the whole tree |
| `FixUsingsHandler.InitialStateConsistent` | OmniSharp/CodeActions/FixUsingsHandler.cs:37-42 | the loop starts with the tree, the buffer, the resolver and the node agreeing |
| `FixUsingsHandler.StartReachesConsistent` | OmniSharp/CodeActions/FixUsingsHandler.cs:34-91 | every state a run reaches from the loop's start is consistent, so the consistency-assuming turn lemmas apply to real runs |
| `FixUsingsHandler.FixUsings` | OmniSharp/CodeActions/FixUsingsHandler.cs:31-95 | a response holds the buffer and list of a state reached from the loop's start whose scan found no node; a failure is the exception of a reached state's turn; the handler keeps that state's list, which extends its old list by ambiguity notices only |
| `FixUsingsHandler.FixUsingsAnswersAtNullNode` | OmniSharp/CodeActions/FixUsingsHandler.cs:31-95 | conversely, a state with no node reached within the fuel determines the response and the handler's list |
| `FixUsingsHandler.FixUsingsFailsWhereTurnThrows` | OmniSharp/CodeActions/FixUsingsHandler.cs:31-50 | conversely, a reached state whose turn throws determines the exception and the handler's list |
| `FixUsingsHandler.FixUsingsKeepsCleanBuffer` | OmniSharp/CodeActions/FixUsingsHandler.cs:31-94 | a buffer without usings to process, without a missing Linq import and without unresolved nodes is returned unchanged, with no new notice |
| `FixUsingsHandler.FixUsingsAddsLinqForQuery` | OmniSharp/CodeActions/FixUsingsHandler.cs:31-94 | a buffer without top-level usings and without a `System.Linq` import but with a query clause comes back with the import inserted at the first query clause, when every node of that edited buffer resolves, and with no new notice |
| `FixUsingsHandler.FixUsingsIgnoresCursor` | OmniSharp.Tests/FixUsings/FixUsingsTests.cs:169-171 | the request's line and column do not affect the result |
| `FixUsingsHandler.NoticesAccumulateAcrossCalls` | OmniSharp/CodeActions/FixUsingsHandler.cs:21 | a later call's response still begins with the notices of earlier calls |

## Left out

- NRefactory: parsing, `CSharpAstResolver`, `AddUsingAction`,
  `RedundantUsingDirectiveIssue`, `SortUsingsAction`, `UsingHelper` and the
  document edits of `OmniSharpScript`. These are foreign code. They are
  unconstrained fields of `Env`, so no property here depends on what they do.
- `BufferParser` is not part of this model. `Ref` assumes that each
  `ParsedContent` call returns fresh node objects, so nodes of different
  parses are never reference-equal.
- Disposal of `OmniSharpScript` and the `using` blocks are left out. Running
  actions is one call that yields the document text. `AddUsingLinq` never
  disposes its script, and the model takes whatever text the collaborator
  returns.
- Logger calls (`_logger.Error`) are I/O only.
- Exceptions from the collaborators, or from null code actions in the
  add-using candidate list, are not modelled. The only exception modelled is
  the `NullReferenceException` that `CreateRequest` raises when the loop has
  no target node.
- `StartsWith("using")` is culture-sensitive in .NET. The model uses an
  ordinal prefix test.
- `FixUsingsResponse` is not part of this model. Whether it copies the list or
  shares the handler's list object is not modelled.
- Termination and any bound on the number of turns are not modelled. The
  code enforces none, so `Run` takes fuel.
- The end-to-end expectations of `FixUsingsTests` (which usings appear,
  and in what order) depend on the real compiler and resolver.
- Linq.Where: its own contract says only which elements may be kept, when
  nothing is kept, and a length bound; how often and in what order they are
  kept is stated by `Linq.WhereCounts` and `Linq.WhereConcat`.
- Passes.NonNull: its own contract bounds the length only; which actions run,
  how often and in what order is stated by `Passes.NonNullCounts` and
  `Passes.NonNullConcat`.
- Node identity within one parse is modelled as value equality. Two node
  objects of the same parse with equal id, kind, text, region and children
  are the same `Ref`, and ids are not required to be unique. So
  `FixLoop.ResumeStartsAtTargetBeforeReparse` shows that the resumed scan
  starts at a node equal to the target; it is the target object itself only
  when no other node of that parse has the same value.
