/** `FixUsingsHandler.FixUsings`: the three passes, the resolve-and-patch
    loop and the response. */
module FixUsingsHandler {
  import opened Wrappers
  import opened Syntax
  import opened Resolution
  import opened Collaborators
  import opened Scanner
  import opened Passes
  import opened FixLoop

  /** The handler object: its ambiguity list is a field that is appended to
      and never cleared, so it outlives a single call. */
  datatype Handler = Handler(ambiguous: seq<QuickFix>)

  /** `FixUsingsResponse`: the final buffer and the ambiguity list. */
  datatype Response = Response(buffer: string, ambiguous: seq<QuickFix>)

  /** What a call produces: a response, an exception, or no verdict within
      the fuel given to the loop. */
  datatype FixOutcome = Fixed(response: Response) | Failed(error: Error) | Unfinished

  /** The buffer after `RemoveUsings`, `SortUsings` and
      `AddLinqForQueryIfMissing`, in that order. Without a top-level using
      declaration the first two passes leave the buffer alone and only the
      `System.Linq` pass can change it; a buffer that also imports
      `System.Linq` or has no query clause passes through unchanged. */
  function PrePasses(env: Env, fileName: string, buffer: string): (r: string)
    ensures NoTopLevelUsing(env.parse(buffer, fileName)) ==> r == AddLinqForQueryIfMissing(env, fileName, buffer)
    ensures NoTopLevelUsing(env.parse(buffer, fileName))
            && (ImportsLinq(env.parse(buffer, fileName)) || !HasQuery(env.parse(buffer, fileName)))
            ==> r == buffer
  {
    AddLinqForQueryIfMissing(env, fileName, SortUsings(env, fileName, RemoveUsings(env, fileName, buffer)))
  }

  /** With a top-level using declaration, the redundant-using edit runs
      first, `SortUsings` works on its output, and the `System.Linq` pass
      on what sorting leaves. */
  lemma PrePassesRemovesThenSorts(env: Env, fileName: string, buffer: string, k: nat)
    requires FirstUsingAt(env.parse(buffer, fileName), k)
    ensures var tree := env.parse(buffer, fileName);
            var req := CreateRequest(buffer, tree.children[k], fileName);
            var issues := env.redundantUsingIssues(req);
            var removed := if issues == [] then buffer else RunActions(env, req, issues[0].actions);
            PrePasses(env, fileName, buffer) == AddLinqForQueryIfMissing(env, fileName, SortUsings(env, fileName, removed))
  {
    assert forall j: nat :: FirstUsingAt(env.parse(buffer, fileName), j) ==> j == k;
  }

  /** The loop's variables on entry: the buffer is parsed once, and the scan
      covers the whole tree. */
  function InitialState(env: Env, fileName: string, buffer: string, ambiguous: seq<QuickFix>): (s: LoopState)
    ensures s.buffer == buffer && s.generation == 0 && s.ambiguous == ambiguous
    ensures ChosenFrom(Tagged(0, Descendants(s.tree)), 0, ResolverOf(env, buffer, fileName), s.node)
  {
    var tree := env.parse(buffer, fileName);
    LoopState(buffer, tree, 0, NextUnresolvedInTree(0, tree, ResolverOf(env, buffer, fileName)), ambiguous)
  }

  /** The loop starts with consistent variables. */
  lemma InitialStateConsistent(env: Env, fileName: string, buffer: string, ambiguous: seq<QuickFix>)
    ensures Consistent(env, fileName, InitialState(env, fileName, buffer, ambiguous))
  {

  }

  /** The loop's variables when `FixUsings(request)` on `h` reaches the loop:
      the passes' output, parsed and scanned, and the handler's list. */
  function Start(env: Env, h: Handler, request: Request): (s: LoopState)
    ensures s.buffer == PrePasses(env, request.fileName, request.buffer)
    ensures s.generation == 0 && s.ambiguous == h.ambiguous
  {
    InitialState(env, request.fileName, PrePasses(env, request.fileName, request.buffer), h.ambiguous)
  }

  /** Every state a run reaches from the loop's start is consistent. */
  lemma StartReachesConsistent(env: Env, h: Handler, request: Request, t: LoopState, n: nat)
    requires Reaches(env, request.fileName, Start(env, h, request), t, n)
    ensures Consistent(env, request.fileName, t)
  {
    var s := Start(env, h, request);
    InitialStateConsistent(env, request.fileName, s.buffer, s.ambiguous);
    ReachesKeepsConsistent(env, request.fileName, s, t, n);
  }

  /** `FixUsings(request)` on handler `h`, with the loop given `fuel` turns.
      Returns the outcome and the handler afterwards. A response carries the
      buffer and list of the first state, reached from the loop's start,
      whose scan found no node; an exception is the one thrown by the turn of
      a reached state; either way the handler keeps that state's list, which
      extends its old one by notices only. */
  function FixUsings(env: Env, h: Handler, request: Request, fuel: nat): (r: (FixOutcome, Handler))
    ensures h.ambiguous <= r.1.ambiguous
    ensures forall i :: |h.ambiguous| <= i < |r.1.ambiguous| ==> IsAmbiguityNotice(r.1.ambiguous[i], request.fileName)
    ensures r.0.Fixed? ==> exists n: nat, t :: && n <= fuel && Reaches(env, request.fileName, Start(env, h, request), t, n)
                                               && t.node.None?
                                               && r == (Fixed(Response(t.buffer, t.ambiguous)), Handler(t.ambiguous))
    ensures r.0.Failed? ==> exists n: nat, t :: && n < fuel && Reaches(env, request.fileName, Start(env, h, request), t, n)
                                                && t.node.Some? && Step(env, request.fileName, t) == Err(r.0.error)
                                                && r.1 == Handler(t.ambiguous)
    ensures r.0.Unfinished? ==> exists t :: && Reaches(env, request.fileName, Start(env, h, request), t, fuel)
                                             && t.node.Some? && r.1 == Handler(t.ambiguous)
  {
    var fileName := request.fileName;
    match Run(env, fileName, Start(env, h, request), fuel)
    case Finished(final, ambiguous) => (Fixed(Response(final, ambiguous)), Handler(ambiguous))
    case Threw(e, ambiguous) => (Failed(e), Handler(ambiguous))
    case OutOfFuel(state) => (Unfinished, Handler(state.ambiguous))
  }

  /** Conversely, once the turns from the loop's start reach, within the
      fuel, a state whose scan found no node, the call answers with that
      state's buffer and list and leaves that list on the handler. */
  lemma FixUsingsAnswersAtNullNode(env: Env, h: Handler, request: Request, t: LoopState, n: nat, fuel: nat)
    requires Reaches(env, request.fileName, Start(env, h, request), t, n) && t.node.None? && n <= fuel
    ensures FixUsings(env, h, request, fuel) == (Fixed(Response(t.buffer, t.ambiguous)), Handler(t.ambiguous))
  {
    RunFinishesAtNullNode(env, request.fileName, Start(env, h, request), t, n, fuel);
  }

  /** Conversely, once the turns from the loop's start reach, within the
      fuel, a state whose turn throws, the call fails with that exception and
      leaves that state's list on the handler. */
  lemma FixUsingsFailsWhereTurnThrows(env: Env, h: Handler, request: Request, t: LoopState, n: nat, fuel: nat)
    requires Reaches(env, request.fileName, Start(env, h, request), t, n) && t.node.Some? && n < fuel
    requires Step(env, request.fileName, t).Err?
    ensures FixUsings(env, h, request, fuel) == (Failed(Step(env, request.fileName, t).error), Handler(t.ambiguous))
  {
    RunThrowsWhereTurnThrows(env, request.fileName, Start(env, h, request), t, n, fuel);
  }

  /** A buffer with no top-level using declaration, with nothing to add for
      queries, and whose every node resolves comes back unchanged, with no
      new notice. */
  lemma FixUsingsKeepsCleanBuffer(env: Env, h: Handler, request: Request, fuel: nat)
    requires NoTopLevelUsing(env.parse(request.buffer, request.fileName))
    requires ImportsLinq(env.parse(request.buffer, request.fileName)) || !HasQuery(env.parse(request.buffer, request.fileName))
    requires forall d :: d in Descendants(env.parse(request.buffer, request.fileName)) ==>
               env.resolve(request.buffer, request.fileName, d).Resolved?
    ensures FixUsings(env, h, request, fuel) == (Fixed(Response(request.buffer, h.ambiguous)), h)
  {

  }

  /** A buffer with no top-level using declaration, no `System.Linq`
      import and a query clause gets the import from the passes, and when
      every node of the edited buffer resolves, that edited buffer is the
      answer, with no new notice. */
  lemma FixUsingsAddsLinqForQuery(env: Env, h: Handler, request: Request, fuel: nat)
    requires NoTopLevelUsing(env.parse(request.buffer, request.fileName))
    requires !ImportsLinq(env.parse(request.buffer, request.fileName))
    requires HasQuery(env.parse(request.buffer, request.fileName))
    requires var once := AddLinqForQueryIfMissing(env, request.fileName, request.buffer);
             forall d :: d in Descendants(env.parse(once, request.fileName)) ==>
               env.resolve(once, request.fileName, d).Resolved?
    ensures var once := AddLinqForQueryIfMissing(env, request.fileName, request.buffer);
            FixUsings(env, h, request, fuel) == (Fixed(Response(once, h.ambiguous)), h)
  {
    var s := Start(env, h, request);
    assert s.node.None?;
    assert Reaches(env, request.fileName, s, s, 0);
    FixUsingsAnswersAtNullNode(env, h, request, s, 0, fuel);
  }

  /** The request's own line and column play no part: only its buffer and
      file name do. */
  lemma FixUsingsIgnoresCursor(env: Env, h: Handler, request: Request, line: int, column: int, fuel: nat)
    ensures FixUsings(env, h, request.(line := line, column := column), fuel) == FixUsings(env, h, request, fuel)
  {
  }

  /** Notices accumulate over calls on the same handler: after two calls
      the list still begins with the notices it had before either, and a
      response returns the whole list. */
  lemma NoticesAccumulateAcrossCalls(env: Env, h: Handler, first: Request, second: Request, fuel: nat)
    ensures var afterFirst := FixUsings(env, h, first, fuel).1;
            var (outcome, afterSecond) := FixUsings(env, afterFirst, second, fuel);
            && h.ambiguous <= afterFirst.ambiguous <= afterSecond.ambiguous
            && (outcome.Fixed? ==> outcome.response.ambiguous == afterSecond.ambiguous)
  {
  }
}
