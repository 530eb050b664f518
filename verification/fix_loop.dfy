/** One turn of the resolve-and-patch loop in `FixUsings` and the loop itself. */
module FixLoop {
  import opened Wrappers
  import opened Linq
  import opened Syntax
  import opened Resolution
  import opened Collaborators
  import opened Scanner
  import Iteration

  /** The one exception the loop raises itself: `CreateRequest` dereferences a
      null target node (`NullReferenceException`). */
  datatype Error = NullTarget(node: NodeResolved<Ref>)

  /** The loop's variables between two turns:
      - `buffer`: the current text; the resolver is always the one built from
        the latest parse of this text;
      - `tree`: the tree of the first parse (generation 0), never reassigned;
      - `generation`: how many times the loop has re-parsed;
      - `node`: the unresolved node the next turn works on (null ends the loop);
      - `ambiguous`: the handler's ambiguity list. */
  datatype LoopState = LoopState(
    buffer: string,
    tree: AstNode,
    generation: nat,
    node: Option<NodeResolved<Ref>>,
    ambiguous: seq<QuickFix>)

  const UsingPrefix: string := "using"
  const AmbiguousSuffix: string := "` is ambiguous"

  /** The name an unknown outcome is about; `None` (null) for a resolved one. */
  function NameOf(o: Outcome): Option<string>
  {
    match o
    case UnknownIdentifier(identifier) => Some(identifier)
    case UnknownMember(memberName) => Some(memberName)
    case Resolved => None
  }

  /** `nodes[k]` is the first node rendered as `name`. */
  ghost predicate FirstRenderedAt(nodes: seq<AstNode>, name: string, k: nat)
  {
    && k < |nodes|
    && nodes[k].text == name
    && forall j :: 0 <= j < k ==> nodes[j].text != name
  }

  /** `GetNodeToAddUsing`: the first descendant of the unresolved node whose
      rendering is the unknown name. */
  function NodeToAddUsing(nr: NodeResolved<Ref>): (r: Option<AstNode>)
    ensures r.None? <==>
      NameOf(nr.result).None? || forall d :: d in Descendants(nr.node.node) ==> d.text != NameOf(nr.result).value
    ensures r.Some? ==> exists k: nat ::
      FirstRenderedAt(Descendants(nr.node.node), NameOf(nr.result).value, k) && r.value == Descendants(nr.node.node)[k]
  {
    var nodes := Descendants(nr.node.node);
    match NameOf(nr.result)
    case None => None
    case Some(name) =>
      var i := FirstIndex(nodes, 0, (n: AstNode) => n.text == name);
      if i < |nodes| then
        assert FirstRenderedAt(nodes, name, i);
        Some(nodes[i])
      else
        None
  }

  /** An action the handler accepts: its description starts with "using". */
  predicate IsUsingAction(a: CodeAction)
  {
    UsingPrefix <= a.description
  }

  /** A notice of the ambiguity form, for file `fileName`. */
  ghost predicate IsAmbiguityNotice(q: QuickFix, fileName: string)
  {
    && q.fileName == fileName
    && |q.text| >= 1 + |AmbiguousSuffix|
    && q.text[0] == '`'
    && q.text[|q.text| - |AmbiguousSuffix|..] == AmbiguousSuffix
  }

  /** The name quoted between the backticks of an ambiguity notice. */
  function AmbiguousName(q: QuickFix): string
    requires |q.text| >= 1 + |AmbiguousSuffix|
  {
    q.text[1..|q.text| - |AmbiguousSuffix|]
  }

  /** The notice recorded for an ambiguous node: it sits at the request's
      position in the request's file and quotes the target's rendering. */
  function AmbiguityNotice(req: Request, target: AstNode): (q: QuickFix)
    ensures IsAmbiguityNotice(q, req.fileName)
    ensures q.line == req.line && q.column == req.column
    ensures AmbiguousName(q) == target.text
  {
    var q := QuickFix(req.fileName, req.line, req.column, "`" + target.text + AmbiguousSuffix);
    assert q.text[|q.text| - |AmbiguousSuffix|..] == AmbiguousSuffix;
    assert q.text[1..|q.text| - |AmbiguousSuffix|] == target.text;
    q
  }

  /** The scan the ambiguous and no-progress branches resume with: from
      `astNode` inclusive, over the first parse's tree, with the current
      resolver. An object of any later parse is never found there. */
  function Resume(env: Env, fileName: string, s: LoopState, astNode: Ref): (r: Option<NodeResolved<Ref>>)
    ensures ChosenFrom(Tagged(0, Descendants(s.tree)), StartOf(Tagged(0, Descendants(s.tree)), astNode),
                       ResolverOf(env, s.buffer, fileName), r)
    ensures astNode.generation != 0 ==> r.None?
  {
    TaggedMembers(0, Descendants(s.tree), astNode);
    NextUnresolved(Tagged(0, Descendants(s.tree)), astNode, ResolverOf(env, s.buffer, fileName))
  }

  /** One turn of the `while (node != null)` loop. */
  function Step(env: Env, fileName: string, s: LoopState): (r: Result<LoopState, Error>)
    requires s.node.Some?
    ensures r.Err? <==> NodeToAddUsing(s.node.value).None?
    ensures r.Ok? ==> r.value.tree == s.tree
    ensures r.Ok? ==> s.ambiguous <= r.value.ambiguous && |r.value.ambiguous| <= |s.ambiguous| + 1
    ensures r.Ok? ==> forall i :: |s.ambiguous| <= i < |r.value.ambiguous| ==> IsAmbiguityNotice(r.value.ambiguous[i], fileName)
    ensures r.Ok? && r.value.buffer != s.buffer ==>
      && r.value.ambiguous == s.ambiguous
      && r.value.generation == s.generation + 1
      && ChosenFrom(Tagged(r.value.generation, Descendants(env.parse(r.value.buffer, fileName))), 0,
                    ResolverOf(env, r.value.buffer, fileName), r.value.node)
    ensures r.Ok? && r.value.buffer == s.buffer ==>
      && r.value.generation == s.generation
      && var astNode := Ref(s.node.value.node.generation, NodeToAddUsing(s.node.value).value);
         var stale := Tagged(0, Descendants(s.tree));
         ChosenFrom(stale, StartOf(stale, astNode), ResolverOf(env, s.buffer, fileName), r.value.node)
  {
    var nr := s.node.value;
    match NodeToAddUsing(nr)
    case None => Err(NullTarget(nr))
    case Some(target) =>
      var astNode := Ref(nr.node.generation, target);
      var req := CreateRequest(s.buffer, target, fileName);
      var usingActions := Where(env.addUsingActions(req), IsUsingAction);
      if |usingActions| == 1 then
        var text := env.runActions(req, usingActions);
        if text == s.buffer then
          Ok(s.(node := Resume(env, fileName, s, astNode)))
        else
          var generation := s.generation + 1;
          var tree := env.parse(text, fileName);
          Ok(LoopState(text, s.tree, generation,
                       NextUnresolvedInTree(generation, tree, ResolverOf(env, text, fileName)), s.ambiguous))
      else
        var notice := AmbiguityNotice(req, target);
        Ok(s.(ambiguous := s.ambiguous + [notice], node := Resume(env, fileName, s, astNode)))
  }

  /** How the loop ended: no node left, an exception, or the fuel ran out. */
  datatype LoopResult =
    | Finished(buffer: string, ambiguous: seq<QuickFix>)
    | Threw(error: Error, ambiguous: seq<QuickFix>)
    | OutOfFuel(state: LoopState)
  {
    /** The ambiguity list as it stands when the loop stops. */
    function Notices(): seq<QuickFix>
    {
      match this
      case Finished(_, ambiguous) => ambiguous
      case Threw(_, ambiguous) => ambiguous
      case OutOfFuel(state) => state.ambiguous
    }
  }

  /** The loop's condition, `node != null`. */
  predicate Pending(s: LoopState)
  {
    s.node.Some?
  }

  /** One turn as a function of the loop's variables alone, for one set of
      collaborators and one file; it is defined where a node is pending. */
  function TurnOf(env: Env, fileName: string): LoopState --> Result<LoopState, Error>
  {
    s requires Pending(s) => Step(env, fileName, s)
  }

  /** `t` is reached from `s` by `n` turns, each taken from a state with a
      pending node and each returning normally. */
  ghost predicate Reaches(env: Env, fileName: string, s: LoopState, t: LoopState, n: nat)
  {
    Iteration.Reaches(TurnOf(env, fileName), Pending, s, t, n)
  }

  /** What the turns keep between two states: the first tree, the notices
      already recorded, and well-formed notices as the only entries added. */
  ghost predicate Extends(fileName: string, s: LoopState, t: LoopState)
  {
    && t.tree == s.tree
    && s.ambiguous <= t.ambiguous
    && forall i :: |s.ambiguous| <= i < |t.ambiguous| ==> IsAmbiguityNotice(t.ambiguous[i], fileName)
  }

  /** Any number of turns keeps the first tree and only appends notices. */
  lemma {:induction false} ReachesExtends(env: Env, fileName: string, s: LoopState, t: LoopState, n: nat)
    requires Reaches(env, fileName, s, t, n)
    ensures Extends(fileName, s, t)
    decreases n
  {
    if n > 0 {
      var next := Step(env, fileName, s).value;
      assert Extends(fileName, s, next);
      ReachesExtends(env, fileName, next, t, n - 1);
    }
  }

  /** The generic bounded loop over these turns. */
  function Turns(env: Env, fileName: string, s: LoopState, fuel: nat): Iteration.Ending<LoopState, Error>
  {
    Iteration.Run(TurnOf(env, fileName), Pending, s, fuel)
  }

  /** Where the loop over these turns stops, and what holds there. */
  lemma TurnsStop(env: Env, fileName: string, s: LoopState, fuel: nat)
    ensures Extends(fileName, s, Turns(env, fileName, s, fuel).state)
    ensures Turns(env, fileName, s, fuel).Done? ==>
              && Turns(env, fileName, s, fuel).state.node.None?
              && exists n: nat :: n <= fuel && Reaches(env, fileName, s, Turns(env, fileName, s, fuel).state, n)
    ensures Turns(env, fileName, s, fuel).Raised? ==>
              && Turns(env, fileName, s, fuel).state.node.Some?
              && Step(env, fileName, Turns(env, fileName, s, fuel).state) == Err(Turns(env, fileName, s, fuel).error)
              && exists n: nat :: n < fuel && Reaches(env, fileName, s, Turns(env, fileName, s, fuel).state, n)
    ensures Turns(env, fileName, s, fuel).Exhausted? ==>
              Turns(env, fileName, s, fuel).state.node.Some? && Reaches(env, fileName, s, Turns(env, fileName, s, fuel).state, fuel)
  {
    var turn := TurnOf(env, fileName);
    var e := Turns(env, fileName, s, fuel);
    var n: nat :| n <= fuel && Iteration.Reaches(turn, Pending, s, e.state, n);
    ReachesExtends(env, fileName, s, e.state, n);
    if e.Done? {
      assert Reaches(env, fileName, s, e.state, n);
    } else if e.Raised? {
      var m: nat :| m < fuel && Iteration.Reaches(turn, Pending, s, e.state, m);
      assert Reaches(env, fileName, s, e.state, m);
      assert turn(e.state) == Err(e.error);
      assert turn(e.state) == Step(env, fileName, e.state);
    }
  }

  /** The loop, run for at most `fuel` turns: the source bounds nothing. It
      finishes at a state `n` turns away whose scan found no node, with that
      state's buffer and list; it throws where a turn from a reached state
      throws; otherwise it has taken all `fuel` turns. Either way the list
      only grows, by notices. */
  function Run(env: Env, fileName: string, s: LoopState, fuel: nat): (r: LoopResult)
    ensures s.ambiguous <= r.Notices()
    ensures forall i :: |s.ambiguous| <= i < |r.Notices()| ==> IsAmbiguityNotice(r.Notices()[i], fileName)
    ensures r.Finished? ==> exists n: nat, t :: && n <= fuel && Reaches(env, fileName, s, t, n) && t.node.None?
                                                && r == Finished(t.buffer, t.ambiguous)
    ensures r.Threw? ==> exists n: nat, t :: && n < fuel && Reaches(env, fileName, s, t, n) && t.node.Some?
                                             && Step(env, fileName, t) == Err(r.error) && r.ambiguous == t.ambiguous
    ensures r.OutOfFuel? ==> r.state.node.Some? && Reaches(env, fileName, s, r.state, fuel) && r.state.tree == s.tree
  {
    TurnsStop(env, fileName, s, fuel);
    match Turns(env, fileName, s, fuel)
    case Done(t) => Finished(t.buffer, t.ambiguous)
    case Raised(e, t) => Threw(e, t.ambiguous)
    case Exhausted(t) => OutOfFuel(t)
  }

  /** Conversely, once the turns from `s` reach a state with no pending node
      within the fuel, the loop finishes there, with that state's buffer and
      ambiguity list. */
  lemma RunFinishesAtNullNode(env: Env, fileName: string, s: LoopState, t: LoopState, n: nat, fuel: nat)
    requires Reaches(env, fileName, s, t, n) && t.node.None? && n <= fuel
    ensures Run(env, fileName, s, fuel) == Finished(t.buffer, t.ambiguous)
  {
    Iteration.RunStopsWhereNothingPending(TurnOf(env, fileName), Pending, s, t, n, fuel);
  }

  /** Conversely, once the turns from `s` reach, within the fuel, a state
      whose turn throws, the loop throws that exception with that state's
      list. */
  lemma RunThrowsWhereTurnThrows(env: Env, fileName: string, s: LoopState, t: LoopState, n: nat, fuel: nat)
    requires Reaches(env, fileName, s, t, n) && t.node.Some? && Step(env, fileName, t).Err? && n < fuel
    ensures Run(env, fileName, s, fuel) == Threw(Step(env, fileName, t).error, t.ambiguous)
  {
    Iteration.RunRaisesWhereTurnThrows(TurnOf(env, fileName), Pending, s, t, n, fuel);
  }

  /** A turn whose target exists and whose candidates do not contain exactly
      one "using" action (none, or several) records one notice at the
      target's start, naming the unknown name, keeps the buffer and resumes
      the scan at the target. */
  lemma StepAmbiguous(env: Env, fileName: string, s: LoopState)
    requires s.node.Some? && NodeToAddUsing(s.node.value).Some?
    requires var target := NodeToAddUsing(s.node.value).value;
             !exists i: nat :: OnlyMatchAt(env.addUsingActions(CreateRequest(s.buffer, target, fileName)), IsUsingAction, i)
    ensures var target := NodeToAddUsing(s.node.value).value;
            var notice := QuickFix(fileName, target.region.beginLine, target.region.beginColumn,
                                   "`" + NameOf(s.node.value.result).value + AmbiguousSuffix);
            Step(env, fileName, s) ==
              Ok(s.(ambiguous := s.ambiguous + [notice],
                    node := Resume(env, fileName, s, Ref(s.node.value.node.generation, target))))
  {
    var target := NodeToAddUsing(s.node.value).value;
    WhereSingleton(env.addUsingActions(CreateRequest(s.buffer, target, fileName)), IsUsingAction);
  }

  /** A turn whose candidates contain exactly one "using" action runs that
      action alone; if the text did not change it records no notice and
      resumes the scan at the target. */
  lemma StepRunsOnlyUsingAction(env: Env, fileName: string, s: LoopState, i: nat)
    requires s.node.Some? && NodeToAddUsing(s.node.value).Some?
    requires var req := CreateRequest(s.buffer, NodeToAddUsing(s.node.value).value, fileName);
             && OnlyMatchAt(env.addUsingActions(req), IsUsingAction, i)
             && env.runActions(req, [env.addUsingActions(req)[i]]) == s.buffer
    ensures var target := NodeToAddUsing(s.node.value).value;
            Step(env, fileName, s) == Ok(s.(node := Resume(env, fileName, s, Ref(s.node.value.node.generation, target))))
  {
    var target := NodeToAddUsing(s.node.value).value;
    var actions := env.addUsingActions(CreateRequest(s.buffer, target, fileName));
    WhereSingleton(actions, IsUsingAction);
    assert Where(actions, IsUsingAction) == [actions[i]];
  }

  /** A turn whose one "using" action changes the text re-parses it, with a
      fresh resolver, and rescans the new tree from its start; the list is
      kept and the first tree stays as it was. */
  lemma StepReparsesAfterEdit(env: Env, fileName: string, s: LoopState, i: nat)
    requires s.node.Some? && NodeToAddUsing(s.node.value).Some?
    requires var req := CreateRequest(s.buffer, NodeToAddUsing(s.node.value).value, fileName);
             && OnlyMatchAt(env.addUsingActions(req), IsUsingAction, i)
             && env.runActions(req, [env.addUsingActions(req)[i]]) != s.buffer
    ensures var req := CreateRequest(s.buffer, NodeToAddUsing(s.node.value).value, fileName);
            var text := env.runActions(req, [env.addUsingActions(req)[i]]);
            Step(env, fileName, s) ==
              Ok(LoopState(text, s.tree, s.generation + 1,
                           NextUnresolvedInTree(s.generation + 1, env.parse(text, fileName), ResolverOf(env, text, fileName)),
                           s.ambiguous))
  {
    var target := NodeToAddUsing(s.node.value).value;
    var actions := env.addUsingActions(CreateRequest(s.buffer, target, fileName));
    WhereSingleton(actions, IsUsingAction);
    assert Where(actions, IsUsingAction) == [actions[i]];
  }

  /** The loop's variables agree with each other: before any re-parse the
      first tree is the parse of the buffer, and the pending node belongs to
      the latest parse of the buffer and carries the current resolver's
      outcome. */
  ghost predicate Consistent(env: Env, fileName: string, s: LoopState)
  {
    && (s.generation == 0 ==> s.tree == env.parse(s.buffer, fileName))
    && (s.node.Some? ==>
          && s.node.value.node.generation == s.generation
          && s.node.value.node.node in Descendants(env.parse(s.buffer, fileName))
          && s.node.value.result == env.resolve(s.buffer, fileName, s.node.value.node.node))
  }

  /** Every turn keeps the loop's variables consistent. */
  lemma StepKeepsConsistent(env: Env, fileName: string, s: LoopState)
    requires Consistent(env, fileName, s) && s.node.Some?
    requires Step(env, fileName, s).Ok?
    ensures Consistent(env, fileName, Step(env, fileName, s).value)
  {

  }

  /** Any number of turns keeps the loop's variables consistent, so the
      lemmas that assume consistency apply to every state a run reaches. */
  lemma {:induction false} ReachesKeepsConsistent(env: Env, fileName: string, s: LoopState, t: LoopState, n: nat)
    requires Consistent(env, fileName, s) && Reaches(env, fileName, s, t, n)
    ensures Consistent(env, fileName, t)
    decreases n
  {
    if n > 0 {
      StepKeepsConsistent(env, fileName, s);
      ReachesKeepsConsistent(env, fileName, Step(env, fileName, s).value, t, n - 1);
    }
  }

  /** Before the first re-parse, the target of a turn lies in the first
      tree, so a resumed scan really starts at the target. */
  lemma ResumeStartsAtTargetBeforeReparse(env: Env, fileName: string, s: LoopState)
    requires Consistent(env, fileName, s) && s.generation == 0
    requires s.node.Some? && NodeToAddUsing(s.node.value).Some?
    ensures var astNode := Ref(0, NodeToAddUsing(s.node.value).value);
            var stale := Tagged(0, Descendants(s.tree));
            StartOf(stale, astNode) < |stale| && stale[StartOf(stale, astNode)] == astNode
  {
    var nr := s.node.value;
    var target := NodeToAddUsing(nr).value;
    var k: nat :| FirstRenderedAt(Descendants(nr.node.node), NameOf(nr.result).value, k) && target == Descendants(nr.node.node)[k];
    DescendantsTransitive(s.tree, nr.node.node, target);
    TaggedMembers(0, Descendants(s.tree), Ref(0, target));
  }

  /** After the loop has re-parsed once, a turn that leaves the buffer as it
      was (ambiguous candidates, or an edit that changed nothing) ends the
      loop: the resumed scan looks for the target, an object of the latest
      parse, in the tree of the first parse, and finds nothing. */
  lemma NoProgressAfterReparseEndsLoop(env: Env, fileName: string, s: LoopState, fuel: nat)
    requires Consistent(env, fileName, s) && s.generation > 0
    requires s.node.Some? && Step(env, fileName, s).Ok?
    requires Step(env, fileName, s).value.buffer == s.buffer
    requires fuel >= 1
    ensures Step(env, fileName, s).value.node.None?
    ensures Run(env, fileName, s, fuel) == Finished(s.buffer, Step(env, fileName, s).value.ambiguous)
  {
    var next := Step(env, fileName, s).value;
    assert Reaches(env, fileName, next, next, 0);
    assert Reaches(env, fileName, s, next, 1);
    RunFinishesAtNullNode(env, fileName, s, next, 1, fuel);
  }
}
