/** The three passes run before the resolve-and-patch loop: `RemoveUsings`,
    `SortUsings` and `AddLinqForQueryIfMissing`, with `RunActions`. */
module Passes {
  import opened Wrappers
  import opened Linq
  import opened Syntax
  import opened Collaborators

  const LinqNamespace: string := "System.Linq"

  /** `IsUsingDeclaration`: a `using` or a `using` alias declaration. */
  predicate IsUsingDeclaration(n: AstNode)
  {
    n.kind.UsingDeclaration? || n.kind.UsingAliasDeclaration?
  }

  /** No top-level node of `tree` is a using declaration. */
  ghost predicate NoTopLevelUsing(tree: AstNode)
  {
    forall k :: 0 <= k < |tree.children| ==> !IsUsingDeclaration(tree.children[k])
  }

  /** `tree.children[k]` is the first top-level using declaration. */
  ghost predicate FirstUsingAt(tree: AstNode, k: nat)
  {
    && k < |tree.children|
    && IsUsingDeclaration(tree.children[k])
    && forall j :: 0 <= j < k ==> !IsUsingDeclaration(tree.children[j])
  }

  /** Some `using` declaration anywhere in `tree` imports `System.Linq`
      (an alias declaration does not count). */
  predicate ImportsLinq(tree: AstNode)
  {
    exists d :: d in Descendants(tree) && d.kind == UsingDeclaration(LinqNamespace)
  }

  /** Some node of `tree` is a query clause. */
  ghost predicate HasQuery(tree: AstNode)
  {
    exists d :: d in Descendants(tree) && d.kind.QueryClause?
  }

  /** `nodes[k]` is the first query clause of `nodes`. */
  ghost predicate FirstQueryAt(nodes: seq<AstNode>, k: nat)
  {
    && k < |nodes|
    && nodes[k].kind.QueryClause?
    && forall j :: 0 <= j < k ==> !nodes[j].kind.QueryClause?
  }

  /** The actions of `actions` that are not null. */
  function NonNull(actions: seq<Option<CodeAction>>): (r: seq<CodeAction>)
    ensures |r| <= |actions|
  {
    if actions == [] then []
    else
      var rest := NonNull(actions[1..]);
      match actions[0]
      case Some(a) => [a] + rest
      case None => rest
  }

  /** `NonNull` keeps every action as often as it occurs in the list. */
  lemma {:induction false} NonNullCounts(actions: seq<Option<CodeAction>>)
    ensures forall a :: multiset(NonNull(actions))[a] == multiset(actions)[Some(a)]
  {
    if actions != [] {
      NonNullCounts(actions[1..]);
      assert actions == [actions[0]] + actions[1..];
      assert multiset(actions) == multiset([actions[0]]) + multiset(actions[1..]);
      match actions[0]
      case Some(a) =>
        assert multiset(NonNull(actions)) == multiset([a]) + multiset(NonNull(actions[1..]));
      case None =>
        assert NonNull(actions) == NonNull(actions[1..]);
    }
  }

  /** Dropping nulls commutes with concatenation, so the actions kept are in
      their original order. */
  lemma {:induction false} NonNullConcat(a: seq<Option<CodeAction>>, b: seq<Option<CodeAction>>)
    ensures NonNull(a + b) == NonNull(a) + NonNull(b)
  {
    if a == [] {
      assert a + b == b;
    } else {
      NonNullConcat(a[1..], b);
      assert (a + b)[0] == a[0] && (a + b)[1..] == a[1..] + b;
      if a[0].Some? {
        assert [a[0].value] + (NonNull(a[1..]) + NonNull(b)) == ([a[0].value] + NonNull(a[1..])) + NonNull(b);
      }
    }
  }

  /** `RunActions`: run the non-null actions through one script on the
      context of `req` and return the document's text. */
  function RunActions(env: Env, req: Request, actions: seq<Option<CodeAction>>): string
  {
    env.runActions(req, NonNull(actions))
  }

  /** A null anywhere in the list is skipped: the script runs the same
      actions, in the same order, as without it. */
  lemma RunActionsSkipsNull(env: Env, req: Request, before: seq<Option<CodeAction>>, after: seq<Option<CodeAction>>)
    ensures RunActions(env, req, before + [None] + after) == RunActions(env, req, before + after)
  {
    var gap: seq<Option<CodeAction>> := [None];
    NonNullConcat(before + gap, after);
    NonNullConcat(before, gap);
    NonNullConcat(before, after);
    assert gap[1..] == [];
    assert NonNull(gap) == [];
    assert NonNull(before + gap) == NonNull(before);
  }

  /** A list without nulls is run whole and in order. */
  lemma RunActionsRunsAllPresent(env: Env, req: Request, actions: seq<CodeAction>)
    ensures RunActions(env, req, seq(|actions|, i requires 0 <= i < |actions| => Some(actions[i]))) == env.runActions(req, actions)
  {
    PresentKept(actions);
  }

  /** Wrapping every action and dropping the nulls gives the list back. */
  lemma {:induction false} PresentKept(actions: seq<CodeAction>)
    ensures NonNull(seq(|actions|, i requires 0 <= i < |actions| => Some(actions[i]))) == actions
  {
    var wrapped := seq(|actions|, i requires 0 <= i < |actions| => Some(actions[i]));
    if actions != [] {
      PresentKept(actions[1..]);
      assert wrapped[1..] == seq(|actions[1..]|, i requires 0 <= i < |actions[1..]| => Some(actions[1..][i]));
      assert actions == [actions[0]] + actions[1..];
    }
  }

  /** `RemoveUsings`: when the parsed buffer has a top-level using
      declaration, ask for redundant-using issues at the first one and run the
      actions of the first issue only. */
  function RemoveUsings(env: Env, fileName: string, buffer: string): (r: string)
    ensures NoTopLevelUsing(env.parse(buffer, fileName)) ==> r == buffer
    ensures !NoTopLevelUsing(env.parse(buffer, fileName)) ==>
      var tree := env.parse(buffer, fileName);
      exists k: nat :: FirstUsingAt(tree, k) &&
        var req := CreateRequest(buffer, tree.children[k], fileName);
        var issues := env.redundantUsingIssues(req);
        r == if issues == [] then buffer else RunActions(env, req, issues[0].actions)
  {
    var tree := env.parse(buffer, fileName);
    match FirstOrNone(tree.children, IsUsingDeclaration)
    case None => buffer
    case Some(firstUsing) =>
      var req := CreateRequest(buffer, firstUsing, fileName);
      var issues := env.redundantUsingIssues(req);
      if |issues| > 0 then RunActions(env, req, issues[0].actions) else buffer
  }

  /** `SortUsings`: when the parsed buffer has a top-level using declaration,
      run the sort-usings actions offered at the first one. */
  function SortUsings(env: Env, fileName: string, buffer: string): (r: string)
    ensures NoTopLevelUsing(env.parse(buffer, fileName)) ==> r == buffer
    ensures !NoTopLevelUsing(env.parse(buffer, fileName)) ==>
      var tree := env.parse(buffer, fileName);
      exists k: nat :: FirstUsingAt(tree, k) &&
        var req := CreateRequest(buffer, tree.children[k], fileName);
        r == RunActions(env, req, env.sortUsingsActions(req))
  {
    var tree := env.parse(buffer, fileName);
    match FirstOrNone(tree.children, IsUsingDeclaration)
    case None => buffer
    case Some(firstUsing) =>
      var req := CreateRequest(buffer, firstUsing, fileName);
      RunActions(env, req, env.sortUsingsActions(req))
  }

  /** `AddLinqForQueryIfMissing` with `AddUsingLinq`: when nothing imports
      `System.Linq` and a query clause exists, insert the import at the first
      query clause. */
  function AddLinqForQueryIfMissing(env: Env, fileName: string, buffer: string): (r: string)
    ensures ImportsLinq(env.parse(buffer, fileName)) ==> r == buffer
    ensures !HasQuery(env.parse(buffer, fileName)) ==> r == buffer
    ensures !ImportsLinq(env.parse(buffer, fileName)) && HasQuery(env.parse(buffer, fileName)) ==>
      exists k: nat :: FirstQueryAt(Descendants(env.parse(buffer, fileName)), k)
        && r == env.insertUsing(CreateRequest(buffer, Descendants(env.parse(buffer, fileName))[k], fileName), LinqNamespace)
  {
    var nodes := Descendants(env.parse(buffer, fileName));
    if ImportsLinq(env.parse(buffer, fileName)) then buffer
    else
      var i := FirstIndex(nodes, 0, (n: AstNode) => n.kind.QueryClause?);
      if i == |nodes| then
        assert !HasQuery(env.parse(buffer, fileName));
        buffer
      else
        assert FirstQueryAt(nodes, i);
        env.insertUsing(CreateRequest(buffer, nodes[i], fileName), LinqNamespace)
  }

  /** A `using` or `using` alias declaration as the first top-level node is
      where `RemoveUsings` and `SortUsings` consult their detectors, and a
      `using System.Linq;` there also stops `AddLinqForQueryIfMissing`. */
  lemma UsingFirstGuardsPasses(env: Env, fileName: string, buffer: string)
    requires var tree := env.parse(buffer, fileName);
             |tree.children| > 0 && (tree.children[0].kind.UsingDeclaration? || tree.children[0].kind.UsingAliasDeclaration?)
    ensures var tree := env.parse(buffer, fileName);
            var req := CreateRequest(buffer, tree.children[0], fileName);
            var issues := env.redundantUsingIssues(req);
            && RemoveUsings(env, fileName, buffer) == (if issues == [] then buffer else RunActions(env, req, issues[0].actions))
            && SortUsings(env, fileName, buffer) == RunActions(env, req, env.sortUsingsActions(req))
            && (tree.children[0].kind == UsingDeclaration(LinqNamespace) ==> AddLinqForQueryIfMissing(env, fileName, buffer) == buffer)
  {
    var tree := env.parse(buffer, fileName);
    assert FirstUsingAt(tree, 0);
    assert forall k: nat :: FirstUsingAt(tree, k) ==> k == 0;
    FirstChildIsFirstDescendant(tree);
    assert tree.children[0] in Descendants(tree);
  }

  /** Query clauses and other nodes are not using declarations: when every
      top-level node is one of them, `RemoveUsings` and `SortUsings` return
      the buffer unchanged. */
  lemma NoUsingKindPassesThrough(env: Env, fileName: string, buffer: string)
    requires var tree := env.parse(buffer, fileName);
             forall k :: 0 <= k < |tree.children| ==> tree.children[k].kind.QueryClause? || tree.children[k].kind.OtherNode?
    ensures RemoveUsings(env, fileName, buffer) == buffer
    ensures SortUsings(env, fileName, buffer) == buffer
  {
  }

  /** `RemoveUsings` runs the actions of the first redundant-using issue
      only: any later issues the detector reports make no difference. */
  lemma RemoveUsingsUsesFirstIssueOnly(env: Env, fileName: string, buffer: string, issues: Request -> seq<CodeIssue>)
    requires forall req :: (issues(req) == []) == (env.redundantUsingIssues(req) == [])
    requires forall req :: issues(req) != [] ==> issues(req)[0] == env.redundantUsingIssues(req)[0]
    ensures RemoveUsings(env.(redundantUsingIssues := issues), fileName, buffer) == RemoveUsings(env, fileName, buffer)
  {
  }

  /** Once the inserted import is visible to the parser, a second run of
      `AddLinqForQueryIfMissing` changes nothing. */
  lemma AddLinqIdempotentOnceImported(env: Env, fileName: string, buffer: string)
    requires var once := AddLinqForQueryIfMissing(env, fileName, buffer);
             once != buffer ==> ImportsLinq(env.parse(once, fileName))
    ensures var once := AddLinqForQueryIfMissing(env, fileName, buffer);
            AddLinqForQueryIfMissing(env, fileName, once) == once
  {
  }
}
