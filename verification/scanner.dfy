/** The unresolved-node scanner (`GetNextUnresolvedNode`, both overloads). */
module Scanner {
  import opened Wrappers
  import opened Linq
  import opened Syntax
  import opened Resolution

  /** Where `SkipWhile(n => n != after)` starts: the first occurrence of
      `after`, or `|s|` (an empty remainder) when `after` does not occur. */
  function StartOf<N(==)>(s: seq<N>, after: N): (i: nat)
    ensures i <= |s|
    ensures i < |s| <==> after in s
    ensures i < |s| ==> s[i] == after && after !in s[..i]
  {
    var i := FirstIndex(s, 0, n => n == after);
    assert i == |s| ==> forall j :: 0 <= j < |s| ==> s[j] != after;
    i
  }

  /** Reference definition of the scanner's choice within `s[lo..]`: an
      unknown identifier if there is one (the earliest), otherwise the
      earliest unknown member, otherwise nothing. */
  ghost predicate ChosenFrom<N>(s: seq<N>, lo: nat, resolve: N -> Outcome, r: Option<NodeResolved<N>>)
  {
    match r
    case None =>
      forall k :: lo <= k < |s| ==> resolve(s[k]).Resolved?
    case Some(nr) =>
      exists k :: lo <= k < |s| && nr == NodeResolved(s[k], resolve(s[k])) && PreferredAt(s, lo, resolve, k)
  }

  /** `s[k]` is the earliest unknown identifier of `s[lo..]`, or there is no
      unknown identifier there and `s[k]` is the earliest unknown member. */
  ghost predicate PreferredAt<N>(s: seq<N>, lo: nat, resolve: N -> Outcome, k: nat)
    requires lo <= k < |s|
  {
    || (resolve(s[k]).UnknownIdentifier? && forall j :: lo <= j < k ==> !resolve(s[j]).UnknownIdentifier?)
    || (&& resolve(s[k]).UnknownMember?
        && (forall j :: lo <= j < |s| ==> !resolve(s[j]).UnknownIdentifier?)
        && (forall j :: lo <= j < k ==> !resolve(s[j]).UnknownMember?))
  }

  /** The reference definition admits at most one choice. */
  lemma ChosenFromUnique<N>(s: seq<N>, lo: nat, resolve: N -> Outcome, r1: Option<NodeResolved<N>>, r2: Option<NodeResolved<N>>)
    requires ChosenFrom(s, lo, resolve, r1)
    requires ChosenFrom(s, lo, resolve, r2)
    ensures r1 == r2
  {

  }

  /** `GetNextUnresolvedNode(tree, after, resolver)` over the descendant
      sequence `s` of `tree`: scan from `after` inclusive, first for an unknown
      identifier, then for an unknown member. */
  function NextUnresolved<N(==)>(s: seq<N>, after: N, resolve: N -> Outcome): (r: Option<NodeResolved<N>>)
    ensures ChosenFrom(s, StartOf(s, after), resolve, r)
    ensures after !in s ==> r.None?
    ensures (exists k :: StartOf(s, after) <= k < |s| && resolve(s[k]).UnknownIdentifier?)
            ==> r.Some? && r.value.result.UnknownIdentifier?
    ensures r.Some? && r.value.result.UnknownMember?
            ==> forall k :: StartOf(s, after) <= k < |s| ==> !resolve(s[k]).UnknownIdentifier?
  {
    var lo := StartOf(s, after);
    var i := FirstIndex(s, lo, n => resolve(n).UnknownIdentifier?);
    if i < |s| then
      assert PreferredAt(s, lo, resolve, i);
      Some(NodeResolved(s[i], resolve(s[i])))
    else
      var j := FirstIndex(s, lo, n => resolve(n).UnknownMember?);
      if j < |s| then
        assert PreferredAt(s, lo, resolve, j);
        Some(NodeResolved(s[j], resolve(s[j])))
      else
        None
  }

  /** `GetNextUnresolvedNode(tree, resolver)`: the scan from `tree.FirstChild`,
      which covers every descendant of the tree (parse `generation`). */
  function NextUnresolvedInTree(generation: nat, tree: AstNode, resolve: Ref -> Outcome): (r: Option<NodeResolved<Ref>>)
    ensures ChosenFrom(Tagged(generation, Descendants(tree)), 0, resolve, r)
  {
    var nodes := Tagged(generation, Descendants(tree));
    FirstChildIsFirstDescendant(tree);
    match FirstChild(tree)
    case None => None
    case Some(first) =>
      assert StartOf(nodes, Ref(generation, first)) == 0;
      NextUnresolved(nodes, Ref(generation, first), resolve)
  }
}
