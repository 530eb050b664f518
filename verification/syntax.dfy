/** The syntax tree as the handler sees it: nodes with a kind, a textual
    rendering (`ToString()`), a start position and ordered children. */
module Syntax {
  import opened Wrappers

  /** Start of a node's region (`Region.BeginLine`, `Region.BeginColumn`). */
  datatype Region = Region(beginLine: int, beginColumn: int)

  /** The only node classifications the handler inspects. `QueryClause` is any
      node whose `NodeType` is `NodeType.QueryClause`. */
  datatype NodeKind =
    | UsingDeclaration(importedNamespace: string)
    | UsingAliasDeclaration
    | QueryClause
    | OtherNode

  /** A syntax node. `id` stands for object identity within one parse; `text` is
      the node's `ToString()` rendering. */
  datatype AstNode = AstNode(id: nat, kind: NodeKind, text: string, region: Region, children: seq<AstNode>)

  /** `node.Descendants`: every node strictly below `n`, in depth-first
      pre-order (document order). The node itself is not included. */
  function Descendants(n: AstNode): seq<AstNode>
    decreases n, |n.children| + 1
  {
    DescendantsFrom(n, 0)
  }

  /** Pre-order descendants contributed by the children `n.children[i..]`. */
  function DescendantsFrom(n: AstNode, i: nat): seq<AstNode>
    requires i <= |n.children|
    decreases n, |n.children| - i
  {
    if i == |n.children| then []
    else [n.children[i]] + Descendants(n.children[i]) + DescendantsFrom(n, i + 1)
  }

  /** `node.FirstChild`, `None` standing for null. */
  function FirstChild(n: AstNode): Option<AstNode>
  {
    if n.children == [] then None else Some(n.children[0])
  }

  /** In pre-order the first child is the first descendant, and a node without
      children has no descendants. */
  lemma FirstChildIsFirstDescendant(n: AstNode)
    ensures FirstChild(n).None? <==> Descendants(n) == []
    ensures FirstChild(n).Some? ==> Descendants(n)[0] == FirstChild(n).value
  {
  }

  /** A node object as the C# runtime distinguishes it: every call to the
      parser builds fresh objects, so a node is identified by the parse
      (`generation`) it came from together with its value. Two parses of the
      same text give equal `AstNode` values but distinct `Ref`s. */
  datatype Ref = Ref(generation: nat, node: AstNode)

  /** The nodes `ns` as objects of parse `generation`. */
  function Tagged(generation: nat, ns: seq<AstNode>): (r: seq<Ref>)
    ensures |r| == |ns|
    ensures forall i :: 0 <= i < |r| ==> r[i] == Ref(generation, ns[i])
  {
    seq(|ns|, i requires 0 <= i < |ns| => Ref(generation, ns[i]))
  }

  /** A node below `n` is a child of `n` or lies below one. */
  lemma {:induction false} DescendantsFromMembers(n: AstNode, i: nat, x: AstNode)
    requires i <= |n.children|
    ensures x in DescendantsFrom(n, i) <==>
      exists j :: i <= j < |n.children| && (x == n.children[j] || x in Descendants(n.children[j]))
    decreases |n.children| - i
  {
    if i < |n.children| {
      DescendantsFromMembers(n, i + 1, x);
    }
  }

  /** Being a descendant is transitive. */
  lemma {:induction false} DescendantsTransitive(a: AstNode, b: AstNode, c: AstNode)
    requires b in Descendants(a)
    requires c in Descendants(b)
    ensures c in Descendants(a)
    decreases a
  {
    DescendantsFromMembers(a, 0, b);
    var j :| 0 <= j < |a.children| && (b == a.children[j] || b in Descendants(a.children[j]));
    if b != a.children[j] {
      DescendantsTransitive(a.children[j], b, c);
    }
    DescendantsFromMembers(a, 0, c);
  }

  /** An object belongs to parse `generation`'s nodes exactly when it carries
      that generation and its node is among them. */
  lemma TaggedMembers(generation: nat, ns: seq<AstNode>, x: Ref)
    ensures x in Tagged(generation, ns) <==> x.generation == generation && x.node in ns
  {

  }
}
