/** What the resolver says about a node, reduced to the three cases the
    handler distinguishes. */
module Resolution {

  /** `UnknownIdentifier` is an `UnknownIdentifierResolveResult`;
      `UnknownMember` is any `UnknownMemberResolveResult` (including its
      subclass for unknown methods); every other resolve result is
      `Resolved`. */
  datatype Outcome =
    | Resolved
    | UnknownIdentifier(identifier: string)
    | UnknownMember(memberName: string)

  /** The handler's private `NodeResolved` pair. */
  datatype NodeResolved<N> = NodeResolved(node: N, result: Outcome)
}
