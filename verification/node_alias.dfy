/** The peer label: the alias when there is one, otherwise a shortened node id. */
module NodeAlias {
  import opened Wrappers
  import opened WebTypes
  import Strings

  /** The first 8 and the characters 58..66 of a node id around "...";
      for a 66-character id that is its first and last 8 characters. */
  function ShortNodeId(node: string): (r: string)
    ensures |node| == 66 ==> |r| == 19 && r[..8] == node[..8] && r[8..11] == "..." && r[11..] == node[58..]
    ensures |node| <= 8 ==> r == node + "..."
  {
    Strings.Slice(node, 0, 8) + "..." + Strings.Slice(node, 58, 66)
  }

  /** The label for `nodeLimit`: a non-empty `alias` as is, otherwise the
      shortened node id. */
  function Label(alias: Option<string>, nodeLimit: NodeLimit): (r: string)
    ensures alias.Some? && alias.value != "" ==> r == alias.value
    ensures alias.None? || alias.value == "" ==> r == ShortNodeId(nodeLimit.node)
  {
    if alias.Some? && alias.value != "" then alias.value else ShortNodeId(nodeLimit.node)
  }

  /** The label reads only the alias and the node id of the record. */
  lemma LabelIgnoresOtherFields(alias: Option<string>, a: NodeLimit, b: NodeLimit)
    requires a.node == b.node
    ensures Label(alias, a) == Label(alias, b)
  {
  }
}
