/** Entries of a node's cache: a neighbour and the last node it was offered to. */
module Entries {

  /** Identity of a simulated node (a PeerSim `Node`), compared by equality only. */
  type NodeId = nat

  datatype Option<T> = None | Some(value: T)

  /**
   * A cache entry. `sentTo` is the node this entry was last offered to during a
   * shuffle, or None. In the source two entries are equal when their nodes are;
   * wherever the source relies on that equality the model compares `node` fields.
   */
  datatype Entry = Entry(node: NodeId, sentTo: Option<NodeId>)
}
