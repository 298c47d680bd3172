/** The gossip envelope and what this node hands to its transport. */
module Messages {
  import opened Entries

  datatype MessageType = ShuffleRequest | ShuffleReply | ShuffleRejected

  /** A gossip message: its type, the node that created it and the offered entries. */
  datatype Message = Message(kind: MessageType, origin: NodeId, shuffleList: seq<Entry>)

  /** One call of the transport's `send`: a message and its destination. */
  datatype Send = Send(message: Message, dest: NodeId)
}
