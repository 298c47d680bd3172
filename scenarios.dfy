/**
 * Concrete rounds among three nodes A, B and C (cache size 3, shuffle length 2),
 * each node starting with one neighbour: A knows B, B knows C, C knows A. Every
 * random choice below has a single possible outcome, so the final views are
 * determined.
 */
module Scenarios {
  import opened Entries
  import opened Messages
  import opened View
  import opened Shuffle

  const A: NodeId := 1
  const B: NodeId := 2
  const C: NodeId := 3

  /** The only subset of `length` >= 1 entries that can be drawn from a one-entry pool. */
  lemma DrawnFromOne(pool: seq<Entry>, subset: seq<Entry>, length: int)
    requires |pool| == 1 && length >= 1 && Drawn(pool, subset, length)
    ensures subset == [Entry(pool[0].node, None)]
  {
    assert subset[0] in subset;
  }

  lemma MarkOne(e: Entry, dest: NodeId)
    ensures MarkSent([e], [Entry(e.node, None)], dest) == [e.(sentTo := Some(dest))]
  {
    assert HasPeer([Entry(e.node, None)], e.node) by {
      assert [Entry(e.node, None)][0].node == e.node;
    }
  }

  lemma LastSentOne(e: Entry, origin: NodeId)
    ensures LastSent([e], origin) == if e.sentTo == Some(origin) then [e.node] else []
  {
    assert [e][..0] == [];
  }

  lemma MergeOneNew(c: seq<Entry>, pending: seq<NodeId>, x: Entry, size: nat)
    requires !HasPeer(c, x.node) && |c| < size
    ensures Merge(c, pending, [x], size) == c + [x]
  {
    assert [x][1..] == [];
  }

  lemma NodesPair(x: Entry, y: Entry)
    ensures Nodes([x, y]) == [x.node, y.node]
  {
  }

  /** An active step from a one-entry cache with room offers that entry to its own node. */
  lemma ActiveFromOne(e: Entry, size: nat, l: int, self: NodeId, after: seq<Entry>, s: Send)
    requires size > 1 && l >= 2 && ActiveStep([e], size, l, self, after, s)
    ensures s == Send(Message(ShuffleRequest, self, [Entry(e.node, None)]), e.node)
    ensures after == [e.(sentTo := Some(e.node))]
  {
    DrawnFromOne([e], s.message.shuffleList, l - 1);
    MarkOne(e, e.node);
  }

  /** A one-entry cache with room answers `p` with its entry and appends the new node offered. */
  lemma AnswerFromOne(e: Entry, size: nat, l: int, p: NodeId, sent: seq<Entry>, x: Entry)
    requires size > 1 && l >= 1 && Drawn([e], sent, l) && x.node != e.node
    ensures sent == [Entry(e.node, None)]
    ensures Merged(MarkSent([e], sent, p), p, [x], size) == [e.(sentTo := Some(p)), x]
  {
    DrawnFromOne([e], sent, l);
    MarkOne(e, p);
    var c := [e.(sentTo := Some(p))];
    assert !HasPeer(c, x.node);
    LastSentOne(c[0], p);
    assert c[0] == e.(sentTo := Some(p));
    MergeOneNew(c, [e.node], x, size);
  }

  /** A reply from `o` offering `x` reaching a node whose only entry is `o`, marked as offered to `o`. */
  lemma ConcludeReply(o: NodeId, x: NodeId)
    requires o != x
    ensures Conclude(Merged([Entry(o, Some(o))], o, [Entry(x, None)], 3), o, 3)
         == [Entry(o, None), Entry(x, None)]
  {
    var c := [Entry(o, Some(o))];
    assert !HasPeer(c, x);
    LastSentOne(c[0], o);
    MergeOneNew(c, [o], Entry(x, None), 3);
    var merged := [Entry(o, Some(o)), Entry(x, None)];
    assert Merged(c, o, [Entry(x, None)], 3) == merged;
    var cleared := Cleared(merged);
    assert cleared == [Entry(o, None), Entry(x, None)];
    assert HasPeer(cleared, o) by { assert cleared[0].node == o; }
  }

  /** A rejection reaching A, whose only entry B was offered to B. */
  lemma ConcludeRejected()
    ensures Conclude([Entry(B, Some(B))], B, 3) == [Entry(B, None)]
  {
    var cleared := Cleared([Entry(B, Some(B))]);
    assert cleared == [Entry(B, None)];
    assert HasPeer(cleared, B) by { assert cleared[0].node == B; }
  }

  /** A fresh node (cache size 3, shuffle length 2) seeded with the one neighbour `n`. */
  method NodeKnowing(n: NodeId) returns (x: BasicShuffle)
    ensures fresh(x) && x.Valid() && x.size == 3 && x.l == 2
    ensures x.cache == [Entry(n, None)] && !x.waitForReply && x.outbox == []
  {
    x := new BasicShuffle(3, 2);
    var added := x.AddNeighbor(n);
  }

  /** The active step of a node whose cache is one unmarked entry, with room to spare. */
  method ActiveOne(n: BasicShuffle, self: NodeId, e: NodeId) returns (s: Send)
    requires n.Valid() && n.size == 3 && n.l == 2 && n.cache == [Entry(e, None)] && !n.waitForReply
    modifies n
    ensures n.Valid() && n.cache == [Entry(e, Some(e))] && n.waitForReply
    ensures s == Send(Message(ShuffleRequest, self, [Entry(e, None)]), e)
    ensures n.outbox == old(n.outbox) + [s]
  {
    n.NextCycle(self);
    s := n.outbox[|n.outbox| - 1];
    ActiveFromOne(Entry(e, None), 3, 2, self, n.cache, s);
  }

  /** A request offering one new entry reaching an idle node whose cache is one unmarked entry `e`. */
  method AnswerOne(n: BasicShuffle, self: NodeId, e: NodeId, request: Message) returns (s: Send)
    requires n.Valid() && n.size == 3 && n.l == 2 && n.cache == [Entry(e, None)] && !n.waitForReply
    requires request.kind == ShuffleRequest && |request.shuffleList| == 1 && request.shuffleList[0].node != e
    modifies n
    ensures n.Valid() && n.cache == [Entry(e, Some(request.origin)), request.shuffleList[0]] && !n.waitForReply
    ensures s == Send(Message(ShuffleReply, self, [Entry(e, None)]), request.origin)
    ensures n.outbox == old(n.outbox) + [s]
  {
    n.ProcessEvent(self, request);
    s := n.outbox[|n.outbox| - 1];
    assert request.shuffleList == [request.shuffleList[0]];
    AnswerFromOne(Entry(e, None), 3, 2, request.origin, s.message.shuffleList, request.shuffleList[0]);
  }

  /** The reply to the request of `ActiveOne`, offering one other node. */
  method ReplyOne(n: BasicShuffle, self: NodeId, reply: Message)
    requires n.Valid() && n.size == 3 && n.cache == [Entry(reply.origin, Some(reply.origin))]
    requires reply.kind == ShuffleReply && |reply.shuffleList| == 1
    requires reply.shuffleList[0] == Entry(reply.shuffleList[0].node, None) && reply.shuffleList[0].node != reply.origin
    modifies n
    ensures n.Valid() && n.cache == [Entry(reply.origin, None), reply.shuffleList[0]] && !n.waitForReply
  {
    n.ProcessEvent(self, reply);
    assert reply.shuffleList == [Entry(reply.shuffleList[0].node, None)];
    ConcludeReply(reply.origin, reply.shuffleList[0].node);
  }

  /**
   * A starts a shuffle with B and B answers. A offers B its only entry, B
   * itself; B answers with C and, since a request does not add its sender, ends
   * knowing C and itself rather than A. A merges C and ends knowing B and C.
   */
  method RoundTrip() returns (offered: seq<NodeId>, answered: seq<NodeId>,
                              viewA: seq<NodeId>, viewB: seq<NodeId>, viewC: seq<NodeId>, waitingA: bool)
    ensures offered == [B] && answered == [C]
    ensures viewA == [B, C] && viewB == [C, B] && viewC == [A] && !waitingA
  {
    var a := NodeKnowing(B);
    var b := NodeKnowing(C);
    var c := NodeKnowing(A);

    var request := ActiveOne(a, A, B);
    var reply := AnswerOne(b, B, C, request.message);
    ReplyOne(a, A, reply.message);
    NodesPair(Entry(B, None), Entry(C, None));
    NodesPair(Entry(C, Some(A)), Entry(B, None));

    offered := Nodes(request.message.shuffleList);
    answered := Nodes(reply.message.shuffleList);
    viewA, viewB, viewC := Nodes(a.cache), Nodes(b.cache), Nodes(c.cache);
    waitingA := a.waitForReply;
  }

  /**
   * B has started its own shuffle with C when A's request arrives, so B rejects
   * it. A clears its markers, already knows B and stops waiting; B's cache is
   * left as B's own round made it.
   */
  method Rejection() returns (rejection: Send, viewA: seq<Entry>, viewB: seq<Entry>,
                              waitingA: bool, waitingB: bool)
    ensures rejection == Send(Message(ShuffleRejected, B, []), A)
    ensures viewA == [Entry(B, None)] && !waitingA
    ensures viewB == [Entry(C, Some(C))] && waitingB
  {
    var a := NodeKnowing(B);
    var b := NodeKnowing(C);

    var bRequest := ActiveOne(b, B, C);
    var request := ActiveOne(a, A, B);

    b.ProcessEvent(B, request.message);
    rejection := b.outbox[1];
    a.ProcessEvent(A, rejection.message);
    ConcludeRejected();
    viewA, viewB := a.cache, b.cache;
    waitingA, waitingB := a.waitForReply, b.waitForReply;
  }
}
