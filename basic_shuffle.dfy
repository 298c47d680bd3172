/**
 * The basic shuffle of Stavrou et al. as one PeerSim protocol instance: a
 * bounded, duplicate-free cache of neighbours, a flag telling whether the node
 * waits for the answer to its own shuffle request, the active step run once per
 * cycle and the handling of the three kinds of gossip message.
 */
module Shuffle {
  import opened Entries
  import opened Messages
  import opened View

  /**
   * The effect of an active step of node `self` that picked the neighbour
   * `s.dest`: when the cache was full that neighbour's entry is removed, a subset
   * of at most `l - 1` entries is drawn from what is left and marked as sent to
   * it, and `s` is the request carrying that subset.
   */
  ghost predicate ActiveStep(before: seq<Entry>, size: nat, l: int, self: NodeId, after: seq<Entry>, s: Send)
  {
    var rest := if |before| >= size then RemoveNode(before, s.dest) else before;
    HasPeer(before, s.dest) &&
    s.message == Message(ShuffleRequest, self, s.message.shuffleList) &&
    Drawn(rest, s.message.shuffleList, l - 1) &&
    after == MarkSent(rest, s.message.shuffleList, s.dest)
  }

  /**
   * What an active step does to the cache: the picked neighbour is removed
   * exactly when the cache was full, every other entry keeps its place, and the
   * cache stays bounded and duplicate-free.
   */
  lemma ActiveStepCache(before: seq<Entry>, size: nat, l: int, self: NodeId, after: seq<Entry>, s: Send)
    requires NoDup(before) && |before| <= size
    requires ActiveStep(before, size, l, self, after, s)
    ensures NoDup(after) && |after| <= size
    ensures |before| >= size ==>
      exists i :: 0 <= i < |before| && before[i].node == s.dest && SameNodes(after, before[..i] + before[i + 1..])
    ensures |before| >= size ==> !HasPeer(after, s.dest) && |after| == |before| - 1
    ensures |before| < size ==> SameNodes(after, before)
  {
    var rest := if |before| >= size then RemoveNode(before, s.dest) else before;
    assert after == MarkSent(rest, s.message.shuffleList, s.dest);
    assert SameNodes(rest, after);
    SameNodesPeers(rest, after);
    if |before| >= size {
      var i :| 0 <= i < |before| && before[i].node == s.dest;
      RemoveNodeAt(before, i);
      assert SameNodes(after, before[..i] + before[i + 1..]);
    }
  }

  /**
   * What an active step sends: at most `l - 1` entries (none when `l <= 1`),
   * never more than the cache held, each an unmarked entry for a node of the cache.
   */
  lemma ActiveStepOffer(before: seq<Entry>, size: nat, l: int, self: NodeId, after: seq<Entry>, s: Send)
    requires NoDup(before) && |before| <= size
    requires ActiveStep(before, size, l, self, after, s)
    ensures |s.message.shuffleList| <= |before|
    ensures l <= 1 ==> s.message.shuffleList == []
    ensures l > 1 ==> |s.message.shuffleList| <= l - 1
    ensures NoDup(s.message.shuffleList)
    ensures forall x :: x in s.message.shuffleList ==> x.sentTo == None && HasPeer(before, x.node)
  {
    var list := s.message.shuffleList;
    var rest := if |before| >= size then RemoveNode(before, s.dest) else before;
    assert Drawn(rest, list, l - 1);
    assert |rest| <= |before|;
    assert forall m :: HasPeer(rest, m) ==> HasPeer(before, m);
  }

  /**
   * What a passive step guarantees when it answers a request from `p` with
   * `sent` and merges `received`: the sender is never added on its own account
   * (it is in the cache only if it was before or the request offered it), and
   * only entries just offered to `p`, or still marked as offered to it from
   * before, can be evicted.
   */
  lemma RequestStepFacts(before: seq<Entry>, size: nat, p: NodeId, sent: seq<Entry>, received: seq<Entry>)
    requires NoDup(before) && |before| <= size
    ensures var after := Merged(MarkSent(before, sent, p), p, received, size);
      NoDup(after) && |after| <= size &&
      (HasPeer(after, p) ==> HasPeer(before, p) || exists x :: x in received && x.node == p) &&
      (forall x :: x in before && !HasPeer(sent, x.node) && x.sentTo != Some(p) ==> x in after)
  {
    var marked := MarkSent(before, sent, p);
    var after := Merged(marked, p, received, size);
    SameNodesPeers(before, marked);
    MergedFacts(marked, p, received, size);
    if HasPeer(after, p) {
      var i :| 0 <= i < |after| && after[i].node == p;
      if after[i] in marked {
        var k :| 0 <= k < |marked| && marked[k] == after[i];
        assert HasPeer(marked, p);
      }
    }
    forall x | x in before && !HasPeer(sent, x.node) && x.sentTo != Some(p) ensures x in after {
      var k :| 0 <= k < |before| && before[k] == x;
      assert marked[k] == x;
    }
  }

  /**
   * A subset built from the distinct cache positions `drawn`, with exactly those
   * positions marked: its nodes are distinct nodes of the cache, and the cache
   * after marking is `MarkSent` of the subset.
   */
  lemma DrawnPositions(c0: seq<Entry>, after: seq<Entry>, subset: seq<Entry>, drawn: seq<int>, dest: NodeId)
    requires NoDup(c0) && |after| == |c0| && |subset| == |drawn|
    requires forall a :: 0 <= a < |drawn| ==> 0 <= drawn[a] < |c0|
    requires forall a, b :: 0 <= a < b < |drawn| ==> drawn[a] != drawn[b]
    requires forall a :: 0 <= a < |drawn| ==> subset[a] == Entry(c0[drawn[a]].node, None)
    requires forall k :: 0 <= k < |c0| ==> after[k].node == c0[k].node
    requires forall k :: 0 <= k < |c0| ==> after[k].sentTo == if k in drawn then Some(dest) else c0[k].sentTo
    ensures NoDup(subset)
    ensures forall x :: x in subset ==> x.sentTo == None && HasPeer(c0, x.node)
    ensures after == MarkSent(c0, subset, dest)
    ensures NoDup(after)
  {
    forall a, b | 0 <= a < b < |subset| ensures subset[a].node != subset[b].node {
      assert c0[drawn[a]].node != c0[drawn[b]].node;
    }
    forall x | x in subset ensures x.sentTo == None && HasPeer(c0, x.node) {
      var a :| 0 <= a < |subset| && subset[a] == x;
      assert c0[drawn[a]].node == x.node;
    }
    forall k | 0 <= k < |c0| ensures HasPeer(subset, c0[k].node) <==> k in drawn {
      if k in drawn {
        var a :| 0 <= a < |drawn| && drawn[a] == k;
        assert subset[a].node == c0[k].node;
      }
      if HasPeer(subset, c0[k].node) {
        var a :| 0 <= a < |subset| && subset[a].node == c0[k].node;
        assert drawn[a] == k;
      }
    }
    assert SameNodes(c0, after);
    SameNodesPeers(c0, after);
  }

  class BasicShuffle {
    /** The neighbours known by this node. */
    var cache: seq<Entry>
    /** The maximum size of the cache. */
    const size: nat
    /** The maximum length of a shuffle exchange. */
    const l: int
    /** Whether this node waits for the answer to a shuffle it initiated. */
    var waitForReply: bool
    /** Every message this node has handed to its transport, in order. */
    var outbox: seq<Send>

    /** The cache invariants: bounded by `size`, no node twice. */
    ghost predicate Valid()
      reads this
    {
      |cache| <= size && NoDup(cache)
    }

    constructor (size: nat, l: int)
      ensures Valid()
      ensures this.size == size && this.l == l
      ensures cache == [] && !waitForReply && outbox == []
    {
      this.size := size;
      this.l := l;
      cache := [];
      waitForReply := false;
      outbox := [];
    }

    /** The number of neighbours. */
    function Degree(): (d: nat)
      reads this
      ensures Valid() ==> d <= size
    {
      |cache|
    }

    /** The `i`-th neighbour; in a valid cache no other position holds it. */
    function GetNeighbor(i: nat): (n: NodeId)
      reads this
      requires i < Degree()
      ensures Valid() ==> forall j :: 0 <= j < |cache| && j != i ==> cache[j].node != n
    {
      cache[i].node
    }

    /** Whether `n` is a neighbour: some position of the cache holds it. */
    function Contains(n: NodeId): (b: bool)
      reads this
      ensures b <==> exists i :: 0 <= i < Degree() && GetNeighbor(i) == n
    {
      assert forall i :: 0 <= i < |cache| ==> GetNeighbor(i) == cache[i].node;
      HasPeer(cache, n)
    }

    /** `addNeighbor`: appends a fresh entry unless `n` is present or the cache is full. */
    method AddNeighbor(n: NodeId) returns (added: bool)
      requires Valid()
      modifies this`cache
      ensures Valid()
      ensures added == Admits(old(cache), n, size)
      ensures cache == if added then old(cache) + [Entry(n, None)] else old(cache)
      ensures cache == TryAdd(old(cache), n, size)
    {
      if Contains(n) {
        return false;
      }
      if |cache| >= size {
        return false;
      }
      NoDupAppend(cache, Entry(n, None));
      cache := cache + [Entry(n, None)];
      return true;
    }

    /**
     * `generateSubset(length, dest)`: draws up to `length` entries without
     * replacement, marks each drawn cache entry as sent to `dest` and returns
     * fresh unmarked copies. The random draws are any the caller's random source
     * may give. The source's `copyOfCache.remove(dest)` passes a node to a list
     * of entries and so removes nothing: `dest` itself may be drawn.
     */
    method GenerateSubset(length: int, dest: NodeId) returns (subset: seq<Entry>)
      requires Valid()
      modifies this`cache
      ensures Valid()
      ensures Drawn(old(cache), subset, length)
      ensures cache == MarkSent(old(cache), subset, dest)
    {
      ghost var c0 := cache;
      subset := [];
      var copyOfCache := seq(|cache|, k => k);
      ghost var drawn: seq<int> := [];
      var i := 0;
      while i < length && |copyOfCache| > 0
        invariant 0 <= i == |subset| == |drawn|
        invariant i <= length || i == 0
        invariant |copyOfCache| + i == |c0| == |cache|
        invariant forall a :: 0 <= a < |copyOfCache| ==> 0 <= copyOfCache[a] < |c0|
        invariant forall a :: 0 <= a < |drawn| ==> 0 <= drawn[a] < |c0|
        invariant forall a, b :: 0 <= a < b < |copyOfCache| ==> copyOfCache[a] != copyOfCache[b]
        invariant forall a, b :: 0 <= a < b < |drawn| ==> drawn[a] != drawn[b]
        invariant forall a, b :: 0 <= a < |copyOfCache| && 0 <= b < |drawn| ==> copyOfCache[a] != drawn[b]
        invariant forall a :: 0 <= a < |drawn| ==> subset[a] == Entry(c0[drawn[a]].node, None)
        invariant forall k :: 0 <= k < |c0| ==> cache[k].node == c0[k].node
        invariant forall k :: 0 <= k < |c0| ==> cache[k].sentTo == if k in drawn then Some(dest) else c0[k].sentTo
        decreases |copyOfCache|
      {
        var k :| 0 <= k < |copyOfCache|;
        var neighbor := copyOfCache[k];
        copyOfCache := copyOfCache[..k] + copyOfCache[k + 1..];
        cache := cache[neighbor := cache[neighbor].(sentTo := Some(dest))];
        subset := subset + [Entry(cache[neighbor].node, None)];
        drawn := drawn + [neighbor];
        i := i + 1;
      }
      DrawnPositions(c0, cache, subset, drawn, dest);
    }

    /** Resets the `sentTo` marker of every cache entry. */
    method ClearMarks()
      requires Valid()
      modifies this`cache
      ensures Valid()
      ensures cache == Cleared(old(cache))
    {
      var i := 0;
      while i < |cache|
        invariant 0 <= i <= |cache| == |old(cache)|
        invariant forall k :: 0 <= k < i ==> cache[k] == Entry(old(cache)[k].node, None)
        invariant forall k :: i <= k < |cache| ==> cache[k] == old(cache)[k]
      {
        cache := cache[i := cache[i].(sentTo := None)];
        i := i + 1;
      }
      SameNodesPeers(old(cache), cache);
    }

    /**
     * `updateCache`: collects the entries marked as sent to the message's origin,
     * in cache order, then merges the message's list entry by entry, evicting
     * those marked entries first when the cache is full.
     */
    method UpdateCache(message: Message)
      requires Valid()
      modifies this`cache
      ensures Valid()
      ensures cache == Merged(old(cache), message.origin, message.shuffleList, size)
    {
      var received := message.shuffleList;
      var lastSentNodes: seq<NodeId> := [];
      var i := 0;
      while i < |cache|
        invariant 0 <= i <= |cache|
        invariant lastSentNodes == LastSent(cache[..i], message.origin)
      {
        assert cache[..i + 1][..i] == cache[..i];
        if cache[i].sentTo == Some(message.origin) {
          lastSentNodes := lastSentNodes + [cache[i].node];
        }
        i := i + 1;
      }
      assert cache[..|cache|] == cache;
      ghost var c0, p0 := cache, lastSentNodes;
      var j := 0;
      while j < |received|
        invariant 0 <= j <= |received|
        invariant Merge(cache, lastSentNodes, received[j..], size) == Merge(c0, p0, received, size)
      {
        var neighbor := received[j];
        assert received[j..][0] == neighbor && received[j..][1..] == received[j + 1..];
        if !Contains(neighbor.node) {
          if |cache| < size {
            cache := cache + [neighbor];
          } else if |lastSentNodes| > 0 {
            cache := RemoveNode(cache, lastSentNodes[0]) + [neighbor];
            lastSentNodes := lastSentNodes[1..];
          }
        }
        j := j + 1;
      }
      assert received[|received|..] == [];
      MergedFacts(c0, message.origin, received, size);
    }

    /**
     * `nextCycle`: unless waiting or without neighbours, picks a random
     * neighbour Q, removes it when the cache is full, sends Q a request
     * offering up to `l - 1` entries and starts waiting. The node does not add
     * itself to the subset; it offers its own identity only if its cache holds it.
     */
    method NextCycle(self: NodeId)
      requires Valid()
      modifies this
      ensures Valid()
      ensures old(waitForReply) || old(cache) == [] ==>
        cache == old(cache) && waitForReply == old(waitForReply) && outbox == old(outbox)
      ensures !old(waitForReply) && old(cache) != [] ==>
        waitForReply &&
        |outbox| == |old(outbox)| + 1 && outbox[..|old(outbox)|] == old(outbox) &&
        ActiveStep(old(cache), size, l, self, cache, outbox[|old(outbox)|])
    {
      if waitForReply {
        return;
      } else if |cache| == 0 {
        return;
      }
      ghost var before := cache;
      var pick :| 0 <= pick < |cache|;
      var q := cache[pick];
      if |cache| >= size {
        cache := RemoveNode(cache, q.node);
      }
      var subset := GenerateSubset(l - 1, q.node);
      outbox := outbox + [Send(Message(ShuffleRequest, self, subset), q.node)];
      waitForReply := true;
      assert HasPeer(before, q.node);
    }

    /**
     * `processEvent`: the handling of a message from `message.origin` (P).
     * A request while waiting is rejected; otherwise it is answered with up to
     * `l` entries and its list merged. A reply is merged; after a reply or a
     * rejection all markers are cleared, P is re-admitted if absent and there is
     * room, and the node stops waiting.
     */
    method ProcessEvent(self: NodeId, message: Message)
      requires Valid()
      modifies this
      ensures Valid()
      ensures message.kind == ShuffleRequest && old(waitForReply) ==>
        cache == old(cache) && waitForReply &&
        outbox == old(outbox) + [Send(Message(ShuffleRejected, self, []), message.origin)]
      ensures message.kind == ShuffleRequest && !old(waitForReply) ==>
        !waitForReply &&
        |outbox| == |old(outbox)| + 1 && outbox[..|old(outbox)|] == old(outbox) &&
        var s := outbox[|old(outbox)|];
        s.message == Message(ShuffleReply, self, s.message.shuffleList) && s.dest == message.origin &&
        Drawn(old(cache), s.message.shuffleList, l) &&
        cache == Merged(MarkSent(old(cache), s.message.shuffleList, message.origin),
                        message.origin, message.shuffleList, size)
      ensures message.kind == ShuffleReply ==>
        !waitForReply && outbox == old(outbox) &&
        cache == Conclude(Merged(old(cache), message.origin, message.shuffleList, size), message.origin, size)
      ensures message.kind == ShuffleRejected ==>
        !waitForReply && outbox == old(outbox) &&
        cache == Conclude(old(cache), message.origin, size)
    {
      var p := message.origin;
      match message.kind
      case ShuffleRequest =>
        if waitForReply {
          outbox := outbox + [Send(Message(ShuffleRejected, self, []), p)];
          return;
        }
        var subset := GenerateSubset(l, p);
        outbox := outbox + [Send(Message(ShuffleReply, self, subset), p)];
        UpdateCache(message);
      case ShuffleReply =>
        UpdateCache(message);
        ClearMarks();
        if !Contains(p) && |cache| < size {
          NoDupAppend(cache, Entry(p, None));
          cache := cache + [Entry(p, None)];
        }
        waitForReply := false;
      case ShuffleRejected =>
        ClearMarks();
        if !Contains(p) && |cache| < size {
          NoDupAppend(cache, Entry(p, None));
          cache := cache + [Entry(p, None)];
        }
        waitForReply := false;
    }
  }
}
