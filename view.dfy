/**
 * The cache of one node as a value: the operations the shuffle performs on its
 * list of entries, stated as functions, and what they guarantee.
 */
module View {
  import opened Entries

  /** Some entry of `c` refers to node `n` (the list's `contains`, by node equality). */
  predicate HasPeer(c: seq<Entry>, n: NodeId)
  {
    exists i :: 0 <= i < |c| && c[i].node == n
  }

  /** No node appears twice in `c`. */
  predicate NoDup(c: seq<Entry>)
  {
    forall i, j :: 0 <= i < j < |c| ==> c[i].node != c[j].node
  }

  predicate Distinct(s: seq<NodeId>)
  {
    forall i, j :: 0 <= i < j < |s| ==> s[i] != s[j]
  }

  /** `a` and `b` list the same nodes in the same order (markers may differ). */
  predicate SameNodes(a: seq<Entry>, b: seq<Entry>)
  {
    |a| == |b| && forall i :: 0 <= i < |a| ==> a[i].node == b[i].node
  }

  /** The nodes of `c`, in cache order. */
  function Nodes(c: seq<Entry>): seq<NodeId>
  {
    seq(|c|, i requires 0 <= i < |c| => c[i].node)
  }

  lemma HasPeerAppend(c: seq<Entry>, e: Entry, n: NodeId)
    ensures HasPeer(c + [e], n) <==> HasPeer(c, n) || e.node == n
  {
    if HasPeer(c, n) {
      var i :| 0 <= i < |c| && c[i].node == n;
      assert (c + [e])[i] == c[i];
    }
    if e.node == n {
      assert (c + [e])[|c|] == e;
    }
    if HasPeer(c + [e], n) {
      var i :| 0 <= i < |c| + 1 && (c + [e])[i].node == n;
      if i < |c| {
        assert c[i] == (c + [e])[i];
      }
    }
  }

  lemma NoDupAppend(c: seq<Entry>, e: Entry)
    requires NoDup(c) && !HasPeer(c, e.node)
    ensures NoDup(c + [e])
  {
    forall i, j | 0 <= i < j < |c| + 1
      ensures (c + [e])[i].node != (c + [e])[j].node
    {
      if j == |c| {
        assert (c + [e])[i] == c[i];
      }
    }
  }

  lemma HasPeerPrefix(c: seq<Entry>, r: seq<Entry>, n: NodeId)
    requires c <= r && HasPeer(c, n)
    ensures HasPeer(r, n)
  {
    var i :| 0 <= i < |c| && c[i].node == n;
    assert r[i] == c[i];
  }

  /**
   * The list's `remove(entry)` under node equality: drops the first entry whose
   * node is `n`, and leaves the list unchanged when there is none.
   */
  function RemoveNode(c: seq<Entry>, n: NodeId): (r: seq<Entry>)
    ensures |r| == if HasPeer(c, n) then |c| - 1 else |c|
    ensures forall x :: x in r ==> x in c
    ensures forall x :: x in c && x.node != n ==> x in r
    ensures forall m :: m != n ==> (HasPeer(r, m) <==> HasPeer(c, m))
    ensures NoDup(c) ==> NoDup(r) && !HasPeer(r, n)
  {
    if c == [] then []
    else
      assert c == [c[0]] + c[1..];
      HasPeerCons(c[0], c[1..]);
      if c[0].node == n then c[1..]
      else
        var rest := RemoveNode(c[1..], n);
        HasPeerCons(c[0], rest);
        [c[0]] + rest
  }

  lemma HasPeerCons(h: Entry, t: seq<Entry>)
    ensures forall m :: HasPeer([h] + t, m) <==> h.node == m || HasPeer(t, m)
  {
    forall m ensures HasPeer([h] + t, m) <==> h.node == m || HasPeer(t, m) {
      if HasPeer([h] + t, m) && h.node != m {
        var i :| 0 <= i < |t| + 1 && ([h] + t)[i].node == m;
        assert t[i - 1] == ([h] + t)[i];
      }
      if HasPeer(t, m) {
        var i :| 0 <= i < |t| && t[i].node == m;
        assert ([h] + t)[i + 1] == t[i];
      }
      if h.node == m {
        assert ([h] + t)[0] == h;
      }
    }
  }

  /**
   * Removing the entry at position `i`, when no earlier entry has its node (as in
   * a duplicate-free cache), keeps every other entry in place.
   */
  lemma {:induction false} RemoveNodeAt(c: seq<Entry>, i: nat)
    requires i < |c| && forall j :: 0 <= j < i ==> c[j].node != c[i].node
    ensures RemoveNode(c, c[i].node) == c[..i] + c[i + 1..]
  {
    if i > 0 {
      var t := c[1..];
      assert t[i - 1] == c[i];
      assert forall j :: 0 <= j < i - 1 ==> t[j] == c[j + 1];
      RemoveNodeAt(t, i - 1);
      SpliceTail(c, i);
    }
  }

  /** Cutting position `i` out of `c` is keeping the head and cutting position `i - 1` out of the tail. */
  lemma SpliceTail(c: seq<Entry>, i: nat)
    requires 0 < i < |c|
    ensures c[..i] + c[i + 1..] == [c[0]] + (c[1..][..i - 1] + c[1..][i..])
  {
    assert c[..i] == [c[0]] + c[1..][..i - 1];
    assert c[i + 1..] == c[1..][i..];
  }

  /** The boolean that `addNeighbor` returns: the node is absent and there is room. */
  predicate Admits(c: seq<Entry>, n: NodeId, size: nat)
  {
    !HasPeer(c, n) && |c| < size
  }

  /** The cache after `addNeighbor(n)`, or after the re-admission of a shuffle partner. */
  function TryAdd(c: seq<Entry>, n: NodeId, size: nat): (r: seq<Entry>)
    ensures HasPeer(r, n) <==> HasPeer(c, n) || |c| < size
    ensures forall m :: m != n ==> (HasPeer(r, m) <==> HasPeer(c, m))
    ensures NoDup(c) && |c| <= size ==> NoDup(r) && |r| <= size
    ensures c <= r && |r| <= |c| + 1 && (|r| > |c| ==> r[|c|] == Entry(n, None))
  {
    HasPeerAppendAll(c, Entry(n, None));
    if Admits(c, n, size) then
      NoDupIfAbsent(c, Entry(n, None));
      c + [Entry(n, None)]
    else c
  }

  lemma HasPeerAppendAll(c: seq<Entry>, e: Entry)
    ensures forall m :: HasPeer(c + [e], m) <==> HasPeer(c, m) || e.node == m
  {
    forall m ensures HasPeer(c + [e], m) <==> HasPeer(c, m) || e.node == m {
      HasPeerAppend(c, e, m);
    }
  }

  lemma NoDupIfAbsent(c: seq<Entry>, e: Entry)
    ensures NoDup(c) && !HasPeer(c, e.node) ==> NoDup(c + [e])
  {
    if NoDup(c) && !HasPeer(c, e.node) {
      NoDupAppend(c, e);
    }
  }

  /** A second identical `addNeighbor` is refused and changes nothing. */
  lemma AddNeighborTwice(c: seq<Entry>, n: NodeId, size: nat)
    ensures !Admits(TryAdd(c, n, size), n, size)
    ensures TryAdd(TryAdd(c, n, size), n, size) == TryAdd(c, n, size)
  {
    if Admits(c, n, size) {
      HasPeerAppend(c, Entry(n, None), n);
    }
  }

  /** Every `sentTo` marker reset to None. */
  function Cleared(c: seq<Entry>): (r: seq<Entry>)
    ensures SameNodes(c, r)
    ensures forall x :: x in r ==> x.sentTo == None
  {
    seq(|c|, i requires 0 <= i < |c| => Entry(c[i].node, None))
  }

  lemma SameNodesPeers(a: seq<Entry>, b: seq<Entry>)
    requires SameNodes(a, b)
    ensures forall n :: HasPeer(a, n) <==> HasPeer(b, n)
    ensures NoDup(a) <==> NoDup(b)
  {
    forall n | HasPeer(a, n) ensures HasPeer(b, n) {
      var i :| 0 <= i < |a| && a[i].node == n;
      assert b[i].node == n;
    }
    forall n | HasPeer(b, n) ensures HasPeer(a, n) {
      var i :| 0 <= i < |b| && b[i].node == n;
      assert a[i].node == n;
    }
  }

  /**
   * The end of a round on the requester's side (a reply or a rejection has
   * arrived): all markers cleared, then the partner `p` re-admitted if absent and
   * there is room.
   */
  function Conclude(c: seq<Entry>, p: NodeId, size: nat): (r: seq<Entry>)
    ensures forall x :: x in r ==> x.sentTo == None
    ensures HasPeer(r, p) <==> HasPeer(c, p) || |c| < size
    ensures forall m :: m != p ==> (HasPeer(r, m) <==> HasPeer(c, m))
    ensures NoDup(c) && |c| <= size ==> NoDup(r) && |r| <= size
  {
    SameNodesPeers(c, Cleared(c));
    HasPeerAppendAll(Cleared(c), Entry(p, None));
    TryAdd(Cleared(c), p, size)
  }

  /**
   * What a subset drawn by `generateSubset(length, _)` from `pool` is: as many
   * entries as the loop can take (`length`, or all of `pool` if it is shorter;
   * none for a length of zero or less), on pairwise distinct nodes of `pool`,
   * each a fresh entry with no marker.
   */
  ghost predicate Drawn(pool: seq<Entry>, subset: seq<Entry>, length: int)
  {
    |subset| == (if length <= 0 then 0 else if length < |pool| then length else |pool|) &&
    NoDup(subset) &&
    forall x :: x in subset ==> x.sentTo == None && HasPeer(pool, x.node)
  }

  /** The cache after `generateSubset` has marked each offered entry as sent to `dest`. */
  function MarkSent(c: seq<Entry>, subset: seq<Entry>, dest: NodeId): (r: seq<Entry>)
    ensures SameNodes(c, r)
    ensures forall i :: 0 <= i < |c| && !HasPeer(subset, c[i].node) ==> r[i] == c[i]
    ensures forall i :: 0 <= i < |c| && HasPeer(subset, c[i].node) ==> r[i].sentTo == Some(dest)
  {
    seq(|c|, i requires 0 <= i < |c| =>
      if HasPeer(subset, c[i].node) then c[i].(sentTo := Some(dest)) else c[i])
  }

  /**
   * The nodes of the entries marked as sent to `origin`, in cache order: the
   * candidates for eviction when `origin`'s list is merged into a full cache.
   */
  function LastSent(c: seq<Entry>, origin: NodeId): (r: seq<NodeId>)
    ensures forall n :: n in r <==> exists i :: 0 <= i < |c| && c[i].node == n && c[i].sentTo == Some(origin)
    ensures NoDup(c) ==> Distinct(r)
  {
    if c == [] then []
    else
      var front := c[..|c| - 1];
      var last := c[|c| - 1];
      var r := LastSent(front, origin) + (if last.sentTo == Some(origin) then [last.node] else []);
      assert forall i :: 0 <= i < |front| ==> front[i] == c[i];
      assert NoDup(c) ==> NoDup(front) && last.node !in LastSent(front, origin) by {
        if NoDup(c) {
          forall a, b | 0 <= a < b < |front| ensures front[a].node != front[b].node {
            assert front[a] == c[a] && front[b] == c[b];
          }
          forall i | 0 <= i < |front| ensures front[i].node != last.node {
            assert front[i] == c[i];
          }
        }
      }
      r
  }

  /** Merge's bookkeeping: a well-formed cache and eviction candidates that are distinct and present. */
  predicate MergeInv(c: seq<Entry>, pending: seq<NodeId>, size: nat)
  {
    NoDup(c) && |c| <= size && Distinct(pending) &&
    forall j :: 0 <= j < |pending| ==> HasPeer(c, pending[j])
  }

  /**
   * One received entry `e` merged into `c`, with `pending` the eviction
   * candidates still unused: a node already present is skipped; otherwise `e` is
   * appended while there is room; otherwise, if a candidate is left, the first one
   * is removed and `e` appended; otherwise `e` is dropped.
   */
  function Admit(c: seq<Entry>, pending: seq<NodeId>, e: Entry, size: nat): (seq<Entry>, seq<NodeId>)
  {
    if HasPeer(c, e.node) then (c, pending)
    else if |c| < size then (c + [e], pending)
    else if pending != [] then (RemoveNode(c, pending[0]) + [e], pending[1..])
    else (c, pending)
  }

  /** `received` merged into `c` entry by entry, in list order. */
  function Merge(c: seq<Entry>, pending: seq<NodeId>, received: seq<Entry>, size: nat): seq<Entry>
    decreases |received|
  {
    if received == [] then c
    else
      var (c1, p1) := Admit(c, pending, received[0], size);
      Merge(c1, p1, received[1..], size)
  }

  /** The cache after `updateCache` of a message from `origin` carrying `received`. */
  function Merged(c: seq<Entry>, origin: NodeId, received: seq<Entry>, size: nat): seq<Entry>
  {
    Merge(c, LastSent(c, origin), received, size)
  }

  /** What one merge step guarantees. */
  lemma AdmitFacts(c: seq<Entry>, pending: seq<NodeId>, e: Entry, size: nat)
    requires MergeInv(c, pending, size)
    ensures var (c1, p1) := Admit(c, pending, e, size);
      MergeInv(c1, p1, size) &&
      |c1| >= |c| &&
      (forall n :: HasPeer(c, n) && !HasPeer(c1, n) ==> |c1| == size) &&
      (HasPeer(c1, e.node) || |c1| == size)
  {
    var (c1, p1) := Admit(c, pending, e, size);
    HasPeerAppendAll(c, e);
    if HasPeer(c, e.node) {
    } else if |c| < size {
      NoDupAppend(c, e);
    } else if pending != [] {
      var rest := RemoveNode(c, pending[0]);
      HasPeerAppendAll(rest, e);
      assert !HasPeer(rest, e.node);
      NoDupAppend(rest, e);
      forall j | 0 <= j < |p1| ensures HasPeer(c1, p1[j]) {
        assert p1[j] == pending[j + 1] && pending[j + 1] != pending[0];
      }
    }
  }

  /**
   * Merging keeps the cache within `size` and duplicate-free, never shrinks it,
   * and loses a node (already present, or received) only when it ends full.
   */
  lemma {:induction false} MergeValid(c: seq<Entry>, pending: seq<NodeId>, received: seq<Entry>, size: nat)
    requires MergeInv(c, pending, size)
    ensures var r := Merge(c, pending, received, size);
      NoDup(r) && |c| <= |r| <= size &&
      (forall n :: HasPeer(c, n) && !HasPeer(r, n) ==> |r| == size) &&
      (forall x :: x in received && !HasPeer(r, x.node) ==> |r| == size)
    decreases |received|
  {
    if received != [] {
      var e := received[0];
      var (c1, p1) := Admit(c, pending, e, size);
      AdmitFacts(c, pending, e, size);
      MergeValid(c1, p1, received[1..], size);
      assert forall x :: x in received ==> x == e || x in received[1..];
    }
  }

  /** Every entry of a merge result was in the cache or in the received list. */
  lemma {:induction false} MergeFrom(c: seq<Entry>, pending: seq<NodeId>, received: seq<Entry>, size: nat)
    ensures forall x :: x in Merge(c, pending, received, size) ==> x in c || x in received
    decreases |received|
  {
    if received != [] {
      var (c1, p1) := Admit(c, pending, received[0], size);
      MergeFrom(c1, p1, received[1..], size);
    }
  }

  /** Only eviction candidates are ever removed. */
  lemma {:induction false} MergeKeeps(c: seq<Entry>, pending: seq<NodeId>, received: seq<Entry>, size: nat)
    ensures forall x :: x in c && x.node !in pending ==> x in Merge(c, pending, received, size)
    decreases |received|
  {
    if received != [] {
      var (c1, p1) := Admit(c, pending, received[0], size);
      assert forall m :: m in p1 ==> m in pending;
      MergeKeeps(c1, p1, received[1..], size);
    }
  }

  /**
   * With room for every received entry nothing is evicted: the old cache is a
   * prefix of the result, and every received node ends in the cache.
   */
  lemma {:induction false} MergeWithRoom(c: seq<Entry>, pending: seq<NodeId>, received: seq<Entry>, size: nat)
    requires |c| + |received| <= size
    ensures c <= Merge(c, pending, received, size)
    ensures forall x :: x in received ==> HasPeer(Merge(c, pending, received, size), x.node)
    decreases |received|
  {
    if received != [] {
      var e := received[0];
      var (c1, p1) := Admit(c, pending, e, size);
      var r := Merge(c, pending, received, size);
      MergeWithRoom(c1, p1, received[1..], size);
      assert c <= c1;
      HasPeerAppend(c, e, e.node);
      assert HasPeer(c1, e.node);
      HasPeerPrefix(c1, r, e.node);
      assert forall x :: x in received ==> x == e || x in received[1..];
    }
  }

  /**
   * The guarantees of `updateCache`: size bound and no duplicates kept; every
   * entry comes from the cache or the message; only entries marked as sent to
   * the origin are evicted; a node is lost only when the cache ends full; and with
   * room for the whole list, the list is appended without eviction.
   */
  lemma MergedFacts(c: seq<Entry>, origin: NodeId, received: seq<Entry>, size: nat)
    requires NoDup(c) && |c| <= size
    ensures var r := Merged(c, origin, received, size);
      NoDup(r) && |c| <= |r| <= size &&
      (forall x :: x in r ==> x in c || x in received) &&
      (forall x :: x in c && x.sentTo != Some(origin) ==> x in r) &&
      (forall n :: HasPeer(c, n) && !HasPeer(r, n) ==> |r| == size) &&
      (forall x :: x in received && !HasPeer(r, x.node) ==> |r| == size) &&
      (|c| + |received| <= size ==> c <= r && forall x :: x in received ==> HasPeer(r, x.node))
  {
    var pending := LastSent(c, origin);
    forall j | 0 <= j < |pending| ensures HasPeer(c, pending[j]) {
      assert pending[j] in pending;
    }
    MergeValid(c, pending, received, size);
    MergeFrom(c, pending, received, size);
    MergeKeeps(c, pending, received, size);
    forall x | x in c && x.sentTo != Some(origin) ensures x.node !in pending {
      var k :| 0 <= k < |c| && c[k] == x;
      forall i | 0 <= i < |c| && c[i].node == x.node ensures c[i].sentTo != Some(origin) {
        assert i == k;
      }
    }
    if |c| + |received| <= size {
      MergeWithRoom(c, pending, received, size);
    }
  }

  /**
   * The first eviction candidate is the node of the first entry, in cache order,
   * marked as sent to `origin`.
   */
  lemma {:induction false} LastSentFirst(c: seq<Entry>, origin: NodeId)
    requires LastSent(c, origin) != []
    ensures exists k :: (0 <= k < |c| && c[k].node == LastSent(c, origin)[0] && c[k].sentTo == Some(origin) &&
      forall j :: 0 <= j < k ==> c[j].sentTo != Some(origin))
  {
    var front := c[..|c| - 1];
    var last := c[|c| - 1];
    assert forall i :: 0 <= i < |front| ==> front[i] == c[i];
    if LastSent(front, origin) != [] {
      LastSentFirst(front, origin);
      var k :| 0 <= k < |front| && front[k].node == LastSent(front, origin)[0] && front[k].sentTo == Some(origin) &&
        forall j :: 0 <= j < k ==> front[j].sentTo != Some(origin);
      assert LastSent(c, origin)[0] == LastSent(front, origin)[0];
    } else {
      forall j | 0 <= j < |front| ensures front[j].sentTo != Some(origin) {
        assert front[j].node !in LastSent(front, origin);
      }
      assert LastSent(c, origin) == [last.node];
    }
  }

  /**
   * The eviction rule of `updateCache`: a new node reaching a full cache takes
   * the place of the first entry, in cache order, marked as sent to the origin,
   * and the remaining candidates stay in order; with no candidate it is dropped.
   */
  lemma MergedEviction(c: seq<Entry>, origin: NodeId, e: Entry, rest: seq<Entry>, size: nat)
    requires NoDup(c) && |c| == size && !HasPeer(c, e.node)
    ensures var p := LastSent(c, origin);
      p != [] ==> exists k :: (0 <= k < |c| && c[k].node == p[0] && c[k].sentTo == Some(origin) &&
        (forall j :: 0 <= j < k ==> c[j].sentTo != Some(origin)) &&
        Merged(c, origin, [e] + rest, size) == Merge(c[..k] + c[k + 1..] + [e], p[1..], rest, size))
    ensures LastSent(c, origin) == [] ==> Merged(c, origin, [e] + rest, size) == Merged(c, origin, rest, size)
  {
    var p := LastSent(c, origin);
    assert ([e] + rest)[0] == e && ([e] + rest)[1..] == rest;
    if p != [] {
      LastSentFirst(c, origin);
      var k :| 0 <= k < |c| && c[k].node == p[0] && c[k].sentTo == Some(origin) &&
        forall j :: 0 <= j < k ==> c[j].sentTo != Some(origin);
      RemoveNodeAt(c, k);
    }
  }

  /** A full cache whose first entry was offered to node 9 admits a new node offered by 9 in its place. */
  lemma EvictionExample()
    ensures Merged([Entry(1, Some(9)), Entry(2, None)], 9, [Entry(3, None)], 2)
         == [Entry(2, None), Entry(3, None)]
  {
    var c := [Entry(1, Some(9)), Entry(2, None)];
    assert LastSent(c, 9) == [1] by {
      assert c[..1] == [Entry(1, Some(9))];
      assert c[..1][..0] == [];
    }
    assert !HasPeer(c, 3);
    assert RemoveNode(c, 1) == [Entry(2, None)];
  }
}
