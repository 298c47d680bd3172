# Basic shuffle peer sampling, modelled in Dafny

This project models the per-node protocol `BasicShuffle` of a PeerSim
simulation of gossip-based peer sampling: the basic shuffle of Stavrou et al.
Each node holds a bounded cache of neighbour entries. An entry pairs a
neighbour with the node it was last offered to (`sentTo`). Each node also holds
a `waitForReply` flag, a cache size `size` and a shuffle length `l`.

Once per cycle the node runs its active step (`nextCycle`). If it is idle and
knows someone, it picks a random neighbour Q. It removes Q when the cache is
full, sends Q a shuffle request offering up to `l - 1` of its entries, and
starts waiting. Messages are handled by `processEvent`:

- A request that arrives while the node is waiting is rejected.
- Otherwise a request is answered with up to `l` entries, and the requester's
  list is merged in.
- A reply is merged in. After a reply or a rejection, every `sentTo` marker is
  cleared, the partner is re-admitted if it is absent and there is room, and the
  node stops waiting.

The merge (`updateCache`) works as follows:

- It skips nodes that are already present.
- It fills free slots.
- When the cache is full, it evicts entries marked as sent to the message's
  origin, in cache order.
- It drops whatever is left.

Files:

- `entry.dfy` (module `Entries`): node identities, `Option`, the cache `Entry`.
- `message.dfy` (module `Messages`): the gossip message and one call of the
  transport's `send`.
- `view.dfy` (module `View`): the cache as a value. It holds the list
  operations the protocol uses (membership by node, removal by node, adding a
  neighbour, clearing and setting markers, the merge) and lemmas about them.
- `basic_shuffle.dfy` (module `Shuffle`): the class `BasicShuffle`. Its fields
  are `cache`, `size`, `l`, `waitForReply` and `outbox`, and its methods are the
  source's methods. Each method is proved against the functions of `View`.
  `Valid()` (cache within `size`, no node twice) is kept by every method.
- `scenarios.dfy` (module `Scenarios`): two complete rounds among three nodes,
  proved down to the final caches.

Modelling choices:

- A node is a `nat` identity compared by equality.
- `CommonState.r.nextInt(n)` may return any index below `n`. Contracts hold for
  every choice, and nothing is said about distributions.
- `Transport.send` appends `Send(message, dest)` to the field `outbox`.
- The source compares entries by node (`contains` at BasicShuffle.java:254-256
  relies on this). So `cache.remove(entry)` becomes `RemoveNode`, which drops the
  first entry with that node. `lastSentNodes` keeps the nodes of the marked
  entries.
- In `generateSubset`, `copyOfCache` shares its entry objects with the cache.
  It is modelled as a sequence of cache positions. Marking a drawn entry updates
  the cache at that position.

## Behaviour that differs from the protocol's usual description

The model follows the code in the following respects.

- **The destination is not excluded from the subset.**
  `copyOfCache.remove(dest)` (BasicShuffle.java:190) passes a `Node` to
  `List<Entry>.remove(Object)`. That call compares the argument with each
  element using the argument's own `equals`, so a `Node` is compared with
  `Entry` objects. Assuming `Node` equality is identity, nothing is removed. So
  Q, if still in the cache, may be offered to Q itself, and P may be offered
  back to P. `Scenarios.RoundTrip` shows this: A's request to B offers `[B]`.
  The `Node` and `Entry` classes are not part of this model; this is the one
  assumption about them.
- **A request does not add its sender** (BasicShuffle.java:146-153). With the
  previous point, a node can end up holding itself.
  `Scenarios.RoundTrip` ends with B's view `[C, B]`, not `[C, A]`. So "a node
  never appears in its own view" is not claimed anywhere.
- **The responder does not clear its markers** after answering a request. The
  entries it has just offered to P stay marked `sentTo = P`, and they become
  eviction candidates when P's list is merged (`Shuffle.RequestStepFacts`). The
  candidates are all entries marked `sentTo = P`, in cache order. That includes
  marks left by an earlier answer to P, since markers are cleared only at the end
  of the node's own round (BasicShuffle.java:157-158 and 167-168).
- **The originator does not add itself to the subset.** Steps 5-6 are commented
  out (BasicShuffle.java:101-105). It offers its own identity only if its cache
  holds it, which the previous two points make possible.

## Model

| member | source | states |
|---|---|---|
| `Shuffle.BasicShuffle.constructor` | assignment3/assignment3/src/main/java/no/uio/inf5040/gossip/BasicShuffle.java:67-74 | a new protocol instance has an empty cache, is not waiting, keeps the given `size` and `l`, and satisfies the cache invariant |
| `Shuffle.BasicShuffle.Degree` | assignment3/assignment3/src/main/java/no/uio/inf5040/gossip/BasicShuffle.java:234-236 | the number of neighbours never exceeds `size` in a valid cache |
| `Shuffle.BasicShuffle.GetNeighbor` | assignment3/assignment3/src/main/java/no/uio/inf5040/gossip/BasicShuffle.java:238-240 | the `i`-th neighbour (for `i` below the degree) appears at no other position of a valid cache |
| `Shuffle.BasicShuffle.Contains` | assignment3/assignment3/src/main/java/no/uio/inf5040/gossip/BasicShuffle.java:254-256 | `contains(n)` holds exactly when `getNeighbor(i) == n` for some `i` below the degree |
| `Shuffle.BasicShuffle.AddNeighbor` | assignment3/assignment3/src/main/java/no/uio/inf5040/gossip/BasicShuffle.java:242-252 | returns false and changes nothing if the node is present or the cache is full; otherwise appends exactly one unmarked entry for it and returns true; the invariant is kept |
| `View.TryAdd` | assignment3/assignment3/src/main/java/no/uio/inf5040/gossip/BasicShuffle.java:242-252 | after adding `n`, `n` is present exactly when it was before or there was room; the old cache is kept as a prefix, and at most one entry is added, last and unmarked, for `n`; every other node's membership is unchanged; size bound and uniqueness are kept |
| `View.AddNeighborTwice` | assignment3/assignment3/src/main/java/no/uio/inf5040/gossip/BasicShuffle.java:242-252 | a second identical `addNeighbor` returns false and leaves the cache as the first call left it |
| `View.RemoveNode` | assignment3/assignment3/src/main/java/no/uio/inf5040/gossip/BasicShuffle.java:97-100 | removal by node shortens the list by one exactly when the node is present, keeps every entry with another node and adds none; afterwards a duplicate-free list no longer holds the node |
| `View.RemoveNodeAt` | assignment3/assignment3/src/main/java/no/uio/inf5040/gossip/BasicShuffle.java:96-100 | removing the picked neighbour, when no earlier entry has its node (as in a duplicate-free cache), removes exactly its position, leaving all other entries in order |
| `Shuffle.BasicShuffle.GenerateSubset` | assignment3/assignment3/src/main/java/no/uio/inf5040/gossip/BasicShuffle.java:187-197 | returns `length` entries, or the whole cache if that is shorter, or none for a length of zero or less; the nodes are pairwise distinct and come from the cache; each returned entry is unmarked; the cache keeps its nodes and order, and exactly the drawn entries become marked `sentTo = dest` |
| `Shuffle.DrawnPositions` | assignment3/assignment3/src/main/java/no/uio/inf5040/gossip/BasicShuffle.java:189-195 | copies taken from distinct cache positions have distinct nodes of the cache, and marking those positions gives `MarkSent` of the copies |
| `View.MarkSent` | assignment3/assignment3/src/main/java/no/uio/inf5040/gossip/BasicShuffle.java:191-195 | marking keeps every node in its place, marks `dest` on the offered nodes' entries and leaves every other entry untouched |
| `Shuffle.BasicShuffle.NextCycle` | assignment3/assignment3/src/main/java/no/uio/inf5040/gossip/BasicShuffle.java:86-114 | changes nothing while waiting or with an empty cache; otherwise picks a neighbour Q, removes it only if the cache was full, sends exactly one request from this node to Q carrying the drawn subset, marks the offered entries, and ends waiting |
| `Shuffle.ActiveStepCache` | assignment3/assignment3/src/main/java/no/uio/inf5040/gossip/BasicShuffle.java:95-100 | after an active step Q is gone and the cache is one shorter exactly when it was full, with all other nodes in their order; otherwise the nodes are unchanged; the invariant holds |
| `Shuffle.ActiveStepOffer` | assignment3/assignment3/src/main/java/no/uio/inf5040/gossip/BasicShuffle.java:101-110 | the request carries at most `l - 1` entries (none when `l <= 1`) and no more than the cache held; they are distinct and unmarked, all for nodes of the cache |
| `View.LastSent` | assignment3/assignment3/src/main/java/no/uio/inf5040/gossip/BasicShuffle.java:207-215 | the eviction candidates are exactly the nodes whose entries are marked as sent to the origin, without repetition in a duplicate-free cache |
| `View.AdmitFacts` | assignment3/assignment3/src/main/java/no/uio/inf5040/gossip/BasicShuffle.java:217-229 | one merge step keeps the invariant and never shrinks the cache; it loses a node only when the cache ends full; the received node ends present unless the cache is full |
| `View.MergeValid` | assignment3/assignment3/src/main/java/no/uio/inf5040/gossip/BasicShuffle.java:217-229 | merging keeps the cache within `size` and duplicate-free and never shrinks it; a node already present or received is missing afterwards only if the cache ends full |
| `View.MergeFrom` | assignment3/assignment3/src/main/java/no/uio/inf5040/gossip/BasicShuffle.java:217-229 | every entry after merging was in the cache or in the received list |
| `View.MergeKeeps` | assignment3/assignment3/src/main/java/no/uio/inf5040/gossip/BasicShuffle.java:222-227 | merging removes no entry other than eviction candidates |
| `View.MergeWithRoom` | assignment3/assignment3/src/main/java/no/uio/inf5040/gossip/BasicShuffle.java:219-221 | with room for the whole received list nothing is evicted: the old cache is a prefix of the result and every received node is present |
| `View.MergedFacts` | assignment3/assignment3/src/main/java/no/uio/inf5040/gossip/BasicShuffle.java:198-230 | `updateCache` keeps the size bound and uniqueness, only brings in received entries, evicts only entries marked as sent to the origin, drops only when the cache ends full, and appends the whole list when there is room |
| `View.LastSentFirst` | assignment3/assignment3/src/main/java/no/uio/inf5040/gossip/BasicShuffle.java:207-215 | the first eviction candidate is the node of the first entry in cache order that is marked as sent to the origin |
| `View.MergedEviction` | assignment3/assignment3/src/main/java/no/uio/inf5040/gossip/BasicShuffle.java:219-226 | a new node reaching a full cache, with a candidate left, replaces the first entry in cache order marked as sent to the origin; the rest of the list is merged with the remaining candidates, in order; with no candidate left, the node is dropped and the rest is merged as if it had not been offered |
| `View.EvictionExample` | assignment3/assignment3/src/main/java/no/uio/inf5040/gossip/BasicShuffle.java:222-226 | with a full cache whose first entry was offered to the origin, a new node from that origin replaces that entry, and the size stays the same |
| `Shuffle.BasicShuffle.UpdateCache` | assignment3/assignment3/src/main/java/no/uio/inf5040/gossip/BasicShuffle.java:205-230 | the two loops compute exactly `Merged`: candidates collected in cache order, the list merged entry by entry; the invariant is kept |
| `Shuffle.BasicShuffle.ClearMarks` | assignment3/assignment3/src/main/java/no/uio/inf5040/gossip/BasicShuffle.java:157-159 | the loop resets every marker and keeps the nodes in order |
| `View.Cleared` | assignment3/assignment3/src/main/java/no/uio/inf5040/gossip/BasicShuffle.java:167-169 | clearing keeps the nodes in order and leaves no entry marked |
| `View.Conclude` | assignment3/assignment3/src/main/java/no/uio/inf5040/gossip/BasicShuffle.java:157-174 | at the end of a round no entry is marked; the partner is present exactly when it already was or there was room; no other node's membership changes; the size bound and uniqueness hold |
| `Shuffle.BasicShuffle.ProcessEvent` | assignment3/assignment3/src/main/java/no/uio/inf5040/gossip/BasicShuffle.java:124-180 | a request while waiting yields exactly one rejection to its sender and nothing else; a request otherwise yields one reply from this node with a drawn subset of at most `l` entries, merges the offered list into the marked cache, and leaves the node not waiting; a reply merges, then concludes the round; a rejection concludes it; after either the node is not waiting |
| `Shuffle.RequestStepFacts` | assignment3/assignment3/src/main/java/no/uio/inf5040/gossip/BasicShuffle.java:142-153 | answering a request keeps the invariant; the sender is present afterwards only if it was before or was offered; only entries just offered to it, or still marked for it, can be evicted |
| `Scenarios.RoundTrip` | assignment3/assignment3/src/main/java/no/uio/inf5040/gossip/BasicShuffle.java:86-165 | A, knowing B, shuffles with B, which knows C: A offers `[B]`, B answers `[C]`; A ends with `[B, C]` and not waiting, B with `[C, B]`, and C is unchanged |
| `Scenarios.Rejection` | assignment3/assignment3/src/main/java/no/uio/inf5040/gossip/BasicShuffle.java:133-175 | a request reaching a waiting B yields its rejection to A; A ends with its unmarked entry for B and not waiting; B keeps its marked cache and keeps waiting |

## Left out

- Reading `cacheSize`, `shuffleLength` and the transport id from PeerSim's
  `Configuration` (BasicShuffle.java:69-71): the constructor takes `size` and `l`
  as arguments. `new ArrayList<Entry>(size)` rejects a negative size, so `size`
  is a `nat`.
- The transport lookup `node.getProtocol(tid)` and delivery by `Transport.send`:
  sending is appending to `outbox`. The protocol id arguments are dropped.
- The random source `CommonState.r`: every index a draw may return is allowed,
  with no claim about distributions.
- `clone` (BasicShuffle.java:258-269), and the empty `onKill` and `pack`.
- The cast of the shuffle list to `ArrayList` (BasicShuffle.java:206). The
  `GossipMessage` class is not part of this model, and the list is taken as a
  sequence.
- The `null` list of a rejection (BasicShuffle.java:136) is never read. It is
  modelled as the empty list.
- The `default` branch of `processEvent`. The `MessageType` enum is not part of
  this model. The model assumes its only values are the three types handled at
  BasicShuffle.java:133-175, which makes that branch unreachable.
- The Java `int` arithmetic of `l - 1` is unbounded here. It would only
  differ for `l` equal to the smallest `int`.
- `Shuffle.BasicShuffle.ProcessEvent` and `Shuffle.BasicShuffle.NextCycle`
  do not say which entries are drawn. They say only what any draw satisfies.
- The replicated bank account (`Client`, `MessageListener`, `BankAccount`).
  It is glue over a group communication library, an interactive menu, and
  floating-point balance arithmetic.
