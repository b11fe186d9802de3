# A Chord-style ring DHT, modelled in Dafny

This project models the node classes of a small peer-to-peer distributed hash
table simulation. Every node carries an integer id on a circle of 100
positions. It has a left neighbour and a right neighbour and a FIFO mailbox.
Nodes join by asking a bootstrap node, which walks right until it finds the
gap the new id belongs in. Nodes leave by relinking their two neighbours
past themselves. Storage nodes keep key/value pairs at the node responsible
for the key's hash, and copy them to neighbours. Advanced nodes add long
links, fingers and a routing cache to find shorter paths.

The repository holds four families of these classes. The model follows each
one:

| source | Dafny module | file |
|---|---|---|
| `dht_ring.py`, `version1/dht_ring.py`, `Node.py` | `DhtRing` | `dht_ring.dfy` |
| `dht_storage.py` | `DhtStorage` | `dht_storage.dfy` |
| `version1/dht_advanced_routing.py` | `AdvancedRouting` | `advanced_routing.dfy` |
| `StorageNode.py` | `NodeStorage` | `storage_node.dfy` |
| `AdvancedNode.py` | `NodeRouting` | `advanced_node.dfy` |
| `version1/AdvancedNode.py` | `ShortcutRouting` | `advanced_node_v1.dfy` |
| `dht-simulation.py` (`Node`) | `SimRing` | `sim_ring.dfy` |
| `dht-simulation.py` (`StorageNode`) | `SimStorage` | `sim_storage.dfy` |
| `dht-simulation.py` (`AdvancedNode`) | `SimRouting` | `sim_routing.dfy` |
| `DHT.py`, `DHTNode.py` | `FullMesh` | `full_mesh.dfy` |
| the `super().run()` hand-down in `AdvancedNode.py`, `version1/AdvancedNode.py`, `dht-simulation.py` | `Redispatch` | `redispatch.dfy` |

Two modules are shared:
- `Ids` holds the circle arithmetic: clockwise distance and circular distance.
- `Topology` holds the neighbour fields of all node objects as one map from
  object handle to `Link(id, left, right)`. It also holds the join walk, the
  splice and unsplice of a join and a leave, and the lemmas that a ring stays
  a ring and stays sorted.

`wrappers.dfy` holds `Option` and the `Inhabited` step shared by the loops over dictionary keys.

How the model is built:
- **Node objects as handles.** Each Python class layer becomes a Dafny class.
  It holds, for every node object of that layer, the fields the layer
  declares, as maps keyed by a handle (the object's identity).
- **Subclasses by composition.** A subclass holds its base layer as a `const`
  field. For example, `DhtStorage.Storage.ring` is a `DhtRing.Ring`.
- **Mailboxes.** A mailbox is a sequence of messages. `send_message` appends
  to it, and the `yield self.messages.get()` of `run` takes its head.
- **One branch per method.** Each branch of a `run` loop is one method.
- **Ghost cycle witness.** Walks that the source could repeat forever take a
  ghost `order` sequence. It witnesses that the walking node lies on its own
  right-neighbour cycle. The source itself has no such guard: the join walk
  (`dht_ring.py`:82-98) and `find_responsible_node` (`dht_storage.py`:152-176)
  stop only on a gap test or on coming back to the walking node. A node that
  is not on its own right-neighbour cycle, as can happen while joins and
  leaves are still settling, is never come back to. Its walk then ends only if
  some pair of the cycle it runs into passes a gap test, and otherwise never
  ends. The model's walks require the witness, so they leave that input out.
- **Hashes as parameters.** SHA-1 is a parameter function: `digest` on keys,
  `slot` in `FullMesh`.

`version1/dht_ring.py` is the same protocol as `dht_ring.py`, with the same
branches. `DhtRing` models both, and the rows below cite both. `Node.py` is the
same protocol again. Its node always starts alone (`bootstrap` is `None`) and
joins later.

## Model

| member | source | states |
|---|---|---|
| Ids.Clockwise | version1/dht_advanced_routing.py:399-403 | the clockwise step count lies in [0, 100) and is congruent to the difference mod 100 |
| Ids.CircularDistance | AdvancedNode.py:34-38 | the shorter way round is at most 50, is 0 exactly for congruent ids, and is no longer than either clockwise distance |
| Ids.ClockwiseBothWays | version1/dht_advanced_routing.py:399-403 | the two clockwise distances of a pair add up to a full turn (or are both 0) |
| Ids.CircularDistanceSymmetric | AdvancedNode.py:34-38 | the circular distance does not depend on the order of its arguments |
| Topology.ClosedUpdate | dht_ring.py:106-112 | overwriting a node's neighbours with registered nodes keeps every reference pointing at a registered node |
| Topology.FirstGapFrom | dht_ring.py:82-98 | the first pair from `k` on whose gap holds the new id; no earlier pair's gap holds it |
| Topology.JoinGapIndex | dht_ring.py:82-98 | where the join walk stops: the first gap holding the id, or back at the start when none does |
| Topology.FindJoinGap | dht_ring.py:82-98 | the join walk returns the pair at `JoinGapIndex` of the cycle, and either its gap holds the id or the walk came back to the start |
| Topology.EndsNotInGap | dht_ring.py:84-90 | an end of a pair never lies strictly inside that pair's gap |
| Topology.GapIndexAt | dht_ring.py:84-90 | the first pair whose gap holds the id is where the walk stops |
| Topology.NoGapIndex | dht_ring.py:92-98 | when no gap holds the id, the walk stops where it started |
| Topology.Splice | dht_ring.py:35-41 | a join's relinking keeps the registered nodes and their ids |
| Topology.Unsplice | dht_ring.py:45-53 | a leave's relinking keeps the registered nodes and their ids |
| Topology.SpliceSteps | dht_ring.py:35-41 | the joiner adopting `(l, r)`, then `l` and `r` applying their updates, is exactly `Splice` |
| Topology.SpliceOverwritesEnd | dht_ring.py:72-79 | when both neighbours are one node, what the lone branch wrote there is overwritten by the updates |
| Topology.UnspliceSteps | dht_ring.py:45-53 | the two updates of a leave, applied in turn, are exactly `Unsplice` |
| Topology.InsertKeepsRing | dht_ring.py:101-112 | splicing an unlinked node after position `k` of a ring gives a ring with the node inserted there |
| Topology.RemoveKeepsRing | dht_ring.py:45-53 | unsplicing a node from a ring of two or more gives the ring without it |
| Topology.AddOutside | dht_ring.py:5-14 | registering a new node object outside a ring leaves it a ring, sorted if it was |
| Topology.InsertKeepsOrdered | dht_ring.py:82-98 | a node with a new id spliced into the gap holding its id keeps a sorted ring sorted |
| Topology.RemoveKeepsOrdered | dht_ring.py:45-53 | unlinking a node from a sorted ring of two or more keeps it sorted |
| Topology.FreshIdFindsGap | dht_ring.py:82-98 | on a ring of two or more distinct ids, an id not taken lies in some pair's gap, so the walk's fallback is never used |
| Topology.JoinSplices | dht_ring.py:65-112 | the join walk's answer, applied by the joiner and both neighbours, splices the joiner in at `JoinGapIndex` (the lone case included) and gives a ring, sorted when the id is new |
| Topology.JoinKeepsSortedRing | dht_ring.py:82-112 | a join with a new id into a sorted ring gives a sorted ring with the joiner inserted at the walk's stop |
| Topology.LeaveKeepsSortedRing | dht_ring.py:45-53 | a leave from a ring of two or more gives a ring, sorted if it was sorted |
| Topology.WalkOnCycle | dht_ring.py:155-169 | `t` hops right from the first node of a cycle land on its `t`-th node, and a full lap returns |
| Topology.WalkStep | dht_ring.py:162-165 | one more hop is one more right neighbour at the end of the walk |
| DhtRing.MailPost | dht_ring.py:19-26 | queueing a message that names registered nodes keeps every mailbox naming registered nodes only |
| DhtRing.FirstReturn | dht_ring.py:161-165 | the hop count at which the integrity walk first meets the start id again, capped at the live count |
| DhtRing.Ring.constructor | dht_ring.py:123-124 | an empty network with no mail |
| DhtRing.Ring.NewNode | dht_ring.py:5-14 | a new node object is its own left and right neighbour, with an empty mailbox; given a bootstrap, a `JOIN_REQUEST` is queued to it |
| DhtRing.Ring.Join | dht_ring.py:28-34 | `join` queues exactly one `JOIN_REQUEST` to the bootstrap node |
| DhtRing.Ring.AwaitJoinReply | dht_ring.py:35-43 | the first message to arrive is consumed; a `JOIN_REPLY` sets both neighbours and queues `UPDATE_RIGHT` to the left one and `UPDATE_LEFT` to the right one |
| DhtRing.Ring.Leave | dht_ring.py:45-53 | `leave` queues `UPDATE_RIGHT` past itself to the left neighbour, then `UPDATE_LEFT` to the right one, and changes no link |
| DhtRing.Ring.Receive | dht_ring.py:55-62 | the oldest message is taken out of the mailbox and nothing else changes |
| DhtRing.Ring.Send | version1/dht_ring.py:36-50 | `send_message` appends to the end of the target's mailbox only |
| DhtRing.Ring.SendAll | dht_ring.py:19-26 | several sends to one node append the messages in order |
| DhtRing.Ring.Multicast | dht_ring.py:19-26 | one send of the same message to each target, in order |
| DhtRing.Ring.OnJoinRequest | dht_ring.py:65-104 | a lone node links both neighbours to the requester and replies `(self, self)`; otherwise the reply names the pair at `JoinGapIndex` of its cycle and no link changes |
| DhtRing.Ring.OnUpdateLeft | dht_ring.py:106-108 | `UPDATE_LEFT` overwrites the left neighbour and nothing else |
| DhtRing.Ring.OnUpdateRight | dht_ring.py:110-112 | `UPDATE_RIGHT` overwrites the right neighbour and nothing else |
| DhtRing.Ring.Handle | dht_ring.py:55-112 | one turn of `run`: each kind does what its branch does; any other kind changes nothing |
| DhtRing.Ring.JoinRound | dht_ring.py:28-112 | a whole join on a quiet ring splices the joiner in at the walk's stop, leaves a ring with no mail, and keeps a sorted ring sorted when the id is new |
| DhtRing.Ring.SettleJoin | dht_ring.py:35-43 | the joiner applies its reply and both neighbours apply their updates, which is `Splice` |
| DhtRing.Ring.TakeUpdateRight | dht_ring.py:110-112 | taking an `UPDATE_RIGHT` from the head of the mailbox sets that right neighbour |
| DhtRing.Ring.TakeUpdateLeft | dht_ring.py:106-108 | taking an `UPDATE_LEFT` from the head of the mailbox sets that left neighbour |
| DhtRing.Ring.SettleLeave | dht_ring.py:45-53 | the leaving node's neighbours apply its two updates, which is `Unsplice` |
| DhtRing.Ring.LeaveRound | dht_ring.py:45-53 | a whole leave from a quiet ring of two or more gives the ring without the node, sorted if it was, with no mail |
| DhtRing.Ring.CheckRing | dht_ring.py:155-169 | the integrity walk counts `FirstReturn` nodes, and reports the ring intact exactly when that equals the live count |
| DhtRing.IntactRingPasses | version1/dht_ring.py:173-185 | on a ring of distinct ids holding all live nodes, the integrity check passes |
| DhtRing.ShortRingFlagged | version1/dht_ring.py:173-185 | on a ring that misses a live node, the check counts only the ring and so flags it |
| DhtStorage.KeyHash | dht_storage.py:144-150 | the key hash lies in [0, 100) |
| DhtStorage.Lookup | dht_storage.py:108-116 | the stored value of the key, or nothing exactly when it is absent |
| DhtStorage.FirstStopFrom | dht_storage.py:152-177 | the first pair from `i` on where `find_responsible_node` stops |
| DhtStorage.ResponsibleOnCycle | dht_storage.py:152-177 | the node `find_responsible_node` answers is a node of the ring |
| DhtStorage.FindResponsible | dht_storage.py:152-177 | the walk returns `ResponsibleOnCycle`, and a lone node is responsible for everything |
| DhtStorage.SortedRingFindsSuccessor | dht_storage.py:152-177 | on a sorted ring the responsible node is the successor of the hash: the least id at or above it, or the least id when none is |
| DhtStorage.NoStopImpossible | dht_storage.py:152-177 | on a sorted ring of two or more the walk always stops inside the lap |
| DhtStorage.Moved | dht_storage.py:183-199 | the pairs handed over are primary pairs, with their values |
| DhtStorage.SplitMoved | dht_storage.py:183-199 | the transfer loop splits the primary map into what stays and `Moved`, copies the moved pairs into the replicas, and moves nothing when the new node is not on the cycle |
| DhtStorage.ListKeys | dht_storage.py:201-205 | iterating a map's keys meets each key exactly once |
| DhtStorage.MergePairs | dht_storage.py:138-142 | the `TRANSFER_DATA` loop stores every transferred pair, the later ones winning |
| DhtStorage.TransferBeforeLinkMovesNothing | dht_storage.py:35-66 | the transfer at a join runs before the joiner is linked in, so it moves no pair |
| DhtStorage.MovedPartition | dht_storage.py:183-199 | what stays and what moves are disjoint, and together they are the old primary map |
| DhtStorage.Replicas | dht_storage.py:201-205 | one `REPLICATE` per listed key, carrying that key's value |
| DhtStorage.Storage.constructor | dht_storage.py:244 | an empty network of storage nodes |
| DhtStorage.Storage.NewNode | dht_storage.py:19-22 | a new ring node with both maps empty |
| DhtStorage.Storage.Responsible | dht_storage.py:152-177 | `find_responsible_node` for a key, and on a sorted ring the successor of its hash |
| DhtStorage.Storage.StoreData | dht_storage.py:179-181 | sets one primary pair and nothing else |
| DhtStorage.Storage.TransferRelevantData | dht_storage.py:183-199 | removes the moved pairs from the primary map, adds them to the replicas, and queues them to the new node |
| DhtStorage.Storage.ReplicateToNeighbor | dht_storage.py:201-205 | queues one `REPLICATE` per primary pair to the neighbour, each key once |
| DhtStorage.Storage.OnJoinRequest | dht_storage.py:35-66 | a lone node links itself to the requester and answers `(self, self)`, moving no data; otherwise the reply names the pair at the walk's stop and `Moved` pairs go from the primary map to the replicas and to the requester |
| DhtStorage.Storage.OnUpdateLeft | dht_storage.py:68-73 | sets the left neighbour, then replicates every primary pair to it |
| DhtStorage.Storage.OnUpdateRight | dht_storage.py:75-80 | sets the right neighbour, then replicates every primary pair to it |
| DhtStorage.Storage.StoreHere | dht_storage.py:88-98 | the responsible node stores the pair, replicates it to both neighbours and confirms to the sender |
| DhtStorage.Storage.OnPutRequest | dht_storage.py:83-102 | stored here exactly when this node is responsible for the key; otherwise forwarded to the right neighbour, with this node as sender |
| DhtStorage.Storage.OnGetRequest | dht_storage.py:104-120 | answered from the primary map exactly when this node is responsible; otherwise forwarded to the right neighbour, with this node as sender |
| DhtStorage.Storage.AnswerGet | dht_storage.py:108-116 | a `GET_RESPONSE` with the primary value or nothing goes to the sender |
| DhtStorage.Storage.OnReplicate | dht_storage.py:131-136 | overwrites one replicated pair and leaves the primary map alone |
| DhtStorage.Storage.OnTransferData | dht_storage.py:138-142 | every transferred pair becomes a primary pair |
| DhtStorage.Storage.Leave | dht_storage.py:207-219 | hands every primary pair to the right neighbour and queues both neighbour updates |
| NodeStorage.Keeper.constructor | StorageNode.py:6-9 | an empty network of storage nodes |
| NodeStorage.Keeper.NewNode | StorageNode.py:6-9 | a one-member ring node with both maps empty |
| NodeStorage.Keeper.GetData | StorageNode.py:19-23 | the primary value of the key, or nothing exactly when it is absent |
| NodeStorage.Keeper.StoreData | StorageNode.py:14-17 | a later `get_data` of the key finds the value, and every other key reads as before |
| NodeStorage.Keeper.OnPutRequest | StorageNode.py:40-44 | stores the pair wherever it arrives and confirms to the sender |
| NodeStorage.Keeper.OnGetRequest | StorageNode.py:46-50 | answers the sender with `get_data` of the key |
| NodeRouting.BestRoute | AdvancedNode.py:19-32 | an exact long link, otherwise the neighbour closer to the target around the circle, the right one on a tie |
| NodeRouting.AddKeepsSound | AdvancedNode.py:13-17 | adding a link to another node keeps every link under its own id and never pointing back at its owner |
| NodeRouting.Linked.constructor | AdvancedNode.py:6-8 | an empty network with no long links |
| NodeRouting.Linked.NewNode | AdvancedNode.py:6-8 | a storage node with no long links |
| NodeRouting.Linked.AddLongLink | AdvancedNode.py:13-17 | another node is stored under its own id, overwriting; the node itself is never stored |
| NodeRouting.Linked.OnRouteRequest | AdvancedNode.py:56-69 | nothing is sent exactly at the target id; elsewhere the request goes to `BestRoute` with one hop more |
| NodeRouting.Linked.OnLongLinkRequest | AdvancedNode.py:71-73 | links to the sender and confirms with the own id |
| NodeRouting.Linked.OnLongLinkConfirm | AdvancedNode.py:75-76 | links to the sender; the confirmed id is not used |
| NodeRouting.Linked.Handshake | AdvancedNode.py:71-76 | after a request and its confirmation, each of two nodes holds the other under the other's id |
| NodeRouting.RedispatchLosesBoth | AdvancedNode.py:51-53 | an `UPDATE_LEFT` followed by a `ROUTE_REQUEST` reaches no branch as written, and both are served when each message is handled by its own branch |
| Redispatch.ServedAsWritten | AdvancedNode.py:51-53 | the messages the loops serve as written; once the base loop has started it serves base kinds only |
| Redispatch.Served | AdvancedNode.py:50-76 | handled message by message, only messages with a branch are served, each at most once |
| Redispatch.ServedExactly | AdvancedNode.py:50-76 | handled message by message, a message is served exactly when it was taken and has a branch for its kind |
| Redispatch.NoBaseKindServesAll | AdvancedNode.py:51-53 | with no base kind among the messages, the loop as written serves what per-message handling serves |
| Redispatch.AsWrittenServesNoMore | AdvancedNode.py:51-53 | the loops as written never serve more messages than per-message handling |
| Redispatch.BaseKindLosesOne | AdvancedNode.py:51-53 | once a base kind is taken, the loops as written serve strictly fewer messages than per-message handling |
| Redispatch.AsWrittenMatchesIff | AdvancedNode.py:51-53 | the loops as written serve the same messages as per-message handling exactly when no base kind is taken |
| ShortcutRouting.BestRoute | version1/AdvancedNode.py:21-28 | an exact long link, otherwise the neighbour the target lies fewer steps clockwise from, the left one on a tie |
| ShortcutRouting.LastWithId | version1/AdvancedNode.py:58-63 | the last listed node carrying the id (no later listed node carries it), or nothing exactly when no listed node carries it |
| ShortcutRouting.TricheLinksExact | version1/AdvancedNode.py:55-64 | "triche" mode links exactly the ids 10, 20 and 40 ahead that some listed node carries, and keeps every other entry |
| ShortcutRouting.ScanFor | version1/AdvancedNode.py:58-63 | one scan of the node list stores the last node carrying the id, if any |
| ShortcutRouting.Shortcuts.constructor | version1/AdvancedNode.py:4-8 | an empty network with no long links |
| ShortcutRouting.Shortcuts.NewNode | version1/AdvancedNode.py:4-8 | a node with no long links in the given mode |
| ShortcutRouting.Shortcuts.RouteMessage | version1/AdvancedNode.py:13-19 | nothing is sent exactly at the target id; elsewhere `ROUTE` goes to `BestRoute` |
| ShortcutRouting.Shortcuts.Discover | version1/AdvancedNode.py:39-41 | in "piggyback" mode a sender whose id is not linked yet becomes a link; nothing changes otherwise |
| ShortcutRouting.Shortcuts.CreateLongLinks | version1/AdvancedNode.py:55-66 | in "triche" mode with a node list, the three scans; nothing otherwise |
| AdvancedRouting.FingerDistance | version1/dht_advanced_routing.py:274-279 | the distance used for fingers is the clockwise step count from the target to the id |
| AdvancedRouting.FingerTarget | version1/dht_advanced_routing.py:266-268 | a finger aims at a position in [0, 100) |
| AdvancedRouting.ClosestCandidate | version1/dht_advanced_routing.py:362-388 | an entry is found exactly when some entry beats the bound, and the one found is closest |
| AdvancedRouting.NextHopKinds | version1/dht_advanced_routing.py:352-397 | every next hop is the node itself, a long link, a neighbour, or a table entry strictly closer to the target than the node |
| AdvancedRouting.ClosestIndex | version1/dht_advanced_routing.py:271-283 | the first listed node nearest past the target: no node is nearer, and every earlier one is farther |
| AdvancedRouting.ClosestNode | version1/dht_advanced_routing.py:271-283 | the inner scan finds nothing on an empty view, else the node at `ClosestIndex` |
| AdvancedRouting.FoldEntries | version1/dht_advanced_routing.py:266-286 | after `n` targets every finger yielded so far is set and every other entry is kept |
| AdvancedRouting.FingersAfterEntries | version1/dht_advanced_routing.py:266-286 | after `n` targets of the global-view scan each finger found is stored under its index |
| AdvancedRouting.FingersWithoutView | version1/dht_advanced_routing.py:261-263 | without a node list no finger is set |
| AdvancedRouting.FingersStep | version1/dht_advanced_routing.py:266-286 | one more target sets at most that target's finger |
| AdvancedRouting.ComputeFingers | version1/dht_advanced_routing.py:257-289 | the global-view loop computes the finger table of all six targets |
| AdvancedRouting.FingerRound | version1/dht_advanced_routing.py:266-286 | one round of the scan stores the finger of its target |
| AdvancedRouting.NearestPastIsSuccessor | version1/dht_advanced_routing.py:271-283 | with ids and target in [0, 100), the node nearest past the target is its successor on the ring |
| AdvancedRouting.GlobalFingerIsSuccessor | version1/dht_advanced_routing.py:257-289 | a global-view finger is the successor of its target and never the node itself |
| AdvancedRouting.Absorb | version1/dht_advanced_routing.py:73-77 | the merge keeps every cached entry, adds every received entry not naming the node itself, and adds nothing else |
| AdvancedRouting.AbsorbIdempotent | version1/dht_advanced_routing.py:73-77 | receiving the same routing information again changes nothing |
| AdvancedRouting.MergeRoutingInfo | version1/dht_advanced_routing.py:73-77 | the loop over received entries computes `Absorb` |
| AdvancedRouting.CacheImproves | version1/dht_advanced_routing.py:328-350 | without a bound any entry of a non-empty cache is acceptable |
| AdvancedRouting.AskStep | version1/dht_advanced_routing.py:328-350 | one target of the selection keeps every asked node nearest past some target and acceptable |
| AdvancedRouting.LongLinkCandidates | version1/dht_advanced_routing.py:328-350 | at most four nodes are asked, none for an empty cache; each is an acceptable cached node nearest past a target, and every target whose nearest nodes are acceptable gets one |
| AdvancedRouting.CandidatesWithin | version1/dht_advanced_routing.py:328-350 | the nodes asked for long links are cached nodes |
| AdvancedRouting.Linked | version1/dht_advanced_routing.py:83-88 | the table holds the node under the id, overwriting, and every other entry as before |
| AdvancedRouting.FingersWithin | version1/dht_advanced_routing.py:257-289 | global-view fingers are nodes of the view or entries already there |
| AdvancedRouting.CandidateWithin | version1/dht_advanced_routing.py:362-388 | the closest entry of a table is a node the table names |
| AdvancedRouting.NextHop | version1/dht_advanced_routing.py:352-397 | `find_best_next_hop` returns a registered node meeting `IsNextHop`: itself at its own id, an exact long link, else the closest finger or cached node that beats the node itself, else the closer neighbour |
| AdvancedRouting.Alternatives | version1/dht_advanced_routing.py:114-121 | the fallback hops never include the sender and are registered nodes |
| AdvancedRouting.ChooseHop | version1/dht_advanced_routing.py:109-128 | the best hop unless it is the sender, else some alternative; nothing only when the best hop is the sender and there is no alternative |
| AdvancedRouting.Advanced.constructor | version1/dht_advanced_routing.py:423 | an empty network with no routing tables |
| AdvancedRouting.Advanced.NewNode | version1/dht_advanced_routing.py:24-43 | a new storage node with empty long links, fingers and cache |
| AdvancedRouting.Advanced.Take | version1/dht_advanced_routing.py:55-60 | a running node takes the oldest message of its mailbox |
| AdvancedRouting.Advanced.UpdateRoutingCache | version1/dht_advanced_routing.py:312-315 | another node is cached under its id |
| AdvancedRouting.Advanced.OnRoutingInfo | version1/dht_advanced_routing.py:73-77 | the cache becomes `Absorb` of the received entries and nothing else changes |
| AdvancedRouting.Advanced.OnLongLinkRequest | version1/dht_advanced_routing.py:79-81 | answers the sender with the own id only |
| AdvancedRouting.Advanced.OnLongLinkConfirm | version1/dht_advanced_routing.py:83-88 | records the sender under the confirmed id unless that id is already linked |
| AdvancedRouting.Advanced.InitFingersGlobalView | version1/dht_advanced_routing.py:257-289 | the fingers become the global-view table of the node list |
| AdvancedRouting.Advanced.ShareWith | version1/dht_advanced_routing.py:323-325 | a non-empty cache is sent to the node, an empty one is not |
| AdvancedRouting.Advanced.ShareCache | version1/dht_advanced_routing.py:323-325 | the cache goes to the left neighbour, then to the right one |
| AdvancedRouting.Advanced.AskLongLinks | version1/dht_advanced_routing.py:328-350 | a `LONG_LINK_REQUEST` goes to each selected node, at most four, chosen as `LongLinkCandidates` says |
| AdvancedRouting.Advanced.OptimizeRouting | version1/dht_advanced_routing.py:317-350 | nothing happens for an empty cache; otherwise the cache is shared and, with fewer than five long links, the selected nodes are asked |
| AdvancedRouting.Advanced.JoinLone | version1/dht_advanced_routing.py:145-156 | the lone branch of `parent_process_message`: links both neighbours to the joiner, replies `(self, self)` and shares the cache when it is not empty |
| AdvancedRouting.Advanced.JoinAnswer | version1/dht_advanced_routing.py:158-176 | the walk branch of `parent_process_message`: the reply names the pair at the walk's stop, followed by the cache when it is not empty |
| AdvancedRouting.Advanced.JoinWalk | version1/dht_advanced_routing.py:158-179 | the reply and cache share, then the transfer of `Moved` pairs |
| AdvancedRouting.Advanced.CachedJoinLone | version1/dht_advanced_routing.py:63-67 | a `JOIN_REQUEST` at a lone node: the joiner is cached under its id first, so the reply `(self, self)` is always followed by `ROUTING_INFO` |
| AdvancedRouting.Advanced.CachedJoinAnswer | version1/dht_advanced_routing.py:63-67 | a `JOIN_REQUEST` at a node with a neighbour: the joiner is cached under its id first, so the walk's reply is always followed by `ROUTING_INFO` |
| AdvancedRouting.Advanced.OnUpdateLeft | version1/dht_advanced_routing.py:181-186 | sets the left neighbour and replicates every primary pair to it |
| AdvancedRouting.Advanced.OnUpdateRight | version1/dht_advanced_routing.py:188-193 | sets the right neighbour and replicates every primary pair to it |
| AdvancedRouting.Advanced.OnReplicate | version1/dht_advanced_routing.py:244-247 | overwrites one replicated pair |
| AdvancedRouting.Advanced.OnTransferData | version1/dht_advanced_routing.py:249-251 | every transferred pair becomes a primary pair |
| AdvancedRouting.Advanced.Forward | version1/dht_advanced_routing.py:213-215 | the message goes to a next hop meeting `IsNextHop` and nothing else changes |
| AdvancedRouting.Advanced.OnPutRequest | version1/dht_advanced_routing.py:195-215 | stored here exactly when this node is responsible; otherwise forwarded towards the responsible node's id by the best next hop |
| AdvancedRouting.Advanced.OnGetRequest | version1/dht_advanced_routing.py:217-234 | answered here exactly when this node is responsible; otherwise forwarded towards the responsible node's id by the best next hop |
| AdvancedRouting.Advanced.OnAdvancedRouting | version1/dht_advanced_routing.py:90-131 | a message past ten hops or at its target stays put; otherwise it goes, one hop more, to the best hop or an alternative, or is dropped when there is none |
| AdvancedRouting.Advanced.OnAdvancedRoutingAsWritten | version1/dht_advanced_routing.py:96-98 | the same step, but a drop also ends the node's message loop, so every message past ten hops halts its node |
| SimRing.MailPost | dht-simulation.py:36-43 | queueing a message that names registered nodes keeps every mailbox naming registered nodes only |
| SimRing.Net.constructor | dht-simulation.py:423 | an empty network with no mail |
| SimRing.Net.NewNode | dht-simulation.py:23-28 | a new node object is its own left and right neighbour, with an empty mailbox |
| SimRing.Net.Receive | dht-simulation.py:70-78 | the oldest message is taken out of the mailbox and nothing else changes |
| SimRing.Net.Send | dht-simulation.py:36-43 | `send_message` appends to the end of the target's mailbox only |
| SimRing.Net.Join | dht-simulation.py:45-50 | `join` queues one `JOIN_REQUEST` to the bootstrap node |
| SimRing.Net.AwaitJoinResponse | dht-simulation.py:51-60 | a `JOIN_RESPONSE` sets both neighbours and queues the two updates; anything else is consumed |
| SimRing.Net.Leave | dht-simulation.py:62-68 | `leave` queues the two neighbour updates past itself and changes no link |
| SimRing.Net.OnJoinRequest | dht-simulation.py:94-122 | a lone node replies `(self, self)` without linking; otherwise the reply names the pair at the walk's stop |
| SimRing.Net.OnUpdateLeft | dht-simulation.py:82-84 | overwrites the left neighbour only |
| SimRing.Net.OnUpdateRight | dht-simulation.py:85-87 | overwrites the right neighbour only |
| SimRing.Net.OnPing | dht-simulation.py:88-90 | answers `PONG` to the sender |
| SimRing.Net.JoinRound | dht-simulation.py:45-122 | a whole join on a quiet ring splices the joiner in at the walk's stop, leaves a ring, and keeps a sorted ring sorted when the id is new |
| SimRing.Net.SettleJoin | dht-simulation.py:51-60 | the joiner applies its response and both neighbours their updates, which is `Splice` |
| SimRing.Net.TakeUpdateRight | dht-simulation.py:85-87 | taking an `UPDATE_RIGHT` from the head of the mailbox sets that right neighbour |
| SimRing.Net.TakeUpdateLeft | dht-simulation.py:82-84 | taking an `UPDATE_LEFT` from the head of the mailbox sets that left neighbour |
| SimStorage.VisitOneMore | dht-simulation.py:146-159 | each new id seen shrinks the ids left to see, so the walk ends |
| SimStorage.LocatedStops | dht-simulation.py:146-159 | the walk ends at the starting node or at a node that passes the stopping test |
| SimStorage.AtOrAboveKeepsKey | dht-simulation.py:146-150 | a node whose id is at least the hash keeps the key itself |
| SimStorage.LocatedIsNotSuccessor | dht-simulation.py:135-159 | on the ring of ids 50 and 10, node 50 keeps hash 5 although node 10 is its successor, and node 10 places the same hash at itself |
| SimStorage.SuccessorLocation | dht-simulation.py:141-142 | the placement the comment states: on a sorted ring, the node with the least id at or above the hash, or the least id when the hash is above every id, whatever node starts the walk |
| SimStorage.ComputeKeyLocation | dht-simulation.py:135-159 | the loop returns `KeyLocation` of the hash: the start node or a node passing the stopping test |
| SimStorage.Held | dht-simulation.py:179-200 | the primary value if present, else the replica, else nothing |
| SimStorage.Replicated | dht-simulation.py:170-173 | a `REPLICATE` goes to the left neighbour and, when it differs, to the right one: each neighbour gets exactly one copy and no other node any |
| SimStorage.Stores.constructor | dht-simulation.py:508 | an empty network of storage nodes |
| SimStorage.Stores.NewNode | dht-simulation.py:127-130 | a lone node with both maps empty |
| SimStorage.Stores.ReplicateToNeighbours | dht-simulation.py:170-173 | sends the pair to the neighbours as `Replicated` says |
| SimStorage.Stores.StorePrimary | dht-simulation.py:165-173 | writes the primary copy and replicates it; afterwards the node holds the value |
| SimStorage.Stores.Store | dht-simulation.py:161-177 | the node `compute_key_location` names keeps the primary copy; elsewhere the pair is forwarded there and nothing is stored |
| SimStorage.Stores.Retrieve | dht-simulation.py:179-200 | the named node answers at once with `Held`; elsewhere the request is forwarded and nothing is found yet |
| SimStorage.Stores.OnStore | dht-simulation.py:223-239 | writes the primary copy with no responsibility check and replicates it; a `STORE_CONFIRM` goes to the origin unless it is the node itself |
| SimStorage.Stores.OnRetrieve | dht-simulation.py:245-262 | answers the origin with `Held`, unless the origin is the node itself |
| SimStorage.Stores.OnReplicate | dht-simulation.py:269-273 | overwrites the replica; a primary copy still wins on retrieval, otherwise the new value is found |
| SimRouting.OrElse | dht-simulation.py:379-380 | a missing message field reads as its default |
| SimRouting.ClosestLink | dht-simulation.py:314-325 | a link is found exactly when some link lies a positive number of steps before the target, and it is the nearest such link |
| SimRouting.FindBestRoute | dht-simulation.py:307-334 | the route meets `IsBestRoute`: the exact link, else the nearest link before the target, else the neighbour fewer steps before it, the left on a tie |
| SimRouting.Routes.constructor | dht-simulation.py:611 | an empty network with no long links |
| SimRouting.Routes.NewNode | dht-simulation.py:278-281 | a storage node with no long links |
| SimRouting.Routes.CreateLongLinks | dht-simulation.py:285-305 | a node with a neighbour links its right neighbour under its id; a lone node adds nothing |
| SimRouting.Routes.RouteMessage | dht-simulation.py:336-353 | nothing is sent exactly at the target id; elsewhere `ROUTE` goes to the best route with the hop count one up and the source kept |
| SimRouting.Routes.OnRoute | dht-simulation.py:376-402 | at the target a `ROUTE_ACK` with the hop count goes back to the source; elsewhere `ROUTE` goes to the best route with the hop count one up and the same source |
| FullMesh.Others | DHT.py:16-19 | the registry entries with ids seen so far, other than the joining id |
| FullMesh.JoinLoop | DHT.py:16-19 | the loop of `join` computes `JoinedTables` |
| FullMesh.JoinedAt | DHT.py:16-19 | tables that agree with the join's outcome row by row are that outcome |
| FullMesh.LeaveLoop | DHT.py:26-27 | the loop of `leave` computes `LeftTables` |
| FullMesh.JoinLinksBothWays | DHT.py:13-19 | after `join`, every other member lists the joiner under its id and the joiner lists every other member under its id |
| FullMesh.JoinKeepsMesh | DHT.py:13-19 | `join` keeps every member linked with exactly the other members |
| FullMesh.LeaveKeepsMesh | DHT.py:22-27 | `leave` keeps every remaining member linked with exactly the others |
| FullMesh.Mesh.constructor | DHT.py:9-11 | an empty registry |
| FullMesh.Mesh.NewNode | DHTNode.py:8-13 | a node object with empty table and store, not yet registered |
| FullMesh.Mesh.Join | DHT.py:13-19 | the node is registered under its id, replacing any holder, and the tables become `JoinedTables` |
| FullMesh.Mesh.Leave | DHT.py:22-30 | an absent id changes nothing; a present one leaves the registry and every remaining table |
| FullMesh.Mesh.GetNode | DHT.py:32-34 | the object registered under the id, or nothing exactly when none is |
| FullMesh.Mesh.Send | DHTNode.py:21-27 | the message reaches the object registered under the recipient id, if any |
| FullMesh.Mesh.Lookup | DHTNode.py:39-42 | the value in the key's slot, or `"Not Found"` |
| FullMesh.Mesh.Store | DHTNode.py:33-37 | a later lookup of any key hashing to the slot finds the value, and every other key reads as before |

## Left out

- Simulated time, `env.timeout` delays and the SimPy process scheduling are not modelled. Each `run` loop branch is one method, and message order is the FIFO order of each mailbox.
- The dispatch of `run` over message kinds is not one method. Each branch is a method, and `DhtRing.Ring.Handle` shows the dispatch for the base ring only.
- Kinds whose branches only print (`PUT_CONFIRM`, `GET_RESPONSE`, `STORE_CONFIRM`, `RETRIEVE_RESPONSE`, `PONG`, `MSG`, `ROUTE_ACK`) change nothing and have no method.
- SHA-1 is a parameter function. Its value, and the `[:8]` hex prefix in `DHTNode.py`, are not computed.
- `random.choice` among routing alternatives is modelled as "any alternative". `initialize_long_links` (`version1/dht_advanced_routing.py`:292-310), which picks random nodes, is not modelled.
- The simulation drivers (`run_simulation`, `node_creator`, `node_remover` and the data and routing testers) are not modelled. The ring integrity check at the end of `dht_ring.py` is modelled as `DhtRing.Ring.CheckRing`.
- Dict iteration order is not modelled. Where the source keeps the first of several equally good entries, the model accepts any of them.
- `send_message_with_advanced_routing` and its `visited` field (`version1/dht_advanced_routing.py`:406-417) are not modelled.
- `version1/StorageNode.py` is not part of this model. `ShortcutRouting` places its node fields on `DhtRing.Ring`.
- ShortcutRouting.Shortcuts.NewNode: the source's initializer is named `init`, so Python never runs it and a node has no `long_links`. The model assumes it ran.
- The base-kind hand-down `yield self.env.process(super().run())` in `AdvancedNode.py`:51-53 and `dht-simulation.py`:370-373, and `yield self.env.process(StorageNode.run(self))` in `version1/AdvancedNode.py`:44-45, starts the base class's loop on the same mailbox. That loop never returns. The message that started it has already been taken and reaches no branch, and the advanced kinds (`ROUTE_REQUEST`, `ROUTE`, `LONG_LINK_*`) are never handled again. `Redispatch` models this on the sequence of taken messages; it is the first row under "## Findings". The node methods handle each base kind with the base layer's branch, message by message, as the corrected `Redispatch.Served` does.
- AdvancedRouting.Advanced.JoinWalk: `run` caches the sender (`version1/dht_advanced_routing.py`:63-67) before every base kind. For `JOIN_REQUEST` the model has `CachedJoinLone` and `CachedJoinAnswer`; at a node with a neighbour the transfer that follows is the separate call `DhtStorage.Storage.TransferRelevantData`, not one method with the caching step. For `UPDATE_LEFT`, `UPDATE_RIGHT`, `PUT_REQUEST`, `GET_REQUEST`, `REPLICATE` and `TRANSFER_DATA` the caching step is a call of `AdvancedRouting.Advanced.UpdateRoutingCache` before the branch method, and no method joins the two.
- NodeRouting.Linked.Handshake: the `LONG_LINK_CONFIRM` is left in the requester's mailbox. Taking it out is `DhtRing.Ring.Receive`.
- SimStorage.Stores.Store, SimStorage.Stores.Retrieve: these keep the placement of the code as written (`KeyLocation`), so that they model what the simulation does. The corrected placement is `SimStorage.SuccessorLocation`, and no storage method uses it.
- SimRouting.Routes.CreateLongLinks: the computed `target_id` values are unused in the source and do not appear in the model.
- DhtStorage.Storage.Leave, AdvancedRouting.Advanced.ShareWith, AdvancedRouting.Advanced.ShareCache: the source puts the sender's live `data_store` (`dht_storage.py`:213) or `routing_cache` (`version1/dht_advanced_routing.py`:152, 172, 324-325) dict itself into the message, so the receiver sees that dict as it is when the message is handled. The model sends a snapshot of the map taken when the message is queued, not a shared object.
- The leaving node's own fields are not cleared by `leave` in any family. The model keeps them as they were.
- The `str(dict)` payloads of `ROUTE` messages are modelled as a string field. Printing, `__str__` and `__repr__` are left out.
- SimRouting.Routes.RouteMessage: the `hops` and `source` defaults are modelled as optional fields. The message dict is not otherwise inspected.

## Findings

| source | as written | input that shows it | evidently intended | confidence | as-written member | corrected member |
|---|---|---|---|---|---|---|
| AdvancedNode.py:51-53 | a base kind makes `run` start the base class's loop on the same mailbox and wait for it; that loop never returns, so the message that started it reaches no branch and the advanced kinds are never handled again (the same hand-down is at `version1/AdvancedNode.py`:44-45 and `dht-simulation.py`:370-373) | an `UPDATE_LEFT` followed by a `ROUTE_REQUEST` reaching an `AdvancedNode`: neither is handled (`NodeRouting.RedispatchLosesBoth`; `Redispatch.AsWrittenMatchesIff` for all inputs) | hand that one message to the base class's branch and go on with the next | not executed | Redispatch.ServedAsWritten | Redispatch.Served |
| dht-simulation.py:146-150 | `compute_key_location` stops at the first node whose id is at least the hash or whose right neighbour's id is below it, although the comment at line 141 promises the node with the smallest id at or above the hash | ring of ids 50 and 10, hash 5: node 50 keeps the key at itself, node 10 places it at itself, and the successor is node 10 (`SimStorage.LocatedIsNotSuccessor`) | the successor of the hash, the same from every start | not executed | SimStorage.ComputeKeyLocation | SimStorage.SuccessorLocation |
| version1/dht_advanced_routing.py:96-98 | a message past ten hops, or one with no alternative hop (lines 125-128), makes `run` execute `return`, which ends the node's whole message loop | any `ADVANCED_ROUTING` message with `hops` = 11 reaching a node: that node never handles another message | drop that one message and go on with the next | not executed | AdvancedRouting.Advanced.OnAdvancedRoutingAsWritten | AdvancedRouting.Advanced.OnAdvancedRouting |
