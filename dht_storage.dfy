/**
 * The storage layer of `dht_storage.py`: every node object of the ring also
 * keeps a primary `data_store` and a `replicated_data` map.  Keys are placed
 * by consistent hashing: a key's hash is mapped, by a walk along right
 * neighbours, to the node responsible for it.  `PUT_REQUEST` and
 * `GET_REQUEST` are served there or forwarded to the right; `REPLICATE`,
 * `TRANSFER_DATA`, the transfer on a join and the hand-off on a leave move
 * pairs between nodes and between the two maps.
 */
module DhtStorage {
  import opened Wrappers
  import opened Ids
  import opened Topology
  import opened DhtRing

  /** `generate_key_hash`: the SHA-1 digest of the key, read as a number,
      reduced into the id space.  The digest is a parameter. */
  function KeyHash(digest: Key -> nat, key: Key): (h: int)
    ensures 0 <= h < Space
  {
    digest(key) % Space
  }

  /** A lookup in a primary map: the stored value, or nothing when the key
      is absent (`None` in the answer). */
  function Lookup(data: map<Key, Value>, key: Key): (found: Option<Value>)
    ensures found.Some? <==> key in data
    ensures found.Some? ==> found.value == data[key]
  {
    if key in data then Some(data[key]) else None
  }

  /** The mailboxes after the responsible node `h` stores a pair put by
      `sender`: a `REPLICATE` to the left neighbour, one to the right
      neighbour, then a `PUT_CONFIRM` to the sender. */
  function PutAnswered(inbox: map<Handle, seq<Msg>>, links: Links, h: Handle, sender: Handle, key: Key, value: Value)
    : (answered: map<Handle, seq<Msg>>)
    requires Closed(links) && inbox.Keys == links.Keys && h in links && sender in links
    ensures answered.Keys == inbox.Keys
  {
    var replicated := Post(Post(inbox, links[h].left, Replicate(h, key, value)), links[h].right, Replicate(h, key, value));
    Post(replicated, sender, PutConfirm(h, key))
  }

  // ---------------------------------------------------------------------
  // find_responsible_node

  /** The two tests after which the walk answers with the right neighbour:
      the wrapping pair with the hash above its left end or at most its right
      end, or an ascending pair with the hash in `(left, right]`. */
  predicate TakesNext(c: int, n: int, h: int)
  {
    (c > n && (h > c || h <= n)) || (c < h && h <= n)
  }

  /** The walk stops at the `i`-th pair of the cycle. */
  ghost predicate StopsAt(links: Links, order: seq<Handle>, h: int, i: nat)
    requires i < |order|
  {
    TakesNext(IdOf(links, order[i]), IdOf(links, Next(order, i)), h) || IdOf(links, order[i]) == h
  }

  /** Index of the first pair from `i` on where the walk stops (|order| if none). */
  ghost function FirstStopFrom(links: Links, order: seq<Handle>, h: int, i: nat): (k: nat)
    requires i <= |order|
    ensures i <= k <= |order|
    ensures k < |order| ==> StopsAt(links, order, h, k)
    ensures forall t :: i <= t < k ==> !StopsAt(links, order, h, t)
    decreases |order| - i
  {
    if i == |order| then i
    else if StopsAt(links, order, h, i) then i
    else FirstStopFrom(links, order, h, i + 1)
  }

  /** The node `find_responsible_node` answers when started at `order[0]` of
      a cycle: the right neighbour or the node itself at the first stop, and
      the starting node when the walk comes all the way round. */
  ghost function ResponsibleOnCycle(links: Links, order: seq<Handle>, h: int): (r: Handle)
    requires |order| > 0
    ensures r in order
  {
    var k := FirstStopFrom(links, order, h, 0);
    if k == |order| then order[0]
    else if TakesNext(IdOf(links, order[k]), IdOf(links, Next(order, k)), h) then Next(order, k)
    else order[k]
  }

  lemma NextInOrder(order: seq<Handle>, i: nat)
    requires i < |order|
    ensures Next(order, i) in order
  {
    if i + 1 < |order| { assert order[i + 1] in order; } else { assert order[0] in order; }
  }

  /**
   * The walk of `find_responsible_node`, started at `self` for the hash `h`.
   * A node that is its own right neighbour answers itself for every hash.
   * On a broken ring the source walks forever; here `order` witnesses that
   * `self` lies on its own right-neighbour cycle.
   */
  method FindResponsible(links: Links, self: Handle, h: int, ghost order: seq<Handle>) returns (r: Handle)
    requires IsCycle(links, order) && order[0] == self
    ensures r == ResponsibleOnCycle(links, order, h)
    ensures links[self].right == self ==> r == self
  {
    var current := self;
    ghost var i: nat := 0;
    while true
      invariant i < |order| && current == order[i]
      invariant FirstStopFrom(links, order, h, 0) == FirstStopFrom(links, order, h, i)
      decreases |order| - i
    {
      var next := links[current].right;
      if links[current].id > links[next].id && (h > links[current].id || h <= links[next].id) {
        return next;
      }
      if links[current].id < h <= links[next].id {
        return next;
      }
      if links[current].id == h {
        return current;
      }
      current := next;
      if current == self {
        return self;
      }
      i := i + 1;
    }
  }

  /**
   * On a ring sorted by id the walk answers the successor of the hash: the
   * node with the least id at or above it, or the node with the least id
   * when the hash is above every id.
   */
  lemma {:induction false} SortedRingFindsSuccessor(links: Links, order: seq<Handle>, h: int)
    requires IsCycle(links, order) && Ordered(links, order)
    ensures IsSuccessor(links, order, h, ResponsibleOnCycle(links, order, h))
  {
    var n := |order|;
    var k := FirstStopFrom(links, order, h, 0);
    var r := ResponsibleOnCycle(links, order, h);
    if k == n {
      if n >= 2 {
        NoStopImpossible(links, order, h);
      }
      forall c | c in order
        ensures c == order[0]
      {
        var i :| 0 <= i < n && order[i] == c;
      }
    } else {
      var c := order[k];
      var nx := Next(order, k);
      NextInOrder(order, k);
      assert c in order;
      assert RightOf(links, c) == nx;
      var ci, ni := IdOf(links, c), IdOf(links, nx);
      if TakesNext(ci, ni, h) {
        assert r == nx;
        forall x | x in order
          ensures !InJoinGap(ci, IdOf(links, x), ni)
        {
        }
      } else {
        assert r == c && ci == h;
      }
    }
  }

  /** On a sorted ring of two or more the walk always stops somewhere. */
  lemma NoStopImpossible(links: Links, order: seq<Handle>, h: int)
    requires IsCycle(links, order) && Ordered(links, order) && |order| >= 2
    ensures FirstStopFrom(links, order, h, 0) < |order|
  {
    var n := |order|;
    var k0 := FirstStopFrom(links, order, h, 0);
    if k0 == n {
      if exists i, j :: 0 <= i < n && 0 <= j < n && IdOf(links, order[i]) < h <= IdOf(links, order[j]) {
        var i, j :| 0 <= i < n && 0 <= j < n && IdOf(links, order[i]) < h <= IdOf(links, order[j]);
        var k := Crossing(links, order, h, i, j);
        assert StopsAt(links, order, h, k);
      } else {
        var d := NotAllAscending(links, order);
        NextInOrder(order, d);
        var b := Next(order, d);
        assert order[d] != b by {
          if d + 1 < n { assert order[d] != order[d + 1]; } else { assert order[d] != order[0]; }
        }
        assert order[d] in order;
        assert IdOf(links, order[d]) > IdOf(links, b);
        assert StopsAt(links, order, h, d);
      }
    }
  }

  // ---------------------------------------------------------------------
  // Moving pairs between nodes

  /** The primary pairs `transfer_relevant_data` hands to `newNode`: those
      whose responsible node, as the walk from the sender finds it, is `newNode`. */
  ghost function Moved(links: Links, order: seq<Handle>, digest: Key -> nat, data: map<Key, Value>, newNode: Handle): (moved: map<Key, Value>)
    requires |order| > 0
    ensures moved.Keys <= data.Keys
    ensures forall k :: k in moved ==> moved[k] == data[k]
  {
    map k | k in data && ResponsibleOnCycle(links, order, KeyHash(digest, k)) == newNode :: data[k]
  }

  /** The part of `Moved` among the keys `done` already looked at. */
  ghost function MovedAmong(links: Links, order: seq<Handle>, digest: Key -> nat, data: map<Key, Value>, newNode: Handle, done: set<Key>): map<Key, Value>
    requires |order| > 0
  {
    map k | k in data && k in done && ResponsibleOnCycle(links, order, KeyHash(digest, k)) == newNode :: data[k]
  }

  lemma MovedStep(links: Links, order: seq<Handle>, digest: Key -> nat, data: map<Key, Value>, newNode: Handle, done: set<Key>, k: Key)
    requires |order| > 0 && k in data
    ensures MovedAmong(links, order, digest, data, newNode, done + {k}) ==
      if ResponsibleOnCycle(links, order, KeyHash(digest, k)) == newNode
      then MovedAmong(links, order, digest, data, newNode, done)[k := data[k]]
      else MovedAmong(links, order, digest, data, newNode, done)
  {
  }

  lemma MapStep(d: map<Key, Value>, r: map<Key, Value>, t: map<Key, Value>, k: Key, v: Value)
    ensures (d - t.Keys) - {k} == d - t[k := v].Keys
    ensures (r + t)[k := v] == r + t[k := v]
  {
  }

  /** The mail after `transfer_relevant_data` from `from` to `to`: one
      `TRANSFER_DATA` carrying `moved`, or nothing when no pair moved. */
  function Handover(inbox: map<Handle, seq<Msg>>, from: Handle, to: Handle, moved: map<Key, Value>): (sent: map<Handle, seq<Msg>>)
    requires to in inbox
    ensures sent.Keys == inbox.Keys && to in sent
  {
    if moved == map[] then inbox else Post(inbox, to, TransferData(from, moved))
  }

  /** The loop of `transfer_relevant_data` over a snapshot of the primary
      pairs of `self`: each pair whose responsible node is `newNode` is
      deleted from the primary map, kept as a copy and collected for transfer. */
  method SplitMoved(links: Links, self: Handle, newNode: Handle, digest: Key -> nat,
                    snapshot: map<Key, Value>, copies0: map<Key, Value>, ghost order: seq<Handle>)
    returns (data: map<Key, Value>, copies: map<Key, Value>, transfer: map<Key, Value>)
    requires IsCycle(links, order) && order[0] == self
    ensures transfer == Moved(links, order, digest, snapshot, newNode)
    ensures data == snapshot - transfer.Keys && copies == copies0 + transfer
    ensures newNode !in order ==> transfer == map[] && data == snapshot && copies == copies0
  {
    data, copies := snapshot, copies0;
    var keys := snapshot.Keys;
    ghost var done: set<Key> := {};
    transfer := map[];
    assert snapshot - transfer.Keys == snapshot;
    assert copies + transfer == copies;
    while keys != {}
      invariant keys <= snapshot.Keys && done == snapshot.Keys - keys
      invariant transfer == MovedAmong(links, order, digest, snapshot, newNode, done)
      invariant data == snapshot - transfer.Keys
      invariant copies == copies0 + transfer
      decreases keys
    {
      var k :| k in keys;
      var r := FindResponsible(links, self, KeyHash(digest, k), order);
      MovedStep(links, order, digest, snapshot, newNode, done, k);
      if r == newNode {
        MapStep(snapshot, copies0, transfer, k, snapshot[k]);
        transfer := transfer[k := snapshot[k]];
        data := data - {k};
        copies := copies[k := snapshot[k]];
      }
      keys := keys - {k};
      done := done + {k};
    }
    assert transfer == Moved(links, order, digest, snapshot, newNode);
    if newNode !in order {
      TransferBeforeLinkMovesNothing(links, order, digest, snapshot, newNode);
      assert data == snapshot - {};
      assert copies == copies0 + map[];
    }
  }

  /** The keys of a map in the order a loop over it meets them: each once. */
  method ListKeys(keys: set<Key>) returns (ks: seq<Key>)
    ensures |ks| == |keys| && forall k :: k in ks <==> k in keys
  {
    var rest := keys;
    ks := [];
    while rest != {}
      invariant rest <= keys && |ks| + |rest| == |keys|
      invariant forall k :: k in ks <==> k in keys && k !in rest
      decreases rest
    {
      var k :| k in rest;
      ks := ks + [k];
      rest := rest - {k};
    }
  }

  /** The loop of the `TRANSFER_DATA` branch: each transferred pair is
      written into the primary map in turn. */
  method MergePairs(into: map<Key, Value>, pairs: map<Key, Value>) returns (merged: map<Key, Value>)
    ensures merged == into + pairs
  {
    merged := into;
    var rest := pairs.Keys;
    while rest != {}
      invariant rest <= pairs.Keys
      invariant merged.Keys == into.Keys + (pairs.Keys - rest)
      invariant forall k :: k in pairs && k !in rest ==> merged[k] == pairs[k]
      invariant forall k :: k in into && k !in pairs ==> merged[k] == into[k]
      invariant forall k :: k in into && k in rest ==> merged[k] == into[k]
      decreases rest
    {
      var k :| k in rest;
      merged := merged[k := pairs[k]];
      rest := rest - {k};
    }
    assert merged.Keys == (into + pairs).Keys;
  }

  /** The transfer on a join runs before the joiner is linked in: a node not
      yet on the sender's cycle is never responsible, so nothing moves. */
  lemma TransferBeforeLinkMovesNothing(links: Links, order: seq<Handle>, digest: Key -> nat, data: map<Key, Value>, newNode: Handle)
    requires |order| > 0 && newNode !in order
    ensures Moved(links, order, digest, data, newNode) == map[]
  {
  }

  /** Splitting a primary map by a moved part loses no pair: what stays and
      what moves are disjoint and together give back the whole map. */
  lemma {:induction false} MovedPartition(data: map<Key, Value>, moved: map<Key, Value>)
    requires moved.Keys <= data.Keys && forall k :: k in moved ==> moved[k] == data[k]
    ensures (data - moved.Keys).Keys !! moved.Keys
    ensures (data - moved.Keys) + moved == data
  {
    var back := (data - moved.Keys) + moved;
    assert back.Keys == data.Keys;
    forall k | k in data
      ensures back[k] == data[k]
    {
      if k in moved {
        assert back[k] == moved[k];
      } else {
        assert back[k] == (data - moved.Keys)[k];
      }
    }
  }

  /** The `REPLICATE` messages from `from` copying the pairs of `data` under
      the keys `ks`, in that order. */
  function Replicas(from: Handle, data: map<Key, Value>, ks: seq<Key>): (sent: seq<Msg>)
    requires forall i :: 0 <= i < |ks| ==> ks[i] in data
    ensures |sent| == |ks|
    ensures forall i :: 0 <= i < |ks| ==> sent[i] == Replicate(from, ks[i], data[ks[i]])
  {
    if ks == [] then []
    else Replicas(from, data, ks[..|ks| - 1]) + [Replicate(from, ks[|ks| - 1], data[ks[|ks| - 1]])]
  }

  /**
   * The storage fields of every node object of a ring.  `ring` holds the
   * neighbour fields and mailboxes; the maps below hold `data_store` and
   * `replicated_data` of each node object.
   */
  class Storage {
    const ring: Ring
    /** The SHA-1 digest of a key as a number. */
    const digest: Key -> nat
    var dataStore: map<Handle, map<Key, Value>>
    var replicated: map<Handle, map<Key, Value>>

    ghost predicate Valid()
      reads this, ring
    {
      && ring.Valid()
      && dataStore.Keys == ring.links.Keys
      && replicated.Keys == ring.links.Keys
    }

    constructor (digest: Key -> nat)
      ensures Valid() && fresh(ring) && this.digest == digest
      ensures ring.links == map[] && dataStore == map[] && replicated == map[]
    {
      this.digest := digest;
      ring := new Ring();
      dataStore := map[];
      replicated := map[];
    }

    /** `StorageNode.__init__`: a new ring node with both maps empty. */
    method NewNode(id: int, bootstrap: Option<Handle>) returns (h: Handle)
      requires Valid() && (bootstrap.Some? ==> bootstrap.value in ring.links)
      modifies this, ring
      ensures Valid() && h !in old(ring.links)
      ensures ring.links == old(ring.links)[h := Link(id, h, h)]
      ensures bootstrap.None? ==> ring.inbox == old(ring.inbox)[h := []]
      ensures bootstrap.Some? ==> ring.inbox == Post(old(ring.inbox)[h := []], bootstrap.value, JoinRequest(h))
      ensures dataStore == old(dataStore)[h := map[]] && replicated == old(replicated)[h := map[]]
    {
      h := ring.NewNode(id, bootstrap);
      dataStore := dataStore[h := map[]];
      replicated := replicated[h := map[]];
    }

    /** `find_responsible_node` run by `h` for `key`. */
    method Responsible(h: Handle, key: Key, ghost order: seq<Handle>) returns (r: Handle)
      requires Valid() && h in ring.links && IsCycle(ring.links, order) && order[0] == h
      ensures r == ResponsibleOnCycle(ring.links, order, KeyHash(digest, key))
      ensures ring.links[h].right == h ==> r == h
      ensures Ordered(ring.links, order) ==> IsSuccessor(ring.links, order, KeyHash(digest, key), r)
    {
      r := FindResponsible(ring.links, h, KeyHash(digest, key), order);
      if Ordered(ring.links, order) {
        SortedRingFindsSuccessor(ring.links, order, KeyHash(digest, key));
      }
    }

    /** `store_data`: set one primary pair, nothing else. */
    method StoreData(h: Handle, key: Key, value: Value)
      requires Valid() && h in ring.links
      modifies this
      ensures Valid()
      ensures dataStore == old(dataStore)[h := old(dataStore[h])[key := value]]
      ensures replicated == old(replicated)
    {
      dataStore := dataStore[h := dataStore[h][key := value]];
    }

    /** Replace both maps of one node. */
    method Rewrite(h: Handle, data: map<Key, Value>, copies: map<Key, Value>)
      requires Valid() && h in ring.links
      modifies this
      ensures Valid()
      ensures dataStore == old(dataStore)[h := data] && replicated == old(replicated)[h := copies]
    {
      dataStore := dataStore[h := data];
      replicated := replicated[h := copies];
    }

    /**
     * `transfer_relevant_data`: every primary pair whose responsible node is
     * `newNode` leaves `data_store` and is kept in `replicated_data`; the
     * moved pairs go to `newNode` in one `TRANSFER_DATA`, sent only when at
     * least one pair moved.
     */
    method TransferRelevantData(h: Handle, newNode: Handle, ghost order: seq<Handle>) returns (moved: map<Key, Value>)
      requires Valid() && newNode in ring.links && h in ring.links && IsCycle(ring.links, order) && order[0] == h
      modifies this, ring
      ensures Valid() && ring.links == old(ring.links)
      ensures moved == Moved(ring.links, order, digest, old(dataStore[h]), newNode)
      ensures dataStore == old(dataStore)[h := old(dataStore[h]) - moved.Keys]
      ensures replicated == old(replicated)[h := old(replicated[h]) + moved]
      ensures ring.inbox == Handover(old(ring.inbox), h, newNode, moved)
    {
      var data, copies;
      data, copies, moved := SplitMoved(ring.links, h, newNode, digest, dataStore[h], replicated[h], order);
      Rewrite(h, data, copies);
      if moved != map[] {
        ring.Send(newNode, TransferData(h, moved));
      }
    }

    /** `replicate_data_to_neighbor`: one `REPLICATE` per primary pair, queued
        to `neighbor` in the order `ks` the map yields its keys, each key once. */
    method ReplicateToNeighbor(h: Handle, neighbor: Handle) returns (ks: seq<Key>)
      requires Valid() && h in ring.links && neighbor in ring.links
      modifies ring
      ensures Valid() && ring.links == old(ring.links)
      ensures |ks| == |dataStore[h]| && forall k :: k in ks <==> k in dataStore[h]
      ensures ring.inbox == old(ring.inbox)[neighbor := old(ring.inbox[neighbor]) + Replicas(h, dataStore[h], ks)]
    {
      ks := ListKeys(dataStore[h].Keys);
      ring.SendAll(neighbor, Replicas(h, dataStore[h], ks));
    }
  
    /**
     * The `JOIN_REQUEST` branch of `run`.  A lone node links itself to the
     * requester and answers `(self, self)`, moving no data; otherwise the
     * join walk answers and `transfer_relevant_data` runs for the requester
     * on the links as they are, before the requester is linked in, so it
     * moves nothing.
     */
    method OnJoinRequest(h: Handle, sender: Handle, ghost order: seq<Handle>)
      requires Valid() && h in ring.links && sender in ring.links
      requires ring.links[h].right != h ==> IsCycle(ring.links, order) && order[0] == h
      modifies this, ring
      ensures Valid()
      ensures old(ring.links[h].right) == h ==>
        && ring.links == old(ring.links)[h := old(ring.links[h]).(left := sender, right := sender)]
        && ring.inbox == Post(old(ring.inbox), sender, JoinReply(h, h, h))
        && dataStore == old(dataStore) && replicated == old(replicated)
      ensures old(ring.links[h].right) != h ==>
        var k := JoinGapIndex(old(ring.links), order, IdOf(old(ring.links), sender));
        var replied := Post(old(ring.inbox), sender, JoinReply(h, order[k], Next(order, k)));
        var moved := Moved(old(ring.links), order, digest, old(dataStore[h]), sender);
        && ring.links == old(ring.links)
        && dataStore == old(dataStore)[h := old(dataStore[h]) - moved.Keys]
        && replicated == old(replicated)[h := old(replicated[h]) + moved]
        && ring.inbox == Handover(replied, h, sender, moved)
    {
      var lone := ring.links[h].right == h;
      ring.OnJoinRequest(h, sender, order);
      if !lone {
        var _ := TransferRelevantData(h, sender, order);
      }
    }

    /** The `UPDATE_LEFT` branch of `run`: overwrite the left neighbour, then
        replicate every primary pair to it. */
    method OnUpdateLeft(h: Handle, node: Handle) returns (ks: seq<Key>)
      requires Valid() && h in ring.links && node in ring.links
      modifies ring
      ensures Valid() && dataStore == old(dataStore) && replicated == old(replicated)
      ensures ring.links == old(ring.links)[h := old(ring.links[h]).(left := node)]
      ensures |ks| == |dataStore[h]| && forall k :: k in ks <==> k in dataStore[h]
      ensures ring.inbox == old(ring.inbox)[node := old(ring.inbox[node]) + Replicas(h, dataStore[h], ks)]
    {
      ring.OnUpdateLeft(h, node);
      ks := ReplicateToNeighbor(h, node);
    }

    /** The `UPDATE_RIGHT` branch of `run`: overwrite the right neighbour, then
        replicate every primary pair to it. */
    method OnUpdateRight(h: Handle, node: Handle) returns (ks: seq<Key>)
      requires Valid() && h in ring.links && node in ring.links
      modifies ring
      ensures Valid() && dataStore == old(dataStore) && replicated == old(replicated)
      ensures ring.links == old(ring.links)[h := old(ring.links[h]).(right := node)]
      ensures |ks| == |dataStore[h]| && forall k :: k in ks <==> k in dataStore[h]
      ensures ring.inbox == old(ring.inbox)[node := old(ring.inbox[node]) + Replicas(h, dataStore[h], ks)]
    {
      ring.OnUpdateRight(h, node);
      ks := ReplicateToNeighbor(h, node);
    }

    /** The `PUT_REQUEST` branch at the responsible node: store, replicate
        to both neighbours, confirm to the sender. */
    method StoreHere(h: Handle, sender: Handle, key: Key, value: Value)
      requires Valid() && sender in ring.links && h in ring.links
      modifies this, ring
      ensures Valid() && ring.links == old(ring.links) && replicated == old(replicated)
      ensures dataStore == old(dataStore)[h := old(dataStore[h])[key := value]]
      ensures ring.inbox == PutAnswered(old(ring.inbox), ring.links, h, sender, key, value)
    {
      StoreData(h, key, value);
      ring.Send(ring.links[h].left, Replicate(h, key, value));
      ring.Send(ring.links[h].right, Replicate(h, key, value));
      ring.Send(sender, PutConfirm(h, key));
    }

    /**
     * The `PUT_REQUEST` branch of `run`.  At the responsible node the pair is
     * stored, a `REPLICATE` goes to the left and to the right neighbour and a
     * `PUT_CONFIRM` to the sender; anywhere else the request goes on to the
     * right neighbour, now sent by this node, and nothing is stored.
     */
    method OnPutRequest(h: Handle, sender: Handle, key: Key, value: Value, ghost order: seq<Handle>)
      requires Valid() && sender in ring.links && h in ring.links && IsCycle(ring.links, order) && order[0] == h
      modifies this, ring
      ensures Valid() && ring.links == old(ring.links) && replicated == old(replicated)
      ensures var here := ResponsibleOnCycle(ring.links, order, KeyHash(digest, key)) == h;
        && (here ==>
             && dataStore == old(dataStore)[h := old(dataStore[h])[key := value]]
             && ring.inbox == PutAnswered(old(ring.inbox), ring.links, h, sender, key, value))
        && (!here ==>
             && dataStore == old(dataStore)
             && ring.inbox == Post(old(ring.inbox), ring.links[h].right, PutRequest(h, key, value)))
    {
      var target := FindResponsible(ring.links, h, KeyHash(digest, key), order);
      var l, r := ring.links[h].left, ring.links[h].right;
      if target == h {
        StoreHere(h, sender, key, value);
      } else {
        ring.Send(r, PutRequest(h, key, value));
      }
    }

    /**
     * The `GET_REQUEST` branch of `run`.  The responsible node answers from
     * its primary pairs only, with the value or with nothing; anywhere else
     * the request goes on to the right neighbour.  No stored pair changes.
     */
    method OnGetRequest(h: Handle, sender: Handle, key: Key, ghost order: seq<Handle>)
      requires Valid() && sender in ring.links && h in ring.links && IsCycle(ring.links, order) && order[0] == h
      modifies ring
      ensures Valid() && ring.links == old(ring.links)
      ensures ResponsibleOnCycle(ring.links, order, KeyHash(digest, key)) == h ==>
        ring.inbox == Post(old(ring.inbox), sender, GetResponse(h, key, Lookup(dataStore[h], key)))
      ensures ResponsibleOnCycle(ring.links, order, KeyHash(digest, key)) != h ==>
        ring.inbox == Post(old(ring.inbox), ring.links[h].right, GetRequest(h, key))
    {
      var target := FindResponsible(ring.links, h, KeyHash(digest, key), order);
      if target == h {
        AnswerGet(h, sender, key);
      } else {
        ring.Send(ring.links[h].right, GetRequest(h, key));
      }
    }

    /** The `GET_REQUEST` branch at the responsible node: answer from the
        primary pairs only, with the value or with nothing. */
    method AnswerGet(h: Handle, sender: Handle, key: Key)
      requires Valid() && sender in ring.links && h in ring.links
      modifies ring
      ensures Valid() && ring.links == old(ring.links)
      ensures ring.inbox == Post(old(ring.inbox), sender, GetResponse(h, key, Lookup(dataStore[h], key)))
    {
      ring.Send(sender, GetResponse(h, key, Lookup(dataStore[h], key)));
    }

    /** The `REPLICATE` branch of `run`: overwrite one copied pair. */
    method OnReplicate(h: Handle, key: Key, value: Value)
      requires Valid() && h in ring.links
      modifies this
      ensures Valid() && dataStore == old(dataStore)
      ensures replicated == old(replicated)[h := old(replicated[h])[key := value]]
    {
      replicated := replicated[h := replicated[h][key := value]];
    }

    /** The `TRANSFER_DATA` branch of `run`: every transferred pair becomes a
        primary pair, overwriting one already there. */
    method OnTransferData(h: Handle, pairs: map<Key, Value>)
      requires Valid() && h in ring.links
      modifies this
      ensures Valid() && replicated == old(replicated)
      ensures dataStore == old(dataStore)[h := old(dataStore[h]) + pairs]
    {
      var merged := MergePairs(dataStore[h], pairs);
      dataStore := dataStore[h := merged];
    }

    /** `leave`: hand every primary pair to the right neighbour in one
        `TRANSFER_DATA` (when there is one), then the two neighbour updates.
        Neither map of the leaving node changes. */
    method Leave(h: Handle)
      requires Valid() && h in ring.links
      modifies ring
      ensures Valid() && ring.links == old(ring.links)
      ensures var l, r := ring.links[h].left, ring.links[h].right;
        var handed := if dataStore[h] == map[] then old(ring.inbox)
                      else Post(old(ring.inbox), r, TransferData(h, dataStore[h]));
        ring.inbox == Post(Post(handed, l, UpdateRight(h, r)), r, UpdateLeft(h, l))
    {
      if dataStore[h] != map[] {
        ring.Send(ring.links[h].right, TransferData(h, dataStore[h]));
      }
      ring.Leave(h);
    }
  }
}
