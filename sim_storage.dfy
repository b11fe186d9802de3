/**
 * The `StorageNode` class of `dht-simulation.py`: every node object also
 * keeps a primary `data` map and a `replicas` map.  A key's hash is mapped
 * to a node by `compute_key_location`, a walk along right neighbours that
 * stops at the first node whose id is at least the hash or whose right
 * neighbour's id is below it.  The primary copy is written there and a
 * `REPLICATE` goes to the left neighbour and, when it is another node, to
 * the right one.
 */
module SimStorage {
  import opened Wrappers
  import opened Topology
  import opened SimRing
  import DhtStorage

  /** The ids carried by the registered node objects. */
  function IdsOf(links: Links): set<int>
  {
    set h | h in links :: links[h].id
  }

  /** The stopping test of `compute_key_location` at node `c`. */
  predicate StopsAt(links: Links, c: Handle, t: int)
  {
    IdOf(links, c) >= t || IdOf(links, RightOf(links, c)) < t
  }

  lemma VisitOneMore(links: Links, visited: set<int>, id: int)
    requires visited <= IdsOf(links) && id in IdsOf(links) && id !in visited
    ensures |IdsOf(links) - (visited + {id})| < |IdsOf(links) - visited|
  {
    assert IdsOf(links) - (visited + {id}) < IdsOf(links) - visited;
  }

  /**
   * Where `compute_key_location`, started at `self`, ends once it stands at
   * `current` having seen the ids in `visited`: `current` if it passes the
   * stopping test, else its right neighbour, except that reaching an id
   * already seen ends the walk at `self`.
   */
  ghost function Located(links: Links, self: Handle, current: Handle, t: int, visited: set<int>): Handle
    requires Closed(links) && current in links && visited <= IdsOf(links)
    decreases |IdsOf(links) - visited|
  {
    if StopsAt(links, current, t) then current
    else
      var n := links[current].right;
      if links[n].id in visited then self
      else
        VisitOneMore(links, visited, links[n].id);
        Located(links, self, n, t, visited + {links[n].id})
  }

  /** Where `compute_key_location` at `self` sends a key of hash `t`. */
  ghost function KeyLocation(links: Links, self: Handle, t: int): Handle
    requires Closed(links) && self in links
  {
    Located(links, self, self, t, {links[self].id})
  }

  /** The walk ends at `self` or at a registered node that passes the
      stopping test. */
  lemma {:induction false} LocatedStops(links: Links, self: Handle, current: Handle, t: int, visited: set<int>)
    requires Closed(links) && current in links && visited <= IdsOf(links)
    ensures var r := Located(links, self, current, t, visited);
      r == self || (r in links && StopsAt(links, r, t))
    decreases |IdsOf(links) - visited|
  {
    if !StopsAt(links, current, t) {
      var n := links[current].right;
      if links[n].id !in visited {
        VisitOneMore(links, visited, links[n].id);
        LocatedStops(links, self, n, t, visited + {links[n].id});
      }
    }
  }

  /** A node whose id is at least the hash keeps the key itself, whoever
      else is on the ring. */
  lemma AtOrAboveKeepsKey(links: Links, self: Handle, t: int)
    requires Closed(links) && self in links && IdOf(links, self) >= t
    ensures KeyLocation(links, self, t) == self
  {
  }

  /**
   * The node the walk returns need not be the one with the least id at or
   * above the hash: on the ring of ids 50 and 10, node 50 keeps hash 5
   * although node 10 is its successor, while node 10 places the same hash
   * at itself, so the two nodes disagree on where the key lives.
   */
  lemma LocatedIsNotSuccessor()
    ensures var links := map[0 := Link(50, 1, 1), 1 := Link(10, 0, 0)];
      && IsRing(links, [0, 1])
      && KeyLocation(links, 0, 5) == 0
      && KeyLocation(links, 1, 5) == 1
      && IsSuccessor(links, [0, 1], 5, 1)
      && !IsSuccessor(links, [0, 1], 5, 0)
  {
    var links := map[0 := Link(50, 1, 1), 1 := Link(10, 0, 0)];
    assert IdOf(links, 1) >= 5 && IdOf(links, 1) < IdOf(links, 0);
  }

  /** `compute_key_location`: hash the key, then walk as `Located` says,
      remembering the ids seen. */
  method ComputeKeyLocation(links: Links, self: Handle, digest: Key -> nat, key: Key) returns (r: Handle)
    requires Closed(links) && self in links
    ensures r == KeyLocation(links, self, DhtStorage.KeyHash(digest, key))
    ensures r in links && (r == self || StopsAt(links, r, DhtStorage.KeyHash(digest, key)))
  {
    var t := DhtStorage.KeyHash(digest, key);
    LocatedStops(links, self, self, t, {links[self].id});
    var current := self;
    var visited := {links[self].id};
    while true
      invariant current in links && visited <= IdsOf(links)
      invariant Located(links, self, current, t, visited) == KeyLocation(links, self, t)
      decreases |IdsOf(links) - visited|
    {
      if links[current].id >= t || links[links[current].right].id < t {
        return current;
      }
      current := links[current].right;
      if links[current].id in visited {
        return self;
      }
      VisitOneMore(links, visited, links[current].id);
      visited := visited + {links[current].id};
    }
  }

  /**
   * The placement the comment of `compute_key_location` states: the node
   * with the least id at or above the hash, or the least id overall when
   * the hash is above every id.  The walk of `find_responsible_node` in
   * `dht_storage.py` computes it on a sorted ring, from any start.
   */
  method SuccessorLocation(links: Links, self: Handle, digest: Key -> nat, key: Key, ghost order: seq<Handle>) returns (r: Handle)
    requires IsCycle(links, order) && order[0] == self
    ensures r in order
    ensures Ordered(links, order) ==> IsSuccessor(links, order, DhtStorage.KeyHash(digest, key), r)
  {
    var t := DhtStorage.KeyHash(digest, key);
    r := DhtStorage.FindResponsible(links, self, t, order);
    if Ordered(links, order) {
      DhtStorage.SortedRingFindsSuccessor(links, order, t);
    }
  }

  /** What `retrieve` and the `RETRIEVE` branch find for a key: the primary
      value, else the replica, else nothing. */
  function Held(data: map<Key, Value>, replicas: map<Key, Value>, key: Key): (found: Option<Value>)
    ensures found.Some? <==> key in data || key in replicas
    ensures key in data ==> found == Some(data[key])
    ensures key !in data && key in replicas ==> found == Some(replicas[key])
  {
    if key in data then Some(data[key])
    else if key in replicas then Some(replicas[key])
    else None
  }

  /** The mailboxes once `h` has replicated a pair: a `REPLICATE` to the
      left neighbour, then one to the right neighbour unless it is the left
      one.  Each neighbour gets exactly one copy and no one else gets any. */
  function Replicated(inbox: map<Handle, seq<Msg>>, links: Links, h: Handle, key: Key, value: Value)
    : (replicated: map<Handle, seq<Msg>>)
    requires Closed(links) && h in links && inbox.Keys == links.Keys
    ensures replicated.Keys == inbox.Keys
    ensures forall n :: n in inbox ==>
      replicated[n] == inbox[n] + if n == links[h].left || n == links[h].right then [Replicate(h, key, value)] else []
  {
    var l, r := links[h].left, links[h].right;
    var once := Post(inbox, l, Replicate(h, key, value));
    if r != l then Post(once, r, Replicate(h, key, value)) else once
  }

  /** The storage fields of every `StorageNode` object of the simulation;
      `digest` is the SHA-1 function. */
  class Stores {
    const net: Net
    const digest: Key -> nat
    var data: map<Handle, map<Key, Value>>
    var replicas: map<Handle, map<Key, Value>>

    ghost predicate Valid()
      reads this, net
    {
      && net.Valid()
      && data.Keys == net.links.Keys
      && replicas.Keys == net.links.Keys
    }

    constructor (digest: Key -> nat)
      ensures Valid() && fresh(net) && this.digest == digest
      ensures net.links == map[] && data == map[] && replicas == map[]
    {
      net := new Net();
      this.digest := digest;
      data := map[];
      replicas := map[];
    }

    /** `StorageNode.__init__`: a lone node with both maps empty. */
    method NewNode(id: int) returns (h: Handle)
      requires Valid()
      modifies this, net
      ensures Valid() && h !in old(net.links)
      ensures net.links == old(net.links)[h := Link(id, h, h)] && net.inbox == old(net.inbox)[h := []]
      ensures data == old(data)[h := map[]] && replicas == old(replicas)[h := map[]]
    {
      h := net.NewNode(id);
      data := data[h := map[]];
      replicas := replicas[h := map[]];
    }

    /** Send the pair to the neighbours as `Replicated` says. */
    method ReplicateToNeighbours(h: Handle, key: Key, value: Value)
      requires Valid() && h in net.links
      modifies net
      ensures Valid() && net.links == old(net.links)
      ensures net.inbox == Replicated(old(net.inbox), net.links, h, key, value)
    {
      var l, r := net.links[h].left, net.links[h].right;
      net.Send(l, Replicate(h, key, value));
      if r != l {
        net.Send(r, Replicate(h, key, value));
      }
    }

    /** Write the primary copy at `h` and replicate it; afterwards `h`
        finds the value under the key. */
    method StorePrimary(h: Handle, key: Key, value: Value)
      requires Valid() && h in net.links
      modifies this, net
      ensures Valid() && net.links == old(net.links)
      ensures data == old(data)[h := old(data[h])[key := value]] && replicas == old(replicas)
      ensures net.inbox == Replicated(old(net.inbox), net.links, h, key, value)
      ensures Held(data[h], replicas[h], key) == Some(value)
    {
      data := data[h := data[h][key := value]];
      ReplicateToNeighbours(h, key, value);
    }

    /** `store`: the node `compute_key_location` names keeps the primary
        copy if it is `h`; otherwise it is sent a `STORE` with `h` as the
        origin and nothing else changes. */
    method Store(h: Handle, key: Key, value: Value) returns (r: Handle)
      requires Valid() && h in net.links
      modifies this, net
      ensures Valid() && net.links == old(net.links)
      ensures r == KeyLocation(net.links, h, DhtStorage.KeyHash(digest, key))
      ensures r == h ==> data == old(data)[h := old(data[h])[key := value]] && replicas == old(replicas)
      ensures r == h ==> net.inbox == Replicated(old(net.inbox), net.links, h, key, value)
      ensures r != h ==> data == old(data) && replicas == old(replicas)
      ensures r in net.links && (r != h ==> net.inbox == Post(old(net.inbox), r, SimRing.Store(h, key, value, h)))
    {
      r := ComputeKeyLocation(net.links, h, digest, key);
      if r == h {
        StorePrimary(h, key, value);
      } else {
        net.Send(r, SimRing.Store(h, key, value, h));
      }
    }

    /** `retrieve`: the node `compute_key_location` names answers at once
        if it is `h`; otherwise it is sent a `RETRIEVE` with `h` as the
        origin and the call returns nothing.  No map changes. */
    method Retrieve(h: Handle, key: Key) returns (r: Handle, found: Option<Value>)
      requires Valid() && h in net.links
      modifies net
      ensures Valid() && net.links == old(net.links)
      ensures r == KeyLocation(net.links, h, DhtStorage.KeyHash(digest, key))
      ensures r == h ==> found == Held(data[h], replicas[h], key) && net.inbox == old(net.inbox)
      ensures r in net.links && (r != h ==> found.None? && net.inbox == Post(old(net.inbox), r, SimRing.Retrieve(h, key, h)))
    {
      r := ComputeKeyLocation(net.links, h, digest, key);
      if r == h {
        found := Held(data[h], replicas[h], key);
      } else {
        net.Send(r, SimRing.Retrieve(h, key, h));
        found := None;
      }
    }

    /** The `STORE` branch of `run`: write the primary copy with no
        responsibility check, replicate, and confirm to the origin unless
        the origin is `h` itself. */
    method OnStore(h: Handle, key: Key, value: Value, origin: Handle)
      requires Valid() && h in net.links && origin in net.links
      modifies this, net
      ensures Valid() && net.links == old(net.links)
      ensures data == old(data)[h := old(data[h])[key := value]] && replicas == old(replicas)
      ensures origin == h ==> net.inbox == Replicated(old(net.inbox), net.links, h, key, value)
      ensures origin != h ==>
        net.inbox == Post(Replicated(old(net.inbox), net.links, h, key, value), origin, StoreConfirm(h, key))
    {
      StorePrimary(h, key, value);
      if origin != h {
        net.Send(origin, StoreConfirm(h, key));
      }
    }

    /** The `RETRIEVE` branch of `run`: answer the origin with what `h`
        holds, unless the origin is `h` itself; no map changes. */
    method OnRetrieve(h: Handle, key: Key, origin: Handle)
      requires Valid() && h in net.links && origin in net.links
      modifies net
      ensures Valid() && net.links == old(net.links)
      ensures origin == h ==> net.inbox == old(net.inbox)
      ensures origin != h ==>
        net.inbox == Post(old(net.inbox), origin, RetrieveResponse(h, key, Held(data[h], replicas[h], key)))
    {
      if origin != h {
        net.Send(origin, RetrieveResponse(h, key, Held(data[h], replicas[h], key)));
      }
    }

    /** The `REPLICATE` branch of `run`: overwrite the replica; a primary
        copy of the key, if any, still shadows it. */
    method OnReplicate(h: Handle, key: Key, value: Value)
      requires Valid() && h in net.links
      modifies this
      ensures Valid()
      ensures replicas == old(replicas)[h := old(replicas[h])[key := value]] && data == old(data)
      ensures key in data[h] ==> Held(data[h], replicas[h], key) == Held(old(data[h]), old(replicas[h]), key)
      ensures key !in data[h] ==> Held(data[h], replicas[h], key) == Some(value)
    {
      replicas := replicas[h := replicas[h][key := value]];
    }
  }
}
