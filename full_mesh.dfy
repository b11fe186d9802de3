/**
 * `DHT.py` and `DHTNode.py`: a registry of nodes keyed by node id in which
 * every member keeps a routing table of all the other members, and a node's
 * own key/value store addressed by a hash of the key.  `DHT.join` registers
 * a node and links it with every other member both ways; `DHT.leave` drops
 * an id from the registry and from every remaining member's table.
 *
 * Node objects are handles; `ids`, `tables` and `stores` hold each object's
 * `node_id`, `routing_table` and `data_store`, and `nodes` is the registry.
 * The 8-hex-digit SHA-1 prefix a key is stored under is the parameter
 * `slot`.
 */
module FullMesh {
  import opened Wrappers

  type Handle = nat
  type Value = string

  /** The answer of `lookup` for a slot that was never written. */
  const NotFound: Value := "Not Found"

  /** Every registered object is registered under its own id. */
  predicate Registered(ids: map<Handle, int>, nodes: map<int, Handle>)
  {
    forall k :: k in nodes ==> nodes[k] in ids && ids[nodes[k]] == k
  }

  /** `h` is the object the registry holds under `h`'s id. */
  predicate IsMember(ids: map<Handle, int>, nodes: map<int, Handle>, h: Handle)
  {
    h in ids && ids[h] in nodes && nodes[ids[h]] == h
  }

  /** The registry entries whose ids are in `seen`, other than `x`. */
  function Others(nodes: map<int, Handle>, x: int, seen: set<int>): (others: map<int, Handle>)
    ensures forall k :: k in others <==> k in nodes && k in seen && k != x
  {
    map k | k in nodes && k in seen && k != x :: nodes[k]
  }

  /** A routing table once `n` is listed under `id`. */
  function Listed(table: map<int, Handle>, id: int, n: Handle): map<int, Handle>
  {
    table[id := n]
  }

  /**
   * The routing tables once `join` of `n` (already in `nodes`) has visited
   * the members whose ids are in `seen`: each of them other than `n` lists
   * `n` under `n`'s id, and `n` lists each of them under its id.
   */
  function JoinedUpTo(tables: map<Handle, map<int, Handle>>, ids: map<Handle, int>, nodes: map<int, Handle>,
                      n: Handle, seen: set<int>): map<Handle, map<int, Handle>>
    requires n in ids
  {
    map h | h in tables ::
      if h == n then tables[h] + Others(nodes, ids[n], seen)
      else if IsMember(ids, nodes, h) && ids[h] in seen && ids[h] != ids[n] then Listed(tables[h], ids[n], n)
      else tables[h]
  }

  /** The routing tables after `join` of `n`. */
  function JoinedTables(tables: map<Handle, map<int, Handle>>, ids: map<Handle, int>, nodes: map<int, Handle>, n: Handle)
    : map<Handle, map<int, Handle>>
    requires n in ids
  {
    JoinedUpTo(tables, ids, nodes, n, nodes.Keys)
  }

  /** The routing tables once `leave` of `x` has visited the remaining
      members whose ids are in `seen`: each of them has dropped `x`. */
  function LeftUpTo(tables: map<Handle, map<int, Handle>>, ids: map<Handle, int>, nodes: map<int, Handle>,
                    x: int, seen: set<int>): map<Handle, map<int, Handle>>
  {
    map h | h in tables ::
      if IsMember(ids, nodes, h) && ids[h] in seen then tables[h] - {x} else tables[h]
  }

  /** The routing tables after `leave` of `x`, `nodes` being the registry
      without it. */
  function LeftTables(tables: map<Handle, map<int, Handle>>, ids: map<Handle, int>, nodes: map<int, Handle>, x: int)
    : map<Handle, map<int, Handle>>
  {
    LeftUpTo(tables, ids, nodes, x, nodes.Keys)
  }

  /** The loop of `join` over the registry, on values. */
  method JoinLoop(tables: map<Handle, map<int, Handle>>, ids: map<Handle, int>, nodes: map<int, Handle>, n: Handle)
    returns (joined: map<Handle, map<int, Handle>>)
    requires Registered(ids, nodes) && IsMember(ids, nodes, n) && n in tables
    requires forall k :: k in nodes ==> nodes[k] in tables
    ensures joined == JoinedTables(tables, ids, nodes, n)
  {
    var x := ids[n];
    joined := tables;
    var rest := nodes.Keys;
    while rest != {}
      invariant rest <= nodes.Keys && joined.Keys == tables.Keys
      invariant forall h :: h in joined && h != n ==>
        joined[h] == if IsMember(ids, nodes, h) && ids[h] !in rest && ids[h] != x then Listed(tables[h], x, n) else tables[h]
      invariant forall j :: j in joined[n] <==> j in tables[n] || (j in nodes && j !in rest && j != x)
      invariant forall j :: j in joined[n] ==>
        joined[n][j] == if j in nodes && j !in rest && j != x then nodes[j] else tables[n][j]
      decreases |rest|
    {
      Inhabited(rest);
      var k :| k in rest;
      var other := nodes[k];
      if ids[other] != x {
        joined := joined[other := Listed(joined[other], x, n)];
        joined := joined[n := Listed(joined[n], ids[other], other)];
      }
      rest := rest - {k};
    }
    JoinedAt(tables, ids, nodes, n, joined);
  }

  /** Tables that agree with `join`'s outcome row by row are that outcome. */
  lemma JoinedAt(tables: map<Handle, map<int, Handle>>, ids: map<Handle, int>, nodes: map<int, Handle>, n: Handle,
                 joined: map<Handle, map<int, Handle>>)
    requires n in ids && n in tables && joined.Keys == tables.Keys
    requires forall h :: h in joined && h != n ==>
      joined[h] == if IsMember(ids, nodes, h) && ids[h] != ids[n] then Listed(tables[h], ids[n], n) else tables[h]
    requires forall j :: j in joined[n] <==> j in tables[n] || (j in nodes && j != ids[n])
    requires forall j :: j in joined[n] ==> joined[n][j] == if j in nodes && j != ids[n] then nodes[j] else tables[n][j]
    ensures joined == JoinedTables(tables, ids, nodes, n)
  {
    var spec := JoinedTables(tables, ids, nodes, n);
    var others := Others(nodes, ids[n], nodes.Keys);
    assert spec[n] == tables[n] + others;
    forall j | j in joined[n]
      ensures j in tables[n] + others && joined[n][j] == (tables[n] + others)[j]
    {
    }
    forall j | j in tables[n] + others
      ensures j in joined[n]
    {
    }
    assert joined[n] == spec[n];
    forall h | h in joined
      ensures joined[h] == spec[h]
    {
    }
  }

  /** The loop of `leave` over the remaining registry, on values. */
  method LeaveLoop(tables: map<Handle, map<int, Handle>>, ids: map<Handle, int>, nodes: map<int, Handle>, x: int)
    returns (left: map<Handle, map<int, Handle>>)
    requires Registered(ids, nodes)
    requires forall k :: k in nodes ==> nodes[k] in tables
    ensures left == LeftTables(tables, ids, nodes, x)
  {
    left := tables;
    var rest := nodes.Keys;
    while rest != {}
      invariant rest <= nodes.Keys && left.Keys == tables.Keys
      invariant forall h :: h in left ==>
        left[h] == if IsMember(ids, nodes, h) && ids[h] !in rest then tables[h] - {x} else tables[h]
      decreases |rest|
    {
      Inhabited(rest);
      var k :| k in rest;
      var node := nodes[k];
      left := left[node := left[node] - {x}];
      rest := rest - {k};
    }
    assert left == LeftTables(tables, ids, nodes, x);
  }

  /** Each member's table holds exactly the other members, each under its
      own id. */
  ghost predicate Meshed(ids: map<Handle, int>, nodes: map<int, Handle>, tables: map<Handle, map<int, Handle>>)
  {
    forall k :: k in nodes ==>
      && nodes[k] in tables
      && (forall j :: j in tables[nodes[k]] <==> j in nodes && j != k)
      && (forall j :: j in tables[nodes[k]] ==> tables[nodes[k]][j] == nodes[j])
  }

  /** After `join` of `n` under id `x`, every other member lists `n` under
      `x`, `n` lists every other member under its id, and `n` lists itself
      only if it did so before. */
  lemma JoinLinksBothWays(tables: map<Handle, map<int, Handle>>, ids: map<Handle, int>, nodes: map<int, Handle>, n: Handle)
    requires Registered(ids, nodes) && IsMember(ids, nodes, n)
    requires forall k :: k in nodes ==> nodes[k] in tables
    ensures var joined := JoinedTables(tables, ids, nodes, n);
      forall k :: k in nodes && k != ids[n] ==>
        && ids[n] in joined[nodes[k]] && joined[nodes[k]][ids[n]] == n
        && k in joined[n] && joined[n][k] == nodes[k]
    ensures ids[n] !in tables[n] ==> ids[n] !in JoinedTables(tables, ids, nodes, n)[n]
  {
    var joined := JoinedTables(tables, ids, nodes, n);
    forall k | k in nodes && k != ids[n]
      ensures ids[n] in joined[nodes[k]] && joined[nodes[k]][ids[n]] == n
    {
      assert IsMember(ids, nodes, nodes[k]);
    }
  }

  /** `join` keeps every member linked with exactly the others, provided
      the joiner's own table holds only other members, each under its id
      (true of a new node, whose table is empty). */
  lemma {:induction false} JoinKeepsMesh(tables: map<Handle, map<int, Handle>>, ids: map<Handle, int>, nodes: map<int, Handle>, n: Handle)
    requires n in ids && n in tables && Registered(ids, nodes) && Meshed(ids, nodes, tables)
    requires forall j :: j in tables[n] ==> j in nodes && j != ids[n] && tables[n][j] == nodes[j]
    ensures var after := nodes[ids[n] := n];
      Meshed(ids, after, JoinedTables(tables, ids, after, n))
  {
    var x := ids[n];
    var after := nodes[x := n];
    var joined := JoinedTables(tables, ids, after, n);
    forall k | k in after
      ensures after[k] in joined
      ensures forall j :: j in joined[after[k]] <==> j in after && j != k
      ensures forall j :: j in joined[after[k]] ==> joined[after[k]][j] == after[j]
    {
      if k != x {
        assert IsMember(ids, after, after[k]) && after[k] == nodes[k] && after[k] != n;
        assert joined[after[k]] == Listed(tables[nodes[k]], x, n);
      }
    }
  }

  /** `leave` keeps every remaining member linked with exactly the others. */
  lemma {:induction false} LeaveKeepsMesh(tables: map<Handle, map<int, Handle>>, ids: map<Handle, int>, nodes: map<int, Handle>, x: int)
    requires Registered(ids, nodes) && Meshed(ids, nodes, tables)
    ensures var after := map k | k in nodes && k != x :: nodes[k];
      Meshed(ids, after, LeftTables(tables, ids, after, x))
  {
    var after := map k | k in nodes && k != x :: nodes[k];
    var left := LeftTables(tables, ids, after, x);
    forall k | k in after
      ensures after[k] in left
      ensures forall j :: j in left[after[k]] <==> j in after && j != k
      ensures forall j :: j in left[after[k]] ==> left[after[k]][j] == after[j]
    {
      assert IsMember(ids, after, after[k]);
      assert left[after[k]] == tables[nodes[k]] - {x};
    }
  }

  /** The fields of one `DHT` object and of the `DHTNode` objects it may
      register. */
  class Mesh {
    const slot: string -> string
    var nodes: map<int, Handle>
    var ids: map<Handle, int>
    var tables: map<Handle, map<int, Handle>>
    var stores: map<Handle, map<string, Value>>
    /** Handles at or above `unused` name no node object yet. */
    var unused: Handle

    ghost predicate Valid()
      reads this
    {
      && tables.Keys == ids.Keys
      && stores.Keys == ids.Keys
      && Registered(ids, nodes)
      && forall h :: h in ids ==> h < unused
    }

    /** `DHT.__init__`: an empty registry. */
    constructor (slot: string -> string)
      ensures Valid() && this.slot == slot && nodes == map[] && ids == map[]
    {
      this.slot := slot;
      nodes := map[];
      ids := map[];
      tables := map[];
      stores := map[];
      unused := 0;
    }

    /** `DHTNode.__init__`: a node object with empty table and store, not
        yet registered. */
    method NewNode(id: int) returns (h: Handle)
      requires Valid()
      modifies this
      ensures Valid() && h !in old(ids) && nodes == old(nodes)
      ensures ids == old(ids)[h := id] && tables == old(tables)[h := map[]] && stores == old(stores)[h := map[]]
    {
      h := unused;
      unused := unused + 1;
      ids := ids[h := id];
      tables := tables[h := map[]];
      stores := stores[h := map[]];
    }

    /**
     * `DHT.join`: register `n` under its id, replacing whatever object held
     * that id (so the member count grows only for a new id), then link it
     * with every other member both ways.
     */
    method Join(n: Handle)
      requires Valid() && n in ids
      modifies this
      ensures Valid() && ids == old(ids) && stores == old(stores)
      ensures nodes == old(nodes)[ids[n] := n]
      ensures |nodes| == if ids[n] in old(nodes) then |old(nodes)| else |old(nodes)| + 1
      ensures tables == JoinedTables(old(tables), ids, nodes, n)
    {
      nodes := nodes[ids[n] := n];
      tables := JoinLoop(tables, ids, nodes, n);
    }

    /** `DHT.leave`: an absent id changes nothing; a present one leaves the
        registry and every remaining member's table.  The leaving object's
        own table is left as it was. */
    method Leave(x: int)
      requires Valid()
      modifies this
      ensures Valid() && ids == old(ids) && stores == old(stores)
      ensures x !in old(nodes) ==> nodes == old(nodes) && tables == old(tables)
      ensures x in old(nodes) ==> nodes == map k | k in old(nodes) && k != x :: old(nodes)[k]
      ensures x in old(nodes) ==> tables == LeftTables(old(tables), ids, nodes, x)
    {
      if x in nodes {
        nodes := map k | k in nodes && k != x :: nodes[k];
        tables := LeaveLoop(tables, ids, nodes, x);
      }
    }

    /** `DHT.get_node`: the object registered under `x`, or nothing. */
    function GetNode(x: int): (found: Option<Handle>)
      reads this
      requires Valid()
      ensures found.Some? <==> x in nodes
      ensures found.Some? ==> found.value == nodes[x] && found.value in ids && ids[found.value] == x
    {
      if x in nodes then Some(nodes[x]) else None
    }

    /** `DHTNode.send`: the message reaches the object registered under the
        recipient id, if there is one; nothing changes either way. */
    method Send(recipientId: int) returns (recipient: Option<Handle>)
      requires Valid()
      ensures recipient.Some? <==> recipientId in nodes
      ensures recipient.Some? ==> recipient.value == nodes[recipientId] && ids[recipient.value] == recipientId
    {
      recipient := GetNode(recipientId);
    }

    /** `DHTNode.lookup`: the value in the key's slot, or `"Not Found"`. */
    function Lookup(h: Handle, key: string): (v: Value)
      reads this
      requires Valid() && h in ids
      ensures slot(key) in stores[h] ==> v == stores[h][slot(key)]
      ensures slot(key) !in stores[h] ==> v == NotFound
    {
      if slot(key) in stores[h] then stores[h][slot(key)] else NotFound
    }

    /** `DHTNode.store`: write the key's slot and nothing else.  A later
        `lookup` of any key hashing to that slot finds the value; every
        other key reads as before. */
    method Store(h: Handle, key: string, value: Value)
      requires Valid() && h in ids
      modifies this
      ensures Valid() && nodes == old(nodes) && ids == old(ids) && tables == old(tables)
      ensures stores == old(stores)[h := old(stores[h])[slot(key) := value]]
      ensures forall k :: slot(k) == slot(key) ==> Lookup(h, k) == value
      ensures forall k :: slot(k) != slot(key) ==> Lookup(h, k) == old(Lookup(h, k))
    {
      stores := stores[h := stores[h][slot(key) := value]];
    }
  }
}
