/**
 * `StorageNode.py`: a node of the `Node.py` ring that also keeps a primary
 * `data_store` and a `replicated_data` map.  Unlike `dht_storage.py` it makes
 * no responsibility check: a `PUT_REQUEST` is stored by whichever node
 * receives it, and a `GET_REQUEST` is answered from that node's own map.
 *
 * The neighbour fields and mailboxes are the `DhtRing.Ring` of `Node.py`;
 * the base kinds (`JOIN_REQUEST`, `UPDATE_LEFT`, `UPDATE_RIGHT`) are the
 * ring's own handlers, which cannot touch the maps held here.
 */
module NodeStorage {
  import opened Wrappers
  import opened Topology
  import opened DhtRing
  import DhtStorage

  class Keeper {
    const ring: Ring
    var dataStore: map<Handle, map<Key, Value>>
    var replicated: map<Handle, map<Key, Value>>

    ghost predicate Valid()
      reads this, ring
    {
      && ring.Valid()
      && dataStore.Keys == ring.links.Keys
      && replicated.Keys == ring.links.Keys
    }

    constructor ()
      ensures Valid() && fresh(ring)
      ensures ring.links == map[] && dataStore == map[] && replicated == map[]
    {
      ring := new Ring();
      dataStore := map[];
      replicated := map[];
    }

    /** `StorageNode.__init__`: a one-member ring with both maps empty;
        `Node.__init__` does not join by itself. */
    method NewNode(id: int) returns (h: Handle)
      requires Valid()
      modifies this, ring
      ensures Valid() && h !in old(ring.links)
      ensures ring.links == old(ring.links)[h := Link(id, h, h)] && ring.inbox == old(ring.inbox)[h := []]
      ensures dataStore == old(dataStore)[h := map[]] && replicated == old(replicated)[h := map[]]
    {
      h := ring.NewNode(id, None);
      dataStore := dataStore[h := map[]];
      replicated := replicated[h := map[]];
    }

    /** `get_data`: the primary value of `key`, or `None`; the replicas are
        never consulted. */
    function GetData(h: Handle, key: Key): (found: Option<Value>)
      reads this, ring
      requires Valid() && h in ring.links
      ensures found.Some? <==> key in dataStore[h]
      ensures found.Some? ==> found.value == dataStore[h][key]
    {
      DhtStorage.Lookup(dataStore[h], key)
    }

    /** `store_data`: set one primary pair; a later `get_data` of that key
        returns the value, and every other key reads as before. */
    method StoreData(h: Handle, key: Key, value: Value)
      requires Valid() && h in ring.links
      modifies this
      ensures Valid()
      ensures dataStore == old(dataStore)[h := old(dataStore[h])[key := value]]
      ensures replicated == old(replicated)
      ensures GetData(h, key) == Some(value)
      ensures forall k :: k != key ==> GetData(h, k) == old(GetData(h, k))
    {
      dataStore := dataStore[h := dataStore[h][key := value]];
    }

    /** The `PUT_REQUEST` branch of `run`: store here, whoever is
        responsible, and confirm the key to the sender. */
    method OnPutRequest(h: Handle, sender: Handle, key: Key, value: Value)
      requires Valid() && h in ring.links && sender in ring.links
      modifies this, ring
      ensures Valid() && ring.links == old(ring.links)
      ensures dataStore == old(dataStore)[h := old(dataStore[h])[key := value]]
      ensures replicated == old(replicated)
      ensures ring.inbox == Post(old(ring.inbox), sender, PutConfirm(h, key))
    {
      StoreData(h, key, value);
      ring.Send(sender, PutConfirm(h, key));
    }

    /** The `GET_REQUEST` branch of `run`: answer with the key and what
        `get_data` finds, changing no field of any node. */
    method OnGetRequest(h: Handle, sender: Handle, key: Key)
      requires Valid() && h in ring.links && sender in ring.links
      modifies ring
      ensures Valid() && ring.links == old(ring.links)
      ensures ring.inbox == Post(old(ring.inbox), sender, GetResponse(h, key, GetData(h, key)))
    {
      ring.Send(sender, GetResponse(h, key, GetData(h, key)));
    }
  }
}
