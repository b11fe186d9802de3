/**
 * `AdvancedNode.py`: a `StorageNode.py` node with long links keyed by node
 * id, a next-hop choice by circular distance, hop-counted `ROUTE_REQUEST`
 * forwarding, and the long-link request/confirm handshake.
 */
module NodeRouting {
  import opened Wrappers
  import opened Topology
  import opened Ids
  import opened DhtRing
  import opened NodeStorage
  import opened Redispatch

  /**
   * `find_best_route`: a long link keyed exactly by the target, otherwise
   * whichever neighbour is closer to the target around the circle, the
   * right one when both are as close.
   */
  function BestRoute(links: Links, h: Handle, longLinks: map<int, Handle>, target: int): (next: Handle)
    requires Closed(links) && h in links
    ensures target in longLinks ==> next == longLinks[target]
    ensures target !in longLinks ==> next == links[h].left || next == links[h].right
    ensures target !in longLinks ==>
      CircularDistance(IdOf(links, next), target)
        == Min(CircularDistance(IdOf(links, links[h].left), target), CircularDistance(IdOf(links, links[h].right), target))
    ensures target !in longLinks
      && CircularDistance(IdOf(links, links[h].left), target) == CircularDistance(IdOf(links, links[h].right), target)
      ==> next == links[h].right
  {
    if target in longLinks then longLinks[target]
    else
      var l, r := links[h].left, links[h].right;
      if CircularDistance(links[l].id, target) < CircularDistance(links[r].id, target) then l else r
  }

  /**
   * The routing fields of every `AdvancedNode` object: `long_links` maps a
   * node id to the node object carrying it.  Every stored link carries the
   * id it is stored under and never points back at its owner.
   */
  class Linked {
    const storage: Keeper
    var longLinks: map<Handle, map<int, Handle>>

    ghost predicate Valid()
      reads this, storage, storage.ring
    {
      && storage.Valid()
      && longLinks.Keys == storage.ring.links.Keys
      && LinksSound(storage.ring.links, longLinks)
    }

    constructor ()
      ensures Valid() && fresh(storage) && fresh(storage.ring)
      ensures storage.ring.links == map[] && longLinks == map[]
    {
      storage := new Keeper();
      longLinks := map[];
    }

    /** `AdvancedNode.__init__`: a storage node with no long links. */
    method NewNode(id: int) returns (h: Handle)
      requires Valid()
      modifies this, storage, storage.ring
      ensures Valid() && h !in old(storage.ring.links)
      ensures storage.ring.links == old(storage.ring.links)[h := Link(id, h, h)]
      ensures storage.ring.inbox == old(storage.ring.inbox)[h := []]
      ensures storage.dataStore == old(storage.dataStore)[h := map[]]
      ensures storage.replicated == old(storage.replicated)[h := map[]]
      ensures longLinks == old(longLinks)[h := map[]]
    {
      h := storage.NewNode(id);
      longLinks := longLinks[h := map[]];
    }

    /** `add_long_link`: store `target` under its id, overwriting, unless
        it is the node itself. */
    method AddLongLink(h: Handle, target: Handle)
      requires Valid() && h in storage.ring.links && target in storage.ring.links
      modifies this
      ensures Valid()
      ensures target == h ==> longLinks == old(longLinks)
      ensures target != h ==> longLinks == old(longLinks)[h := WithLink(old(longLinks)[h], storage.ring.links, target)]
    {
      if target != h {
        AddKeepsSound(storage.ring.links, longLinks, h, target);
        longLinks := longLinks[h := WithLink(longLinks[h], storage.ring.links, target)];
      }
    }

    /**
     * The `ROUTE_REQUEST` branch of `run`: at the target id nothing is sent;
     * elsewhere the request goes to `find_best_route` with one hop more.
     * A request without a hop count counts as 0 hops.
     */
    method OnRouteRequest(h: Handle, target: int, hops: int, data: string) returns (next: Option<Handle>)
      requires Valid() && h in storage.ring.links
      modifies storage.ring
      ensures Valid() && storage.ring.links == old(storage.ring.links)
      ensures next.None? <==> target == IdOf(storage.ring.links, h)
      ensures next.None? ==> storage.ring.inbox == old(storage.ring.inbox)
      ensures next.Some? ==> next.value == BestRoute(storage.ring.links, h, longLinks[h], target)
      ensures next.Some? ==>
        storage.ring.inbox == Post(old(storage.ring.inbox), next.value, RouteRequest(h, target, hops + 1, data))
    {
      if target == storage.ring.links[h].id {
        next := None;
      } else {
        var n := BestRoute(storage.ring.links, h, longLinks[h], target);
        storage.ring.Send(n, RouteRequest(h, target, hops + 1, data));
        next := Some(n);
      }
    }

    /** The `LONG_LINK_REQUEST` branch: link to the sender and confirm with
        this node's id. */
    method OnLongLinkRequest(h: Handle, sender: Handle)
      requires Valid() && h in storage.ring.links && sender in storage.ring.links
      modifies this, storage.ring
      ensures Valid() && storage.ring.links == old(storage.ring.links)
      ensures sender == h ==> longLinks == old(longLinks)
      ensures sender != h ==> longLinks == old(longLinks)[h := WithLink(old(longLinks)[h], storage.ring.links, sender)]
      ensures storage.ring.inbox == Post(old(storage.ring.inbox), sender, LongLinkConfirm(h, IdOf(storage.ring.links, h)))
    {
      storage.ring.Send(sender, LongLinkConfirm(h, storage.ring.links[h].id));
      AddLongLink(h, sender);
    }

    /** The `LONG_LINK_CONFIRM` branch: link to the sender; the confirmed
        id is read but not used. */
    method OnLongLinkConfirm(h: Handle, sender: Handle, nodeId: int)
      requires Valid() && h in storage.ring.links && sender in storage.ring.links
      modifies this
      ensures Valid()
      ensures sender == h ==> longLinks == old(longLinks)
      ensures sender != h ==> longLinks == old(longLinks)[h := WithLink(old(longLinks)[h], storage.ring.links, sender)]
    {
      AddLongLink(h, sender);
    }

    /**
     * The long-link handshake between two distinct nodes: `b` handles `a`'s
     * `LONG_LINK_REQUEST`, then `a` handles the `LONG_LINK_CONFIRM` that `b`
     * queued for it (the confirmation is left in `a`'s mailbox; taking it
     * out is `Ring.Receive`).  Each ends up holding the other under the
     * other's id.
     */
    method Handshake(a: Handle, b: Handle)
      requires Valid() && a in storage.ring.links && b in storage.ring.links && a != b
      modifies this, storage.ring
      ensures Valid() && storage.ring.links == old(storage.ring.links)
      ensures IdOf(storage.ring.links, b) in longLinks[a] && longLinks[a][IdOf(storage.ring.links, b)] == b
      ensures IdOf(storage.ring.links, a) in longLinks[b] && longLinks[b][IdOf(storage.ring.links, a)] == a
      ensures storage.ring.inbox == Post(old(storage.ring.inbox), a, LongLinkConfirm(b, IdOf(storage.ring.links, b)))
    {
      OnLongLinkRequest(b, a);
      OnLongLinkConfirm(a, b, storage.ring.links[b].id);
    }
  }

  /** The kinds `run` hands to `super().run()`, the `StorageNode.py` loop. */
  predicate BaseKind(m: Msg)
  {
    m.JoinRequest? || m.UpdateLeft? || m.UpdateRight? || m.PutRequest? || m.GetRequest? || m.PutConfirm? || m.GetResponse?
  }

  /** The kinds with a branch of their own in `run`. */
  predicate OwnKind(m: Msg)
  {
    m.RouteRequest? || m.LongLinkRequest? || m.LongLinkConfirm?
  }

  /**
   * An `UPDATE_LEFT` followed by a `ROUTE_REQUEST`: as written, neither
   * reaches a branch, since the first starts the storage loop and is lost,
   * and that loop has no branch for the second.  Handled message by
   * message, as the model handles them, both are served.
   */
  lemma RedispatchLosesBoth(a: Handle, b: Handle)
    ensures var mail := [UpdateLeft(a, b), RouteRequest(a, 5, 0, "data")];
      && ServedAsWritten(mail, BaseKind, OwnKind, OwnLoop) == []
      && Served(mail, BaseKind, OwnKind) == mail
  {
  }

  /** A node's long links once `n` is stored under its own id. */
  function WithLink(longLinks: map<int, Handle>, links: Links, n: Handle): map<int, Handle>
  {
    longLinks[IdOf(links, n) := n]
  }

  lemma AddKeepsSound(links: Links, longLinks: map<Handle, map<int, Handle>>, h: Handle, n: Handle)
    requires LinksSound(links, longLinks) && h in longLinks && n in links && n != h
    ensures LinksSound(links, longLinks[h := WithLink(longLinks[h], links, n)])
  {
  }

  /** Each node's links sit under their own ids and never point back at it. */
  ghost predicate LinksSound(links: Links, longLinks: map<Handle, map<int, Handle>>)
  {
    forall h, i :: h in longLinks && i in longLinks[h] ==>
      && longLinks[h][i] in links
      && longLinks[h][i] != h
      && IdOf(links, longLinks[h][i]) == i
  }
}
