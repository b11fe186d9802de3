/**
 * `version1/AdvancedNode.py`: ring nodes with long links keyed by node id,
 * built in one of two modes.  In "triche" mode a node links, ten time units
 * after starting, to the nodes whose ids lie exactly 10, 20 and 40 ahead of
 * its own, looked up in a list of all nodes; in "piggyback" mode every
 * message's sender whose id is not yet linked becomes a link.  The next hop
 * is an exact long link or the neighbour that lies less far before the
 * target clockwise, and `ROUTE` messages carry no hop count.
 *
 * The base class `version1/StorageNode.py` is not part of this model; the
 * neighbour fields and mailboxes are those of `DhtRing.Ring`.
 */
module ShortcutRouting {
  import opened Wrappers
  import opened Topology
  import opened Ids
  import opened DhtRing

  /** The `mode` string: `'triche'`, `'piggyback'`, or anything else. */
  datatype Mode = Triche | Piggyback | Plain

  /**
   * `find_best_route`: a long link keyed exactly by the target, otherwise
   * whichever neighbour the target lies fewer steps clockwise from, the left
   * one when both are as far.
   */
  function BestRoute(links: Links, h: Handle, longLinks: map<int, Handle>, target: int): (next: Handle)
    requires Closed(links) && h in links
    ensures target in longLinks ==> next == longLinks[target]
    ensures target !in longLinks ==> next == links[h].left || next == links[h].right
    ensures target !in longLinks ==>
      Clockwise(IdOf(links, next), target)
        == Min(Clockwise(IdOf(links, links[h].right), target), Clockwise(IdOf(links, links[h].left), target))
    ensures target !in longLinks
      && Clockwise(IdOf(links, links[h].right), target) == Clockwise(IdOf(links, links[h].left), target)
      ==> next == links[h].left
  {
    if target in longLinks then longLinks[target]
    else
      var r, l := links[h].right, links[h].left;
      if Clockwise(links[r].id, target) < Clockwise(links[l].id, target) then r else l
  }

  /** The last node of `nodes` whose id is `t`: the one the scan of
      `_create_long_links` leaves in place, each match overwriting the last. */
  function LastWithId(links: Links, nodes: seq<Handle>, t: int): (found: Option<Handle>)
    ensures found.Some? ==> found.value in nodes && IdOf(links, found.value) == t
    ensures found.None? ==> forall i :: 0 <= i < |nodes| ==> IdOf(links, nodes[i]) != t
    ensures found.Some? ==>
      exists i :: 0 <= i < |nodes| && nodes[i] == found.value && forall j :: i < j < |nodes| ==> IdOf(links, nodes[j]) != t
  {
    if nodes == [] then None
    else if IdOf(links, nodes[|nodes| - 1]) == t then Some(nodes[|nodes| - 1])
    else LastWithId(links, nodes[..|nodes| - 1], t)
  }

  /** `longLinks` once `found`, if any, is stored under `t`. */
  function LinkFound(longLinks: map<int, Handle>, found: Option<Handle>, t: int): map<int, Handle>
  {
    if found.Some? then longLinks[t := found.value] else longLinks
  }

  /** The ids a node of id `id` links to in "triche" mode. */
  function Target(id: int, offset: int): int
  {
    (id + offset) % Space
  }

  /** A node's long links after the three scans of "triche" mode. */
  function TricheLinks(links: Links, id: int, nodes: seq<Handle>, longLinks: map<int, Handle>): map<int, Handle>
  {
    var t1, t2, t3 := Target(id, 10), Target(id, 20), Target(id, 40);
    var after10 := LinkFound(longLinks, LastWithId(links, nodes, t1), t1);
    var after20 := LinkFound(after10, LastWithId(links, nodes, t2), t2);
    LinkFound(after20, LastWithId(links, nodes, t3), t3)
  }

  /**
   * "Triche" mode adds a link only to a node of the list whose id is exactly
   * 10, 20 or 40 ahead, adds one for each of those ids that some listed node
   * carries, and leaves every other entry as it was.
   */
  lemma TricheLinksExact(links: Links, id: int, nodes: seq<Handle>, longLinks: map<int, Handle>)
    ensures var linked := TricheLinks(links, id, nodes, longLinks);
      forall t :: t in linked && (t !in longLinks || linked[t] != longLinks[t]) ==>
        && (t == Target(id, 10) || t == Target(id, 20) || t == Target(id, 40))
        && linked[t] in nodes && IdOf(links, linked[t]) == t
    ensures var linked := TricheLinks(links, id, nodes, longLinks);
      forall t :: t == Target(id, 10) || t == Target(id, 20) || t == Target(id, 40) ==>
        (t in linked <==> t in longLinks || exists i :: 0 <= i < |nodes| && IdOf(links, nodes[i]) == t)
    ensures TricheLinks(links, id, nodes, longLinks).Keys >= longLinks.Keys
  {
    var t1, t2, t3 := Target(id, 10), Target(id, 20), Target(id, 40);
    forall t | t == t1 || t == t2 || t == t3
      ensures t in TricheLinks(links, id, nodes, longLinks) <==>
        t in longLinks || exists i :: 0 <= i < |nodes| && IdOf(links, nodes[i]) == t
    {
      var found := LastWithId(links, nodes, t);
      if found.Some? {
        var i :| 0 <= i < |nodes| && nodes[i] == found.value;
      }
    }
  }

  /** One scan of `_create_long_links` over `allNodes` for the id `t`: each
      node carrying `t` is stored under it in `linked`, the last one staying. */
  method ScanFor(links: Links, allNodes: seq<Handle>, t: int, linked: map<int, Handle>) returns (scanned: map<int, Handle>)
    requires forall i :: 0 <= i < |allNodes| ==> allNodes[i] in links
    requires forall k :: k in linked ==> linked[k] in links
    ensures scanned == LinkFound(linked, LastWithId(links, allNodes, t), t)
    ensures forall k :: k in scanned ==> scanned[k] in links
  {
    scanned := linked;
    var i := 0;
    while i < |allNodes|
      invariant 0 <= i <= |allNodes|
      invariant scanned == LinkFound(linked, LastWithId(links, allNodes[..i], t), t)
      invariant forall k :: k in scanned ==> scanned[k] in links
    {
      assert allNodes[..i + 1][..i] == allNodes[..i];
      if links[allNodes[i]].id == t {
        scanned := scanned[t := allNodes[i]];
      }
      i := i + 1;
    }
    assert allNodes[..i] == allNodes;
  }

  /**
   * The long-link fields of every `AdvancedNode` object of the version-1
   * network: `long_links` maps a node id to a node object, `mode` says how
   * the links are built.
   */
  class Shortcuts {
    const ring: Ring
    var longLinks: map<Handle, map<int, Handle>>
    var mode: map<Handle, Mode>

    ghost predicate Valid()
      reads this, ring
    {
      && ring.Valid()
      && longLinks.Keys == ring.links.Keys
      && mode.Keys == ring.links.Keys
      && forall h, i :: h in longLinks && i in longLinks[h] ==> longLinks[h][i] in ring.links
    }

    constructor ()
      ensures Valid() && fresh(ring) && ring.links == map[] && longLinks == map[]
    {
      ring := new Ring();
      longLinks := map[];
      mode := map[];
    }

    /**
     * A new node with no long links.  The source's initializer is misnamed
     * `init`, so Python never runs it and the node has no `long_links`,
     * `mode` or `all_nodes`; the model assumes it ran.
     */
    method NewNode(id: int, m: Mode) returns (h: Handle)
      requires Valid()
      modifies this, ring
      ensures Valid() && h !in old(ring.links)
      ensures ring.links == old(ring.links)[h := Link(id, h, h)] && ring.inbox == old(ring.inbox)[h := []]
      ensures longLinks == old(longLinks)[h := map[]] && mode == old(mode)[h := m]
    {
      h := ring.NewNode(id, None);
      longLinks := longLinks[h := map[]];
      mode := mode[h := m];
    }

    /**
     * `route_message`, and equally the `ROUTE` branch of `run`: at the
     * target id nothing is sent; elsewhere `ROUTE` goes to `find_best_route`
     * with the same target and message.
     */
    method RouteMessage(h: Handle, target: int, message: string) returns (next: Option<Handle>)
      requires Valid() && h in ring.links
      modifies ring
      ensures Valid() && ring.links == old(ring.links)
      ensures next.None? <==> target == IdOf(ring.links, h)
      ensures next.None? ==> ring.inbox == old(ring.inbox)
      ensures next.Some? ==> next.value == BestRoute(ring.links, h, longLinks[h], target)
      ensures next.Some? ==> ring.inbox == Post(old(ring.inbox), next.value, Route(h, target, message))
    {
      if target == ring.links[h].id {
        next := None;
      } else {
        var n := BestRoute(ring.links, h, longLinks[h], target);
        ring.Send(n, Route(h, target, message));
        next := Some(n);
      }
    }

    /**
     * The piggyback step `run` takes for every message before handling it:
     * in "piggyback" mode the sender is recorded under its id unless that id
     * is already linked; nothing changes in any other mode.
     */
    method Discover(h: Handle, sender: Handle)
      requires Valid() && h in ring.links && sender in ring.links
      modifies this
      ensures Valid() && mode == old(mode)
      ensures mode[h] == Piggyback && IdOf(ring.links, sender) !in old(longLinks[h]) ==>
        longLinks == old(longLinks)[h := LinkFound(old(longLinks)[h], Some(sender), IdOf(ring.links, sender))]
      ensures !(mode[h] == Piggyback && IdOf(ring.links, sender) !in old(longLinks[h])) ==>
        longLinks == old(longLinks)
    {
      if mode[h] == Piggyback && ring.links[sender].id !in longLinks[h] {
        longLinks := longLinks[h := longLinks[h][ring.links[sender].id := sender]];
      }
    }

    /**
     * `_create_long_links` once its timer has fired, given the `all_nodes`
     * list as it stands then: in "triche" mode with a non-empty list, the
     * three scans for the ids 10, 20 and 40 ahead; nothing otherwise.
     */
    method CreateLongLinks(h: Handle, allNodes: seq<Handle>)
      requires Valid() && h in ring.links && forall i :: 0 <= i < |allNodes| ==> allNodes[i] in ring.links
      modifies this
      ensures Valid() && mode == old(mode)
      ensures mode[h] == Triche && allNodes != [] ==>
        longLinks == old(longLinks)[h := TricheLinks(ring.links, IdOf(ring.links, h), allNodes, old(longLinks)[h])]
      ensures !(mode[h] == Triche && allNodes != []) ==> longLinks == old(longLinks)
    {
      if mode[h] == Triche && allNodes != [] {
        var id := ring.links[h].id;
        var linked := ScanFor(ring.links, allNodes, Target(id, 10), longLinks[h]);
        linked := ScanFor(ring.links, allNodes, Target(id, 20), linked);
        linked := ScanFor(ring.links, allNodes, Target(id, 40), linked);
        longLinks := longLinks[h := linked];
      }
    }
  }
}
