/**
 * The `AdvancedNode` class of `dht-simulation.py`: a storage node with
 * long links keyed by node id.  `create_long_links` adds at most the right
 * neighbour; `find_best_route` prefers an exact link, then the link the
 * target lies the fewest (positive) steps clockwise from, then a neighbour;
 * `ROUTE` messages carry a hop count and the node the route started at,
 * and the target answers that node with a `ROUTE_ACK`.
 */
module SimRouting {
  import opened Wrappers
  import opened Topology
  import opened Ids
  import opened SimRing
  import opened SimStorage
  import ShortcutRouting

  /** `dict.get(name, default)` on a message field that may be missing. */
  function OrElse<T>(field: Option<T>, default: T): (v: T)
    ensures field.Some? ==> v == field.value
    ensures field.None? ==> v == default
  {
    if field.Some? then field.value else default
  }

  /** Some long link lies a positive number of steps clockwise before the
      target. */
  ghost predicate HasPastLink(longLinks: map<int, Handle>, target: int)
  {
    exists k :: k in longLinks && 0 < Clockwise(k, target)
  }

  /** `n` is stored under an id that lies a positive number of steps before
      the target, and no such id lies fewer steps before it. */
  ghost predicate IsClosestLink(longLinks: map<int, Handle>, target: int, n: Handle)
  {
    exists k :: k in longLinks && longLinks[k] == n && 0 < Clockwise(k, target) &&
      forall k2 :: k2 in longLinks && 0 < Clockwise(k2, target) ==> Clockwise(k, target) <= Clockwise(k2, target)
  }

  /**
   * The scan over `long_links.items()` in `find_best_route`: keep a link
   * only when the target lies strictly fewer steps past it than past the
   * best so far, and never at 0 steps.  The dictionary's iteration order is
   * not modelled, so any link at the least distance may come out.
   */
  method ClosestLink(longLinks: map<int, Handle>, target: int) returns (best: Option<Handle>)
    ensures best.Some? <==> HasPastLink(longLinks, target)
    ensures best.Some? ==> IsClosestLink(longLinks, target, best.value)
  {
    var rest := longLinks.Keys;
    var bestD := Space;
    best := None;
    ghost var bk := 0;
    while rest != {}
      invariant rest <= longLinks.Keys
      invariant best.None? ==> bestD == Space && forall k :: k in longLinks && k !in rest ==> Clockwise(k, target) == 0
      invariant best.Some? ==>
        && bk in longLinks && bk !in rest && longLinks[bk] == best.value
        && bestD == Clockwise(bk, target) && 0 < bestD
        && forall k :: k in longLinks && k !in rest && 0 < Clockwise(k, target) ==> bestD <= Clockwise(k, target)
      decreases |rest|
    {
      Inhabited(rest);
      var k :| k in rest;
      var d := Clockwise(k, target);
      if 0 < d < bestD {
        best := Some(longLinks[k]);
        bestD := d;
        bk := k;
      }
      rest := rest - {k};
    }
  }

  /** What `find_best_route` may answer at `h` for `target`: the exact link,
      else a closest link before the target, else the neighbour rule of the
      version-1 nodes (right only when strictly fewer steps before it). */
  ghost predicate IsBestRoute(links: Links, h: Handle, longLinks: map<int, Handle>, target: int, n: Handle)
    requires Closed(links) && h in links
  {
    if target in longLinks then n == longLinks[target]
    else if HasPastLink(longLinks, target) then IsClosestLink(longLinks, target, n)
    else n == ShortcutRouting.BestRoute(links, h, map[], target)
  }

  /** `find_best_route`. */
  method FindBestRoute(links: Links, h: Handle, longLinks: map<int, Handle>, target: int) returns (next: Handle)
    requires Closed(links) && h in links && forall k :: k in longLinks ==> longLinks[k] in links
    ensures IsBestRoute(links, h, longLinks, target, next)
    ensures next in links
  {
    if target in longLinks {
      return longLinks[target];
    }
    var best := ClosestLink(longLinks, target);
    if best.Some? {
      return best.value;
    }
    var r, l := links[h].right, links[h].left;
    if Clockwise(links[r].id, target) < Clockwise(links[l].id, target) {
      next := r;
    } else {
      next := l;
    }
  }

  /** A table of long links once `n` is stored under `id`. */
  function LinkTo(table: map<int, Handle>, id: int, n: Handle): map<int, Handle>
  {
    table[id := n]
  }

  /** The routing fields of every `AdvancedNode` object of the simulation. */
  class Routes {
    const stores: Stores
    var longLinks: map<Handle, map<int, Handle>>

    ghost predicate Valid()
      reads this, stores, stores.net
    {
      && stores.Valid()
      && longLinks.Keys == stores.net.links.Keys
      && forall h, k :: h in longLinks && k in longLinks[h] ==> longLinks[h][k] in stores.net.links
    }

    constructor (digest: Key -> nat)
      ensures Valid() && fresh(stores) && fresh(stores.net)
      ensures stores.net.links == map[] && longLinks == map[]
    {
      stores := new Stores(digest);
      longLinks := map[];
    }

    /** `AdvancedNode.__init__`: a storage node with no long links. */
    method NewNode(id: int) returns (h: Handle)
      requires Valid()
      modifies this, stores, stores.net
      ensures Valid() && h !in old(stores.net.links)
      ensures stores.net.links == old(stores.net.links)[h := Link(id, h, h)]
      ensures stores.net.inbox == old(stores.net.inbox)[h := []]
      ensures stores.data == old(stores.data)[h := map[]] && stores.replicas == old(stores.replicas)[h := map[]]
      ensures longLinks == old(longLinks)[h := map[]]
    {
      h := stores.NewNode(id);
      longLinks := longLinks[h := map[]];
    }

    /**
     * `create_long_links`: of the five power-of-two targets only the first
     * round does anything.  A lone node skips every round and links to no
     * one; otherwise the right neighbour is stored under its id and the loop
     * stops.  The target ids are computed but never used, so they are left
     * out.
     */
    method CreateLongLinks(h: Handle)
      requires Valid() && h in stores.net.links
      modifies this
      ensures Valid()
      ensures var right: Handle := stores.net.links[h].right;
        right == h ==> longLinks == old(longLinks)
      ensures var right: Handle := stores.net.links[h].right;
        right != h ==> longLinks == old(longLinks)[h := LinkTo(old(longLinks[h]), IdOf(stores.net.links, right), right)]
      ensures longLinks[h].Keys <= old(longLinks[h]).Keys + {IdOf(stores.net.links, stores.net.links[h].right)}
    {
      var right := stores.net.links[h].right;
      var table := longLinks[h];
      var i := 1;
      while i < 6
        invariant 1 <= i <= 6 && table == longLinks[h]
        invariant right != h ==> i == 1
      {
        if right == h {
          i := i + 1;
          continue;
        }
        table := LinkTo(table, stores.net.links[right].id, right);
        break;
      }
      longLinks := longLinks[h := table];
    }

    /**
     * `route_message`: at the target id nothing is sent; elsewhere a `ROUTE`
     * goes to `find_best_route`'s choice, one hop further than the message
     * says (0 when it says nothing) and naming the message's source (this
     * node when it names none).
     */
    method RouteMessage(h: Handle, target: int, text: string, hops: Option<int>, source: Option<Handle>)
      returns (next: Option<Handle>)
      requires Valid() && h in stores.net.links && (source.Some? ==> source.value in stores.net.links)
      modifies stores.net
      ensures Valid() && stores.net.links == old(stores.net.links)
      ensures next.None? <==> target == IdOf(stores.net.links, h)
      ensures next.None? ==> stores.net.inbox == old(stores.net.inbox)
      ensures next.Some? ==> next.value in stores.net.links && IsBestRoute(stores.net.links, h, longLinks[h], target, next.value)
      ensures next.Some? ==>
        stores.net.inbox == Post(old(stores.net.inbox), next.value, Route(h, target, text, OrElse(hops, 0) + 1, OrElse(source, h)))
    {
      if target == stores.net.links[h].id {
        return None;
      }
      var n := FindBestRoute(stores.net.links, h, longLinks[h], target);
      stores.net.Send(n, Route(h, target, text, OrElse(hops, 0) + 1, OrElse(source, h)));
      next := Some(n);
    }

    /**
     * The `ROUTE` branch of `run`: at the target id a `ROUTE_ACK` with the
     * hop count and `"Received: "` before the text goes back to the source;
     * elsewhere the message goes on to `find_best_route`'s choice with one
     * hop more and the same source.
     */
    method OnRoute(h: Handle, target: int, text: string, hops: int, source: Handle) returns (next: Option<Handle>)
      requires Valid() && h in stores.net.links && source in stores.net.links
      modifies stores.net
      ensures Valid() && stores.net.links == old(stores.net.links)
      ensures next.None? <==> target == IdOf(stores.net.links, h)
      ensures next.None? ==>
        stores.net.inbox == Post(old(stores.net.inbox), source, RouteAck(h, target, hops, "Received: " + text))
      ensures next.Some? ==> next.value in stores.net.links && IsBestRoute(stores.net.links, h, longLinks[h], target, next.value)
      ensures next.Some? ==> stores.net.inbox == Post(old(stores.net.inbox), next.value, Route(h, target, text, hops + 1, source))
    {
      if target == stores.net.links[h].id {
        stores.net.Send(source, RouteAck(h, target, hops, "Received: " + text));
        return None;
      }
      var n := FindBestRoute(stores.net.links, h, longLinks[h], target);
      stores.net.Send(n, Route(h, target, text, hops + 1, source));
      next := Some(n);
    }
  }
}
