/**
 * The advanced node of `version1/dht_advanced_routing.py`: a storage node of
 * `dht_storage.py` that also keeps long links, a Chord-like finger table and
 * a cache of nodes met in passing, and routes `ADVANCED_ROUTING` messages
 * over all of them.
 */
module AdvancedRouting {
  import opened Wrappers
  import opened Ids
  import opened Topology
  import opened DhtRing
  import opened DhtStorage

  // ---------------------------------------------------------------------
  // Distances and finger targets

  /** The distance the finger computation and `optimize_routing` use: how far
      `id` lies past `target` going clockwise, with the wrap written out. */
  function FingerDistance(id: int, target: int): (d: int)
    ensures 0 <= id < Space && 0 <= target < Space ==> d == Clockwise(target, id)
  {
    if id >= target then id - target else Space + id - target
  }

  function Pow2(i: nat): (p: nat)
    ensures p >= 1
  {
    if i == 0 then 1 else 2 * Pow2(i - 1)
  }

  /** The number of global-view fingers, `int(log2(100))`. */
  const FingerCount: int := 6

  /** The position `(id + 2^i) % 100` the `i`-th finger aims at. */
  function FingerTarget(id: int, i: nat): (t: int)
    ensures 0 <= t < Space
  {
    (id + Pow2(i)) % Space
  }

  // ---------------------------------------------------------------------
  // Picking the closest entry of a table

  /** How a table entry's position is measured against a target. */
  datatype Metric = Shortest(target: int) | Past(target: int)

  function Measure(metric: Metric, position: int): int
  {
    match metric
    case Shortest(t) => CircularDistance(position, t)
    case Past(t) => FingerDistance(position, t)
  }

  /** `d` beats the starting best distance (no bound stands for infinity). */
  predicate Below(d: int, bound: Option<int>)
  {
    bound.None? || d < bound.value
  }

  /** Some entry, given as (position, node), measures below `bound`. */
  ghost predicate Improves(cands: set<(int, Handle)>, metric: Metric, bound: Option<int>)
  {
    exists c :: c in cands && Below(Measure(metric, c.0), bound)
  }

  /** `n` belongs to an entry below `bound` that no entry beats. */
  ghost predicate IsClosest(cands: set<(int, Handle)>, metric: Metric, bound: Option<int>, n: Handle)
  {
    exists c :: c in cands && c.1 == n && Below(Measure(metric, c.0), bound) &&
      forall d :: d in cands ==> Measure(metric, c.0) <= Measure(metric, d.0)
  }

  /** The nodes of the finger table, each at its own id. */
  function FingerCandidates(links: Links, fingers: map<int, Handle>): set<(int, Handle)>
  {
    set k | k in fingers :: (IdOf(links, fingers[k]), fingers[k])
  }

  /** The nodes of the routing cache, each at the id it is cached under. */
  function CacheCandidates(cache: map<int, Handle>): set<(int, Handle)>
  {
    set k | k in cache :: (k, cache[k])
  }

  /**
   * The accumulator scan of `find_best_next_hop` and `optimize_routing`:
   * keep an entry only when it measures strictly below the best so far,
   * starting from `bound`.  The table's iteration order is not modelled, so
   * any entry at the least distance may come out.
   */
  method ClosestCandidate(cands: set<(int, Handle)>, metric: Metric, bound: Option<int>) returns (best: Option<Handle>)
    ensures best.Some? <==> Improves(cands, metric, bound)
    ensures best.Some? ==> IsClosest(cands, metric, bound, best.value)
  {
    var remaining := cands;
    var bestD := bound;
    best := None;
    ghost var bc: (int, Handle) := (0, 0);
    while remaining != {}
      invariant remaining <= cands
      invariant best.None? ==> bestD == bound && forall d :: d in cands - remaining ==> !Below(Measure(metric, d.0), bound)
      invariant best.Some? ==>
        && bc in cands - remaining && bc.1 == best.value && bestD == Some(Measure(metric, bc.0))
        && Below(Measure(metric, bc.0), bound)
        && forall d :: d in cands - remaining ==> Measure(metric, bc.0) <= Measure(metric, d.0)
      decreases |remaining|
    {
      var c :| c in remaining;
      var d := Measure(metric, c.0);
      if Below(d, bestD) {
        best := Some(c.1);
        bestD := Some(d);
        bc := c;
      }
      remaining := remaining - {c};
    }
    assert cands - remaining == cands;
  }

  // ---------------------------------------------------------------------
  // Best next hop

  /**
   * What `find_best_next_hop` may answer from node `h` for `target`: itself
   * for its own id; a long link recorded under exactly that id; else the
   * closest finger, when one is strictly closer than `h`; else the closest
   * cached node, when one is strictly closer than `h`; else the left
   * neighbour when it is strictly closer than the right one, otherwise the
   * right one.
   */
  ghost predicate IsNextHop(links: Links, h: Handle, longLinks: map<int, Handle>, fingers: map<int, Handle>,
                            cache: map<int, Handle>, target: int, n: Handle)
    requires h in links
  {
    var id := links[h].id;
    var bound := Some(CircularDistance(id, target));
    var metric := Shortest(target);
    if target == id then n == h
    else if target in longLinks then n == longLinks[target]
    else if Improves(FingerCandidates(links, fingers), metric, bound) then
      IsClosest(FingerCandidates(links, fingers), metric, bound, n)
    else if Improves(CacheCandidates(cache), metric, bound) then
      IsClosest(CacheCandidates(cache), metric, bound, n)
    else
      n == if CircularDistance(IdOf(links, links[h].left), target) < CircularDistance(IdOf(links, links[h].right), target)
           then links[h].left else links[h].right
  }

  /**
   * Every hop is the node itself, a long link, a neighbour, or a table entry
   * strictly closer to the target than the node itself, provided the cache
   * files each node under its own id (as `update_routing_cache` does).
   */
  lemma NextHopKinds(links: Links, h: Handle, longLinks: map<int, Handle>, fingers: map<int, Handle>,
                     cache: map<int, Handle>, target: int, n: Handle)
    requires h in links && IsNextHop(links, h, longLinks, fingers, cache, target, n)
    requires forall k :: k in cache ==> IdOf(links, cache[k]) == k
    ensures || n == h || n in longLinks.Values || n == links[h].left || n == links[h].right
            || (n in fingers.Values + cache.Values &&
                CircularDistance(IdOf(links, n), target) < CircularDistance(links[h].id, target))
  {
    var id := links[h].id;
    var bound := Some(CircularDistance(id, target));
    if target == id || target in longLinks {
    } else if Improves(FingerCandidates(links, fingers), Shortest(target), bound) {
      var c :| c in FingerCandidates(links, fingers) && c.1 == n && Below(Measure(Shortest(target), c.0), bound);
    } else if Improves(CacheCandidates(cache), Shortest(target), bound) {
      var c :| c in CacheCandidates(cache) && c.1 == n && Below(Measure(Shortest(target), c.0), bound);
      var k :| k in cache && c == (k, cache[k]);
      assert n in cache.Values;
    }
  }

  // ---------------------------------------------------------------------
  // Global-view fingers

  /** Index of the first node of `view` nearest past `target`: the node the
      strict `<` scan of the source keeps. */
  function ClosestIndex(links: Links, view: seq<Handle>, target: int): (j: nat)
    requires view != []
    ensures j < |view|
    ensures forall i :: 0 <= i < |view| ==>
      FingerDistance(IdOf(links, view[j]), target) <= FingerDistance(IdOf(links, view[i]), target)
    ensures forall i :: 0 <= i < j ==>
      FingerDistance(IdOf(links, view[j]), target) < FingerDistance(IdOf(links, view[i]), target)
    decreases |view|
  {
    if |view| == 1 then 0
    else
      var j := ClosestIndex(links, view[..|view| - 1], target);
      if FingerDistance(IdOf(links, view[|view| - 1]), target) < FingerDistance(IdOf(links, view[j]), target)
      then |view| - 1 else j
  }

  /** The inner scan of `initialize_long_links_with_global_view` over the
      list of all nodes. */
  method ClosestNode(links: Links, view: seq<Handle>, target: int) returns (closest: Option<Handle>)
    ensures view == [] ==> closest.None?
    ensures view != [] ==> closest == Some(view[ClosestIndex(links, view, target)])
  {
    closest := None;
    var minD: Option<int> := None;
    ghost var j := 0;
    var i := 0;
    while i < |view|
      invariant 0 <= i <= |view|
      invariant i == 0 ==> closest.None? && minD.None?
      invariant i > 0 ==>
        && j == ClosestIndex(links, view[..i], target)
        && closest == Some(view[j]) && minD == Some(FingerDistance(IdOf(links, view[j]), target))
    {
      var d := FingerDistance(IdOf(links, view[i]), target);
      assert view[..i + 1][..i] == view[..i];
      if minD.None? || d < minD.value {
        closest := Some(view[i]);
        minD := Some(d);
        j := i;
      }
      i := i + 1;
    }
    assert view[..|view|] == view;
  }

  /** The finger `i` the global view yields for `self`: the first listed node
      nearest past `(id + 2^i) % 100`, unless that node is `self`. */
  function GlobalFinger(links: Links, self: Handle, view: seq<Handle>, i: int): Option<Handle>
  {
    if view == [] || i < 1 || i > FingerCount then None
    else
      var n := view[ClosestIndex(links, view, FingerTarget(IdOf(links, self), i))];
      if n == self then None else Some(n)
  }

  /** A finger table after the first `n` targets of a scan that
      yields `found(k)` for target `k`: each node found overwrites finger `k`. */
  function FoldFingers(fingers0: map<int, Handle>, found: int -> Option<Handle>, n: nat): map<int, Handle>
    decreases n
  {
    if n == 0 then fingers0
    else
      var before := FoldFingers(fingers0, found, n - 1);
      match found(n)
      case Some(x) => before[n := x]
      case None => before
  }

  /** The finger table after the first `n` targets of the global-view scan. */
  function FingersAfter(links: Links, self: Handle, view: seq<Handle>, fingers0: map<int, Handle>, n: nat): map<int, Handle>
  {
    FoldFingers(fingers0, k => GlobalFinger(links, self, view, k), n)
  }

  /** After `n` targets, each finger yielded so far is set and every other
      entry is as it was. */
  lemma {:induction false} FoldEntries(fingers0: map<int, Handle>, found: int -> Option<Handle>, n: nat)
    ensures var f := FoldFingers(fingers0, found, n);
      && (forall k :: k in f <==> k in fingers0 || (1 <= k <= n && found(k).Some?))
      && forall k :: k in f ==>
           f[k] == if 1 <= k <= n && found(k).Some? then found(k).value else fingers0[k]
  {
    if n > 0 {
      FoldEntries(fingers0, found, n - 1);
    }
  }

  /** After `n` targets of the global-view scan, each finger yielded so far
      is set and every other entry is as it was. */
  lemma FingersAfterEntries(links: Links, self: Handle, view: seq<Handle>, fingers0: map<int, Handle>, n: nat)
    ensures var f := FingersAfter(links, self, view, fingers0, n);
      && (forall k :: k in f <==> k in fingers0 || (k <= n && GlobalFinger(links, self, view, k).Some?))
      && forall k :: k in f ==>
           f[k] == if k <= n && GlobalFinger(links, self, view, k).Some? then GlobalFinger(links, self, view, k).value else fingers0[k]
  {
    FoldEntries(fingers0, k => GlobalFinger(links, self, view, k), n);
  }

  /** Without a view no finger is set. */
  lemma {:induction false} FingersWithoutView(links: Links, self: Handle, fingers0: map<int, Handle>, n: nat)
    ensures FingersAfter(links, self, [], fingers0, n) == fingers0
  {
    if n > 0 {
      FingersWithoutView(links, self, fingers0, n - 1);
    }
  }

  lemma FingersStep(links: Links, self: Handle, view: seq<Handle>, fingers0: map<int, Handle>, n: nat)
    requires n >= 1
    ensures var before := FingersAfter(links, self, view, fingers0, n - 1);
      FingersAfter(links, self, view, fingers0, n) ==
        if GlobalFinger(links, self, view, n).Some? then before[n := GlobalFinger(links, self, view, n).value] else before
  {
  }

  /** `initialize_long_links_with_global_view` on values. */
  method ComputeFingers(links: Links, self: Handle, view: seq<Handle>, fingers0: map<int, Handle>)
    returns (fingers: map<int, Handle>)
    ensures fingers == FingersAfter(links, self, view, fingers0, FingerCount)
  {
    fingers := fingers0;
    if view == [] {
      FingersWithoutView(links, self, fingers0, FingerCount);
      return;
    }
    var i := 1;
    while i <= FingerCount
      invariant 1 <= i <= FingerCount + 1
      invariant fingers == FingersAfter(links, self, view, fingers0, i - 1)
    {
      fingers := FingerRound(links, self, view, fingers0, i, fingers);
      i := i + 1;
    }
  }

  /** One round of the scan: the node nearest past target `i` becomes
      finger `i` unless it is `self`. */
  method FingerRound(links: Links, self: Handle, view: seq<Handle>, fingers0: map<int, Handle>, i: nat,
                     fingers: map<int, Handle>) returns (next: map<int, Handle>)
    requires view != [] && 1 <= i <= FingerCount
    requires fingers == FingersAfter(links, self, view, fingers0, i - 1)
    ensures next == FingersAfter(links, self, view, fingers0, i)
  {
    var closest := ClosestNode(links, view, FingerTarget(IdOf(links, self), i));
    ghost var g := GlobalFinger(links, self, view, i);
    assert g == if closest.value == self then None else closest;
    next := fingers;
    if closest.value != self {
      next := fingers[i := closest.value];
    }
    FingersStep(links, self, view, fingers0, i);
  }

  /** With ids and the target in [0, 100), the node nearest past the target
      is the target's successor among `view`. */
  lemma NearestPastIsSuccessor(links: Links, view: seq<Handle>, t: int, j: nat)
    requires 0 <= t < Space && j < |view|
    requires forall n :: n in view ==> 0 <= IdOf(links, n) < Space
    requires forall i :: 0 <= i < |view| ==>
      FingerDistance(IdOf(links, view[j]), t) <= FingerDistance(IdOf(links, view[i]), t)
    ensures IsSuccessor(links, view, t, view[j])
  {
    var r := view[j];
    forall c | c in view
      ensures FingerDistance(IdOf(links, r), t) <= FingerDistance(IdOf(links, c), t)
    {
      var i :| 0 <= i < |view| && view[i] == c;
    }
    if exists c :: c in view && IdOf(links, c) >= t {
      var c :| c in view && IdOf(links, c) >= t;
      assert FingerDistance(IdOf(links, r), t) <= FingerDistance(IdOf(links, c), t);
    }
  }

  /** A global-view finger is the successor of its target and never the node
      itself; when none is recorded for a non-empty view, the successor is
      the node itself. */
  lemma GlobalFingerIsSuccessor(links: Links, self: Handle, view: seq<Handle>, i: int)
    requires forall n :: n in view ==> 0 <= IdOf(links, n) < Space
    ensures GlobalFinger(links, self, view, i).Some? ==>
      && GlobalFinger(links, self, view, i).value != self
      && IsSuccessor(links, view, FingerTarget(IdOf(links, self), i), GlobalFinger(links, self, view, i).value)
    ensures view != [] && 1 <= i <= FingerCount && GlobalFinger(links, self, view, i).None? ==>
      IsSuccessor(links, view, FingerTarget(IdOf(links, self), i), self)
  {
    if view != [] && 1 <= i <= FingerCount {
      var t := FingerTarget(IdOf(links, self), i);
      NearestPastIsSuccessor(links, view, t, ClosestIndex(links, view, t));
    }
  }

  // ---------------------------------------------------------------------
  // Routing cache and long links

  /** The `ROUTING_INFO` merge: entries for ids not cached yet and naming
      another node are added; cached entries are never overwritten. */
  function Absorb(cache: map<int, Handle>, info: map<int, Handle>, self: Handle): (merged: map<int, Handle>)
    ensures forall k :: k in cache ==> k in merged && merged[k] == cache[k]
    ensures forall k :: k in merged && k !in cache ==> k in info && info[k] != self && merged[k] == info[k]
    ensures forall k :: k in info && info[k] != self ==> k in merged
  {
    cache + map k | k in info && k !in cache && info[k] != self :: info[k]
  }

  /** Receiving the same routing information again changes nothing. */
  lemma AbsorbIdempotent(cache: map<int, Handle>, info: map<int, Handle>, self: Handle)
    ensures Absorb(Absorb(cache, info, self), info, self) == Absorb(cache, info, self)
  {
    var once := Absorb(cache, info, self);
    assert Absorb(once, info, self).Keys == once.Keys;
  }

  lemma AbsorbAll(cache: map<int, Handle>, info: map<int, Handle>, self: Handle, merged: map<int, Handle>)
    requires forall k :: k in merged <==> k in cache || (k in info && info[k] != self)
    requires forall k :: k in merged ==> merged[k] == if k in cache then cache[k] else info[k]
    ensures merged == Absorb(cache, info, self)
  {
    var a := Absorb(cache, info, self);
    forall k
      ensures k in merged <==> k in a
    {
      if k !in cache && k in info && info[k] != self {
        assert k in a;
      }
    }
    assert merged.Keys == a.Keys;
    forall k | k in merged
      ensures merged[k] == a[k]
    {
    }
  }

  /** The `ROUTING_INFO` loop over the received entries. */
  method MergeRoutingInfo(cache: map<int, Handle>, info: map<int, Handle>, self: Handle) returns (merged: map<int, Handle>)
    ensures merged == Absorb(cache, info, self)
  {
    merged := cache;
    var rest := info.Keys;
    while rest != {}
      invariant rest <= info.Keys
      invariant forall k :: k in merged <==> k in cache || (k in info && k !in rest && info[k] != self)
      invariant forall k :: k in merged ==> merged[k] == if k in cache then cache[k] else info[k]
      decreases |rest|
    {
      Inhabited(rest);
      var k :| k in rest;
      if info[k] != self && k !in merged {
        merged := merged[k := info[k]];
      }
      rest := rest - {k};
    }
    AbsorbAll(cache, info, self, merged);
  }

  /** Without a bound, any entry of a non-empty cache improves. */
  lemma CacheImproves(cache: map<int, Handle>, metric: Metric)
    requires cache != map[]
    ensures Improves(CacheCandidates(cache), metric, None)
  {
    Inhabited(cache.Keys);
    var k :| k in cache;
    assert (k, cache[k]) in CacheCandidates(cache);
  }

  /** `n` is a cached node nearest past the `i`-th long-link target of `self`. */
  ghost predicate NearestPast(links: Links, self: Handle, cache: map<int, Handle>, i: nat, n: Handle)
  {
    IsClosest(CacheCandidates(cache), Past(FingerTarget(IdOf(links, self), i)), None, n)
  }

  /** Whether every cached node nearest past the `i`-th target could be asked
      for a long link: it is not `self` and its id has no long link yet. */
  ghost predicate NearestAcceptable(links: Links, self: Handle, cache: map<int, Handle>, longLinks: map<int, Handle>, i: nat)
  {
    forall n :: NearestPast(links, self, cache, i, n) ==> n != self && IdOf(links, n) !in longLinks
  }

  /** Each node in `asked` is acceptable and nearest past one of the targets
      1 .. upto - 1. */
  ghost predicate AskedSound(links: Links, self: Handle, cache: map<int, Handle>, longLinks: map<int, Handle>,
                             asked: seq<Handle>, upto: int)
  {
    forall j :: 0 <= j < |asked| ==>
      && asked[j] != self && IdOf(links, asked[j]) !in longLinks
      && exists i :: 1 <= i < upto && NearestPast(links, self, cache, i, asked[j])
  }

  /** Every target 1 .. upto - 1 whose nearest cached nodes are all
      acceptable has one of them in `asked`. */
  ghost predicate AskedComplete(links: Links, self: Handle, cache: map<int, Handle>, longLinks: map<int, Handle>,
                                asked: seq<Handle>, upto: int)
  {
    forall i :: 1 <= i < upto && cache != map[] && NearestAcceptable(links, self, cache, longLinks, i) ==>
      exists j :: 0 <= j < |asked| && NearestPast(links, self, cache, i, asked[j])
  }

  /** One target of the selection keeps both properties. */
  lemma AskStep(links: Links, self: Handle, cache: map<int, Handle>, longLinks: map<int, Handle>,
                asked: seq<Handle>, i: nat, closest: Option<Handle>)
    requires i >= 1
    requires AskedSound(links, self, cache, longLinks, asked, i) && AskedComplete(links, self, cache, longLinks, asked, i)
    requires cache != map[] ==> closest.Some?
    requires closest.Some? ==> NearestPast(links, self, cache, i, closest.value)
    ensures var next := if closest.Some? && closest.value != self && IdOf(links, closest.value) !in longLinks
                        then asked + [closest.value] else asked;
      AskedSound(links, self, cache, longLinks, next, i + 1) && AskedComplete(links, self, cache, longLinks, next, i + 1)
  {
    var next := if closest.Some? && closest.value != self && IdOf(links, closest.value) !in longLinks
                then asked + [closest.value] else asked;
    forall j | 0 <= j < |next|
      ensures next[j] != self && IdOf(links, next[j]) !in longLinks
      ensures exists k :: 1 <= k < i + 1 && NearestPast(links, self, cache, k, next[j])
    {
      if j < |asked| {
        assert next[j] == asked[j];
      } else {
        assert NearestPast(links, self, cache, i, next[j]);
      }
    }
    forall k | 1 <= k < i + 1 && cache != map[] && NearestAcceptable(links, self, cache, longLinks, k)
      ensures exists j :: 0 <= j < |next| && NearestPast(links, self, cache, k, next[j])
    {
      if k < i {
        var j :| 0 <= j < |asked| && NearestPast(links, self, cache, k, asked[j]);
        assert next[j] == asked[j];
      } else {
        assert next[|next| - 1] == closest.value;
      }
    }
  }

  /**
   * The selection in one period of `optimize_routing`: for the targets
   * `(id + 2^i) % 100`, i = 1..4, a cached node nearest past the target (by
   * the id it is cached under) is asked for a long link when it is not the
   * node itself and its id has no long link yet.
   */
  method LongLinkCandidates(links: Links, self: Handle, cache: map<int, Handle>, longLinks: map<int, Handle>)
    returns (asked: seq<Handle>)
    ensures |asked| <= 4
    ensures cache == map[] ==> asked == []
    ensures AskedSound(links, self, cache, longLinks, asked, 5)
    ensures AskedComplete(links, self, cache, longLinks, asked, 5)
  {
    asked := [];
    var i := 1;
    while i <= 4
      invariant 1 <= i <= 5 && |asked| <= i - 1
      invariant cache == map[] ==> asked == []
      invariant AskedSound(links, self, cache, longLinks, asked, i)
      invariant AskedComplete(links, self, cache, longLinks, asked, i)
    {
      var closest := ClosestCandidate(CacheCandidates(cache), Past(FingerTarget(IdOf(links, self), i)), None);
      if cache != map[] {
        CacheImproves(cache, Past(FingerTarget(IdOf(links, self), i)));
      }
      AskStep(links, self, cache, longLinks, asked, i, closest);
      if closest.Some? && closest.value != self && IdOf(links, closest.value) !in longLinks {
        asked := asked + [closest.value];
      }
      i := i + 1;
    }
  }

  /** The nodes asked for long links are cached nodes. */
  lemma CandidatesWithin(links: Links, self: Handle, cache: map<int, Handle>, longLinks: map<int, Handle>,
                         asked: seq<Handle>, hs: set<Handle>)
    requires Within(cache, hs) && AskedSound(links, self, cache, longLinks, asked, 5)
    ensures forall j :: 0 <= j < |asked| ==> asked[j] in hs
  {
    forall j | 0 <= j < |asked|
      ensures asked[j] in hs
    {
      var i :| 1 <= i < 5 && NearestPast(links, self, cache, i, asked[j]);
      var c :| c in CacheCandidates(cache) && c.1 == asked[j];
      var k :| k in cache && c == (k, cache[k]);
    }
  }

  /** A table with `n` recorded under `id`, overwriting. */
  function Linked(table: map<int, Handle>, id: int, n: Handle): (linked: map<int, Handle>)
    ensures linked.Keys == table.Keys + {id} && linked[id] == n
    ensures forall k :: k in table && k != id ==> linked[k] == table[k]
  {
    table[id := n]
  }

  // ---------------------------------------------------------------------
  // Routing tables

  /** The three routing tables of one node object: `long_links` (by node
      id), `finger_table` (by finger number) and `routing_cache` (by node id). */
  datatype RoutingTables = RoutingTables(longLinks: map<int, Handle>, fingers: map<int, Handle>, cache: map<int, Handle>)

  const NoTables := RoutingTables(map[], map[], map[])

  /** `update_routing_cache` on values: another node is cached under its id. */
  function Remember(t: RoutingTables, self: Handle, node: Handle, id: int): RoutingTables
  {
    if node == self then t else t.(cache := Linked(t.cache, id, node))
  }

  /** Every entry of a table names a node object of `hs`. */
  ghost predicate Within(table: map<int, Handle>, hs: set<Handle>)
  {
    forall k :: k in table ==> table[k] in hs
  }

  ghost predicate TablesWithin(t: RoutingTables, hs: set<Handle>)
  {
    Within(t.longLinks, hs) && Within(t.fingers, hs) && Within(t.cache, hs)
  }

  /** One set of tables per node object of `hs`, naming only node objects of `hs`. */
  ghost predicate TablesIn(tables: map<Handle, RoutingTables>, hs: set<Handle>)
  {
    && (forall h :: h in hs ==> h in tables)
    && (forall h {:trigger tables[h]} :: h in hs && h in tables ==> TablesWithin(tables[h], hs))
  }

  lemma TableSet(tables: map<Handle, RoutingTables>, hs: set<Handle>, h: Handle, t: RoutingTables)
    requires TablesIn(tables, hs) && h in hs && TablesWithin(t, hs)
    ensures TablesIn(tables[h := t], hs)
  {
  }

  lemma TableAdd(tables: map<Handle, RoutingTables>, links: Links, h: Handle, l: Link)
    requires TablesIn(tables, links.Keys)
    ensures TablesIn(tables[h := NoTables], links[h := l].Keys)
  {
    var hs := links[h := l].Keys;
    forall g | g in hs && g != h
      ensures TablesWithin(tables[g], hs)
    {
      assert TablesWithin(tables[g], links.Keys);
    }
  }

  /** Relinking existing node objects keeps the tables in place. */
  lemma KeepTables(tables: map<Handle, RoutingTables>, links: Links, links2: Links)
    requires TablesIn(tables, links.Keys) && forall g :: g in links2 <==> g in links
    ensures TablesIn(tables, links2.Keys)
  {
    assert links2.Keys == links.Keys;
  }

  /** Global-view fingers are nodes of the view or entries already there. */
  lemma FingersWithin(links: Links, self: Handle, view: seq<Handle>, fingers0: map<int, Handle>, hs: set<Handle>)
    requires Within(fingers0, hs) && forall n :: n in view ==> n in hs
    ensures Within(FingersAfter(links, self, view, fingers0, FingerCount), hs)
  {
    var f := FingersAfter(links, self, view, fingers0, FingerCount);
    FingersAfterEntries(links, self, view, fingers0, FingerCount);
    forall k | k in f
      ensures f[k] in hs
    {
      var g := GlobalFinger(links, self, view, k);
      if k <= FingerCount && g.Some? {
        var t := FingerTarget(IdOf(links, self), k);
        assert g.value == view[ClosestIndex(links, view, t)];
      }
    }
  }

  /** The closest entry of a table's candidates is a node the table names. */
  lemma CandidateWithin(cands: set<(int, Handle)>, table: map<int, Handle>, links: Links, metric: Metric,
                        bound: Option<int>, n: Handle, hs: set<Handle>)
    requires cands == FingerCandidates(links, table) || cands == CacheCandidates(table)
    requires Within(table, hs) && IsClosest(cands, metric, bound, n)
    ensures n in hs
  {
    var c :| c in cands && c.1 == n;
    if cands == FingerCandidates(links, table) {
      var k :| k in table && c == (IdOf(links, table[k]), table[k]);
    } else {
      var k :| k in table && c == (k, table[k]);
    }
  }

  /** `find_best_next_hop` run by `h` with tables `t`. */
  method NextHop(links: Links, h: Handle, t: RoutingTables, target: int) returns (next: Handle)
    requires Closed(links) && h in links && TablesWithin(t, links.Keys)
    ensures IsNextHop(links, h, t.longLinks, t.fingers, t.cache, target, next)
    ensures next in links
  {
    var id := links[h].id;
    if target == id {
      return h;
    }
    if target in t.longLinks {
      return t.longLinks[target];
    }
    var bound := Some(CircularDistance(id, target));
    var fs := FingerCandidates(links, t.fingers);
    if t.fingers != map[] {
      var best := ClosestCandidate(fs, Shortest(target), bound);
      if best.Some? {
        CandidateWithin(fs, t.fingers, links, Shortest(target), bound, best.value, links.Keys);
        return best.value;
      }
    } else {
      assert fs == {};
    }
    var cs := CacheCandidates(t.cache);
    if t.cache != map[] {
      var best := ClosestCandidate(cs, Shortest(target), bound);
      if best.Some? {
        CandidateWithin(cs, t.cache, links, Shortest(target), bound, best.value, links.Keys);
        return best.value;
      }
    } else {
      assert cs == {};
    }
    assert links[h] in links.Values;
    var l, r := links[h].left, links[h].right;
    if CircularDistance(IdOf(links, l), target) < CircularDistance(IdOf(links, r), target) {
      next := l;
    } else {
      next := r;
    }
  }

  // ---------------------------------------------------------------------
  // Routed messages

  /** What became of an `ADVANCED_ROUTING` message at a node. */
  datatype Routed = Dropped | Delivered | Forwarded(to: Handle)

  /** The nodes `ADVANCED_ROUTING` may fall back on when the best hop is the
      node the message came from: both neighbours, long links and fingers,
      all but the sender. */
  function Alternatives(links: Links, h: Handle, t: RoutingTables, sender: Handle): (alts: set<Handle>)
    requires h in links
    ensures sender !in alts
    ensures Closed(links) && TablesWithin(t, links.Keys) ==> alts <= links.Keys
  {
    assert Closed(links) ==> links[h] in links.Values;
    (if links[h].right != sender then {links[h].right} else {})
    + (if links[h].left != sender then {links[h].left} else {})
    + (set k | k in t.longLinks && t.longLinks[k] != sender :: t.longLinks[k])
    + (set k | k in t.fingers && t.fingers[k] != sender :: t.fingers[k])
  }

  /**
   * One `ADVANCED_ROUTING` message at `h`: dropped once it has made more than
   * ten hops; delivered at the target id; otherwise sent on with the hop
   * count one higher, to the best next hop, or to some alternative when the
   * best next hop is the sender, or dropped when there is no alternative.
   */
  ghost predicate RoutingStep(links: Links, h: Handle, t: RoutingTables, sender: Handle, target: int, hops: int,
                              payload: string, before: map<Handle, seq<Msg>>, after: map<Handle, seq<Msg>>, outcome: Routed)
    requires h in links
  {
    if hops > 10 then outcome == Dropped && after == before
    else if target == links[h].id then outcome == Delivered && after == before
    else match outcome
      case Delivered => false
      case Dropped =>
        && IsNextHop(links, h, t.longLinks, t.fingers, t.cache, target, sender)
        && Alternatives(links, h, t, sender) == {}
        && after == before
      case Forwarded(to) =>
        && ((IsNextHop(links, h, t.longLinks, t.fingers, t.cache, target, to) && to != sender)
            || (IsNextHop(links, h, t.longLinks, t.fingers, t.cache, target, sender)
                && to in Alternatives(links, h, t, sender)))
        && to in before
        && after == Post(before, to, AdvancedRouting(h, target, hops + 1, payload))
  }

  /** The hop an `ADVANCED_ROUTING` message not yet at its target goes to:
      the best next hop unless that is the sender, else any alternative;
      nothing when the best hop is the sender and there is no alternative. */
  method ChooseHop(links: Links, h: Handle, t: RoutingTables, sender: Handle, target: int) returns (next: Option<Handle>)
    requires Closed(links) && h in links && TablesWithin(t, links.Keys)
    ensures next.None? ==>
      IsNextHop(links, h, t.longLinks, t.fingers, t.cache, target, sender) && Alternatives(links, h, t, sender) == {}
    ensures next.Some? ==>
      && next.value in links
      && ((IsNextHop(links, h, t.longLinks, t.fingers, t.cache, target, next.value) && next.value != sender)
          || (IsNextHop(links, h, t.longLinks, t.fingers, t.cache, target, sender)
              && next.value in Alternatives(links, h, t, sender)))
  {
    var best := NextHop(links, h, t, target);
    if best != sender {
      return Some(best);
    }
    var alts := Alternatives(links, h, t, sender);
    if alts == {} {
      return None;
    }
    Inhabited(alts);
    var alt :| alt in alts;
    next := Some(alt);
  }

  /** The mailboxes after `ROUTING_INFO` carrying `cache` is queued to `to`,
      which happens only when the cache is not empty. */
  function Shared(inbox: map<Handle, seq<Msg>>, to: Handle, from: Handle, cache: map<int, Handle>): (shared: map<Handle, seq<Msg>>)
    requires to in inbox
    ensures shared.Keys == inbox.Keys && to in shared
  {
    if cache == map[] then inbox else Post(inbox, to, RoutingInfo(from, cache))
  }

  /** The mailboxes after the reply of the join walk from `h` to `sender`,
      followed by the cache of `h`. */
  ghost function JoinAnswered(links: Links, order: seq<Handle>, inbox: map<Handle, seq<Msg>>, h: Handle, sender: Handle, cache: map<int, Handle>): (answered: map<Handle, seq<Msg>>)
    requires |order| > 0 && sender in inbox && sender in links
    ensures answered.Keys == inbox.Keys
  {
    var k := JoinGapIndex(links, order, IdOf(links, sender));
    Shared(Post(inbox, sender, JoinReply(h, order[k], Next(order, k))), sender, h, cache)
  }

  /** With a non-empty cache, the reply of the join walk is always
      followed by `ROUTING_INFO`. */
  lemma AnsweredWithCache(links: Links, order: seq<Handle>, inbox: map<Handle, seq<Msg>>, h: Handle, sender: Handle, cache: map<int, Handle>)
    requires |order| > 0 && sender in inbox && sender in links && cache != map[]
    ensures var k := JoinGapIndex(links, order, IdOf(links, sender));
      JoinAnswered(links, order, inbox, h, sender, cache)
        == Post(Post(inbox, sender, JoinReply(h, order[k], Next(order, k))), sender, RoutingInfo(h, cache))
  {
  }

  // ---------------------------------------------------------------------
  // The advanced node objects

  /**
   * The routing fields of every advanced node object, keyed by handle;
   * `storage` holds the storage and ring fields.  `halted` holds the nodes
   * whose message loop has returned.
   */
  class Advanced {
    const storage: Storage
    var tables: map<Handle, RoutingTables>
    var halted: set<Handle>

    ghost predicate Valid()
      reads this, storage, storage.ring
    {
      storage.Valid() && TablesIn(tables, storage.ring.links.Keys)
    }

    constructor (digest: Key -> nat)
      ensures Valid() && fresh(storage) && fresh(storage.ring) && storage.digest == digest
      ensures storage.ring.links == map[] && halted == {}
    {
      storage := new Storage(digest);
      tables := map[];
      halted := {};
    }

    /** `AdvancedNode.__init__`: a new storage node with empty routing tables. */
    method NewNode(id: int, bootstrap: Option<Handle>) returns (h: Handle)
      requires Valid() && (bootstrap.Some? ==> bootstrap.value in storage.ring.links)
      modifies this, storage, storage.ring
      ensures Valid() && h !in old(storage.ring.links) && halted == old(halted)
      ensures storage.ring.links == old(storage.ring.links)[h := Link(id, h, h)]
      ensures bootstrap.None? ==> storage.ring.inbox == old(storage.ring.inbox)[h := []]
      ensures bootstrap.Some? ==> storage.ring.inbox == Post(old(storage.ring.inbox)[h := []], bootstrap.value, JoinRequest(h))
      ensures storage.dataStore == old(storage.dataStore)[h := map[]] && storage.replicated == old(storage.replicated)[h := map[]]
      ensures tables == old(tables)[h := NoTables]
    {
      ghost var links := storage.ring.links;
      h := storage.NewNode(id, bootstrap);
      TableAdd(tables, links, h, Link(id, h, h));
      tables := tables[h := NoTables];
    }

    /** The next message of a node whose loop is still running. */
    method Take(h: Handle) returns (m: Msg)
      requires Valid() && h in storage.ring.links && h !in halted && storage.ring.inbox[h] != []
      modifies storage.ring
      ensures Valid() && storage.ring.links == old(storage.ring.links)
      ensures m == old(storage.ring.inbox[h][0]) && Names(m, storage.ring.links.Keys)
      ensures storage.ring.inbox == old(storage.ring.inbox)[h := old(storage.ring.inbox[h][1..])]
    {
      m := storage.ring.Receive(h);
    }

    /** `update_routing_cache`: remember another node under its id. */
    method UpdateRoutingCache(h: Handle, node: Handle)
      requires Valid() && h in storage.ring.links && node in storage.ring.links
      modifies this
      ensures Valid() && halted == old(halted)
      ensures tables == old(tables)[h := Remember(old(tables[h]), h, node, storage.ring.links[node].id)]
    {
      var t := Remember(tables[h], h, node, storage.ring.links[node].id);
      TableSet(tables, storage.ring.links.Keys, h, t);
      tables := tables[h := t];
    }

    /** The `ROUTING_INFO` branch of `run`. */
    method OnRoutingInfo(h: Handle, info: map<int, Handle>)
      requires Valid() && h in storage.ring.links && Within(info, storage.ring.links.Keys)
      modifies this
      ensures Valid() && halted == old(halted)
      ensures tables == old(tables)[h := old(tables[h]).(cache := Absorb(old(tables[h].cache), info, h))]
    {
      var merged := MergeRoutingInfo(tables[h].cache, info, h);
      var t := tables[h].(cache := merged);
      TableSet(tables, storage.ring.links.Keys, h, t);
      tables := tables[h := t];
    }

    /** The `LONG_LINK_REQUEST` branch of `run`: answer with the own id only. */
    method OnLongLinkRequest(h: Handle, sender: Handle)
      requires Valid() && h in storage.ring.links && sender in storage.ring.links
      modifies storage.ring
      ensures Valid() && storage.ring.links == old(storage.ring.links)
      ensures storage.ring.inbox == Post(old(storage.ring.inbox), sender, LongLinkConfirm(h, storage.ring.links[h].id))
    {
      storage.ring.Send(sender, LongLinkConfirm(h, storage.ring.links[h].id));
    }

    /** The `LONG_LINK_CONFIRM` branch of `run`: record the sender under the
        confirmed id unless that id already has a long link. */
    method OnLongLinkConfirm(h: Handle, sender: Handle, nodeId: int)
      requires Valid() && h in storage.ring.links && sender in storage.ring.links
      modifies this
      ensures Valid() && halted == old(halted)
      ensures tables == if nodeId in old(tables[h].longLinks) then old(tables)
        else old(tables)[h := old(tables[h]).(longLinks := Linked(old(tables[h].longLinks), nodeId, sender))]
    {
      if nodeId !in tables[h].longLinks {
        var t := tables[h].(longLinks := Linked(tables[h].longLinks, nodeId, sender));
        TableSet(tables, storage.ring.links.Keys, h, t);
        tables := tables[h := t];
      }
    }

    /** `initialize_long_links_with_global_view`, given the list of all nodes
        at the time it runs. */
    method InitFingersGlobalView(h: Handle, view: seq<Handle>)
      requires Valid() && h in storage.ring.links && forall n :: n in view ==> n in storage.ring.links
      modifies this
      ensures Valid() && halted == old(halted)
      ensures tables == old(tables)[h := old(tables[h]).(fingers := FingersAfter(storage.ring.links, h, view, old(tables[h].fingers), FingerCount))]
    {
      var computed := ComputeFingers(storage.ring.links, h, view, tables[h].fingers);
      FingersWithin(storage.ring.links, h, view, tables[h].fingers, storage.ring.links.Keys);
      var t := tables[h].(fingers := computed);
      TableSet(tables, storage.ring.links.Keys, h, t);
      tables := tables[h := t];
    }

    /** Send the cache of `h` to `to` when it is not empty. */
    method ShareWith(h: Handle, to: Handle)
      requires Valid() && h in storage.ring.links && to in storage.ring.links
      modifies storage.ring
      ensures Valid() && storage.ring.links == old(storage.ring.links)
      ensures storage.ring.inbox == Shared(old(storage.ring.inbox), to, h, tables[h].cache)
    {
      var m := RoutingInfo(h, tables[h].cache);
      if tables[h].cache != map[] {
        assert Names(m, storage.ring.links.Keys);
        storage.ring.Send(to, m);
      }
    }

    /** The sharing step of `optimize_routing`: the cache goes to the left
        and then the right neighbour. */
    method ShareCache(h: Handle)
      requires Valid() && h in storage.ring.links
      modifies storage.ring
      ensures Valid() && storage.ring.links == old(storage.ring.links)
      ensures storage.ring.inbox ==
        var l, r := storage.ring.links[h].left, storage.ring.links[h].right;
        Shared(Shared(old(storage.ring.inbox), l, h, tables[h].cache), r, h, tables[h].cache)
    {
      var links := storage.ring.links;
      assert links[h] in links.Values;
      ShareWith(h, links[h].left);
      ShareWith(h, links[h].right);
    }

    /** The long-link step of `optimize_routing`, run when the cache is not
        empty and fewer than five long links exist. */
    method AskLongLinks(h: Handle) returns (asked: seq<Handle>)
      requires Valid() && h in storage.ring.links && tables[h].cache != map[] && |tables[h].longLinks| < 5
      modifies storage.ring
      ensures Valid() && storage.ring.links == old(storage.ring.links)
      ensures (forall j :: 0 <= j < |asked| ==> asked[j] in old(storage.ring.inbox))
      ensures storage.ring.inbox == PostEach(old(storage.ring.inbox), asked, LongLinkRequest(h))
      ensures |asked| <= 4
      ensures AskedSound(storage.ring.links, h, tables[h].cache, tables[h].longLinks, asked, 5)
      ensures AskedComplete(storage.ring.links, h, tables[h].cache, tables[h].longLinks, asked, 5)
    {
      var t := tables[h];
      var links := storage.ring.links;
      asked := LongLinkCandidates(links, h, t.cache, t.longLinks);
      CandidatesWithin(links, h, t.cache, t.longLinks, asked, links.Keys);
      storage.ring.Multicast(asked, LongLinkRequest(h));
    }

    /** One period of `optimize_routing`: share the cache with both
        neighbours, then ask the selected cached nodes for long links. */
    method OptimizeRouting(h: Handle) returns (asked: seq<Handle>)
      requires Valid() && h in storage.ring.links
      modifies storage.ring
      ensures Valid() && storage.ring.links == old(storage.ring.links)
      ensures tables[h].cache == map[] ==> asked == [] && storage.ring.inbox == old(storage.ring.inbox)
      ensures |tables[h].longLinks| >= 5 ==> asked == []
      ensures tables[h].cache != map[] ==>
        var l, r := storage.ring.links[h].left, storage.ring.links[h].right;
        var shared := Shared(Shared(old(storage.ring.inbox), l, h, tables[h].cache), r, h, tables[h].cache);
        && (forall j :: 0 <= j < |asked| ==> asked[j] in shared)
        && storage.ring.inbox == PostEach(shared, asked, LongLinkRequest(h))
      ensures |asked| <= 4
      ensures AskedSound(storage.ring.links, h, tables[h].cache, tables[h].longLinks, asked, 5)
      ensures |tables[h].longLinks| < 5 ==> AskedComplete(storage.ring.links, h, tables[h].cache, tables[h].longLinks, asked, 5)
    {
      ShareCache(h);
      if tables[h].cache != map[] && |tables[h].longLinks| < 5 {
        asked := AskLongLinks(h);
      } else {
        asked := [];
      }
    }

    /** The `JOIN_REQUEST` branch at a node that is alone on its ring. */
    method JoinLone(h: Handle, sender: Handle)
      requires Valid() && h in storage.ring.links && sender in storage.ring.links
      requires storage.ring.links[h].right == h
      modifies storage.ring
      ensures Valid()
      ensures storage.ring.links == old(storage.ring.links)[h := old(storage.ring.links[h]).(left := sender, right := sender)]
      ensures storage.ring.inbox == Shared(Post(old(storage.ring.inbox), sender, JoinReply(h, h, h)), sender, h, tables[h].cache)
    {
      storage.ring.OnJoinRequest(h, sender, []);
      KeepTables(tables, old(storage.ring.links), storage.ring.links);
      ShareWith(h, sender);
    }

    /** The reply of the `JOIN_REQUEST` branch at a node with a neighbour:
        the gap found by the walk, followed by the cache. */
    method JoinAnswer(h: Handle, sender: Handle, ghost order: seq<Handle>)
      requires Valid() && h in storage.ring.links && sender in storage.ring.links
      requires storage.ring.links[h].right != h && IsCycle(storage.ring.links, order) && order[0] == h
      modifies storage.ring
      ensures Valid() && storage.ring.links == old(storage.ring.links)
      ensures storage.ring.inbox == JoinAnswered(storage.ring.links, order, old(storage.ring.inbox), h, sender, tables[h].cache)
    {
      storage.ring.OnJoinRequest(h, sender, order);
      ShareWith(h, sender);
    }

    /** The `JOIN_REQUEST` branch at a node with a neighbour: the reply and
        the cache, then the keys the requester becomes responsible for. */
    method JoinWalk(h: Handle, sender: Handle, ghost order: seq<Handle>) returns (moved: map<Key, Value>)
      requires Valid() && h in storage.ring.links && sender in storage.ring.links
      requires storage.ring.links[h].right != h && IsCycle(storage.ring.links, order) && order[0] == h
      modifies storage, storage.ring
      ensures Valid() && storage.ring.links == old(storage.ring.links)
      ensures moved == Moved(storage.ring.links, order, storage.digest, old(storage.dataStore[h]), sender)
      ensures storage.dataStore == old(storage.dataStore)[h := old(storage.dataStore[h]) - moved.Keys]
      ensures storage.replicated == old(storage.replicated)[h := old(storage.replicated[h]) + moved]
      ensures storage.ring.inbox ==
        Handover(JoinAnswered(storage.ring.links, order, old(storage.ring.inbox), h, sender, tables[h].cache), h, sender, moved)
    {
      JoinAnswer(h, sender, order);
      moved := storage.TransferRelevantData(h, sender, order);
    }

    /**
     * A `JOIN_REQUEST` taken by the loop of `run` at a node alone on its
     * ring: the sender is cached first (`update_routing_cache`), then the
     * lone branch runs.  The cache then holds the joiner, so the reply is
     * always followed by `ROUTING_INFO`.
     */
    method CachedJoinLone(h: Handle, sender: Handle)
      requires Valid() && h in storage.ring.links && sender in storage.ring.links
      requires storage.ring.links[h].right == h
      modifies this, storage.ring
      ensures Valid() && halted == old(halted)
      ensures tables == old(tables)[h := Remember(old(tables[h]), h, sender, old(storage.ring.links[sender].id))]
      ensures storage.ring.links == old(storage.ring.links)[h := old(storage.ring.links[h]).(left := sender, right := sender)]
      ensures sender != h ==>
        var id := old(storage.ring.links[sender].id);
        id in tables[h].cache && tables[h].cache[id] == sender
      ensures sender != h ==>
        storage.ring.inbox == Post(Post(old(storage.ring.inbox), sender, JoinReply(h, h, h)), sender, RoutingInfo(h, tables[h].cache))
    {
      UpdateRoutingCache(h, sender);
      ghost var cached := tables[h].cache;
      JoinLone(h, sender);
      assert tables[h].cache == cached;
    }

    /**
     * A `JOIN_REQUEST` taken by the loop of `run` at a node with a
     * neighbour, up to the transfer: the sender is cached first
     * (`update_routing_cache`), then the walk's reply is sent, and it is
     * always followed by `ROUTING_INFO`.  The transfer that ends the branch
     * is `Storage.TransferRelevantData`, as in `JoinWalk`.
     */
    method CachedJoinAnswer(h: Handle, sender: Handle, ghost order: seq<Handle>)
      requires Valid() && h in storage.ring.links && sender in storage.ring.links
      requires storage.ring.links[h].right != h && IsCycle(storage.ring.links, order) && order[0] == h
      modifies this, storage.ring
      ensures Valid() && halted == old(halted) && storage.ring.links == old(storage.ring.links)
      ensures tables == old(tables)[h := Remember(old(tables[h]), h, sender, storage.ring.links[sender].id)]
      ensures storage.ring.inbox == JoinAnswered(storage.ring.links, order, old(storage.ring.inbox), h, sender, tables[h].cache)
      ensures sender != h ==>
        var id := storage.ring.links[sender].id;
        id in tables[h].cache && tables[h].cache[id] == sender
      ensures sender != h ==>
        var k := JoinGapIndex(storage.ring.links, order, IdOf(storage.ring.links, sender));
        var replied := Post(old(storage.ring.inbox), sender, JoinReply(h, order[k], Next(order, k)));
        storage.ring.inbox == Post(replied, sender, RoutingInfo(h, tables[h].cache))
    {
      ghost var inbox0 := storage.ring.inbox;
      UpdateRoutingCache(h, sender);
      ghost var cached := tables[h].cache;
      JoinAnswer(h, sender, order);
      assert tables[h].cache == cached;
      if sender != h {
        AnsweredWithCache(storage.ring.links, order, inbox0, h, sender, cached);
      }
    }

    /** The `UPDATE_LEFT` branch of `parent_process_message`: as at a
        storage node, the left neighbour is overwritten and every primary
        pair is replicated to it. */
    method OnUpdateLeft(h: Handle, node: Handle) returns (ks: seq<Key>)
      requires Valid() && h in storage.ring.links && node in storage.ring.links
      modifies storage.ring
      ensures Valid() && storage.ring.links == old(storage.ring.links)[h := old(storage.ring.links[h]).(left := node)]
      ensures |ks| == |storage.dataStore[h]| && forall k :: k in ks <==> k in storage.dataStore[h]
      ensures storage.ring.inbox == old(storage.ring.inbox)[node := old(storage.ring.inbox[node]) + Replicas(h, storage.dataStore[h], ks)]
    {
      ks := storage.OnUpdateLeft(h, node);
      KeepTables(tables, old(storage.ring.links), storage.ring.links);
    }

    /** The `UPDATE_RIGHT` branch of `parent_process_message`. */
    method OnUpdateRight(h: Handle, node: Handle) returns (ks: seq<Key>)
      requires Valid() && h in storage.ring.links && node in storage.ring.links
      modifies storage.ring
      ensures Valid() && storage.ring.links == old(storage.ring.links)[h := old(storage.ring.links[h]).(right := node)]
      ensures |ks| == |storage.dataStore[h]| && forall k :: k in ks <==> k in storage.dataStore[h]
      ensures storage.ring.inbox == old(storage.ring.inbox)[node := old(storage.ring.inbox[node]) + Replicas(h, storage.dataStore[h], ks)]
    {
      ks := storage.OnUpdateRight(h, node);
      KeepTables(tables, old(storage.ring.links), storage.ring.links);
    }

    /** The `REPLICATE` branch of `parent_process_message`. */
    method OnReplicate(h: Handle, key: Key, value: Value)
      requires Valid() && h in storage.ring.links
      modifies storage
      ensures Valid() && storage.dataStore == old(storage.dataStore)
      ensures storage.replicated == old(storage.replicated)[h := old(storage.replicated[h])[key := value]]
    {
      storage.OnReplicate(h, key, value);
    }

    /** The `TRANSFER_DATA` branch of `parent_process_message`. */
    method OnTransferData(h: Handle, pairs: map<Key, Value>)
      requires Valid() && h in storage.ring.links
      modifies storage
      ensures Valid() && storage.replicated == old(storage.replicated)
      ensures storage.dataStore == old(storage.dataStore)[h := old(storage.dataStore[h]) + pairs]
    {
      storage.OnTransferData(h, pairs);
    }

    /** `send_message` of `m` to `find_best_next_hop(target)`. */
    method Forward(h: Handle, target: int, m: Msg) returns (next: Handle)
      requires Valid() && h in storage.ring.links && Names(m, storage.ring.links.Keys)
      modifies storage.ring
      ensures Valid() && storage.ring.links == old(storage.ring.links)
      ensures storage.dataStore == old(storage.dataStore) && storage.replicated == old(storage.replicated)
      ensures next in storage.ring.links
      ensures IsNextHop(storage.ring.links, h, tables[h].longLinks, tables[h].fingers, tables[h].cache, target, next)
      ensures storage.ring.inbox == Post(old(storage.ring.inbox), next, m)
    {
      next := NextHop(storage.ring.links, h, tables[h], target);
      storage.ring.Send(next, m);
    }

    /**
     * The `PUT_REQUEST` branch of `parent_process_message`.  At the
     * responsible node as at a storage node; anywhere else the unchanged
     * request goes, now sent by this node, to the best next hop towards the
     * responsible node's id (`forwarded`), and nothing is stored.
     */
    method OnPutRequest(h: Handle, sender: Handle, key: Key, value: Value, ghost order: seq<Handle>)
      returns (forwarded: Option<Handle>)
      requires Valid() && sender in storage.ring.links && h in storage.ring.links
      requires IsCycle(storage.ring.links, order) && order[0] == h
      modifies storage, storage.ring
      ensures Valid() && storage.ring.links == old(storage.ring.links) && storage.replicated == old(storage.replicated)
      ensures forwarded.None? <==> ResponsibleOnCycle(storage.ring.links, order, KeyHash(storage.digest, key)) == h
      ensures forwarded.None? ==>
        && storage.dataStore == old(storage.dataStore)[h := old(storage.dataStore[h])[key := value]]
        && storage.ring.inbox == PutAnswered(old(storage.ring.inbox), storage.ring.links, h, sender, key, value)
      ensures forwarded.Some? ==>
        && storage.dataStore == old(storage.dataStore)
        && forwarded.value in storage.ring.links
        && IsNextHop(storage.ring.links, h, tables[h].longLinks, tables[h].fingers, tables[h].cache,
                     IdOf(storage.ring.links, ResponsibleOnCycle(storage.ring.links, order, KeyHash(storage.digest, key))), forwarded.value)
        && storage.ring.inbox == Post(old(storage.ring.inbox), forwarded.value, PutRequest(h, key, value))
    {
      var target := FindResponsible(storage.ring.links, h, KeyHash(storage.digest, key), order);
      if target == h {
        storage.StoreHere(h, sender, key, value);
        forwarded := None;
      } else {
        var next := Forward(h, storage.ring.links[target].id, PutRequest(h, key, value));
        forwarded := Some(next);
      }
    }

    /**
     * The `GET_REQUEST` branch of `parent_process_message`.  At the
     * responsible node the answer comes from the primary pairs; anywhere
     * else the request goes to the best next hop towards the responsible
     * node's id.  No stored pair changes.
     */
    method OnGetRequest(h: Handle, sender: Handle, key: Key, ghost order: seq<Handle>)
      returns (forwarded: Option<Handle>)
      requires Valid() && sender in storage.ring.links && h in storage.ring.links
      requires IsCycle(storage.ring.links, order) && order[0] == h
      modifies storage.ring
      ensures Valid() && storage.ring.links == old(storage.ring.links)
      ensures forwarded.None? <==> ResponsibleOnCycle(storage.ring.links, order, KeyHash(storage.digest, key)) == h
      ensures forwarded.None? ==>
        storage.ring.inbox == Post(old(storage.ring.inbox), sender, GetResponse(h, key, Lookup(storage.dataStore[h], key)))
      ensures forwarded.Some? ==>
        && forwarded.value in storage.ring.links
        && IsNextHop(storage.ring.links, h, tables[h].longLinks, tables[h].fingers, tables[h].cache,
                     IdOf(storage.ring.links, ResponsibleOnCycle(storage.ring.links, order, KeyHash(storage.digest, key))), forwarded.value)
        && storage.ring.inbox == Post(old(storage.ring.inbox), forwarded.value, GetRequest(h, key))
    {
      var target := FindResponsible(storage.ring.links, h, KeyHash(storage.digest, key), order);
      if target == h {
        storage.AnswerGet(h, sender, key);
        forwarded := None;
      } else {
        var next := Forward(h, storage.ring.links[target].id, GetRequest(h, key));
        forwarded := Some(next);
      }
    }

    /**
     * The `ADVANCED_ROUTING` branch of `run` with the evidently intended
     * drop: a message past ten hops, or whose best hop is its sender with no
     * alternative, is abandoned and the node goes on with its next message.
     * The random choice among the alternatives is any alternative.
     */
    method OnAdvancedRouting(h: Handle, sender: Handle, target: int, hops: int, payload: string)
      returns (outcome: Routed)
      requires Valid() && h in storage.ring.links && sender in storage.ring.links
      modifies storage.ring
      ensures Valid() && storage.ring.links == old(storage.ring.links)
      ensures RoutingStep(storage.ring.links, h, tables[h], sender, target, hops, payload,
                          old(storage.ring.inbox), storage.ring.inbox, outcome)
    {
      if hops > 10 {
        return Dropped;
      }
      if target == storage.ring.links[h].id {
        return Delivered;
      }
      var next := ChooseHop(storage.ring.links, h, tables[h], sender, target);
      if next == None {
        return Dropped;
      }
      storage.ring.Send(next.value, AdvancedRouting(h, target, hops + 1, payload));
      outcome := Forwarded(next.value);
    }

    /**
     * The `ADVANCED_ROUTING` branch of `run` as written: both drops are a
     * `return` out of `run`, so the node's message loop ends and `h` joins
     * `halted`; `Take` never serves it again.
     */
    method OnAdvancedRoutingAsWritten(h: Handle, sender: Handle, target: int, hops: int, payload: string)
      returns (outcome: Routed)
      requires Valid() && h in storage.ring.links && sender in storage.ring.links
      modifies this, storage.ring
      ensures Valid() && storage.ring.links == old(storage.ring.links) && tables == old(tables)
      ensures RoutingStep(storage.ring.links, h, tables[h], sender, target, hops, payload,
                          old(storage.ring.inbox), storage.ring.inbox, outcome)
      ensures halted == if outcome == Dropped then old(halted) + {h} else old(halted)
      ensures hops > 10 ==> h in halted
    {
      outcome := OnAdvancedRouting(h, sender, target, hops, payload);
      if outcome == Dropped {
        halted := halted + {h};
      }
    }
  }
}
