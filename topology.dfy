/**
 * The neighbour structure every ring variant shares.  A node object is named
 * by a `Handle` (its identity in the running program); the objects' `node_id`,
 * `left_neighbor` and `right_neighbor` fields are collected in a `Links` map.
 * Ring-shaped link states are described with a ghost `order`: the node
 * objects in the order `right_neighbor` visits them.
 */
module Topology {

  type Handle = nat

  /** The neighbour fields of one node object. */
  datatype Link = Link(id: int, left: Handle, right: Handle)

  type Links = map<Handle, Link>

  /** The `node_id` of a registered node object (0 for a handle that names none). */
  function IdOf(links: Links, h: Handle): int
  {
    if h in links then links[h].id else 0
  }

  /** The `right_neighbor` of a registered node object. */
  function RightOf(links: Links, h: Handle): Handle
  {
    if h in links then links[h].right else h
  }

  /** Every neighbour reference points at a registered node object. */
  predicate Closed(links: Links)
  {
    forall l :: l in links.Values ==> l.left in links && l.right in links
  }

  /** Overwriting one node object's fields with references to registered
      objects keeps the neighbour references closed. */
  lemma ClosedUpdate(links: Links, h: Handle, link: Link)
    requires Closed(links) && h in links && link.left in links && link.right in links
    ensures Closed(links[h := link])
  {
    var u := links[h := link];
    forall v | v in u.Values
      ensures v.left in u && v.right in u
    {
      var g :| g in u && u[g] == v;
      if g != h {
        assert links[g] in links.Values;
      }
    }
  }

  function Next(order: seq<Handle>, i: nat): Handle
    requires i < |order|
  {
    if i + 1 < |order| then order[i + 1] else order[0]
  }

  function Prev(order: seq<Handle>, i: nat): Handle
    requires i < |order|
  {
    if i > 0 then order[i - 1] else order[|order| - 1]
  }

  ghost predicate Distinct(order: seq<Handle>)
  {
    forall i, j :: 0 <= i < j < |order| ==> order[i] != order[j]
  }

  /** Following `right_neighbor` from `order[0]` visits exactly `order` and returns. */
  ghost predicate IsCycle(links: Links, order: seq<Handle>)
  {
    && |order| > 0
    && Distinct(order)
    && forall i :: 0 <= i < |order| ==> order[i] in links && links[order[i]].right == Next(order, i)
  }

  /** A cycle whose `left_neighbor` fields point back along it. */
  ghost predicate IsRing(links: Links, order: seq<Handle>)
  {
    && IsCycle(links, order)
    && forall i :: 0 <= i < |order| ==> links[order[i]].left == Prev(order, i)
  }

  ghost predicate DistinctIds(links: Links, order: seq<Handle>)
  {
    forall a, b :: a in order && b in order && a != b ==> IdOf(links, a) != IdOf(links, b)
  }

  /**
   * The gap test of the join walk: `x` belongs between `a` and its right
   * neighbour `b`, either strictly between them or, when the pair wraps from
   * the largest id to the smallest, above `a` or below `b`.
   */
  predicate InJoinGap(a: int, x: int, b: int)
  {
    (a > b && (x > a || x < b)) || (a < x && x < b)
  }

  /** An end point of a pair is never inside the pair's gap. */
  lemma EndsNotInGap(a: int, b: int)
    ensures !InJoinGap(a, a, b) && !InJoinGap(a, b, b)
  {
  }

  /** The gap test holds for the `i`-th pair of the cycle. */
  ghost predicate GapAt(links: Links, order: seq<Handle>, x: int, i: nat)
    requires i < |order|
  {
    InJoinGap(IdOf(links, order[i]), x, IdOf(links, Next(order, i)))
  }

  /** No node of the ring lies inside any pair's gap: every right neighbour is
      the next id clockwise, so the ring is sorted by id up to one wrap. */
  ghost predicate Ordered(links: Links, order: seq<Handle>)
  {
    && DistinctIds(links, order)
    && forall a, c :: a in order && c in order ==>
         !InJoinGap(IdOf(links, a), IdOf(links, c), IdOf(links, RightOf(links, a)))
  }

  /** Index of the first pair from `k` on whose gap holds `x` (|order| if none). */
  ghost function FirstGapFrom(links: Links, order: seq<Handle>, x: int, k: nat): (r: nat)
    requires k <= |order|
    ensures k <= r <= |order|
    ensures r < |order| ==> GapAt(links, order, x, r)
    ensures forall i :: k <= i < r ==> !GapAt(links, order, x, i)
    decreases |order| - k
  {
    if k == |order| then k
    else if GapAt(links, order, x, k) then k
    else FirstGapFrom(links, order, x, k + 1)
  }

  /** Where the join walk started at `order[0]` stops: the first pair whose gap
      holds `x`, or the starting pair when it has gone all the way round. */
  ghost function JoinGapIndex(links: Links, order: seq<Handle>, x: int): (k: nat)
    requires |order| > 0
    ensures k < |order|
    ensures GapAt(links, order, x, k) || (k == 0 && forall i :: 0 <= i < |order| ==> !GapAt(links, order, x, i))
    ensures forall i :: 0 <= i < k ==> !GapAt(links, order, x, i)
  {
    var r := FirstGapFrom(links, order, x, 0);
    if r < |order| then r else 0
  }

  /**
   * The join walk (`JOIN_REQUEST` branch of `run`): starting from the
   * responder, follow right neighbours until the pair `(current, next_node)`
   * brackets `x`, or until `current` is the responder again.
   */
  method FindJoinGap(links: Links, self: Handle, x: int, ghost order: seq<Handle>)
    returns (current: Handle, next: Handle)
    requires IsCycle(links, order) && order[0] == self
    ensures current == order[JoinGapIndex(links, order, x)]
    ensures next == Next(order, JoinGapIndex(links, order, x))
    ensures current in links && next == links[current].right
    ensures InJoinGap(IdOf(links, current), x, IdOf(links, next)) || current == self
  {
    current := self;
    next := links[self].right;
    ghost var i: nat := 0;
    while true
      invariant i < |order| && current == order[i] && next == Next(order, i)
      invariant forall t :: 0 <= t < i ==> !GapAt(links, order, x, t)
      decreases |order| - i
    {
      // the wrap-around test, then the plain test, of the source
      if InJoinGap(links[current].id, x, links[next].id) {
        GapIndexAt(links, order, x, i);
        break;
      }
      current := next;
      next := links[current].right;
      CycleStep(links, order, i);
      if i + 1 < |order| {
        i := i + 1;
      } else {
        NoGapIndex(links, order, x);
        i := 0;
      }
      if current == self {
        break;
      }
    }
  }

  /** One step right along the cycle from its `i`-th node: the next node is
      the start again exactly when `i` is the last index. */
  lemma CycleStep(links: Links, order: seq<Handle>, i: nat)
    requires IsCycle(links, order) && i < |order|
    ensures var n := Next(order, i);
      && n in links && links[n].right == (if i + 1 < |order| then Next(order, i + 1) else Next(order, 0))
      && (n == order[0] <==> i + 1 == |order|)
      && (i + 1 < |order| ==> n == order[i + 1])
  {
    if i + 1 < |order| {
      assert order[i + 1] != order[0];
    }
  }

  /** The first pair whose gap holds `x` is where the join walk stops. */
  lemma GapIndexAt(links: Links, order: seq<Handle>, x: int, i: nat)
    requires i < |order| && GapAt(links, order, x, i)
    requires forall t :: 0 <= t < i ==> !GapAt(links, order, x, t)
    ensures JoinGapIndex(links, order, x) == i
  {
  }

  /** With no pair's gap holding `x` the walk stops where it started. */
  lemma NoGapIndex(links: Links, order: seq<Handle>, x: int)
    requires |order| > 0
    requires forall t :: 0 <= t < |order| ==> !GapAt(links, order, x, t)
    ensures JoinGapIndex(links, order, x) == 0
  {
  }


  // ---------------------------------------------------------------------
  // Splicing a node in and out

  /** The links once a joiner `j` has adopted `(l, r)` and `l`, `r` have
      applied its `UPDATE_RIGHT` and `UPDATE_LEFT`. */
  function Splice(links: Links, j: Handle, l: Handle, r: Handle): (spliced: Links)
    requires j != l && j != r
    ensures spliced.Keys == links.Keys
    ensures forall h :: h in links ==> IdOf(spliced, h) == IdOf(links, h)
  {
    map h | h in links ::
      links[h].(left := if h == r then j else if h == j then l else links[h].left,
                right := if h == l then j else if h == j then r else links[h].right)
  }

  /** The links once the neighbours `l` and `r` of a leaving node have applied
      its `UPDATE_RIGHT(r)` and `UPDATE_LEFT(l)`. */
  function Unsplice(links: Links, l: Handle, r: Handle): (unspliced: Links)
    ensures unspliced.Keys == links.Keys
    ensures forall h :: h in links ==> IdOf(unspliced, h) == IdOf(links, h)
  {
    map h | h in links ::
      links[h].(left := if h == r then l else links[h].left,
                right := if h == l then r else links[h].right)
  }

  /** `Splice` is the joiner adopting `(l, r)`, then `l` taking the joiner as
      right neighbour, then `r` taking it as left neighbour. */
  lemma SpliceSteps(links: Links, j: Handle, l: Handle, r: Handle)
    requires j != l && j != r && j in links && l in links && r in links
    ensures var a := links[j := links[j].(left := l, right := r)];
      var b := a[l := a[l].(right := j)];
      b[r := b[r].(left := j)] == Splice(links, j, l, r)
  {
    var a := links[j := links[j].(left := l, right := r)];
    var b := a[l := a[l].(right := j)];
    var c := b[r := b[r].(left := j)];
    var s := Splice(links, j, l, r);
    assert c.Keys == s.Keys;
    forall h | h in c
      ensures c[h] == s[h]
    {
    }
  }

  /** When the joiner's two neighbours are one node, what that node held
      before in its neighbour fields does not matter to the splice. */
  lemma SpliceOverwritesEnd(links: Links, j: Handle, b: Handle, x: Handle, y: Handle)
    requires j != b && b in links
    ensures Splice(links[b := links[b].(left := x, right := y)], j, b, b) == Splice(links, j, b, b)
  {
    var u := links[b := links[b].(left := x, right := y)];
    assert Splice(u, j, b, b).Keys == Splice(links, j, b, b).Keys;
    forall h | h in links
      ensures Splice(u, j, b, b)[h] == Splice(links, j, b, b)[h]
    {
    }
  }

  /** `Unsplice` is `l` taking `r` as right neighbour, then `r` taking `l`
      as left neighbour. */
  lemma UnspliceSteps(links: Links, l: Handle, r: Handle)
    requires l in links && r in links
    ensures var a := links[l := links[l].(right := r)];
      a[r := a[r].(left := l)] == Unsplice(links, l, r)
  {
    var a := links[l := links[l].(right := r)];
    var c := a[r := a[r].(left := l)];
    var s := Unsplice(links, l, r);
    assert c.Keys == s.Keys;
    forall h | h in c
      ensures c[h] == s[h]
    {
    }
  }

  function Inserted(order: seq<Handle>, k: nat, j: Handle): (o: seq<Handle>)
    requires k < |order|
    ensures |o| == |order| + 1
  {
    order[..k + 1] + [j] + order[k + 1..]
  }

  function Removed(order: seq<Handle>, k: nat): (o: seq<Handle>)
    requires k < |order|
    ensures |o| == |order| - 1
  {
    order[..k] + order[k + 1..]
  }

  lemma InsertedAt(order: seq<Handle>, k: nat, j: Handle, i: nat)
    requires k < |order| && i <= |order|
    ensures Inserted(order, k, j)[i] == if i <= k then order[i] else if i == k + 1 then j else order[i - 1]
  {
  }

  /** Neighbours of position `i` of the extended order, in terms of the old one. */
  lemma InsertedNeighbours(order: seq<Handle>, k: nat, j: Handle, i: nat)
    requires k < |order| && i <= |order|
    ensures Next(Inserted(order, k, j), i) ==
      if i < k then Next(order, i) else if i == k then j
      else if i == k + 1 then Next(order, k) else Next(order, i - 1)
    ensures Prev(Inserted(order, k, j), i) ==
      if i == k + 1 then order[k]
      else if i == k + 2 || (i == 0 && k + 1 == |order|) then j
      else if i <= k then Prev(order, i) else Prev(order, i - 1)
  {
    var o := Inserted(order, k, j);
    var n := |order|;
    InsertedAt(order, k, j, i);
    if i + 1 <= n { InsertedAt(order, k, j, i + 1); }
    if i > 0 { InsertedAt(order, k, j, i - 1); }
    InsertedAt(order, k, j, 0);
    InsertedAt(order, k, j, n);
  }

  lemma InsertedDistinct(order: seq<Handle>, k: nat, j: Handle)
    requires k < |order| && Distinct(order) && j !in order
    ensures Distinct(Inserted(order, k, j))
  {
    var o := Inserted(order, k, j);
    forall a, b | 0 <= a < b < |o|
      ensures o[a] != o[b]
    {
      InsertedAt(order, k, j, a);
      InsertedAt(order, k, j, b);
    }
  }

  /** Splicing an unlinked node in after position `k` of a ring gives a ring
      one longer, with the joiner right after `order[k]`. */
  lemma {:induction false} InsertKeepsRing(links: Links, order: seq<Handle>, k: nat, j: Handle)
    requires IsRing(links, order) && k < |order| && j in links && j !in order
    ensures IsRing(Splice(links, j, order[k], Next(order, k)), Inserted(order, k, j))
  {
    var l, r := order[k], Next(order, k);
    var s := Splice(links, j, l, r);
    var o := Inserted(order, k, j);
    var n := |order|;
    InsertedDistinct(order, k, j);
    forall i | 0 <= i < |o|
      ensures o[i] in s && s[o[i]].right == Next(o, i) && s[o[i]].left == Prev(o, i)
    {
      InsertedAt(order, k, j, i);
      InsertedNeighbours(order, k, j, i);
      if i < k {
        assert o[i] != l;
        if o[i] == r { assert i == 0 && k + 1 == n; }
      } else if i == k {
        if l == r { assert n == 1; }
      } else if i > k + 1 {
        assert o[i] == order[i - 1] && o[i] != l;
        if o[i] == r { assert i - 1 == k + 1; } else { assert i - 1 != k + 1; }
      }
    }
  }

  lemma RemovedAt(order: seq<Handle>, k: nat, i: nat)
    requires k < |order| && i + 1 < |order|
    ensures Removed(order, k)[i] == if i < k then order[i] else order[i + 1]
  {
  }

  /** Neighbours of position `i` of the shortened order, in terms of the old one:
      the node before the leaver now points past it, and so on. */
  lemma RemovedNeighbours(order: seq<Handle>, k: nat, i: nat)
    requires 2 <= |order| && k < |order| && i + 1 < |order| && Distinct(order)
    ensures var m := if i < k then i else i + 1;
      && Next(Removed(order, k), i) == (if Next(order, m) == order[k] then Next(order, k) else Next(order, m))
      && Prev(Removed(order, k), i) == (if Prev(order, m) == order[k] then Prev(order, k) else Prev(order, m))
  {
    var n := |order|;
    var o := Removed(order, k);
    RemovedAt(order, k, i);
    if i + 1 < |o| { RemovedAt(order, k, i + 1); }
    if i > 0 { RemovedAt(order, k, i - 1); }
    RemovedAt(order, k, 0);
    RemovedAt(order, k, n - 2);
  }

  lemma RemovedDistinct(order: seq<Handle>, k: nat)
    requires k < |order| && Distinct(order)
    ensures Distinct(Removed(order, k))
    ensures forall h :: h in Removed(order, k) ==> h in order && h != order[k]
  {
    var o := Removed(order, k);
    forall a, b | 0 <= a < b < |o|
      ensures o[a] != o[b]
    {
      RemovedAt(order, k, a);
      RemovedAt(order, k, b);
    }
    forall h | h in o
      ensures h in order && h != order[k]
    {
      var i :| 0 <= i < |o| && o[i] == h;
      RemovedAt(order, k, i);
    }
  }

  /** Unsplicing `order[k]` from a ring of two or more gives the ring without it. */
  lemma {:induction false} RemoveKeepsRing(links: Links, order: seq<Handle>, k: nat)
    requires IsRing(links, order) && |order| >= 2 && k < |order|
    ensures links[order[k]].left == Prev(order, k) && links[order[k]].right == Next(order, k)
    ensures IsRing(Unsplice(links, Prev(order, k), Next(order, k)), Removed(order, k))
  {
    var x := order[k];
    var n := |order|;
    var l, r := Prev(order, k), Next(order, k);
    var s := Unsplice(links, l, r);
    var o := Removed(order, k);
    RemovedDistinct(order, k);
    forall i | 0 <= i < |o|
      ensures o[i] in s && s[o[i]].right == Next(o, i) && s[o[i]].left == Prev(o, i)
    {
      var m := if i < k then i else i + 1;
      RemovedAt(order, k, i);
      RemovedNeighbours(order, k, i);
      assert o[i] == order[m];
      if Next(order, m) == x {
        assert o[i] == l by {
          if m + 1 < n { assert order[m + 1] == order[k]; } else { assert order[0] == order[k]; }
        }
      } else {
        assert o[i] != l by {
          if k > 0 { assert l == order[k - 1]; } else { assert l == order[n - 1]; }
        }
      }
      if Prev(order, m) == x {
        assert o[i] == r by {
          if m > 0 { assert order[m - 1] == order[k]; } else { assert order[n - 1] == order[k]; }
        }
      } else {
        assert o[i] != r by {
          if k + 1 < n { assert r == order[k + 1]; } else { assert r == order[0]; }
        }
      }
    }
  }

  /** Registering a node object outside the ring changes nothing about it. */
  lemma AddOutside(links: Links, order: seq<Handle>, j: Handle, link: Link)
    requires j !in order
    ensures IsRing(links, order) ==> IsRing(links[j := link], order)
    ensures IsCycle(links, order) && Ordered(links, order) ==> Ordered(links[j := link], order)
  {
    var u := links[j := link];
    assert forall c :: c in order ==> IdOf(u, c) == IdOf(links, c) && RightOf(u, c) == RightOf(links, c);
    if IsRing(links, order) {
      assert forall i :: 0 <= i < |order| ==> order[i] in order;
    }
    if IsCycle(links, order) && Ordered(links, order) {
      forall a | a in order
        ensures RightOf(links, a) in order
      {
        var i :| 0 <= i < |order| && order[i] == a;
        assert RightOf(links, a) == Next(order, i);
      }
    }
  }

  // ---------------------------------------------------------------------
  // Joins and leaves keep the ring sorted

  lemma InsertedMembers(order: seq<Handle>, k: nat, j: Handle)
    requires k < |order|
    ensures forall h :: h in Inserted(order, k, j) <==> h in order || h == j
  {
    assert order == order[..k + 1] + order[k + 1..];
  }

  /** A node whose id is new and lies in the gap after `order[k]` (or that
      joins a one-member ring) keeps the ring sorted once spliced in there. */
  lemma {:induction false} InsertKeepsOrdered(links: Links, order: seq<Handle>, k: nat, j: Handle)
    requires IsCycle(links, order) && Ordered(links, order) && k < |order|
    requires j in links && j !in order
    requires forall c :: c in order ==> IdOf(links, c) != IdOf(links, j)
    requires GapAt(links, order, IdOf(links, j), k) || |order| == 1
    ensures Ordered(Splice(links, j, order[k], Next(order, k)), Inserted(order, k, j))
  {
    var l, r := order[k], Next(order, k);
    var x := IdOf(links, j);
    var s := Splice(links, j, l, r);
    var o := Inserted(order, k, j);
    InsertedMembers(order, k, j);
    assert l in order && r in order && RightOf(links, l) == r;
    forall a, c | a in o && c in o
      ensures !InJoinGap(IdOf(s, a), IdOf(s, c), IdOf(s, RightOf(s, a)))
    {
      if a == j {
        assert RightOf(s, a) == r;
      } else if a == l {
        assert RightOf(s, a) == j;
        if |order| == 1 { assert c == l || c == j; }
      } else {
        var b := RightOf(links, a);
        assert RightOf(s, a) == b;
        if c == j {
          assert a in order;
          var i :| 0 <= i < |order| && order[i] == a;
          assert b == Next(order, i) && b in order;
          assert IdOf(links, a) != IdOf(links, l);
          assert !InJoinGap(IdOf(links, a), IdOf(links, l), IdOf(links, b));
          assert !InJoinGap(IdOf(links, a), IdOf(links, r), IdOf(links, b));
          assert !InJoinGap(IdOf(links, l), IdOf(links, a), IdOf(links, r));
          assert !InJoinGap(IdOf(links, l), IdOf(links, b), IdOf(links, r));
        }
      }
    }
  }

  lemma RemovedMembers(order: seq<Handle>, k: nat)
    requires k < |order| && Distinct(order)
    ensures forall h :: h in Removed(order, k) <==> h in order && h != order[k]
  {
    RemovedDistinct(order, k);
    assert order == order[..k] + [order[k]] + order[k + 1..];
  }

  /** Unlinking a node from a sorted ring of two or more leaves it sorted. */
  lemma {:induction false} RemoveKeepsOrdered(links: Links, order: seq<Handle>, k: nat)
    requires IsCycle(links, order) && Ordered(links, order) && |order| >= 2 && k < |order|
    ensures Ordered(Unsplice(links, Prev(order, k), Next(order, k)), Removed(order, k))
  {
    var n := |order|;
    var x, l, r := order[k], Prev(order, k), Next(order, k);
    var s := Unsplice(links, l, r);
    var o := Removed(order, k);
    RemovedMembers(order, k);
    assert l in order && r in order && l != x && r != x by {
      if k > 0 { assert l == order[k - 1]; } else { assert l == order[n - 1]; }
      if k + 1 < n { assert r == order[k + 1]; } else { assert r == order[0]; }
    }
    assert RightOf(links, x) == r;
    assert RightOf(links, l) == x by {
      if k > 0 { assert l == order[k - 1] && Next(order, k - 1) == x; }
      else { assert l == order[n - 1] && Next(order, n - 1) == x; }
    }
    forall a, c | a in o && c in o
      ensures !InJoinGap(IdOf(s, a), IdOf(s, c), IdOf(s, RightOf(s, a)))
    {
      if a == l {
        assert RightOf(s, a) == r;
        assert IdOf(links, c) != IdOf(links, x);
        assert !InJoinGap(IdOf(links, l), IdOf(links, c), IdOf(links, x));
        assert !InJoinGap(IdOf(links, x), IdOf(links, c), IdOf(links, r));
        assert !InJoinGap(IdOf(links, l), IdOf(links, r), IdOf(links, x));
        assert !InJoinGap(IdOf(links, x), IdOf(links, l), IdOf(links, r));
      } else {
        assert RightOf(s, a) == RightOf(links, a);
      }
    }
  }

  // ---------------------------------------------------------------------
  // A new id always finds its gap

  /** If every pair of a cycle went up, the ids would increase forever. */
  lemma {:induction false} AscendingFrom(links: Links, order: seq<Handle>, i: nat)
    requires i < |order|
    requires forall t :: 0 <= t < |order| ==> IdOf(links, order[t]) < IdOf(links, Next(order, t))
    ensures IdOf(links, order[i]) >= IdOf(links, order[0]) + i
  {
    if i > 0 {
      AscendingFrom(links, order, i - 1);
      assert Next(order, i - 1) == order[i];
    }
  }

  /** Some pair of a cycle goes down (the wrap from the largest id to the smallest). */
  lemma NotAllAscending(links: Links, order: seq<Handle>) returns (d: nat)
    requires |order| > 0
    ensures d < |order| && IdOf(links, order[d]) >= IdOf(links, Next(order, d))
  {
    if forall t :: 0 <= t < |order| ==> IdOf(links, order[t]) < IdOf(links, Next(order, t)) {
      AscendingFrom(links, order, |order| - 1);
      assert false;
    }
    d :| 0 <= d < |order| && IdOf(links, order[d]) >= IdOf(links, Next(order, d));
  }

  /** Scanning up from a position below `v` to one at or above it crosses `v`. */
  lemma {:induction false} ScanUp(links: Links, order: seq<Handle>, v: int, a: nat, b: nat) returns (k: nat)
    requires a < b < |order|
    requires IdOf(links, order[a]) < v <= IdOf(links, order[b])
    ensures a <= k < b && IdOf(links, order[k]) < v <= IdOf(links, order[k + 1])
    decreases b - a
  {
    if v <= IdOf(links, order[a + 1]) {
      k := a;
    } else {
      k := ScanUp(links, order, v, a + 1, b);
    }
  }

  /** Some pair of a cycle goes from below `v` to at least `v`, when some id is
      below `v` and some id is at least `v`. */
  lemma Crossing(links: Links, order: seq<Handle>, v: int, i: nat, j: nat) returns (k: nat)
    requires i < |order| && j < |order|
    requires IdOf(links, order[i]) < v <= IdOf(links, order[j])
    ensures k < |order| && IdOf(links, order[k]) < v <= IdOf(links, Next(order, k))
  {
    var n := |order|;
    if i < j {
      k := ScanUp(links, order, v, i, j);
    } else if IdOf(links, order[n - 1]) < v {
      if IdOf(links, order[0]) >= v {
        k := n - 1;
      } else {
        k := ScanUp(links, order, v, 0, j);
      }
    } else {
      k := ScanUp(links, order, v, i, n - 1);
    }
  }

  /**
   * On a cycle of two or more nodes with distinct ids, an id held by none of
   * them lies in the join gap of some pair, so the join walk never falls back
   * to its full-circle answer.
   */
  lemma FreshIdFindsGap(links: Links, order: seq<Handle>, x: int) returns (k: nat)
    requires IsCycle(links, order) && |order| >= 2 && DistinctIds(links, order)
    requires forall c :: c in order ==> IdOf(links, c) != x
    ensures k < |order| && GapAt(links, order, x, k)
  {
    var n := |order|;
    if exists i, j :: 0 <= i < n && 0 <= j < n && IdOf(links, order[i]) < x < IdOf(links, order[j]) {
      var i, j :| 0 <= i < n && 0 <= j < n && IdOf(links, order[i]) < x < IdOf(links, order[j]);
      k := Crossing(links, order, x, i, j);
      assert IdOf(links, Next(order, k)) != x by {
        if k + 1 < n { assert order[k + 1] in order; } else { assert order[0] in order; }
      }
    } else {
      k := NotAllAscending(links, order);
      var b := Next(order, k);
      assert order[k] != b by {
        if k + 1 < n { assert order[k] != order[k + 1]; } else { assert order[k] != order[0]; }
      }
      assert b in order by {
        if k + 1 < n { assert order[k + 1] in order; } else { assert order[0] in order; }
      }
      assert IdOf(links, order[k]) > IdOf(links, b);
      assert order[k] in order;
    }
  }

  /**
   * A whole join round on a ring, from the links as they stand once the
   * joiner `j` exists (`links1` is those links after the responder has
   * answered, a lone responder having taken `j` as both neighbours): the
   * joiner adopting the pair the walk stopped at and the two neighbour
   * updates give `Splice`, the result is a ring with `j` inserted after the
   * walk's stop, and a sorted ring stays sorted when the id is fresh.
   */
  lemma JoinSplices(links: Links, order: seq<Handle>, j: Handle, id: int, links1: Links)
    requires IsRing(links, order) && j !in links
    requires var links0 := links[j := Link(id, j, j)];
      links1 == links0 ||
      (links0[order[0]].right == order[0] && links1 == links0[order[0] := links0[order[0]].(left := j, right := j)])
    ensures var links0 := links[j := Link(id, j, j)];
      var k := JoinGapIndex(links0, order, id);
      var l, r := order[k], Next(order, k);
      && l in links && r in links
      && (links0[order[0]].right == order[0] ==> l == order[0] && r == order[0])
      && (var a := links1[j := links1[j].(left := l, right := r)];
          var b := a[l := a[l].(right := j)];
          b[r := b[r].(left := j)] == Splice(links0, j, l, r))
      && IsRing(Splice(links0, j, l, r), Inserted(order, k, j))
      && (Ordered(links, order) && (forall c :: c in order ==> IdOf(links, c) != id) ==>
            Ordered(Splice(links0, j, l, r), Inserted(order, k, j)))
  {
    var links0 := links[j := Link(id, j, j)];
    AddOutside(links, order, j, Link(id, j, j));
    assert j !in order by {
      assert forall i :: 0 <= i < |order| ==> order[i] in links;
    }
    var k := JoinGapIndex(links0, order, id);
    var b := order[0];
    var l, r := order[k], Next(order, k);
    SpliceSteps(links1, j, l, r);
    if links1 != links0 {
      SpliceOverwritesEnd(links0, j, b, j, j);
    }
    InsertKeepsRing(links0, order, k, j);
    if Ordered(links, order) && (forall c :: c in order ==> IdOf(links, c) != id) {
      JoinKeepsSortedRing(links0, order, j);
    }
  }

  /**
   * The join protocol keeps a sorted ring sorted: a node with a new id that
   * is spliced in where the walk from `order[0]` stops leaves a ring, one
   * longer, that is still sorted by id.
   */
  lemma {:induction false} JoinKeepsSortedRing(links: Links, order: seq<Handle>, j: Handle)
    requires IsRing(links, order) && Ordered(links, order)
    requires j in links && j !in order
    requires forall c :: c in order ==> IdOf(links, c) != IdOf(links, j)
    ensures var k := JoinGapIndex(links, order, IdOf(links, j));
      && IsRing(Splice(links, j, order[k], Next(order, k)), Inserted(order, k, j))
      && Ordered(Splice(links, j, order[k], Next(order, k)), Inserted(order, k, j))
  {
    var x := IdOf(links, j);
    var k := JoinGapIndex(links, order, x);
    if |order| >= 2 {
      var g := FreshIdFindsGap(links, order, x);
    }
    InsertKeepsRing(links, order, k, j);
    InsertKeepsOrdered(links, order, k, j);
  }

  /** A leave from a ring of two or more leaves a ring, sorted if it was. */
  lemma {:induction false} LeaveKeepsSortedRing(links: Links, order: seq<Handle>, k: nat)
    requires IsRing(links, order) && |order| >= 2 && k < |order|
    ensures links[order[k]].left == Prev(order, k) && links[order[k]].right == Next(order, k)
    ensures IsRing(Unsplice(links, Prev(order, k), Next(order, k)), Removed(order, k))
    ensures Ordered(links, order) ==> Ordered(Unsplice(links, Prev(order, k), Next(order, k)), Removed(order, k))
  {
    RemoveKeepsRing(links, order, k);
    if Ordered(links, order) {
      RemoveKeepsOrdered(links, order, k);
    }
  }

  // ---------------------------------------------------------------------
  // Mailboxes and walks

  /** `send_message`: append `m` to the FIFO mailbox of `to`. */
  function Post<M>(boxes: map<Handle, seq<M>>, to: Handle, m: M): (posted: map<Handle, seq<M>>)
    requires to in boxes
    ensures posted.Keys == boxes.Keys && to in posted
  {
    boxes[to := boxes[to] + [m]]
  }

  /** Two messages posted to empty mailboxes, `a` to `l` then `b` to `r`,
      come out as `a` at `l` and then `b` at `r`, leaving every mailbox
      empty again, whether or not `l` and `r` are the same. */
  lemma DrainTwo<M>(boxes: map<Handle, seq<M>>, l: Handle, r: Handle, a: M, b: M)
    requires l in boxes && r in boxes && forall h :: h in boxes ==> boxes[h] == []
    ensures var p := Post(Post(boxes, l, a), r, b);
      && p[l] != [] && p[l][0] == a
      && var q := p[l := p[l][1..]];
         && q[r] != [] && q[r][0] == b
         && forall h :: h in q ==> q[r := q[r][1..]][h] == []
  {
  }

  /** One `send_message` of the same message to each of `tos`, in order. */
  function PostEach<M>(boxes: map<Handle, seq<M>>, tos: seq<Handle>, m: M): (posted: map<Handle, seq<M>>)
    requires forall i :: 0 <= i < |tos| ==> tos[i] in boxes
    ensures posted.Keys == boxes.Keys
    decreases |tos|
  {
    if tos == [] then boxes else PostEach(Post(boxes, tos[0], m), tos[1..], m)
  }

  /** The node reached after `t` hops along right neighbours. */
  function Walk(links: Links, h: Handle, t: nat): Handle
    decreases t
  {
    if t == 0 then h else Walk(links, RightOf(links, h), t - 1)
  }

  /** On a cycle, `t` hops from `order[0]` land on `order[t]`, and a full lap returns. */
  lemma {:induction false} WalkOnCycle(links: Links, order: seq<Handle>, t: nat)
    requires IsCycle(links, order) && t <= |order|
    ensures Walk(links, order[0], t) == if t < |order| then order[t] else order[0]
  {
    if t > 0 {
      WalkOnCycle(links, order, t - 1);
      WalkStep(links, order[0], t - 1);
      assert RightOf(links, order[t - 1]) == Next(order, t - 1);
    }
  }

  /** Walking one hop more is one more right neighbour at the end. */
  lemma {:induction false} WalkStep(links: Links, h: Handle, t: nat)
    ensures Walk(links, h, t + 1) == RightOf(links, Walk(links, h, t))
    decreases t
  {
    if t > 0 {
      WalkStep(links, RightOf(links, h), t - 1);
    }
  }

  /**
   * Reference definition of consistent-hash placement: `r` holds the least id
   * at or above `v`, or, when every id is below `v`, the least id overall.
   */
  ghost predicate IsSuccessor(links: Links, nodes: seq<Handle>, v: int, r: Handle)
  {
    && r in nodes
    && if exists c :: c in nodes && IdOf(links, c) >= v then
         IdOf(links, r) >= v && forall c :: c in nodes && IdOf(links, c) >= v ==> IdOf(links, r) <= IdOf(links, c)
       else
         forall c :: c in nodes ==> IdOf(links, r) <= IdOf(links, c)
  }
}
