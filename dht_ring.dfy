/**
 * The ring membership protocol of `dht_ring.py` and of its documented copy
 * `version1/dht_ring.py`: node objects with a left and a right neighbour,
 * one FIFO mailbox per node, the join walk, the two neighbour updates, and
 * the ring integrity check run at the end of a simulation.
 *
 * `Ring` holds the fields of every node object of the network, keyed by the
 * object's handle; a message is taken out of a mailbox by `Receive` and acted
 * on by `Handle` (one turn of the `run` loop).
 */
module DhtRing {
  import opened Wrappers
  import opened Topology

  /** Keys and values of the stored pairs. */
  type Key = string
  type Value = string

  /**
   * The messages exchanged by the ring-based node classes: the membership
   * kinds of the base ring, the storage kinds (`PUT_REQUEST` ... `TRANSFER_DATA`),
   * the routing kinds of the advanced nodes, and the plain `MSG` of `Node.py`.
   * `sender` is always the node object that queued the message.
   */
  datatype Msg =
    | JoinRequest(sender: Handle)
    | JoinReply(sender: Handle, left: Handle, right: Handle)
    | UpdateLeft(sender: Handle, node: Handle)
    | UpdateRight(sender: Handle, node: Handle)
    | Text(sender: Handle, text: string)
    | PutRequest(sender: Handle, key: Key, value: Value)
    | GetRequest(sender: Handle, key: Key)
    | PutConfirm(sender: Handle, key: Key)
    | GetResponse(sender: Handle, key: Key, found: Option<Value>)
    | Replicate(sender: Handle, key: Key, value: Value)
    | TransferData(sender: Handle, pairs: map<Key, Value>)
    | RoutingInfo(sender: Handle, cache: map<int, Handle>)
    | LongLinkRequest(sender: Handle)
    | LongLinkConfirm(sender: Handle, nodeId: int)
    | AdvancedRouting(sender: Handle, target: int, hops: int, payload: string)
    | RouteRequest(sender: Handle, target: int, hops: int, data: string)
    | Route(sender: Handle, target: int, message: string)

  /** Every node object a message refers to is in `hs`. */
  predicate Names(m: Msg, hs: set<Handle>)
  {
    && m.sender in hs
    && match m
       case JoinReply(_, l, r) => l in hs && r in hs
       case UpdateLeft(_, n) => n in hs
       case UpdateRight(_, n) => n in hs
       case RoutingInfo(_, cache) => forall k :: k in cache ==> cache[k] in hs
       case _ => true
  }

  /** Every queued message refers only to node objects in `hs`. */
  ghost predicate MailOk(inbox: map<Handle, seq<Msg>>, hs: set<Handle>)
  {
    forall h, i :: h in inbox && 0 <= i < |inbox[h]| ==> Names(inbox[h][i], hs)
  }

  lemma MailPost(inbox: map<Handle, seq<Msg>>, hs: set<Handle>, to: Handle, m: Msg)
    requires MailOk(inbox, hs) && to in inbox && Names(m, hs)
    ensures MailOk(Post(inbox, to, m), hs)
  {
    var p := Post(inbox, to, m);
    forall h, i | h in p && 0 <= i < |p[h]|
      ensures Names(p[h][i], hs)
    {
      if h == to && i == |inbox[to]| {
      } else {
        assert p[h][i] == inbox[h][i];
      }
    }
  }

  lemma MailAppend(inbox: map<Handle, seq<Msg>>, hs: set<Handle>, to: Handle, ms: seq<Msg>)
    requires MailOk(inbox, hs) && to in inbox && forall i :: 0 <= i < |ms| ==> Names(ms[i], hs)
    ensures MailOk(inbox[to := inbox[to] + ms], hs)
  {
    var p := inbox[to := inbox[to] + ms];
    forall h, i | h in p && 0 <= i < |p[h]|
      ensures Names(p[h][i], hs)
    {
      if h == to && i >= |inbox[to]| {
        assert p[h][i] == ms[i - |inbox[to]|];
      } else {
        assert p[h][i] == inbox[h][i];
      }
    }
  }

  /** First hop count `v` in `[t, live)` at which the walk from `start` meets
      `start`'s id again, or `live` when it does not. */
  ghost function FirstReturn(links: Links, start: Handle, live: nat, t: nat): (v: nat)
    requires 1 <= t <= live
    ensures t <= v <= live
    ensures v < live ==> IdOf(links, Walk(links, start, v)) == IdOf(links, start)
    ensures forall u :: t <= u < v ==> IdOf(links, Walk(links, start, u)) != IdOf(links, start)
    decreases live - t
  {
    if t == live || IdOf(links, Walk(links, start, t)) == IdOf(links, start) then t
    else FirstReturn(links, start, live, t + 1)
  }

  class Ring {
    var links: Links
    var inbox: map<Handle, seq<Msg>>
    /** Handles at or above `unused` name no node object yet. */
    var unused: Handle

    ghost predicate Valid()
      reads this
    {
      && Closed(links)
      && inbox.Keys == links.Keys
      && (forall h :: h in links ==> h < unused)
      && MailOk(inbox, links.Keys)
    }

    /** No message is waiting anywhere. */
    ghost predicate Quiet()
      reads this
    {
      forall h :: h in inbox ==> inbox[h] == []
    }

    constructor ()
      ensures Valid() && Quiet() && links == map[] && inbox == map[]
    {
      links := map[];
      inbox := map[];
      unused := 0;
    }

    /** `Node.__init__`: a new node object is its own left and right
        neighbour; given a bootstrap node it starts `join`. */
    method NewNode(id: int, bootstrap: Option<Handle>) returns (h: Handle)
      requires Valid() && (bootstrap.Some? ==> bootstrap.value in links)
      modifies this
      ensures Valid() && h !in old(links)
      ensures links == old(links)[h := Link(id, h, h)]
      ensures bootstrap.None? ==> inbox == old(inbox)[h := []]
      ensures bootstrap.Some? ==> inbox == Post(old(inbox)[h := []], bootstrap.value, JoinRequest(h))
    {
      h := unused;
      unused := unused + 1;
      links := links[h := Link(id, h, h)];
      inbox := inbox[h := []];
      if bootstrap.Some? {
        Join(h, bootstrap.value);
      }
    }

    /** First half of `join`: ask the bootstrap node for a place. */
    method Join(h: Handle, bootstrap: Handle)
      requires Valid() && h in links && bootstrap in links
      modifies this
      ensures Valid() && links == old(links)
      ensures inbox == Post(old(inbox), bootstrap, JoinRequest(h))
    {
      inbox := Post(inbox, bootstrap, JoinRequest(h));
    }

    /** Second half of `join`: the first message to arrive is consumed; a
        `JOIN_REPLY` installs both neighbours and notifies them, anything
        else is dropped. */
    method AwaitJoinReply(h: Handle) returns (m: Msg)
      requires Valid() && h in links && inbox[h] != []
      modifies this
      ensures Valid() && m == old(inbox[h][0])
      ensures m.JoinReply? ==>
        && links == old(links)[h := old(links[h]).(left := m.left, right := m.right)]
        && inbox == Post(Post(old(inbox)[h := old(inbox[h][1..])], m.left, UpdateRight(h, h)), m.right, UpdateLeft(h, h))
      ensures !m.JoinReply? ==> links == old(links) && inbox == old(inbox)[h := old(inbox[h][1..])]
    {
      m := Receive(h);
      if m.JoinReply? {
        ClosedUpdate(links, h, links[h].(left := m.left, right := m.right));
        links := links[h := links[h].(left := m.left, right := m.right)];
        MailPost(inbox, links.Keys, m.left, UpdateRight(h, h));
        inbox := Post(inbox, m.left, UpdateRight(h, h));
        MailPost(inbox, links.Keys, m.right, UpdateLeft(h, h));
        inbox := Post(inbox, m.right, UpdateLeft(h, h));
      }
    }

    /** `leave`: tell the left neighbour to point past this node to the
        right, and the right neighbour to point back past it to the left.
        The leaving node's own fields stay as they are. */
    method Leave(h: Handle)
      requires Valid() && h in links
      modifies this
      ensures Valid() && links == old(links)
      ensures inbox == Post(Post(old(inbox), old(links[h].left), UpdateRight(h, old(links[h].right))),
                            old(links[h].right), UpdateLeft(h, old(links[h].left)))
    {
      var l, r := links[h].left, links[h].right;
      inbox := Post(inbox, l, UpdateRight(h, r));
      inbox := Post(inbox, r, UpdateLeft(h, l));
    }

    /** Take the oldest message out of a mailbox. */
    method Receive(h: Handle) returns (m: Msg)
      requires Valid() && h in links && inbox[h] != []
      modifies this
      ensures Valid() && links == old(links)
      ensures m == old(inbox[h][0]) && Names(m, links.Keys)
      ensures inbox == old(inbox)[h := old(inbox[h][1..])]
    {
      m := inbox[h][0];
      inbox := inbox[h := inbox[h][1..]];
    }

    /** `send_message`: append a message to the end of a mailbox. */
    method Send(to: Handle, m: Msg)
      requires Valid() && to in links && Names(m, links.Keys)
      modifies this
      ensures Valid() && links == old(links)
      ensures inbox == Post(old(inbox), to, m)
    {
      MailPost(inbox, links.Keys, to, m);
      inbox := Post(inbox, to, m);
    }

    /** Several `send_message` calls to one node in a row. */
    method SendAll(to: Handle, ms: seq<Msg>)
      requires Valid() && to in links && forall i :: 0 <= i < |ms| ==> Names(ms[i], links.Keys)
      modifies this
      ensures Valid() && links == old(links)
      ensures inbox == old(inbox)[to := old(inbox[to]) + ms]
    {
      MailAppend(inbox, links.Keys, to, ms);
      inbox := inbox[to := inbox[to] + ms];
    }

    /** One `send_message` of the same message to each of `tos`, in order. */
    method Multicast(tos: seq<Handle>, m: Msg)
      requires Valid() && Names(m, links.Keys) && forall i :: 0 <= i < |tos| ==> tos[i] in links
      modifies this
      ensures Valid() && links == old(links)
      ensures inbox == PostEach(old(inbox), tos, m)
      decreases |tos|
    {
      if tos != [] {
        Send(tos[0], m);
        Multicast(tos[1..], m);
      }
    }

    /**
     * The `JOIN_REQUEST` branch of `run`.  A node that is its own right
     * neighbour links both neighbours to the requester and answers
     * `(self, self)`; otherwise the join walk picks the pair to answer with.
     * The walk needs the responder to lie on its own right-neighbour cycle,
     * witnessed by `order`.
     */
    method OnJoinRequest(h: Handle, sender: Handle, ghost order: seq<Handle>)
      requires Valid() && h in links && sender in links
      requires links[h].right != h ==> IsCycle(links, order) && order[0] == h
      modifies this
      ensures Valid()
      ensures old(links[h].right) == h ==>
        && links == old(links)[h := old(links[h]).(left := sender, right := sender)]
        && inbox == Post(old(inbox), sender, JoinReply(h, h, h))
      ensures old(links[h].right) != h ==>
        var k := JoinGapIndex(old(links), order, IdOf(old(links), sender));
        && links == old(links)
        && inbox == Post(old(inbox), sender, JoinReply(h, order[k], Next(order, k)))
    {
      if links[h].right == h {
        ClosedUpdate(links, h, links[h].(left := sender, right := sender));
        links := links[h := links[h].(left := sender, right := sender)];
        MailPost(inbox, links.Keys, sender, JoinReply(h, h, h));
        inbox := Post(inbox, sender, JoinReply(h, h, h));
      } else {
        var current, next := FindJoinGap(links, h, links[sender].id, order);
        MailPost(inbox, links.Keys, sender, JoinReply(h, current, next));
        inbox := Post(inbox, sender, JoinReply(h, current, next));
      }
    }

    /** The `UPDATE_LEFT` branch of `run`: overwrite the left neighbour only. */
    method OnUpdateLeft(h: Handle, node: Handle)
      requires Valid() && h in links && node in links
      modifies this
      ensures Valid()
      ensures links == old(links)[h := old(links[h]).(left := node)] && inbox == old(inbox)
    {
      ClosedUpdate(links, h, links[h].(left := node));
      links := links[h := links[h].(left := node)];
    }

    /** The `UPDATE_RIGHT` branch of `run`: overwrite the right neighbour only. */
    method OnUpdateRight(h: Handle, node: Handle)
      requires Valid() && h in links && node in links
      modifies this
      ensures Valid()
      ensures links == old(links)[h := old(links[h]).(right := node)] && inbox == old(inbox)
    {
      ClosedUpdate(links, h, links[h].(right := node));
      links := links[h := links[h].(right := node)];
    }

    /** One turn of `run`: dispatch on the message type; a `JOIN_REPLY`
        reaching the loop, and any kind the ring does not handle (`MSG` in
        `Node.py`), changes nothing. */
    method Handle(h: Handle, m: Msg, ghost order: seq<Handle>)
      requires Valid() && h in links && Names(m, links.Keys)
      requires m.JoinRequest? && links[h].right != h ==> IsCycle(links, order) && order[0] == h
      modifies this
      ensures Valid()
      ensures m.JoinRequest? && old(links[h].right) == h ==>
        && links == old(links)[h := old(links[h]).(left := m.sender, right := m.sender)]
        && inbox == Post(old(inbox), m.sender, JoinReply(h, h, h))
      ensures m.JoinRequest? && old(links[h].right) != h ==>
        var k := JoinGapIndex(old(links), order, IdOf(old(links), m.sender));
        && links == old(links)
        && inbox == Post(old(inbox), m.sender, JoinReply(h, order[k], Next(order, k)))
      ensures m.UpdateLeft? ==> links == old(links)[h := old(links[h]).(left := m.node)] && inbox == old(inbox)
      ensures m.UpdateRight? ==> links == old(links)[h := old(links[h]).(right := m.node)] && inbox == old(inbox)
      ensures !(m.JoinRequest? || m.UpdateLeft? || m.UpdateRight?) ==> links == old(links) && inbox == old(inbox)
    {
      match m
      case JoinRequest(sender) => OnJoinRequest(h, sender, order);
      case UpdateLeft(_, node) => OnUpdateLeft(h, node);
      case UpdateRight(_, node) => OnUpdateRight(h, node);
      case _ =>
    }

    /**
     * A complete join on a quiet ring: a new node asks `bootstrap`, installs
     * the reply, and both neighbour updates are applied.  The new node ends
     * up spliced in where the join walk stopped, the ring is a ring again,
     * and a ring sorted by id stays sorted when the new id is not taken.
     */
    method JoinRound(id: int, bootstrap: Handle, ghost order: seq<Handle>) returns (j: Handle, ghost k: nat)
      requires Valid() && Quiet() && IsRing(links, order) && order[0] == bootstrap
      modifies this
      ensures Valid() && Quiet() && j !in old(links)
      ensures k == JoinGapIndex(old(links)[j := Link(id, j, j)], order, id)
      ensures links == Splice(old(links)[j := Link(id, j, j)], j, order[k], Next(order, k))
      ensures IsRing(links, Inserted(order, k, j))
      ensures Ordered(old(links), order) && (forall c :: c in order ==> IdOf(old(links), c) != id) ==>
        Ordered(links, Inserted(order, k, j))
    {
      var b := bootstrap;
      j := NewNode(id, Some(b));
      ghost var links0 := links;
      AddOutside(old(links), order, j, Link(id, j, j));
      assert inbox[b] == [JoinRequest(j)];
      var m := Receive(b);
      assert Quiet();
      OnJoinRequest(b, j, order);
      k := JoinGapIndex(links0, order, id);
      ghost var links1 := links;
      var l, r := SettleJoin(j);
      JoinSplices(old(links), order, j, id, links1);
    }

    /** The joiner takes its `JOIN_REPLY`, the only message waiting, and its
        two new neighbours apply the updates it sends them. */
    method SettleJoin(j: Handle) returns (l: Handle, r: Handle)
      requires Valid() && j in links && |inbox[j]| == 1 && inbox[j][0].JoinReply?
      requires inbox[j][0].left != j && inbox[j][0].right != j
      requires forall h :: h in inbox && h != j ==> inbox[h] == []
      modifies this
      ensures Valid() && Quiet()
      ensures l == old(inbox[j][0].left) && r == old(inbox[j][0].right)
      ensures var a := old(links)[j := old(links[j]).(left := l, right := r)];
        var b := a[l := a[l].(right := j)];
        links == b[r := b[r].(left := j)]
    {
      DrainTwo(inbox[j := inbox[j][1..]], inbox[j][0].left, inbox[j][0].right, UpdateRight(j, j), UpdateLeft(j, j));
      var m := AwaitJoinReply(j);
      l, r := m.left, m.right;
      TakeUpdateRight(l, j);
      TakeUpdateLeft(r, j);
    }

    /** `node` takes an `UPDATE_RIGHT` naming `n` from the head of its
        mailbox and applies it. */
    method TakeUpdateRight(node: Handle, n: Handle)
      requires Valid() && node in links && inbox[node] != [] && inbox[node][0].UpdateRight? && inbox[node][0].node == n
      modifies this
      ensures Valid() && inbox == old(inbox)[node := old(inbox[node][1..])]
      ensures links == old(links)[node := old(links[node]).(right := n)]
    {
      var m := Receive(node);
      OnUpdateRight(node, n);
    }

    /** `node` takes an `UPDATE_LEFT` naming `n` from the head of its
        mailbox and applies it. */
    method TakeUpdateLeft(node: Handle, n: Handle)
      requires Valid() && node in links && inbox[node] != [] && inbox[node][0].UpdateLeft? && inbox[node][0].node == n
      modifies this
      ensures Valid() && inbox == old(inbox)[node := old(inbox[node][1..])]
      ensures links == old(links)[node := old(links[node]).(left := n)]
    {
      var m := Receive(node);
      OnUpdateLeft(node, n);
    }

    /** The two neighbours of a leaving node apply its updates, the only
        messages waiting. */
    method SettleLeave(x: Handle, l: Handle, r: Handle)
      requires Valid() && x in links && l in links && r in links
      requires forall h :: h in inbox && h != l && h != r ==> inbox[h] == []
      requires l == r ==> inbox[l] == [UpdateRight(x, r), UpdateLeft(x, l)]
      requires l != r ==> inbox[l] == [UpdateRight(x, r)] && inbox[r] == [UpdateLeft(x, l)]
      modifies this
      ensures Valid() && Quiet()
      ensures var a := old(links)[l := old(links[l]).(right := r)];
        links == a[r := a[r].(left := l)]
    {
      TakeUpdateRight(l, r);
      TakeUpdateLeft(r, l);
    }

    /**
     * A complete leave on a quiet ring of two or more: `x`, at `order[k]`, leaves and
     * its neighbours apply both updates.  The rest is a ring again, sorted
     * if it was sorted before.
     */
    method LeaveRound(x: Handle, ghost order: seq<Handle>, ghost k: nat)
      requires Valid() && Quiet() && IsRing(links, order) && |order| >= 2 && k < |order| && order[k] == x
      modifies this
      ensures Valid() && Quiet()
      ensures links == Unsplice(old(links), Prev(order, k), Next(order, k))
      ensures IsRing(links, Removed(order, k))
      ensures Ordered(old(links), order) ==> Ordered(links, Removed(order, k))
    {
      var l, r := links[x].left, links[x].right;
      Leave(x);
      SettleLeave(x, l, r);
      UnspliceSteps(old(links), l, r);
      assert IsRing(links, Removed(order, k)) && (Ordered(old(links), order) ==> Ordered(links, Removed(order, k))) by {
        LeaveKeepsSortedRing(old(links), order, k);
      }
    }

    /**
     * The integrity check at the end of the simulation: walk right from the
     * first node, counting nodes, until the first node's id comes round
     * again or as many nodes as are live have been counted; the ring is
     * intact when the count equals the number of live nodes.
     */
    method CheckRing(start: Handle, live: nat) returns (visited: nat, intact: bool)
      requires Valid() && start in links && live >= 1
      ensures visited == FirstReturn(links, start, live, 1)
      ensures intact <==> visited == live
    {
      var startId := links[start].id;
      var current := links[start].right;
      visited := 1;
      while links[current].id != startId && visited < live
        invariant current in links && 1 <= visited <= live
        invariant current == Walk(links, start, visited)
        invariant FirstReturn(links, start, live, 1) == FirstReturn(links, start, live, visited)
        decreases live - visited
      {
        WalkStep(links, start, visited);
        current := links[current].right;
        visited := visited + 1;
      }
      intact := visited == live;
    }
  }

  /** The integrity check passes on a ring whose nodes are exactly the live
      ones and carry distinct ids. */
  lemma IntactRingPasses(links: Links, order: seq<Handle>)
    requires IsCycle(links, order) && DistinctIds(links, order)
    ensures FirstReturn(links, order[0], |order|, 1) == |order|
  {
    var v := FirstReturn(links, order[0], |order|, 1);
    if v < |order| {
      WalkOnCycle(links, order, v);
    }
  }

  /** The integrity check flags a ring that misses some live node: it counts
      exactly the nodes on the cycle through the first node. */
  lemma ShortRingFlagged(links: Links, order: seq<Handle>, live: nat)
    requires IsCycle(links, order) && DistinctIds(links, order) && |order| < live
    ensures FirstReturn(links, order[0], live, 1) == |order|
  {
    var n := |order|;
    var v := FirstReturn(links, order[0], live, 1);
    if v < n {
      WalkOnCycle(links, order, v);
    } else if v > n {
      WalkOnCycle(links, order, n);
    }
  }
}
