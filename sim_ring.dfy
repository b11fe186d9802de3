/**
 * The basic `Node` class of `dht-simulation.py`: the same neighbour fields,
 * FIFO mailboxes and join walk as the other ring variants, with its own
 * message kinds (`JOIN_RESPONSE`, `PING`/`PONG`, the storage kinds and the
 * routing kinds of its subclasses).  Unlike the other variants, a node that
 * is alone answers a `JOIN_REQUEST` with itself as both neighbours but does
 * not change its own fields: it learns of the joiner only from the joiner's
 * `UPDATE_RIGHT` and `UPDATE_LEFT`.
 */
module SimRing {
  import opened Wrappers
  import opened Topology

  type Key = string
  type Value = string

  /** The messages of `dht-simulation.py`; `sender` is the node object that
      queued the message, `origin` and `source` the node that started a
      storage request or a route. */
  datatype Msg =
    | JoinRequest(sender: Handle)
    | JoinResponse(sender: Handle, left: Handle, right: Handle)
    | UpdateLeft(sender: Handle, node: Handle)
    | UpdateRight(sender: Handle, node: Handle)
    | Ping(sender: Handle)
    | Pong(sender: Handle)
    | Store(sender: Handle, key: Key, value: Value, origin: Handle)
    | StoreConfirm(sender: Handle, key: Key)
    | Retrieve(sender: Handle, key: Key, origin: Handle)
    | RetrieveResponse(sender: Handle, key: Key, found: Option<Value>)
    | Replicate(sender: Handle, key: Key, value: Value)
    | Route(sender: Handle, target: int, message: string, hops: int, source: Handle)
    | RouteAck(sender: Handle, target: int, hops: int, message: string)

  /** Every node object a message refers to is in `hs`. */
  predicate Names(m: Msg, hs: set<Handle>)
  {
    && m.sender in hs
    && match m
       case JoinResponse(_, l, r) => l in hs && r in hs
       case UpdateLeft(_, n) => n in hs
       case UpdateRight(_, n) => n in hs
       case Store(_, _, _, o) => o in hs
       case Retrieve(_, _, o) => o in hs
       case Route(_, _, _, _, s) => s in hs
       case _ => true
  }

  /** Every queued message refers only to node objects in `hs`. */
  ghost predicate MailOk(inbox: map<Handle, seq<Msg>>, hs: set<Handle>)
  {
    forall h, i :: h in inbox && 0 <= i < |inbox[h]| ==> Names(inbox[h][i], hs)
  }

  lemma MailPost(inbox: map<Handle, seq<Msg>>, hs: set<Handle>, to: Handle, m: Msg)
    requires MailOk(inbox, hs) && to in inbox && Names(m, hs)
    ensures MailOk(Post(inbox, to, m), hs)
  {
    var p := Post(inbox, to, m);
    forall h, i | h in p && 0 <= i < |p[h]|
      ensures Names(p[h][i], hs)
    {
      if h == to && i == |inbox[to]| {
      } else {
        assert p[h][i] == inbox[h][i];
      }
    }
  }

  /** The fields of every `Node` object of the simulation. */
  class Net {
    var links: Links
    var inbox: map<Handle, seq<Msg>>
    /** Handles at or above `unused` name no node object yet. */
    var unused: Handle

    ghost predicate Valid()
      reads this
    {
      && Closed(links)
      && inbox.Keys == links.Keys
      && (forall h :: h in links ==> h < unused)
      && MailOk(inbox, links.Keys)
    }

    /** No message is waiting anywhere. */
    ghost predicate Quiet()
      reads this
    {
      forall h :: h in inbox ==> inbox[h] == []
    }

    constructor ()
      ensures Valid() && Quiet() && links == map[] && inbox == map[]
    {
      links := map[];
      inbox := map[];
      unused := 0;
    }

    /** `Node.__init__`: a new node object is its own left and right neighbour. */
    method NewNode(id: int) returns (h: Handle)
      requires Valid()
      modifies this
      ensures Valid() && h !in old(links)
      ensures links == old(links)[h := Link(id, h, h)] && inbox == old(inbox)[h := []]
    {
      h := unused;
      unused := unused + 1;
      links := links[h := Link(id, h, h)];
      inbox := inbox[h := []];
    }

    /** Take the oldest message out of a mailbox. */
    method Receive(h: Handle) returns (m: Msg)
      requires Valid() && h in links && inbox[h] != []
      modifies this
      ensures Valid() && links == old(links)
      ensures m == old(inbox[h][0]) && Names(m, links.Keys)
      ensures inbox == old(inbox)[h := old(inbox[h][1..])]
    {
      m := inbox[h][0];
      inbox := inbox[h := inbox[h][1..]];
    }

    /** `send_message`: append a message to the end of a mailbox. */
    method Send(to: Handle, m: Msg)
      requires Valid() && to in links && Names(m, links.Keys)
      modifies this
      ensures Valid() && links == old(links)
      ensures inbox == Post(old(inbox), to, m)
    {
      MailPost(inbox, links.Keys, to, m);
      inbox := Post(inbox, to, m);
    }

    /** First half of `join`: ask the bootstrap node for a place. */
    method Join(h: Handle, bootstrap: Handle)
      requires Valid() && h in links && bootstrap in links
      modifies this
      ensures Valid() && links == old(links)
      ensures inbox == Post(old(inbox), bootstrap, JoinRequest(h))
    {
      Send(bootstrap, JoinRequest(h));
    }

    /** Second half of `join`: the first message to arrive is consumed; a
        `JOIN_RESPONSE` installs both neighbours and notifies them, anything
        else is dropped. */
    method AwaitJoinResponse(h: Handle) returns (m: Msg)
      requires Valid() && h in links && inbox[h] != []
      modifies this
      ensures Valid() && m == old(inbox[h][0])
      ensures m.JoinResponse? ==>
        && links == old(links)[h := old(links[h]).(left := m.left, right := m.right)]
        && inbox == Post(Post(old(inbox)[h := old(inbox[h][1..])], m.left, UpdateRight(h, h)), m.right, UpdateLeft(h, h))
      ensures !m.JoinResponse? ==> links == old(links) && inbox == old(inbox)[h := old(inbox[h][1..])]
    {
      m := Receive(h);
      if m.JoinResponse? {
        ClosedUpdate(links, h, links[h].(left := m.left, right := m.right));
        links := links[h := links[h].(left := m.left, right := m.right)];
        Send(m.left, UpdateRight(h, h));
        Send(m.right, UpdateLeft(h, h));
      }
    }

    /** `leave`: relink the two neighbours past this node; its own fields
        stay as they are. */
    method Leave(h: Handle)
      requires Valid() && h in links
      modifies this
      ensures Valid() && links == old(links)
      ensures inbox == Post(Post(old(inbox), old(links[h].left), UpdateRight(h, old(links[h].right))),
                            old(links[h].right), UpdateLeft(h, old(links[h].left)))
    {
      var l, r := links[h].left, links[h].right;
      Send(l, UpdateRight(h, r));
      Send(r, UpdateLeft(h, l));
    }

    /**
     * `_handle_join_request`.  A node that is its own right neighbour
     * answers `(self, self)` and changes nothing else; otherwise the join
     * walk, which stops at the first pair bracketing the requester's id or
     * after one full circle, picks the pair to answer with.
     */
    method OnJoinRequest(h: Handle, sender: Handle, ghost order: seq<Handle>)
      requires Valid() && h in links && sender in links
      requires links[h].right != h ==> IsCycle(links, order) && order[0] == h
      modifies this
      ensures Valid() && links == old(links)
      ensures old(links[h].right) == h ==> inbox == Post(old(inbox), sender, JoinResponse(h, h, h))
      ensures old(links[h].right) != h ==>
        var k := JoinGapIndex(links, order, IdOf(links, sender));
        inbox == Post(old(inbox), sender, JoinResponse(h, order[k], Next(order, k)))
    {
      if links[h].right == h {
        Send(sender, JoinResponse(h, h, h));
      } else {
        var current, next := FindJoinGap(links, h, links[sender].id, order);
        Send(sender, JoinResponse(h, current, next));
      }
    }

    /** The `UPDATE_LEFT` branch of `run`: overwrite the left neighbour only. */
    method OnUpdateLeft(h: Handle, node: Handle)
      requires Valid() && h in links && node in links
      modifies this
      ensures Valid()
      ensures links == old(links)[h := old(links[h]).(left := node)] && inbox == old(inbox)
    {
      ClosedUpdate(links, h, links[h].(left := node));
      links := links[h := links[h].(left := node)];
    }

    /** The `UPDATE_RIGHT` branch of `run`: overwrite the right neighbour only. */
    method OnUpdateRight(h: Handle, node: Handle)
      requires Valid() && h in links && node in links
      modifies this
      ensures Valid()
      ensures links == old(links)[h := old(links[h]).(right := node)] && inbox == old(inbox)
    {
      ClosedUpdate(links, h, links[h].(right := node));
      links := links[h := links[h].(right := node)];
    }

    /** The `PING` branch of `run`: answer `PONG`; a `PONG` changes nothing. */
    method OnPing(h: Handle, sender: Handle)
      requires Valid() && h in links && sender in links
      modifies this
      ensures Valid() && links == old(links)
      ensures inbox == Post(old(inbox), sender, Pong(h))
    {
      Send(sender, Pong(h));
    }

    /**
     * A complete join on a quiet ring: a new node asks `bootstrap`, installs
     * the response, and both neighbour updates are applied.  Although a lone
     * bootstrap node does not link itself to the joiner when it answers, the
     * two updates do, so the joiner ends up spliced in where the join walk
     * stopped, and the ring is a ring again.
     */
    method JoinRound(id: int, bootstrap: Handle, ghost order: seq<Handle>) returns (j: Handle, ghost k: nat)
      requires Valid() && Quiet() && IsRing(links, order) && order[0] == bootstrap
      modifies this
      ensures Valid() && Quiet() && j !in old(links)
      ensures k == JoinGapIndex(old(links)[j := Link(id, j, j)], order, id)
      ensures links == Splice(old(links)[j := Link(id, j, j)], j, order[k], Next(order, k))
      ensures IsRing(links, Inserted(order, k, j))
      ensures Ordered(old(links), order) && (forall c :: c in order ==> IdOf(old(links), c) != id) ==>
        Ordered(links, Inserted(order, k, j))
    {
      var b := bootstrap;
      j := NewNode(id);
      Join(j, b);
      ghost var links0 := links;
      AddOutside(old(links), order, j, Link(id, j, j));
      assert inbox[b] == [JoinRequest(j)];
      var m := Receive(b);
      assert Quiet();
      OnJoinRequest(b, j, order);
      k := JoinGapIndex(links0, order, id);
      ghost var links1 := links;
      var l, r := SettleJoin(j);
      JoinSplices(old(links), order, j, id, links1);
    }

    /** The joiner takes its `JOIN_RESPONSE`, the only message waiting, and
        its two new neighbours apply the updates it sends them. */
    method SettleJoin(j: Handle) returns (l: Handle, r: Handle)
      requires Valid() && j in links && |inbox[j]| == 1 && inbox[j][0].JoinResponse?
      requires inbox[j][0].left != j && inbox[j][0].right != j
      requires forall h :: h in inbox && h != j ==> inbox[h] == []
      modifies this
      ensures Valid() && Quiet()
      ensures l == old(inbox[j][0].left) && r == old(inbox[j][0].right)
      ensures var a := old(links)[j := old(links[j]).(left := l, right := r)];
        var b := a[l := a[l].(right := j)];
        links == b[r := b[r].(left := j)]
    {
      DrainTwo(inbox[j := inbox[j][1..]], inbox[j][0].left, inbox[j][0].right, UpdateRight(j, j), UpdateLeft(j, j));
      var m := AwaitJoinResponse(j);
      l, r := m.left, m.right;
      TakeUpdateRight(l, j);
      TakeUpdateLeft(r, j);
    }

    /** `node` takes an `UPDATE_RIGHT` naming `j` from the head of its
        mailbox and applies it. */
    method TakeUpdateRight(node: Handle, j: Handle)
      requires Valid() && node in links && inbox[node] != [] && inbox[node][0] == UpdateRight(j, j)
      modifies this
      ensures Valid() && inbox == old(inbox)[node := old(inbox[node][1..])]
      ensures links == old(links)[node := old(links[node]).(right := j)]
    {
      var m := Receive(node);
      OnUpdateRight(node, j);
    }

    /** `node` takes an `UPDATE_LEFT` naming `j` from the head of its
        mailbox and applies it. */
    method TakeUpdateLeft(node: Handle, j: Handle)
      requires Valid() && node in links && inbox[node] != [] && inbox[node][0] == UpdateLeft(j, j)
      modifies this
      ensures Valid() && inbox == old(inbox)[node := old(inbox[node][1..])]
      ensures links == old(links)[node := old(links[node]).(left := j)]
    {
      var m := Receive(node);
      OnUpdateLeft(node, j);
    }
  }
}
