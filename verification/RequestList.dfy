/** The pointer-linked request list of sr_arpcache.c, which refines the sequence of RouterModel. */
module RequestList {
  import opened Bytes
  import opened RouterModel
  import opened RequestQueue

  /** `struct sr_arpreq`. `rid` names the allocation; only specifications look at it. */
  class ReqNode {
    const rid: nat
    const ip: Ip
    var sent: int
    var timesSent: nat
    var packets: seq<Packet>
    var next: ReqNode?

    ghost function Value(): Request
      reads this`sent, this`timesSent, this`packets
    {
      Request(rid, ip, sent, timesSent, packets)
    }

    /** A zeroed request for `ip` in front of `rest`. */
    constructor (rid: nat, ip: Ip, rest: ReqNode?)
      ensures this.rid == rid && this.ip == ip && sent == 0 && timesSent == 0 && packets == [] && next == rest
    {
      this.rid, this.ip, sent, timesSent, packets, next := rid, ip, 0, 0, [], rest;
    }
  }

  /** The chain `ns` stands for the requests `rs`. */
  ghost predicate Holds(ns: seq<ReqNode>, rs: seq<Request>)
    reads ns
  {
    |rs| == |ns| && forall i {:trigger ns[i].Value()} {:trigger rs[i]} :: 0 <= i < |ns| ==> ns[i].Value() == rs[i]
  }

  function NodeAt(ns: seq<ReqNode>, i: nat): ReqNode? {
    if i < |ns| then ns[i] else null
  }

  /** Every node points to its successor and the last one to nothing. */
  ghost predicate Linked(ns: seq<ReqNode>)
    reads ns
  {
    forall i {:trigger ns[i].next} :: 0 <= i < |ns| ==> ns[i].next == NodeAt(ns, i + 1)
  }

  predicate Newer(ns: seq<ReqNode>, i: int, j: int)
    requires 0 <= i < |ns| && 0 <= j < |ns|
  {
    ns[i].rid > ns[j].rid
  }

  /** Newest first; in particular no node occurs twice, so the chain is acyclic. */
  ghost predicate Sorted(ns: seq<ReqNode>) {
    forall i, j {:trigger Newer(ns, i, j)} :: 0 <= i < j < |ns| ==> Newer(ns, i, j)
  }

  /** Every node on the list is the one that was allocated under its name. */
  ghost predicate Made(ns: seq<ReqNode>, made: seq<ReqNode>) {
    forall i :: 0 <= i < |ns| ==> ns[i].rid < |made| && made[ns[i].rid] == ns[i]
  }

  lemma {:induction false} OccursOnce(ns: seq<ReqNode>, i: nat)
    requires Sorted(ns) && i < |ns|
    ensures forall j :: 0 <= j < |ns| && j != i ==> ns[j].rid != ns[i].rid && ns[j] != ns[i]
  {
    forall j | 0 <= j < |ns| && j != i ensures ns[j].rid != ns[i].rid {
      assert if j < i then Newer(ns, j, i) else Newer(ns, i, j);
    }
  }

  lemma {:induction false} SortedPrepend(n: ReqNode, ns: seq<ReqNode>)
    requires Sorted(ns) && (ns != [] ==> n.rid > ns[0].rid)
    ensures Sorted([n] + ns)
  {
    var ms := [n] + ns;
    forall i, j | 0 <= i < j < |ms| ensures Newer(ms, i, j) {
      if i > 0 {
        assert Newer(ns, i - 1, j - 1);
      } else if j > 1 {
        assert Newer(ns, 0, j - 1);
      }
    }
  }

  function Without(ns: seq<ReqNode>, i: nat): (r: seq<ReqNode>)
    requires i < |ns|
    ensures |r| == |ns| - 1 && forall j :: 0 <= j < |r| ==> r[j] == ns[if j < i then j else j + 1]
  {
    ns[..i] + ns[i + 1..]
  }

  lemma {:induction false} SortedWithout(ns: seq<ReqNode>, i: nat)
    requires Sorted(ns) && i < |ns|
    ensures Sorted(Without(ns, i)) && ns[i] !in Without(ns, i)
  {
    var ms := Without(ns, i);
    forall a, b | 0 <= a < b < |ms| ensures Newer(ms, a, b) {
      assert Newer(ns, if a < i then a else a + 1, if b < i then b else b + 1);
    }
    OccursOnce(ns, i);
  }

  lemma {:induction false} JoinsNew(rs: seq<Request>, rid: nat, ip: Ip, p: Packet)
    requires FindIp(rs, ip) == |rs|
    ensures var ms := [Request(rid, ip, 0, 0, [])] + rs;
            ms[0 := ms[0].(packets := [p] + ms[0].packets)] == Join(rs, rid, ip, p)
  {
    assert [p] + [] == [p];
  }

  class ArpQueue {
    var requests: ReqNode?
    var nextRid: nat
    ghost var nodes: seq<ReqNode>  // on the list, front first
    ghost var made: seq<ReqNode>   // ever allocated
    ghost var contents: seq<Request>

    ghost predicate Valid()
      reads this, nodes
    {
      && requests == NodeAt(nodes, 0) && Linked(nodes) && Sorted(nodes)
      && nextRid == |made| && Made(nodes, made) && Holds(nodes, contents)
    }

    /** A node on the list is what the specification finds under its name. */
    lemma {:induction false} NodeIsQueued(req: ReqNode)
      requires Valid() && req in nodes
      ensures var i := FindRid(contents, req.rid);
              i < |nodes| && nodes[i] == req && contents[i] == req.Value()
    {
      var i :| 0 <= i < |nodes| && nodes[i] == req;
      OccursOnce(nodes, i);
      FindRidIs(contents, req.rid, i);
    }

    /** And if the specification finds a name, the node made under that name is on the list. */
    lemma {:induction false} QueuedIsNode(req: ReqNode)
      requires Valid() && req.rid < |made| && made[req.rid] == req
      requires FindRid(contents, req.rid) < |contents|
      ensures req in nodes
    {
      var i := FindRid(contents, req.rid);
      assert contents[i] == nodes[i].Value();
    }

    /** The head pointer and the `next` pointers follow the sequence. */
    lemma {:induction false} FrontIs()
      requires Valid()
      ensures requests == null <==> contents == []
      ensures requests != null ==> requests in nodes && requests.rid == contents[0].rid
    {
    }

    lemma {:induction false} NextIs(req: ReqNode)
      requires Valid() && req in nodes
      ensures var i := FindRid(contents, req.rid) + 1;
              && i <= |contents| && (req.next == null <==> i == |contents|)
              && (req.next != null ==> req.next in nodes && req.next.rid == contents[i].rid)
    {
      NodeIsQueued(req);
    }

    constructor ()
      ensures Valid() && contents == [] && made == [] && nextRid == 0
    {
      requests, nextRid, nodes, made, contents := null, 0, [], [], [];
    }

    /** The search of `sr_arpcache_queuereq` and `sr_arpcache_insert`: the first request for `ip`,
        and the one before it. */
    method FindByIp(ip: Ip) returns (prev: ReqNode?, req: ReqNode?, ghost i: nat)
      requires Valid()
      ensures i == FindIp(contents, ip) && Between(prev, req, i)
    {
      prev, req, i := null, requests, 0;
      while req != null && req.ip != ip
        invariant Between(prev, req, i)
        invariant forall j :: 0 <= j < i ==> nodes[j].ip != ip
        decreases |nodes| - i
      {
        prev, req, i := req, req.next, i + 1;
      }
      FindIpIs(contents, ip, i);
    }

    /** The search of `sr_arpreq_destroy`, which compares pointers. */
    method FindNode(entry: ReqNode) returns (prev: ReqNode?, req: ReqNode?, ghost i: nat)
      requires Valid()
      ensures Between(prev, req, i) && (if entry in nodes then req == entry else req == null)
    {
      prev, req, i := null, requests, 0;
      while req != null && req != entry
        invariant Between(prev, req, i)
        invariant forall j :: 0 <= j < i ==> nodes[j] != entry
        decreases |nodes| - i
      {
        prev, req, i := req, req.next, i + 1;
      }
    }

    /** `req` is the node at position `i`, or the end of the list, and `prev` the one before it. */
    ghost predicate Between(prev: ReqNode?, req: ReqNode?, i: nat)
      reads this
    {
      i <= |nodes| && req == NodeAt(nodes, i) && prev == if i == 0 then null else nodes[i - 1]
    }

    /** A new request at the front of the list. */
    method Prepend(ip: Ip) returns (req: ReqNode)
      requires Valid()
      modifies this
      ensures Valid() && fresh(req) && nodes == [req] + old(nodes)
      ensures made == old(made) + [req] && nextRid == old(nextRid) + 1
      ensures req.rid == old(nextRid) && contents == [Request(old(nextRid), ip, 0, 0, [])] + old(contents)
    {
      req := new ReqNode(nextRid, ip, requests);
      SortedPrepend(req, nodes);
      requests, nextRid, nodes, made := req, nextRid + 1, [req] + nodes, made + [req];
      contents := [Request(req.rid, ip, 0, 0, [])] + contents;
    }

    /** A packet at the front of the packets of a request. */
    method PushPacket(req: ReqNode, p: Packet, ghost i: nat)
      requires Valid() && i < |nodes| && req == nodes[i]
      modifies req`packets, this`contents
      ensures Valid() && contents == old(contents)[i := old(contents)[i].(packets := [p] + old(contents)[i].packets)]
    {
      OccursOnce(nodes, i);
      req.packets := [p] + req.packets;
      contents := contents[i := contents[i].(packets := req.packets)];
    }

    /** What `handle_arpreq` notes on a request after asking for it. */
    method MarkSent(req: ReqNode, now: int)
      requires Valid() && req in nodes
      modifies req`sent, req`timesSent, this`contents
      ensures Valid()
      ensures var rs := old(contents);
              var i := FindRid(rs, req.rid);
              i < |rs| && contents == rs[i := rs[i].(sent := now, timesSent := rs[i].timesSent + 1)]
    {
      NodeIsQueued(req);
      ghost var i := FindRid(contents, req.rid);
      OccursOnce(nodes, i);
      req.sent := now;
      req.timesSent := req.timesSent + 1;
      contents := contents[i := contents[i].(sent := now, timesSent := req.timesSent)];
    }

    /** `sr_arpcache_queuereq`: the packet goes to the front of the request for `ip`, which is made
        and put at the front of the list if there is none. */
    method QueueReq(ip: Ip, p: Packet) returns (req: ReqNode)
      requires Valid()
      modifies this, nodes
      ensures Valid() && req in nodes && (made == old(made) || (fresh(req) && made == old(made) + [req]))
      ensures contents == Join(old(contents), old(nextRid), ip, p)
      ensures var rs, i := old(contents), FindIp(old(contents), ip);
              && nextRid == (if i < |rs| then old(nextRid) else old(nextRid) + 1)
              && req.rid == (if i < |rs| then rs[i].rid else old(nextRid))
    {
      ghost var was := contents;
      var _, cur, i := FindByIp(ip);
      if cur == null {
        req := Prepend(ip);
        PushPacket(req, p, 0);
        JoinsNew(was, old(nextRid), ip, p);
      } else {
        req := cur;
        PushPacket(req, p, i);
      }
    }

    /** Unlinking the first request of the list. */
    method UnlinkFirst(req: ReqNode)
      requires Valid() && nodes != [] && req == nodes[0]
      modifies this`requests, this`nodes, this`contents
      ensures Valid() && nodes == Without(old(nodes), 0) && req !in nodes
      ensures contents == Remove(old(contents), 0)
    {
      SortedWithout(nodes, 0);
      requests := req.next;
      nodes, contents := Without(nodes, 0), Remove(contents, 0);
    }

    /** Unlinking any other. */
    method UnlinkAfter(prev: ReqNode, req: ReqNode, ghost i: nat)
      requires Valid() && 0 < i < |nodes| && prev == nodes[i - 1] && req == nodes[i]
      modifies this`nodes, this`contents, prev`next
      ensures Valid() && nodes == Without(old(nodes), i) && req !in nodes
      ensures contents == Remove(old(contents), i)
    {
      ghost var left := Without(nodes, i);
      SortedWithout(nodes, i);
      OccursOnce(nodes, i - 1);
      prev.next := req.next;
      assert Linked(left);
      assert Holds(left, Remove(contents, i)) && Made(left, made);
      nodes, contents := left, Remove(contents, i);
    }

    /** The unlinking in `sr_arpcache_insert` and `sr_arpreq_destroy`. */
    method Unlink(prev: ReqNode?, req: ReqNode, ghost i: nat)
      requires Valid() && i < |nodes| && Between(prev, req, i)
      modifies this`requests, this`nodes, this`contents, nodes`next
      ensures Valid() && nodes == Without(old(nodes), i) && req !in nodes
      ensures contents == Remove(old(contents), i)
    {
      if prev != null {
        UnlinkAfter(prev, req, i);
      } else {
        UnlinkFirst(req);
      }
    }

    /** The first half of `sr_arpcache_insert`: the request for `ip` leaves the list. */
    method Detach(ip: Ip) returns (req: ReqNode?)
      requires Valid()
      modifies this`requests, this`nodes, this`contents, nodes`next
      ensures Valid()
      ensures var i := FindIp(old(contents), ip);
              if i == |old(contents)| then req == null && nodes == old(nodes) && contents == old(contents)
              else
                && req == old(nodes)[i] && req !in nodes && req.packets == old(contents)[i].packets
                && contents == Remove(old(contents), i)
    {
      var prev, cur, i := FindByIp(ip);
      req := cur;
      if cur != null {
        Unlink(prev, cur, i);
      }
    }

    /** `sr_arpreq_destroy`: exactly that node leaves the list, and nothing happens to the list if it
        had already left, whatever request for the same address there may be by now. */
    method Destroy(entry: ReqNode)
      requires Valid()
      modifies this`requests, this`nodes, this`contents, nodes`next
      ensures Valid() && entry !in nodes
      ensures if entry in old(nodes) then
                var rs := old(contents);
                FindRid(rs, entry.rid) < |rs| && contents == Remove(rs, FindRid(rs, entry.rid))
              else nodes == old(nodes) && contents == old(contents)
    {
      var prev, cur, i := FindNode(entry);
      if cur != null {
        OccursOnce(nodes, i);
        FindRidIs(contents, entry.rid, i);
        Unlink(prev, cur, i);
      }
    }
  }
}
