/** Giving up on a request sends errors, and an error may reach another exhausted request and give
    up on that one too. This module determines when that recursion ends and what it destroys. */
module Cascade {
  import opened Bytes
  import opened Packets
  import opened Routing
  import opened RouterModel
  import opened RequestQueue
  import opened ReturnGraph

  // ----- the return graph -----

  /** Where the Host Unreachable for `frame` would wait, if one is sent at all. */
  function ErrorHop(cfg: Config, frame: Frame): Option<Ip> {
    if |frame| < 34 then None
    else
      match Resolve(cfg, Src(frame))
      case None => None
      case Some(hop) => if hop.iface.ip == ZERO_IP then None else Some(hop.ip)
  }

  function HopSet(hop: Option<Ip>): set<Ip> {
    if hop.None? then {} else {hop.value}
  }

  function Hops(cfg: Config, ps: seq<Packet>): (r: set<Ip>) {
    if ps == [] then {} else HopSet(ErrorHop(cfg, ps[0].frame)) + Hops(cfg, ps[1..])
  }

  ghost predicate IsNode(now: int, q: Queue, ip: Ip) {
    exists k :: k in q && q[k].ip == ip && Exhausted(now, q[k])
  }

  ghost function NodeRid(now: int, q: Queue, ip: Ip): (k: nat)
    requires IsNode(now, q, ip)
    ensures k in q && q[k].ip == ip && Exhausted(now, q[k])
  {
    var k :| k in q && q[k].ip == ip && Exhausted(now, q[k]); k
  }

  /** Marks the addresses at which a graph is looked into; it only guides instantiation. */
  ghost predicate At(g: Graph<Ip>, ip: Ip) { true }

  /** Nodes: the addresses of exhausted requests. Edges: from a request to the addresses its
      packets' errors would wait on. */
  ghost predicate IsGraph(cfg: Config, now: int, q: Queue, g: Graph<Ip>) {
    forall ip {:trigger At(g, ip)} :: At(g, ip) ==>
      && (ip in g <==> IsNode(now, q, ip))
      && (ip in g ==> g[ip] == Hops(cfg, q[NodeRid(now, q, ip)].packets))
  }

  ghost function GraphOf(cfg: Config, now: int, q: Queue): (g: Graph<Ip>)
    ensures IsGraph(cfg, now, q, g)
  {
    var ips := set k | k in q && Exhausted(now, q[k]) :: q[k].ip;
    var w := map ip | ip in ips :: Hops(cfg, q[NodeRid(now, q, ip)].packets);
    assert IsGraph(cfg, now, q, w);
    var g :| IsGraph(cfg, now, q, g); g
  }

  ghost function ReturnEdges(cfg: Config, s: State): (g: Graph<Ip>) {
    GraphOf(cfg, s.clock, Q(s))
  }

  lemma {:induction false} NodeFrom(cfg: Config, now: int, q: Queue, ip: Ip) returns (k: nat)
    requires ip in GraphOf(cfg, now, q)
    ensures k in q && q[k].ip == ip && Exhausted(now, q[k])
    ensures GraphOf(cfg, now, q)[ip] == Hops(cfg, q[k].packets)
  {
    assert At(GraphOf(cfg, now, q), ip);
    k := NodeRid(now, q, ip);
  }

  lemma {:induction false} NodeOf(cfg: Config, now: int, q: Queue, k: nat)
    requires OnePerIp(q) && k in q
    ensures q[k].ip in GraphOf(cfg, now, q) <==> Exhausted(now, q[k])
    ensures Exhausted(now, q[k]) ==> GraphOf(cfg, now, q)[q[k].ip] == Hops(cfg, q[k].packets)
  {
    assert At(GraphOf(cfg, now, q), q[k].ip);
    if IsNode(now, q, q[k].ip) { assert SameIp(q, NodeRid(now, q, q[k].ip), k); }
    if Exhausted(now, q[k]) { assert IsNode(now, q, q[k].ip); }
  }

  /** Without an error hop no error is sent; with one it is sent there. */
  lemma {:induction false} ErrorFollowsHop(cfg: Config, frame: Frame)
    requires cfg.Valid() && |frame| >= 34
    ensures ErrorHop(cfg, frame).None? <==> ErrorSource(cfg, frame, ZERO_IP) == ZERO_IP
    ensures ErrorHop(cfg, frame).Some? ==>
              && Resolve(cfg, Src(frame)).Some?
              && Resolve(cfg, Src(frame)).value.ip == ErrorHop(cfg, frame).value
  {
  }

  /** `route_and_send` queues the stamped frame and handles the request it joined. */
  lemma {:induction false} RouteUnfolds(cfg: Config, s: State, frame: Frame, origin: Origin, fuel: nat)
    requires cfg.Valid() && Routable(cfg, frame)
    ensures var hop := Resolve(cfg, Dst(frame)).value;
            RouteAndSend(cfg, s, frame, origin, fuel)
            == HandleReq(cfg, Enqueue(s, Stamp(frame, hop.iface.addr), hop, origin), Joins(s, hop.ip), fuel)
  {
  }

  // ----- what an activation may do to the queue -----

  /** What may happen to one request during an event. An exhausted one is left alone. */
  predicate Touched(now: int, r: Request, t: Request) {
    && t.rid == r.rid && t.ip == r.ip
    && (Exhausted(now, r) ==> t == r)
    && (|| (t.sent == r.sent && t.timesSent == r.timesSent)
        || (Due(now, r) && r.timesSent < 5 && t.sent == now && t.timesSent == r.timesSent + 1))
  }

  /** Only exhausted requests disappear, and new requests are not exhausted. */
  ghost predicate QueueEvolves(now: int, n: nat, q: Queue, p: Queue) {
    && (forall k :: k in p && k >= n ==> !Exhausted(now, p[k]))
    && (forall k :: k in p && k < n ==> k in q && Touched(now, q[k], p[k]))
    && (forall k :: k in q && !Exhausted(now, q[k]) ==> k in p)
  }

  ghost predicate Evolves(s: State, t: State) {
    && t.clock == s.clock && s.nextRid <= t.nextRid
    && (forall k :: k in Q(s) ==> k < s.nextRid)
    && QueueEvolves(s.clock, s.nextRid, Q(s), Q(t))
  }

  lemma {:induction false} EvolvesSelf(s: State)
    requires Shape(s)
    ensures Evolves(s, s)
  {
    ViewKeys(s.requests, s.nextRid);
  }

  lemma {:induction false} EvolvesTrans(s: State, t: State, u: State)
    requires Evolves(s, t) && Evolves(t, u)
    ensures Evolves(s, u)
  {
  }

  /** An exhausted request whose node survives is still queued, untouched. */
  lemma {:induction false} SurvivorIsQueued(cfg: Config, s: State, t: State, rid: nat)
    requires Shape(s) && Shape(t) && Evolves(s, t)
    requires rid in Q(s) && Exhausted(s.clock, Q(s)[rid]) && Q(s)[rid].ip in ReturnEdges(cfg, t)
    ensures rid in Q(t) && Q(t)[rid] == Q(s)[rid]
  {
    var k := NodeFrom(cfg, s.clock, Q(t), Q(s)[rid].ip);
    assert SameIp(Q(s), k, rid);
  }

  // ----- the elementary steps -----

  lemma {:induction false} QueryEvolves(cfg: Config, s: State, rid: nat)
    requires Shape(s) && rid in Q(s) && Queued(s, rid)
    requires Due(s.clock, Q(s)[rid]) && Q(s)[rid].timesSent < 5
    ensures var t := Query(cfg, s, rid);
            && Shape(t) && Evolves(s, t) && rid in Q(t) && Q(t)[rid].sent == s.clock
            && ReturnEdges(cfg, t) == ReturnEdges(cfg, s)
  {
    var t := Query(cfg, s, rid);
    QueryView(cfg, s, rid);
    ViewKeys(s.requests, s.nextRid);
    PutNode(cfg, s.clock, Q(s), rid, Q(t)[rid]);
  }

  lemma {:induction false} RemoveNode(cfg: Config, now: int, q: Queue, p: Queue, k: nat)
    requires OnePerIp(q) && OnePerIp(p) && k in q && Exhausted(now, q[k]) && IsWithout(q, p, k)
    ensures IsWithout(GraphOf(cfg, now, q), GraphOf(cfg, now, p), q[k].ip)
  {
    var g, h := GraphOf(cfg, now, q), GraphOf(cfg, now, p);
    forall ip | ip in h ensures ip in g && ip != q[k].ip && h[ip] == g[ip] {
      var j := NodeFrom(cfg, now, p, ip);
      assert ip == q[k].ip ==> SameIp(q, j, k);
      NodeOf(cfg, now, q, j);
    }
    forall ip | ip in g && ip != q[k].ip ensures ip in h {
      var j := NodeFrom(cfg, now, q, ip);
      NodeOf(cfg, now, p, j);
    }
  }

  lemma {:induction false} DestroyEvolves(cfg: Config, s: State, rid: nat)
    requires Shape(s) && Queued(s, rid) && rid in Q(s) && Exhausted(s.clock, Q(s)[rid])
    ensures var t := Destroy(s, rid);
            && Shape(t) && Evolves(s, t) && rid !in Q(t)
            && IsWithout(ReturnEdges(cfg, s), ReturnEdges(cfg, t), Q(s)[rid].ip)
  {
    DestroyView(s, rid);
    ViewKeys(s.requests, s.nextRid);
    RemoveNode(cfg, s.clock, Q(s), Q(Destroy(s, rid)), rid);
  }

  /** Putting a request `x` in place of `k`, or of nothing, keeps the graph if `x` is a node with
      the same edges, or no node at all. */
  lemma {:induction false} PutNode(cfg: Config, now: int, q: Queue, k: nat, x: Request)
    requires OnePerIp(q) && OnePerIp(q[k := x])
    requires k in q ==> x.ip == q[k].ip && Hops(cfg, x.packets) == Hops(cfg, q[k].packets)
    requires Exhausted(now, x) <==> k in q && Exhausted(now, q[k])
    ensures GraphOf(cfg, now, q[k := x]) == GraphOf(cfg, now, q)
  {
    var p := q[k := x];
    var g, h := GraphOf(cfg, now, q), GraphOf(cfg, now, p);
    forall ip | ip in h ensures ip in g && h[ip] == g[ip] {
      var j := NodeFrom(cfg, now, p, ip);
      NodeOf(cfg, now, q, j);
    }
    forall ip | ip in g ensures ip in h {
      var j := NodeFrom(cfg, now, q, ip);
      NodeOf(cfg, now, p, j);
    }
  }

  /** A frame whose source cannot be answered adds no edge. */
  lemma {:induction false} EnqueueGraph(cfg: Config, s: State, frame: Frame, hop: Hop, origin: Origin)
    requires Shape(s) && ErrorHop(cfg, frame).None?
    ensures ReturnEdges(cfg, Enqueue(s, frame, hop, origin)) == ReturnEdges(cfg, s)
  {
    var rid, x := Joins(s, hop.ip), JoinedBy(s, frame, hop);
    EnqueueView(s, frame, hop, origin);
    JoinsView(s, hop.ip);
    if rid in Q(s) { assert x.packets[1..] == Q(s)[rid].packets; }
    PutNode(cfg, s.clock, Q(s), rid, x);
  }

  lemma {:induction false} PutEvolves(now: int, n: nat, q: Queue, k: nat, x: Request)
    requires forall i :: i in q ==> i < n
    requires k in q ==> Touched(now, q[k], x)
    requires k !in q ==> n <= k && !Exhausted(now, x)
    ensures QueueEvolves(now, n, q, q[k := x])
  {
  }

  /** Queueing on a request that is not exhausted is an ordinary step. */
  lemma {:induction false} EnqueueEvolves(s: State, frame: Frame, hop: Hop, origin: Origin)
    requires Shape(s) && !Exhausted(s.clock, JoinedBy(s, frame, hop))
    ensures Evolves(s, Enqueue(s, frame, hop, origin))
  {
    EnqueueView(s, frame, hop, origin);
    JoinsView(s, hop.ip);
    ViewKeys(s.requests, s.nextRid);
    PutEvolves(s.clock, s.nextRid, Q(s), Joins(s, hop.ip), JoinedBy(s, frame, hop));
  }

  /** Queueing on an exhausted request shows only until that request is given up. */
  lemma {:induction false} EnqueueThenDestroyed(s: State, frame: Frame, hop: Hop, origin: Origin, u: State)
    requires Shape(s) && Exhausted(s.clock, JoinedBy(s, frame, hop)) && Joins(s, hop.ip) in Q(s)
    requires Evolves(Enqueue(s, frame, hop, origin), u) && Joins(s, hop.ip) !in Q(u)
    ensures Evolves(s, u)
  {
    EnqueueView(s, frame, hop, origin);
    ViewKeys(s.requests, s.nextRid);
  }
}
