/** What every activation that ends does to the queue and to the wire, whatever the routing table. */
module Activation {
  import opened Bytes
  import opened Packets
  import opened Routing
  import opened RouterModel
  import opened RequestQueue
  import opened Cascade
  import ArpTable

  // ----- packets do not change their request -----

  /** Packets accepted before `s` and still queued in `t` wait where they waited. */
  ghost predicate Waits(s: State, t: State) {
    && |s.accepted| <= |t.accepted|
    && forall k, p {:trigger p in Q(t)[k].packets} :: k in Q(t) && p in Q(t)[k].packets && p.pid < |s.accepted|
         ==> k in Q(s) && p in Q(s)[k].packets
  }

  /** And the table is as it was. */
  ghost predicate Stays(s: State, t: State) {
    Waits(s, t) && t.table == s.table && t.ops == s.ops
  }

  // ----- queries for one address -----

  /** A reply for `ip` arrived between these two times. */
  ghost predicate LearnedWithin(ops: seq<ArpTable.TableOp>, ip: Ip, from: int, to: int) {
    exists mac, t :: from <= t <= to && ArpTable.Learn(mac, ip, t) in ops
  }

  /** A query made now would not follow `x` too closely. */
  ghost predicate Settled(s: State, x: Sent)
    requires x.ArpQuery?
  {
    x.time + 1 <= s.clock || LearnedWithin(s.ops, x.target, x.time, s.clock)
  }

  /** A queued request remembers the query `x`. */
  ghost predicate Remembered(q: Queue, x: Sent)
    requires x.ArpQuery?
  {
    exists k :: k in q && q[k].ip == x.target && x.time <= q[k].sent
  }

  ghost predicate Traced(s: State, x: Sent) {
    x.ArpQuery? ==> x.time <= s.clock && (Settled(s, x) || Remembered(Q(s), x))
  }

  /** Two queries for one address are a second apart, or a reply for it came in between. */
  ghost predicate Apart(ops: seq<ArpTable.TableOp>, x: Sent, y: Sent) {
    x.ArpQuery? && y.ArpQuery? && x.target == y.target ==>
      x.time + 1 <= y.time || LearnedWithin(ops, x.target, x.time, y.time)
  }

  ghost predicate Paced(s: State) {
    && (forall i {:trigger Traced(s, s.sent[i])} :: 0 <= i < |s.sent| ==> Traced(s, s.sent[i]))
    && (forall i, j {:trigger Apart(s.ops, s.sent[i], s.sent[j])} :: 0 <= i < j < |s.sent| ==>
          Apart(s.ops, s.sent[i], s.sent[j]))
  }

  // ----- queries follow packets -----

  /** Only queries go out, and they are dated correctly. */
  ghost predicate OnlyAsks(s: State, t: State) {
    && s.sent <= t.sent
    && forall i {:trigger t.sent[i]} :: |s.sent| <= i < |t.sent| ==>
         t.sent[i].ArpQuery? && t.sent[i].time == s.clock && |s.accepted| <= t.sent[i].seen
  }

  /** The first packet of a request is the last frame accepted for its address. */
  ghost predicate Latest(acc: seq<Accepted>, r: Request) {
    && r.packets != [] && r.packets[0].pid < |acc|
    && acc[r.packets[0].pid].hop == r.ip && acc[r.packets[0].pid].iface == r.packets[0].iface
    && forall q {:trigger acc[q]} :: r.packets[0].pid < q < |acc| ==> acc[q].hop != r.ip
  }

  /** A query went out on the interface of the frame that was then the last one accepted for its target. */
  ghost predicate AskedFor(acc: seq<Accepted>, x: Sent) {
    x.ArpQuery? ==>
      && x.pid < x.seen <= |acc| && acc[x.pid].hop == x.target && acc[x.pid].iface == x.iface
      && forall q {:trigger acc[q]} :: x.pid < q < x.seen ==> acc[q].hop != x.target
  }

  ghost predicate Asking(s: State) {
    && (forall k {:trigger Latest(s.accepted, Q(s)[k])} :: k in Q(s) ==> Latest(s.accepted, Q(s)[k]))
    && (forall i {:trigger AskedFor(s.accepted, s.sent[i])} :: 0 <= i < |s.sent| ==> AskedFor(s.accepted, s.sent[i]))
  }

  lemma {:induction false} EnqueueAsking(s: State, frame: Frame, hop: Hop, origin: Origin)
    requires Shape(s) && Asking(s)
    ensures Asking(Enqueue(s, frame, hop, origin))
  {
    var t := Enqueue(s, frame, hop, origin);
    EnqueueView(s, frame, hop, origin);
    JoinsView(s, hop.ip);
    forall k | k in Q(t) ensures Latest(t.accepted, Q(t)[k]) {
      if k != Joins(s, hop.ip) {
        assert Latest(s.accepted, Q(s)[k]);
        forall q | Q(t)[k].packets[0].pid < q < |t.accepted| ensures t.accepted[q].hop != Q(t)[k].ip {
          if q < |s.accepted| { assert t.accepted[q] == s.accepted[q]; }
        }
      }
    }
    forall i | 0 <= i < |t.sent| ensures AskedFor(t.accepted, t.sent[i]) {
      assert AskedFor(s.accepted, s.sent[i]);
      forall q | 0 <= q < |s.accepted| ensures t.accepted[q] == s.accepted[q] { }
    }
  }

  lemma {:induction false} QueryAsking(cfg: Config, s: State, rid: nat)
    requires Shape(s) && Queued(s, rid) && rid in Q(s) && Asking(s)
    ensures Asking(Query(cfg, s, rid))
  {
    var t := Query(cfg, s, rid);
    QueuedView(s, rid);
    QueryView(cfg, s, rid);
    forall k | k in Q(t) ensures Latest(t.accepted, Q(t)[k]) { assert Latest(s.accepted, Q(s)[k]); }
    forall i | 0 <= i < |t.sent| ensures AskedFor(t.accepted, t.sent[i]) {
      if i < |s.sent| {
        assert t.sent[i] == s.sent[i] && AskedFor(s.accepted, s.sent[i]);
      } else {
        assert Latest(s.accepted, Q(s)[rid]);
      }
    }
  }

  /** Leaving requests out changes nothing. */
  lemma {:induction false} FewerAsking(s: State, t: State)
    requires Asking(s) && t.accepted == s.accepted && t.sent == s.sent
    requires forall k {:trigger k in Q(t)} :: k in Q(t) ==> k in Q(s) && Q(t)[k] == Q(s)[k]
    ensures Asking(t)
  {
    forall k | k in Q(t) ensures Latest(t.accepted, Q(t)[k]) { assert Latest(s.accepted, Q(s)[k]); }
    forall i | 0 <= i < |t.sent| ensures AskedFor(t.accepted, t.sent[i]) { assert AskedFor(s.accepted, s.sent[i]); }
  }

  /** What every step carries over. */
  ghost predicate Carries(s: State, t: State) {
    Stays(s, t) && OnlyAsks(s, t) && (Paced(s) ==> Paced(t)) && (Asking(s) ==> Asking(t))
  }

  // ----- the elementary steps -----

  /** Nothing goes on the wire, and only a request that is due may be forgotten. */
  ghost predicate Quiet(s: State, t: State) {
    && t.clock == s.clock && t.sent == s.sent && t.ops == s.ops
    && forall k {:trigger k in Q(s)} :: k in Q(s) ==>
         if k in Q(t) then Q(t)[k].ip == Q(s)[k].ip && Q(t)[k].sent == Q(s)[k].sent else Due(s.clock, Q(s)[k])
  }

  lemma {:induction false} QuietPaced(s: State, t: State)
    requires Paced(s) && Quiet(s, t)
    ensures Paced(t)
  {
    forall i | 0 <= i < |t.sent| ensures Traced(t, t.sent[i]) {
      var x := s.sent[i];
      assert Traced(s, x);
      if x.ArpQuery? && !Settled(s, x) {
        var k :| k in Q(s) && Q(s)[k].ip == x.target && x.time <= Q(s)[k].sent;
        assert k in Q(t);
      }
    }
    forall i, j | 0 <= i < j < |t.sent| ensures Apart(t.ops, t.sent[i], t.sent[j]) {
      assert Apart(s.ops, s.sent[i], s.sent[j]);
    }
  }

  lemma {:induction false} EnqueueKeeps(s: State, frame: Frame, hop: Hop, origin: Origin)
    requires Shape(s)
    ensures var t := Enqueue(s, frame, hop, origin); Carries(s, t)
  {
    var t := Enqueue(s, frame, hop, origin);
    EnqueueView(s, frame, hop, origin);
    JoinsView(s, hop.ip);
    if Paced(s) {
      assert Quiet(s, t);
      QuietPaced(s, t);
    }
    if Asking(s) { EnqueueAsking(s, frame, hop, origin); }
  }

  lemma {:induction false} DestroyKeeps(s: State, rid: nat)
    requires Shape(s) && Queued(s, rid) && rid in Q(s) && Due(s.clock, Q(s)[rid])
    ensures var t := Destroy(s, rid); Carries(s, t)
  {
    DestroyView(s, rid);
    if Paced(s) { QuietPaced(s, Destroy(s, rid)); }
    if Asking(s) { FewerAsking(s, Destroy(s, rid)); }
  }

  /** A query does not follow an earlier one for the same address too closely. */
  lemma {:induction false} QueryApart(s: State, rid: nat, x: Sent, y: Sent)
    requires Shape(s) && rid in Q(s) && Due(s.clock, Q(s)[rid])
    requires Traced(s, x) && y.ArpQuery? && y.target == Q(s)[rid].ip && y.time == s.clock
    ensures Apart(s.ops, x, y)
  {
    if x.ArpQuery? && x.target == y.target && !Settled(s, x) {
      var k :| k in Q(s) && Q(s)[k].ip == x.target && x.time <= Q(s)[k].sent;
      assert SameIp(Q(s), k, rid);
    }
  }

  lemma {:induction false} QueryTraced(s: State, t: State, rid: nat, x: Sent)
    requires Shape(s) && rid in Q(s) && Due(s.clock, Q(s)[rid]) && t.clock == s.clock && t.ops == s.ops
    requires Q(t) == Q(s)[rid := Q(s)[rid].(sent := s.clock, timesSent := Q(s)[rid].timesSent + 1)]
    requires Traced(s, x) || (x.ArpQuery? && x.target == Q(s)[rid].ip && x.time == s.clock)
    ensures Traced(t, x)
  {
    if x.ArpQuery? && !Settled(s, x) {
      var k: nat;
      if Traced(s, x) {
        k :| k in Q(s) && Q(s)[k].ip == x.target && x.time <= Q(s)[k].sent;
      } else {
        k := rid;
      }
      assert k in Q(t) && Q(t)[k].ip == x.target && x.time <= Q(t)[k].sent;
    }
  }

  /** What `Query` puts on the wire. */
  lemma {:induction false} QueryWire(cfg: Config, s: State, rid: nat) returns (ys: seq<Sent>)
    requires Shape(s) && Queued(s, rid) && rid in Q(s)
    ensures Query(cfg, s, rid).sent == s.sent + ys && |ys| <= 1
    ensures ys != [] ==>
              ys[0].ArpQuery? && ys[0].target == Q(s)[rid].ip && ys[0].time == s.clock && ys[0].seen == |s.accepted|
  {
    QueuedView(s, rid);
    ys := Query(cfg, s, rid).sent[|s.sent|..];
  }

  lemma {:induction false} QueryPaced(cfg: Config, s: State, rid: nat)
    requires Shape(s) && Queued(s, rid) && rid in Q(s) && Due(s.clock, Q(s)[rid]) && Paced(s)
    ensures Paced(Query(cfg, s, rid))
  {
    var t := Query(cfg, s, rid);
    QueryView(cfg, s, rid);
    var ys := QueryWire(cfg, s, rid);
    forall i | 0 <= i < |t.sent| ensures Traced(t, t.sent[i]) {
      if i < |s.sent| { assert t.sent[i] == s.sent[i] && Traced(s, s.sent[i]); } else { assert t.sent[i] == ys[0]; }
      QueryTraced(s, t, rid, t.sent[i]);
    }
    forall i, j | 0 <= i < j < |t.sent| ensures Apart(t.ops, t.sent[i], t.sent[j]) {
      assert t.sent[i] == s.sent[i];
      if j < |s.sent| {
        assert t.sent[j] == s.sent[j] && Apart(s.ops, s.sent[i], s.sent[j]);
      } else {
        assert t.sent[j] == ys[0] && Traced(s, s.sent[i]);
        QueryApart(s, rid, s.sent[i], ys[0]);
      }
    }
  }

  lemma {:induction false} QueryKeeps(cfg: Config, s: State, rid: nat)
    requires Shape(s) && Queued(s, rid) && rid in Q(s) && Due(s.clock, Q(s)[rid])
    ensures var t := Query(cfg, s, rid); Carries(s, t)
  {
    QueryView(cfg, s, rid);
    var ys := QueryWire(cfg, s, rid);
    if Paced(s) { QueryPaced(cfg, s, rid); }
    if Asking(s) { QueryAsking(cfg, s, rid); }
  }

  // ----- activations that end -----

  ghost predicate Advances(s: State, t: State) {
    Shape(t) && Evolves(s, t) && Carries(s, t)
  }

  lemma {:induction false} AdvancesSelf(s: State)
    requires Shape(s)
    ensures Advances(s, s)
  {
    EvolvesSelf(s);
  }

  lemma {:induction false} AdvancesTrans(s: State, t: State, u: State)
    requires Advances(s, t) && Advances(t, u)
    ensures Advances(s, u)
  {
    EvolvesTrans(s, t, u);
  }

  /** An exhausted request that is still queued is as it was. */
  lemma {:induction false} ExhaustedStays(s: State, t: State, rid: nat)
    requires Advances(s, t) && rid in Q(s) && Exhausted(s.clock, Q(s)[rid]) && Queued(t, rid)
    ensures rid in Q(t) && Q(t)[rid] == Q(s)[rid]
  {
    QueuedView(t, rid);
  }

  /** The first packet of a give-up that ends. */
  lemma {:induction false} GiveUpFirst(cfg: Config, s: State, rid: nat, ps: seq<Packet>, fuel: nat, t: State)
    returns (s1: State, u: State)
    requires cfg.Valid() && ps != [] && |ps[0].frame| >= 34 && GiveUp(cfg, s, rid, ps, fuel) == Done(t)
    ensures s1 == s.(attempts := s.attempts + [ps[0].pid])
    ensures SendError(cfg, s1, 3, 1, ps[0].frame, ZERO_IP, fuel) == Done(u) && Queued(u, rid)
    ensures GiveUp(cfg, u, rid, ps[1..], fuel) == Done(t)
  {
    s1 := s.(attempts := s.attempts + [ps[0].pid]);
    u := SendError(cfg, s1, 3, 1, ps[0].frame, ZERO_IP, fuel).s;
  }

  /** Handling a request destroys it if it is exhausted, and else leaves it not due. */
  lemma {:induction false} HandleAdvances(cfg: Config, s: State, rid: nat, fuel: nat, t: State)
    requires cfg.Valid() && Shape(s) && rid in Q(s) && HandleReq(cfg, s, rid, fuel) == Done(t)
    ensures Advances(s, t)
    ensures rid in Q(t) <==> !Exhausted(s.clock, Q(s)[rid])
    ensures rid in Q(t) ==> !Due(s.clock, Q(t)[rid])
    decreases fuel, 0, 0
  {
    QueuedView(s, rid);
    if !Due(s.clock, Q(s)[rid]) {
      AdvancesSelf(s);
    } else if Q(s)[rid].timesSent < 5 {
      QueryEvolves(cfg, s, rid);
      QueryKeeps(cfg, s, rid);
    } else {
      var u := GiveUp(cfg, s, rid, Q(s)[rid].packets, fuel - 1).s;
      GiveUpAdvances(cfg, s, rid, Q(s)[rid].packets, fuel - 1, u);
      QueuedView(u, rid);
      DestroyEvolves(cfg, u, rid);
      DestroyKeeps(u, rid);
      AdvancesTrans(s, u, t);
    }
  }

  /** While its packets are answered, a request stays as it is. */
  lemma {:induction false} GiveUpAdvances(cfg: Config, s: State, rid: nat, ps: seq<Packet>, fuel: nat, t: State)
    requires cfg.Valid() && Shape(s) && rid in Q(s) && Exhausted(s.clock, Q(s)[rid])
    requires GiveUp(cfg, s, rid, ps, fuel) == Done(t)
    ensures Advances(s, t) && rid in Q(t) && Q(t)[rid] == Q(s)[rid]
    decreases fuel, 3, |ps|
  {
    if ps == [] {
      AdvancesSelf(s);
    } else if |ps[0].frame| < 34 {
      GiveUpAdvances(cfg, s, rid, ps[1..], fuel, t);
    } else {
      var s1, u := GiveUpFirst(cfg, s, rid, ps, fuel, t);
      AttemptAdvances(s, s1);
      ErrorAdvances(cfg, s1, 3, 1, ps[0].frame, ZERO_IP, fuel, u);
      AdvancesTrans(s, s1, u);
      ExhaustedStays(s, u, rid);
      GiveUpAdvances(cfg, u, rid, ps[1..], fuel, t);
      AdvancesTrans(s, u, t);
    }
  }

  lemma {:induction false} AttemptAdvances(s: State, t: State)
    requires Shape(s) && t == s.(attempts := t.attempts)
    ensures Advances(s, t)
  {
    EvolvesSelf(s);
    if Paced(s) { QuietPaced(s, t); }
    if Asking(s) { FewerAsking(s, t); }
  }

  lemma {:induction false} ErrorAdvances(cfg: Config, s: State, kind: byte, code: byte, frame: Frame, src: Ip,
                                         fuel: nat, t: State)
    requires cfg.Valid() && Shape(s) && SendError(cfg, s, kind, code, frame, src, fuel) == Done(t)
    ensures Advances(s, t)
    decreases fuel, 2, 0
  {
    if |frame| < 34 || ErrorSource(cfg, frame, src) == ZERO_IP {
      AdvancesSelf(s);
    } else {
      var from := ErrorSource(cfg, frame, src);
      RouteAdvances(cfg, s, IcmpError(kind, code, frame, from, cfg.beyond), Error(kind, code, frame, from), fuel, t);
    }
  }

  lemma {:induction false} RouteAdvances(cfg: Config, s: State, frame: Frame, origin: Origin, fuel: nat, t: State)
    requires cfg.Valid() && Shape(s) && RouteAndSend(cfg, s, frame, origin, fuel) == Done(t)
    ensures Advances(s, t)
    decreases fuel, 1, 0
  {
    if !Routable(cfg, frame) {
      AdvancesSelf(s);
    } else {
      var hop := Resolve(cfg, Dst(frame)).value;
      var f := Stamp(frame, hop.iface.addr);
      var u, rid := Enqueue(s, f, hop, origin), Joins(s, hop.ip);
      EnqueueView(s, f, hop, origin);
      EnqueueKeeps(s, f, hop, origin);
      HandleAdvances(cfg, u, rid, fuel, t);
      if Exhausted(s.clock, JoinedBy(s, f, hop)) {
        EnqueueThenDestroyed(s, f, hop, origin, t);
      } else {
        EnqueueEvolves(s, f, hop, origin);
        EvolvesTrans(s, u, t);
      }
    }
  }

  // ----- draining -----

  /** The drain loop only appends deliveries. */
  lemma {:induction false} DrainTail(cfg: Config, sent: seq<Sent>, ps: seq<Packet>, from: Ip, mac: Mac)
    ensures var r := Drain(cfg, sent, ps, from, mac);
            sent <= r && forall i :: |sent| <= i < |r| ==> r[i].Delivery?
    decreases |ps|
  {
    if ps != [] && |ps[0].frame| < 14 {
      DrainTail(cfg, sent, ps[1..], from, mac);
    } else if ps != [] {
      DrainTail(cfg, sent + [DeliveryOf(cfg, ps[0], from, mac)], ps[1..], from, mac);
    }
  }

  // ----- a received IP packet -----

  /** The error for a packet that cannot be forwarded, if one can be sent. */
  function Failure(cfg: Config, kind: byte, code: byte, frame: Frame, iface: string): (r: Option<(Frame, Origin)>)
    requires cfg.Valid() && |frame| >= 34
  {
    var from := ErrorSource(cfg, frame, ReceivingIp(cfg, iface));
    if from == ZERO_IP then None
    else Some((IcmpError(kind, code, frame, from, cfg.beyond), Error(kind, code, frame, from)))
  }

  /** What is handed to `route_and_send` on behalf of a received packet, and why. */
  function Outgoing(cfg: Config, frame: Frame, iface: string): (r: Option<(Frame, Origin)>)
    requires cfg.Valid()
  {
    if !IpValid(frame) then None
    else if IfaceForIp(cfg.ifaces, Dst(frame)).Some? then
      if frame[23] == 1 && EchoRequestOk(frame) then Some((EchoReply(frame), Echo(frame))) else None
    else if Ttl(frame) <= 1 then Failure(cfg, 11, 0, frame, iface)
    else if Routable(cfg, Forwarded(frame)) then Some((Forwarded(frame), Forward(frame)))
    else Failure(cfg, 3, 0, frame, iface)
  }

  function Dispatch(cfg: Config, s: State, out: Option<(Frame, Origin)>, fuel: nat): (o: Outcome)
    requires cfg.Valid()
  {
    match out
    case None => Done(s)
    case Some(x) => RouteAndSend(cfg, s, x.0, x.1, fuel)
  }

  lemma {:induction false} IpRoutes(cfg: Config, s: State, frame: Frame, iface: string, fuel: nat)
    requires cfg.Valid()
    ensures HandleIp(cfg, s, frame, iface, fuel) == Dispatch(cfg, s, Outgoing(cfg, frame, iface), fuel)
  {
  }

  lemma {:induction false} IpAdvances(cfg: Config, s: State, frame: Frame, iface: string, fuel: nat, t: State)
    requires cfg.Valid() && Shape(s) && HandleIp(cfg, s, frame, iface, fuel) == Done(t)
    ensures Advances(s, t)
  {
    IpRoutes(cfg, s, frame, iface, fuel);
    match Outgoing(cfg, frame, iface)
    case None => AdvancesSelf(s);
    case Some(out) => RouteAdvances(cfg, s, out.0, out.1, fuel, t);
  }
}
