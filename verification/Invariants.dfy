/** What holds in every state, and the elementary steps that keep it. */
module Invariants {
  import opened Bytes
  import opened Packets
  import opened Routing
  import opened RouterModel
  import opened RequestQueue
  import ArpTable

  // ----- accepted frames -----

  /** The tests a received frame passed before `route_and_send` was called on its behalf. */
  predicate OriginValid(cfg: Config, o: Origin) {
    match o
    case Forward(rx) => IpValid(rx) && Ethertype(rx) == 0x0800 && Ttl(rx) > 1 && IfaceForIp(cfg.ifaces, Dst(rx)).None?
    case Echo(rx) => IpValid(rx) && EchoRequestOk(rx) && IfaceForIp(cfg.ifaces, Dst(rx)).Some?
    case Error(kind, code, offender, src) =>
      && |offender| >= 34 && src != ZERO_IP && (kind, code) in {(11, 0), (3, 0), (3, 1)}
      && (code == 1 ==> Resolve(cfg, Src(offender)).Some? && src == Resolve(cfg, Src(offender)).value.iface.ip)
  }

  /** The frame that is handed to `route_and_send`. */
  function Built(cfg: Config, o: Origin): Frame
    requires cfg.Valid() && OriginValid(cfg, o)
  {
    match o
    case Forward(rx) => Forwarded(rx)
    case Echo(rx) => EchoReply(rx)
    case Error(kind, code, offender, src) => IcmpError(kind, code, offender, src, cfg.beyond)
  }

  /** An accepted frame is what its origin calls for, stamped with the address of the interface
      that its destination resolves to, and filed under the next hop it resolves to. */
  predicate AcceptedOk(cfg: Config, a: Accepted) {
    && cfg.Valid() && OriginValid(cfg, a.origin)
    && |a.frame| >= 34 && Resolve(cfg, Dst(a.frame)).Some?
    && var hop := Resolve(cfg, Dst(a.frame)).value;
       && a.hop == hop.ip && a.iface == hop.iface.name
       && |Built(cfg, a.origin)| >= 34 && a.frame == Stamp(Built(cfg, a.origin), hop.iface.addr)
  }

  ghost predicate AllAccepted(cfg: Config, acc: seq<Accepted>) {
    forall i {:trigger AcceptedOk(cfg, acc[i])} :: 0 <= i < |acc| ==> AcceptedOk(cfg, acc[i])
  }

  // ----- queued packets -----

  predicate PacketOk(acc: seq<Accepted>, ip: Ip, p: Packet) {
    p.pid < |acc| && acc[p.pid].frame == p.frame && acc[p.pid].hop == ip && acc[p.pid].iface == p.iface
  }

  predicate NewestFirst(ps: seq<Packet>) {
    forall j {:trigger ps[j]} :: 0 < j < |ps| ==> ps[j - 1].pid > ps[j].pid
  }

  /** A request has packets, all of them accepted for its address, the newest in front. */
  ghost predicate RequestOk(acc: seq<Accepted>, r: Request) {
    && r.packets != [] && NewestFirst(r.packets)
    && forall i {:trigger PacketOk(acc, r.ip, r.packets[i])} :: 0 <= i < |r.packets| ==>
         PacketOk(acc, r.ip, r.packets[i])
  }

  ghost predicate AllRequests(acc: seq<Accepted>, q: Queue) {
    forall k {:trigger RequestOk(acc, q[k])} :: k in q ==> RequestOk(acc, q[k])
  }

  // ----- conservation -----

  function UpTo(n: nat): multiset<nat> {
    if n == 0 then multiset{} else UpTo(n - 1) + multiset{n - 1}
  }

  function PendingPids(rs: seq<Request>): multiset<nat> {
    if rs == [] then multiset{} else multiset(Pids(rs[0].packets)) + PendingPids(rs[1..])
  }

  function DeliveredPids(sent: seq<Sent>): multiset<nat> {
    if sent == [] then multiset{}
    else
      DeliveredPids(sent[..|sent| - 1]) +
      match sent[|sent| - 1]
      case Delivery(pid, _, _, _, _) => multiset{pid}
      case ArpQuery(_, _, _, _, _, _, _) => multiset{}
      case ArpAnswer(_, _) => multiset{}
  }

  /** Every accepted frame is in exactly one place: waiting on one request, delivered once, or
      abandoned once. */
  ghost predicate Conserved(s: State) {
    PendingPids(s.requests) + DeliveredPids(s.sent) + multiset(s.abandoned) == UpTo(|s.accepted|)
  }

  // ----- the wire -----

  /** `sr_ether_addrs_match_interface`, with the length test of `sr_send_packet`. */
  predicate AddrsMatch(cfg: Config, frame: Frame, iface: string) {
    && |frame| >= 14
    && GetInterface(cfg.ifaces, iface).Some?
    && Shost(frame) == GetInterface(cfg.ifaces, iface).value.addr
  }

  ghost predicate Learned(ops: seq<ArpTable.TableOp>, ip: Ip, mac: Mac) {
    exists t :: ArpTable.Learn(mac, ip, t) in ops
  }

  /** What may be handed to `sr_send_packet`. A delivery is the accepted frame with both link
      addresses filled in, the destination being one that a reply for its next hop supplied. */
  ghost predicate SentOk(cfg: Config, acc: seq<Accepted>, ops: seq<ArpTable.TableOp>, x: Sent) {
    && AddrsMatch(cfg, x.frame, x.iface)
    && match x
       case ArpQuery(rid, pid, seen, time, target, frame, iface) =>
         frame == QueryFrame(GetInterface(cfg.ifaces, iface).value, target)
       case ArpAnswer(frame, iface) =>
         exists asker: Mac, ip: Ip :: frame == AnswerFrame(GetInterface(cfg.ifaces, iface).value, asker, ip)
       case Delivery(pid, from, mac, frame, iface) =>
         && pid < |acc| && acc[pid].hop == from && acc[pid].iface == iface && Learned(ops, from, mac)
         && |acc[pid].frame| >= 14
         && frame == Address(acc[pid].frame, GetInterface(cfg.ifaces, iface).value.addr, mac)
  }

  ghost predicate AllSent(cfg: Config, acc: seq<Accepted>, ops: seq<ArpTable.TableOp>, sent: seq<Sent>) {
    forall i {:trigger SentOk(cfg, acc, ops, sent[i])} :: 0 <= i < |sent| ==> SentOk(cfg, acc, ops, sent[i])
  }

  // ----- ARP requests on the wire -----

  /** When ARP requests were emitted for the request `rid`. */
  function Emissions(sent: seq<Sent>, rid: nat): seq<int> {
    if sent == [] then []
    else
      Emissions(sent[..|sent| - 1], rid) +
      match sent[|sent| - 1]
      case ArpQuery(k, _, _, time, _, _, _) => if k == rid then [time] else []
      case ArpAnswer(_, _) => []
      case Delivery(_, _, _, _, _) => []
  }

  /** At least one second apart. */
  ghost predicate Spaced(ts: seq<int>) {
    forall i :: 0 <= i < |ts| - 1 ==> ts[i] + 1 <= ts[i + 1]
  }

  ghost predicate EmissionsOk(s: State, rid: nat) {
    var ts := Emissions(s.sent, rid);
    && |ts| <= 5 && Spaced(ts)
    && (ts != [] ==> ts[|ts| - 1] <= s.clock)
    && (rid >= s.nextRid ==> ts == [])
  }

  /** A queued request has been sent as often as it says, last when it says. */
  ghost predicate CountOk(s: State, rid: nat)
    requires rid in Q(s)
  {
    var ts, r := Emissions(s.sent, rid), Q(s)[rid];
    && r.timesSent == |ts|
    && r.sent == (if ts == [] then 0 else ts[|ts| - 1])
  }

  ghost predicate AllCounts(s: State) {
    && 1 <= s.clock
    && (forall rid: nat :: EmissionsOk(s, rid))
    && (forall rid {:trigger CountOk(s, rid)} :: rid in Q(s) ==> CountOk(s, rid))
  }

  // ----- the table -----

  ghost predicate TableOk(s: State) {
    s.table == ArpTable.TableAfter(s.ops)
  }

  // ----- all of it -----

  ghost predicate Inv(cfg: Config, s: State) {
    && Shape(s)
    && AllAccepted(cfg, s.accepted)
    && AllRequests(s.accepted, Q(s))
    && Conserved(s)
    && AllSent(cfg, s.accepted, s.ops, s.sent)
    && AllCounts(s)
    && TableOk(s)
  }

  /** Every queued request has been asked for at least once. */
  ghost predicate Started(s: State) {
    forall k :: k in Q(s) ==> Q(s)[k].timesSent >= 1
  }

  ghost predicate StartedBut(s: State, rid: nat) {
    forall k :: k in Q(s) && k != rid ==> Q(s)[k].timesSent >= 1
  }

  // ----- growing histories -----

  lemma {:induction false} RequestOkGrows(acc: seq<Accepted>, more: seq<Accepted>, q: Queue)
    requires acc <= more && AllRequests(acc, q)
    ensures AllRequests(more, q)
  {
    forall k | k in q ensures RequestOk(more, q[k]) {
      assert RequestOk(acc, q[k]);
      forall i | 0 <= i < |q[k].packets| ensures PacketOk(more, q[k].ip, q[k].packets[i]) {
        assert PacketOk(acc, q[k].ip, q[k].packets[i]);
      }
    }
  }

  lemma {:induction false} LearnedGrows(ops: seq<ArpTable.TableOp>, op: ArpTable.TableOp, ip: Ip, mac: Mac)
    requires Learned(ops, ip, mac)
    ensures Learned(ops + [op], ip, mac)
  {
    var t :| ArpTable.Learn(mac, ip, t) in ops;
    assert ArpTable.Learn(mac, ip, t) in ops + [op];
  }

  lemma {:induction false} SentOkGrowsAcc(cfg: Config, acc: seq<Accepted>, more: seq<Accepted>,
                                          ops: seq<ArpTable.TableOp>, sent: seq<Sent>)
    requires acc <= more && AllSent(cfg, acc, ops, sent)
    ensures AllSent(cfg, more, ops, sent)
  {
    forall i | 0 <= i < |sent| ensures SentOk(cfg, more, ops, sent[i]) {
      assert SentOk(cfg, acc, ops, sent[i]);
    }
  }

  lemma {:induction false} SentOkGrowsOps(cfg: Config, acc: seq<Accepted>, ops: seq<ArpTable.TableOp>,
                                          op: ArpTable.TableOp, sent: seq<Sent>)
    requires AllSent(cfg, acc, ops, sent)
    ensures AllSent(cfg, acc, ops + [op], sent)
  {
    forall i | 0 <= i < |sent| ensures SentOk(cfg, acc, ops + [op], sent[i]) {
      assert SentOk(cfg, acc, ops, sent[i]);
      if sent[i].Delivery? { LearnedGrows(ops, op, sent[i].from, sent[i].mac); }
    }
  }

  lemma {:induction false} AllSentAppend(cfg: Config, acc: seq<Accepted>, ops: seq<ArpTable.TableOp>, sent: seq<Sent>,
                                         x: Sent)
    requires AllSent(cfg, acc, ops, sent) && SentOk(cfg, acc, ops, x)
    ensures AllSent(cfg, acc, ops, sent + [x])
  {
    var more := sent + [x];
    forall i | 0 <= i < |more| ensures SentOk(cfg, acc, ops, more[i]) {
      if i < |sent| { assert SentOk(cfg, acc, ops, sent[i]); }
    }
  }

  lemma {:induction false} EmissionsAppend(sent: seq<Sent>, x: Sent, rid: nat)
    ensures Emissions(sent + [x], rid) ==
            Emissions(sent, rid) + (if x.ArpQuery? && x.rid == rid then [x.time] else [])
  {
    assert (sent + [x])[..|sent|] == sent;
  }

  lemma {:induction false} DeliveredAppend(sent: seq<Sent>, x: Sent)
    ensures DeliveredPids(sent + [x]) ==
            DeliveredPids(sent) + (if x.Delivery? then multiset{x.pid} else multiset{})
  {
    assert (sent + [x])[..|sent|] == sent;
  }

  // ----- pending packets, list step by list step -----

  lemma {:induction false} PendingReplace(rs: seq<Request>, i: nat, x: Request)
    requires i < |rs|
    ensures PendingPids(rs[i := x]) == PendingPids(Remove(rs, i)) + multiset(Pids(x.packets))
  {
    if i == 0 {
      assert rs[0 := x][1..] == rs[1..] && Remove(rs, 0) == rs[1..];
    } else {
      assert rs[i := x][1..] == rs[1..][i - 1 := x];
      assert Remove(rs, i)[1..] == Remove(rs[1..], i - 1);
      PendingReplace(rs[1..], i - 1, x);
    }
  }

  lemma {:induction false} PendingRemove(rs: seq<Request>, i: nat)
    requires i < |rs|
    ensures PendingPids(rs) == PendingPids(Remove(rs, i)) + multiset(Pids(rs[i].packets))
  {
    assert rs[i := rs[i]] == rs;
    PendingReplace(rs, i, rs[i]);
  }

  lemma {:induction false} PendingJoinOld(rs: seq<Request>, i: nat, p: Packet)
    requires i < |rs|
    ensures PendingPids(rs[i := rs[i].(packets := [p] + rs[i].packets)]) == PendingPids(rs) + multiset{p.pid}
  {
    var x := rs[i].(packets := [p] + rs[i].packets);
    var rest := PendingPids(Remove(rs, i));
    PendingReplace(rs, i, x);
    PendingRemove(rs, i);
    assert Pids(x.packets) == [p.pid] + Pids(rs[i].packets);
    assert multiset(Pids(x.packets)) == multiset{p.pid} + multiset(Pids(rs[i].packets));
  }

  lemma {:induction false} PendingJoin(rs: seq<Request>, rid: nat, ip: Ip, p: Packet)
    ensures PendingPids(Join(rs, rid, ip, p)) == PendingPids(rs) + multiset{p.pid}
  {
    if FindIp(rs, ip) < |rs| {
      PendingJoinOld(rs, FindIp(rs, ip), p);
    } else {
      assert ([Request(rid, ip, 0, 0, [p])] + rs)[1..] == rs;
      assert Pids([p]) == [p.pid];
    }
  }

  // ----- the elementary steps keep the invariant -----

  lemma {:induction false} EnqueueConserved(s: State, frame: Frame, hop: Hop, origin: Origin)
    requires Conserved(s)
    ensures Conserved(Enqueue(s, frame, hop, origin))
  {
    PendingJoin(s.requests, s.nextRid, hop.ip, Packet(|s.accepted|, frame, hop.iface.name));
  }

  lemma {:induction false} EnqueueHistories(cfg: Config, s: State, frame: Frame, hop: Hop, origin: Origin)
    requires AllAccepted(cfg, s.accepted) && AllSent(cfg, s.accepted, s.ops, s.sent)
    requires AcceptedOk(cfg, Accepted(frame, hop.ip, hop.iface.name, origin))
    ensures var t := Enqueue(s, frame, hop, origin);
            AllAccepted(cfg, t.accepted) && AllSent(cfg, t.accepted, t.ops, t.sent)
  {
    var a := Accepted(frame, hop.ip, hop.iface.name, origin);
    AllAcceptedAppend(cfg, s.accepted, a);
    SentOkGrowsAcc(cfg, s.accepted, s.accepted + [a], s.ops, s.sent);
  }

  lemma {:induction false} AllAcceptedAppend(cfg: Config, acc: seq<Accepted>, a: Accepted)
    requires AllAccepted(cfg, acc) && AcceptedOk(cfg, a)
    ensures AllAccepted(cfg, acc + [a])
  {
    var more := acc + [a];
    forall i | 0 <= i < |more| ensures AcceptedOk(cfg, more[i]) {
      if i < |acc| { assert AcceptedOk(cfg, acc[i]); }
    }
  }

  lemma {:induction false} EnqueueStarted(s: State, frame: Frame, hop: Hop, origin: Origin)
    requires Shape(s) && Started(s)
    ensures StartedBut(Enqueue(s, frame, hop, origin), Joins(s, hop.ip))
  {
    EnqueueView(s, frame, hop, origin);
  }

  lemma {:induction false} EnqueueInv(cfg: Config, s: State, frame: Frame, hop: Hop, origin: Origin)
    requires Inv(cfg, s) && AcceptedOk(cfg, Accepted(frame, hop.ip, hop.iface.name, origin))
    ensures Inv(cfg, Enqueue(s, frame, hop, origin))
  {
    var t := Enqueue(s, frame, hop, origin);
    assert Shape(t) by { EnqueueView(s, frame, hop, origin); }
    EnqueueHistories(cfg, s, frame, hop, origin);
    EnqueueRequests(s, frame, hop, origin);
    EnqueueCounts(s, frame, hop, origin);
    EnqueueConserved(s, frame, hop, origin);
  }

  lemma {:induction false} JoinNewest(acc: seq<Accepted>, r: Request, p: Packet)
    requires RequestOk(acc, r) && p.pid == |acc|
    ensures NewestFirst([p] + r.packets)
  {
    assert PacketOk(acc, r.ip, r.packets[0]);
    var ps := [p] + r.packets;
    forall j | 0 < j < |ps| ensures ps[j - 1].pid > ps[j].pid {
      assert ps[j] == r.packets[j - 1];
      if j > 1 { assert ps[j - 1] == r.packets[j - 2]; }
    }
  }

  lemma {:induction false} EnqueueRequests(s: State, frame: Frame, hop: Hop, origin: Origin)
    requires Shape(s) && AllRequests(s.accepted, Q(s))
    ensures var t := Enqueue(s, frame, hop, origin); AllRequests(t.accepted, Q(t))
  {
    var t, rid, x := Enqueue(s, frame, hop, origin), Joins(s, hop.ip), JoinedBy(s, frame, hop);
    EnqueueView(s, frame, hop, origin);
    JoinsView(s, hop.ip);
    RequestOkGrows(s.accepted, t.accepted, Q(s));
    assert RequestOk(t.accepted, x) by {
      if rid in Q(s) {
        assert RequestOk(t.accepted, Q(s)[rid]);
        assert RequestOk(s.accepted, Q(s)[rid]);
        JoinNewest(s.accepted, Q(s)[rid], Packet(|s.accepted|, frame, hop.iface.name));
      }
      forall i | 0 <= i < |x.packets| ensures PacketOk(t.accepted, x.ip, x.packets[i]) {
        if i > 0 {
          assert x.packets[i] == Q(s)[rid].packets[i - 1];
          assert PacketOk(t.accepted, x.ip, Q(s)[rid].packets[i - 1]);
        }
      }
    }
  }

  lemma {:induction false} EnqueueCounts(s: State, frame: Frame, hop: Hop, origin: Origin)
    requires Shape(s) && AllCounts(s)
    ensures AllCounts(Enqueue(s, frame, hop, origin))
  {
    var t, rid := Enqueue(s, frame, hop, origin), Joins(s, hop.ip);
    EnqueueView(s, frame, hop, origin);
    JoinsView(s, hop.ip);
    forall k: nat ensures EmissionsOk(t, k) { assert EmissionsOk(s, k); }
    forall k | k in Q(t) ensures CountOk(t, k) {
      if k in Q(s) { assert CountOk(s, k); } else { assert EmissionsOk(s, k); }
    }
  }

  /** The interface of the first packet is the interface of the accepted frame it carries. */
  lemma {:induction false} FirstIface(cfg: Config, s: State, rid: nat)
    requires Inv(cfg, s) && rid in Q(s)
    ensures Q(s)[rid].packets != [] && GetInterface(cfg.ifaces, Q(s)[rid].packets[0].iface).Some?
  {
    assert RequestOk(s.accepted, Q(s)[rid]);
    var p := Q(s)[rid].packets[0];
    assert PacketOk(s.accepted, Q(s)[rid].ip, p) && AcceptedOk(cfg, s.accepted[p.pid]);
  }

  lemma {:induction false} QueryEmissions(s: State, t: State, rid: nat, x: Sent, k: nat)
    requires AllCounts(s) && rid in Q(s) && Due(s.clock, Q(s)[rid]) && Q(s)[rid].timesSent < 5
    requires t.clock == s.clock && t.nextRid == s.nextRid && rid < s.nextRid
    requires t.sent == s.sent + [x] && x.ArpQuery? && x.rid == rid && x.time == s.clock
    ensures EmissionsOk(t, k)
  {
    assert CountOk(s, rid) && EmissionsOk(s, k);
    EmissionsAppend(s.sent, x, k);
  }

  lemma {:induction false} QueryCounts(s: State, t: State, rid: nat, x: Sent)
    requires AllCounts(s) && rid in Q(s) && Due(s.clock, Q(s)[rid]) && Q(s)[rid].timesSent < 5
    requires t.clock == s.clock && t.nextRid == s.nextRid && rid < s.nextRid
    requires Q(t) == Q(s)[rid := Q(s)[rid].(sent := s.clock, timesSent := Q(s)[rid].timesSent + 1)]
    requires t.sent == s.sent + [x] && x.ArpQuery? && x.rid == rid && x.time == s.clock
    ensures AllCounts(t)
  {
    forall k: nat ensures EmissionsOk(t, k) { QueryEmissions(s, t, rid, x, k); }
    forall k | k in Q(t) ensures CountOk(t, k) {
      assert CountOk(s, k);
      EmissionsAppend(s.sent, x, k);
    }
  }

  lemma {:induction false} QueryRequests(acc: seq<Accepted>, q: Queue, rid: nat, x: Request)
    requires AllRequests(acc, q) && rid in q && x.packets == q[rid].packets && x.ip == q[rid].ip
    ensures AllRequests(acc, q[rid := x])
  {
    assert RequestOk(acc, q[rid]);
    forall i | 0 <= i < |x.packets| ensures PacketOk(acc, x.ip, x.packets[i]) {
      assert PacketOk(acc, q[rid].ip, q[rid].packets[i]);
    }
    var p := q[rid := x];
    forall k | k in p ensures RequestOk(acc, p[k]) {
      if k != rid { assert RequestOk(acc, q[k]); }
    }
  }

  lemma {:induction false} QueryConserved(cfg: Config, s: State, rid: nat, x: Sent)
    requires Queued(s, rid) && Conserved(s) && !x.Delivery?
    requires Query(cfg, s, rid).sent == s.sent + [x]
    ensures Conserved(Query(cfg, s, rid))
  {
    var t, i := Query(cfg, s, rid), FindRid(s.requests, rid);
    DeliveredAppend(s.sent, x);
    PendingReplace(s.requests, i, t.requests[i]);
    PendingRemove(s.requests, i);
  }

  lemma {:induction false} QuerySends(cfg: Config, s: State, rid: nat) returns (x: Sent)
    requires Inv(cfg, s) && rid in Q(s) && Queued(s, rid)
    ensures Query(cfg, s, rid).sent == s.sent + [x]
    ensures x.ArpQuery? && x.rid == rid && x.time == s.clock && x.target == Q(s)[rid].ip
    ensures SentOk(cfg, s.accepted, s.ops, x)
  {
    QueuedView(s, rid);
    FirstIface(cfg, s, rid);
    var r := Q(s)[rid];
    var iface := GetInterface(cfg.ifaces, r.packets[0].iface).value;
    x := ArpQuery(rid, r.packets[0].pid, |s.accepted|, s.clock, r.ip, QueryFrame(iface, r.ip), iface.name);
  }

  lemma {:induction false} QueryInv(cfg: Config, s: State, rid: nat)
    requires Inv(cfg, s) && rid in Q(s) && Queued(s, rid)
    requires Due(s.clock, Q(s)[rid]) && Q(s)[rid].timesSent < 5
    ensures Inv(cfg, Query(cfg, s, rid))
    ensures StartedBut(s, rid) ==> Started(Query(cfg, s, rid))
  {
    var t := Query(cfg, s, rid);
    var x := QuerySends(cfg, s, rid);
    QueuedView(s, rid);
    QueryView(cfg, s, rid);
    assert AllCounts(t) by { QueryCounts(s, t, rid, x); }
    assert AllRequests(t.accepted, Q(t)) by { QueryRequests(s.accepted, Q(s), rid, Q(t)[rid]); }
    assert AllSent(cfg, t.accepted, t.ops, t.sent) by { AllSentAppend(cfg, s.accepted, s.ops, s.sent, x); }
    assert Conserved(t) by { QueryConserved(cfg, s, rid, x); }
  }

  lemma {:induction false} AttemptInv(cfg: Config, s: State, pid: nat)
    requires Inv(cfg, s)
    ensures Inv(cfg, s.(attempts := s.attempts + [pid]))
  {
    var t := s.(attempts := s.attempts + [pid]);
    forall k: nat ensures EmissionsOk(t, k) { assert EmissionsOk(s, k); }
    forall k | k in Q(t) ensures CountOk(t, k) { assert CountOk(s, k); }
  }

  lemma {:induction false} DestroyInv(cfg: Config, s: State, rid: nat)
    requires Inv(cfg, s) && Queued(s, rid)
    ensures Inv(cfg, Destroy(s, rid))
    ensures StartedBut(s, rid) ==> Started(Destroy(s, rid))
  {
    var t := Destroy(s, rid);
    DestroyView(s, rid);
    QueuedView(s, rid);
    forall k: nat ensures EmissionsOk(t, k) { assert EmissionsOk(s, k); }
    forall k | k in Q(t) ensures CountOk(t, k) { assert CountOk(s, k); }
    forall k | k in Q(t) ensures RequestOk(t.accepted, Q(t)[k]) { assert RequestOk(s.accepted, Q(s)[k]); }
    PendingRemove(s.requests, FindRid(s.requests, rid));
    assert Conserved(t);
  }
}
