/** The events: a frame arrives, or a second has passed. */
module Events {
  import opened Bytes
  import opened Packets
  import opened Routing
  import opened RouterModel
  import opened RequestQueue
  import opened Activation
  import opened Invariants
  import opened Preservation
  import ArpTable

  // ----- the clock -----

  lemma {:induction false} ClockInv(cfg: Config, s: State, now: int)
    requires Inv(cfg, s) && s.clock <= now
    ensures Inv(cfg, s.(clock := now))
  {
    var t := s.(clock := now);
    forall k: nat ensures EmissionsOk(t, k) { assert EmissionsOk(s, k); }
    forall k | k in Q(t) ensures CountOk(t, k) { assert CountOk(s, k); }
  }

  // ----- draining -----

  /** One delivery for each packet, in list order. */
  function Deliveries(cfg: Config, ps: seq<Packet>, from: Ip, mac: Mac): (r: seq<Sent>)
    requires Full(ps)
    ensures |r| == |ps| && forall i :: 0 <= i < |ps| ==> r[i] == DeliveryOf(cfg, ps[i], from, mac)
  {
    seq(|ps|, i requires 0 <= i < |ps| => DeliveryOf(cfg, ps[i], from, mac))
  }

  lemma {:induction false} DeliveriesStep(cfg: Config, ps: seq<Packet>, from: Ip, mac: Mac)
    requires Full(ps) && ps != []
    ensures Full(ps[1..])
    ensures Deliveries(cfg, ps, from, mac) == [DeliveryOf(cfg, ps[0], from, mac)] + Deliveries(cfg, ps[1..], from, mac)
  {
  }

  lemma {:induction false} DrainStep(cfg: Config, sent: seq<Sent>, ps: seq<Packet>, from: Ip, mac: Mac)
    requires ps != [] && |ps[0].frame| >= 14
    ensures Drain(cfg, sent, ps, from, mac)
            == Drain(cfg, sent + [DeliveryOf(cfg, ps[0], from, mac)], ps[1..], from, mac)
  {
  }

  lemma {:induction false} Regroup(sent: seq<Sent>, x: Sent, rest: seq<Sent>)
    ensures sent + [x] + rest == sent + ([x] + rest)
  {
  }

  /** A reply sends every packet that waited on it exactly once, in list order. */
  lemma {:induction false} DrainIs(cfg: Config, sent: seq<Sent>, ps: seq<Packet>, from: Ip, mac: Mac)
    requires Full(ps)
    ensures Drain(cfg, sent, ps, from, mac) == sent + Deliveries(cfg, ps, from, mac)
    decreases |ps|
  {
    if ps != [] {
      var x := DeliveryOf(cfg, ps[0], from, mac);
      DeliveriesStep(cfg, ps, from, mac);
      DrainStep(cfg, sent, ps, from, mac);
      DrainIs(cfg, sent + [x], ps[1..], from, mac);
      Regroup(sent, x, Deliveries(cfg, ps[1..], from, mac));
    }
  }

  lemma {:induction false} DrainEmissions(cfg: Config, sent: seq<Sent>, ps: seq<Packet>, from: Ip, mac: Mac, rid: nat)
    requires Full(ps)
    ensures Emissions(Drain(cfg, sent, ps, from, mac), rid) == Emissions(sent, rid)
    decreases |ps|
  {
    if ps != [] {
      var x := DeliveryOf(cfg, ps[0], from, mac);
      DrainEmissions(cfg, sent + [x], ps[1..], from, mac, rid);
      EmissionsAppend(sent, x, rid);
    }
  }

  lemma {:induction false} PidsStep(ps: seq<Packet>)
    requires ps != []
    ensures multiset(Pids(ps)) == multiset{ps[0].pid} + multiset(Pids(ps[1..]))
  {
    assert Pids(ps) == [ps[0].pid] + Pids(ps[1..]);
  }

  lemma {:induction false} DrainDelivers(cfg: Config, sent: seq<Sent>, ps: seq<Packet>, from: Ip, mac: Mac)
    requires Full(ps)
    ensures DeliveredPids(Drain(cfg, sent, ps, from, mac)) == DeliveredPids(sent) + multiset(Pids(ps))
    decreases |ps|
  {
    if ps != [] {
      var x := DeliveryOf(cfg, ps[0], from, mac);
      DrainDelivers(cfg, sent + [x], ps[1..], from, mac);
      DeliveredAppend(sent, x);
      PidsStep(ps);
      assert Drain(cfg, sent, ps, from, mac) == Drain(cfg, sent + [x], ps[1..], from, mac);
    }
  }

  lemma {:induction false} DeliveryOk(cfg: Config, acc: seq<Accepted>, ops: seq<ArpTable.TableOp>, p: Packet,
                                      from: Ip, mac: Mac)
    requires PacketOk(acc, from, p) && AcceptedOk(cfg, acc[p.pid]) && Learned(ops, from, mac)
    ensures |p.frame| >= 34 && SentOk(cfg, acc, ops, DeliveryOf(cfg, p, from, mac))
  {
  }

  lemma {:induction false} DrainSent(cfg: Config, acc: seq<Accepted>, ops: seq<ArpTable.TableOp>, sent: seq<Sent>,
                                     ps: seq<Packet>, from: Ip, mac: Mac)
    requires AllSent(cfg, acc, ops, sent) && Learned(ops, from, mac) && AllAccepted(cfg, acc)
    requires forall i {:trigger PacketOk(acc, from, ps[i])} :: 0 <= i < |ps| ==> PacketOk(acc, from, ps[i])
    ensures AllSent(cfg, acc, ops, Drain(cfg, sent, ps, from, mac))
    decreases |ps|
  {
    if ps != [] {
      assert PacketOk(acc, from, ps[0]) && AcceptedOk(cfg, acc[ps[0].pid]);
      DeliveryOk(cfg, acc, ops, ps[0], from, mac);
      var x := DeliveryOf(cfg, ps[0], from, mac);
      AllSentAppend(cfg, acc, ops, sent, x);
      forall i | 0 <= i < |ps[1..]| ensures PacketOk(acc, from, ps[1..][i]) { assert PacketOk(acc, from, ps[i + 1]); }
      DrainSent(cfg, acc, ops, sent + [x], ps[1..], from, mac);
    }
  }

  // ----- ARP -----

  lemma {:induction false} OpsInv(cfg: Config, s: State, op: ArpTable.TableOp, table: seq<ArpTable.Entry>)
    requires Inv(cfg, s) && table == ArpTable.TableAfter(s.ops + [op])
    ensures Inv(cfg, s.(table := table, ops := s.ops + [op]))
  {
    var t := s.(table := table, ops := s.ops + [op]);
    SentOkGrowsOps(cfg, s.accepted, s.ops, op, s.sent);
    CountsKept(s, t);
  }

  lemma {:induction false} LearningInv(cfg: Config, s: State, from: Ip, mac: Mac)
    requires Inv(cfg, s)
    ensures Inv(cfg, Learning(s, from, mac)) && Learned(Learning(s, from, mac).ops, from, mac)
  {
    var op := ArpTable.Learn(mac, from, s.clock);
    assert (s.ops + [op])[..|s.ops|] == s.ops;
    OpsInv(cfg, s, op, ArpTable.Insert(s.table, mac, from, s.clock));
    assert (s.ops + [op])[|s.ops|] == op;
  }

  /** Detaching the request for `from` and sending its packets. */
  lemma {:induction false} DetachInv(cfg: Config, s: State, i: nat, mac: Mac)
    requires Inv(cfg, s) && Started(s) && i < |s.requests| && Learned(s.ops, s.requests[i].ip, mac)
    ensures var r := s.requests[i];
            var t := s.(requests := Remove(s.requests, i), sent := Drain(cfg, s.sent, r.packets, r.ip, mac));
            Inv(cfg, t) && Started(t)
  {
    var r := s.requests[i];
    var t := s.(requests := Remove(s.requests, i), sent := Drain(cfg, s.sent, r.packets, r.ip, mac));
    ViewMember(s.requests, s.nextRid, i);
    RemoveView(s.requests, s.nextRid, i);
    OnePerIpRemove(Q(s), r.rid);
    QueuedAreFull(cfg, s, r.rid);
    assert RequestOk(s.accepted, Q(s)[r.rid]);
    assert AllSent(cfg, t.accepted, t.ops, t.sent) by {
      DrainSent(cfg, s.accepted, s.ops, s.sent, r.packets, r.ip, mac);
    }
    assert Conserved(t) by {
      PendingRemove(s.requests, i);
      DrainDelivers(cfg, s.sent, r.packets, r.ip, mac);
    }
    DetachCounts(cfg, s, t, r, mac);
    forall k | k in Q(t) ensures RequestOk(t.accepted, Q(t)[k]) { assert RequestOk(s.accepted, Q(s)[k]); }
  }

  /** Counts depend only on the emissions and on the requests that are left. */
  lemma {:induction false} CountsKept(s: State, t: State)
    requires AllCounts(s) && t.clock == s.clock && t.nextRid == s.nextRid
    requires forall k: nat {:trigger Emissions(t.sent, k)} :: Emissions(t.sent, k) == Emissions(s.sent, k)
    requires forall k {:trigger k in Q(t)} :: k in Q(t) ==> k in Q(s) && Q(t)[k] == Q(s)[k]
    ensures AllCounts(t)
  {
    forall k: nat ensures EmissionsOk(t, k) { assert EmissionsOk(s, k); }
    forall k | k in Q(t) ensures CountOk(t, k) { assert CountOk(s, k); }
  }

  lemma {:induction false} DetachCounts(cfg: Config, s: State, t: State, r: Request, mac: Mac)
    requires AllCounts(s) && Full(r.packets) && t.clock == s.clock && t.nextRid == s.nextRid
    requires Q(t) == Q(s) - {r.rid} && t.sent == Drain(cfg, s.sent, r.packets, r.ip, mac)
    ensures AllCounts(t)
  {
    forall k: nat ensures Emissions(t.sent, k) == Emissions(s.sent, k) {
      DrainEmissions(cfg, s.sent, r.packets, r.ip, mac, k);
    }
    CountsKept(s, t);
  }

  lemma {:induction false} AnswerCounts(s: State, t: State, x: Sent)
    requires AllCounts(s) && t == s.(sent := s.sent + [x]) && x.ArpAnswer?
    ensures AllCounts(t)
  {
    forall k: nat ensures Emissions(t.sent, k) == Emissions(s.sent, k) { EmissionsAppend(s.sent, x, k); }
    CountsKept(s, t);
  }

  lemma {:induction false} ReplyInv(cfg: Config, s: State, from: Ip, mac: Mac)
    requires Inv(cfg, s) && Started(s)
    ensures Inv(cfg, Reply(cfg, s, from, mac)) && Started(Reply(cfg, s, from, mac))
  {
    LearningInv(cfg, s, from, mac);
    var i := FindIp(s.requests, from);
    if i < |s.requests| { DetachInv(cfg, Learning(s, from, mac), i, mac); }
  }

  lemma {:induction false} AnswerInv(cfg: Config, s: State, iface: string, asker: Mac, ip: Ip)
    requires Inv(cfg, s) && Started(s) && GetInterface(cfg.ifaces, iface).Some?
    ensures var recv := GetInterface(cfg.ifaces, iface).value;
            var t := s.(sent := s.sent + [ArpAnswer(AnswerFrame(recv, asker, ip), recv.name)]);
            Inv(cfg, t) && Started(t)
  {
    var recv := GetInterface(cfg.ifaces, iface).value;
    var x := ArpAnswer(AnswerFrame(recv, asker, ip), recv.name);
    var t := s.(sent := s.sent + [x]);
    assert AllSent(cfg, t.accepted, t.ops, t.sent) by { AllSentAppend(cfg, s.accepted, s.ops, s.sent, x); }
    assert Conserved(t) by { DeliveredAppend(s.sent, x); }
    AnswerCounts(s, t, x);
  }

  lemma {:induction false} ArpInv(cfg: Config, s: State, frame: Frame, iface: string)
    requires Inv(cfg, s) && Started(s)
    ensures Inv(cfg, HandleArp(cfg, s, frame, iface)) && Started(HandleArp(cfg, s, frame, iface))
  {
    if ArpValid(frame) && GetInterface(cfg.ifaces, iface).Some? {
      if ArpOp(frame) == 1 {
        AnswerInv(cfg, s, iface, ArpSha(frame), ArpSip(frame));
      } else if ArpOp(frame) == 2 {
        ReplyInv(cfg, s, ArpSip(frame), ArpSha(frame));
      }
    }
  }

  // ----- IP -----

  lemma {:induction false} OutgoingIsBuilt(cfg: Config, frame: Frame, iface: string)
    requires cfg.Valid() && |frame| >= 14 && Ethertype(frame) == 0x0800 && Outgoing(cfg, frame, iface).Some?
    ensures var out := Outgoing(cfg, frame, iface).value; OriginValid(cfg, out.1) && out.0 == Built(cfg, out.1)
  {
  }

  lemma {:induction false} IpInv(cfg: Config, s: State, frame: Frame, iface: string, fuel: nat)
    requires cfg.Valid() && Inv(cfg, s) && Started(s) && |frame| >= 14 && Ethertype(frame) == 0x0800
    ensures Keeps(cfg, HandleIp(cfg, s, frame, iface, fuel))
  {
    IpRoutes(cfg, s, frame, iface, fuel);
    match Outgoing(cfg, frame, iface)
    case None =>
    case Some(out) =>
      OutgoingIsBuilt(cfg, frame, iface);
      RouteInv(cfg, s, out.0, out.1, fuel);
  }

  // ----- the timer -----

  lemma {:induction false} SweepInv(cfg: Config, s: State, at: Option<nat>, fuel: nat)
    requires cfg.Valid() && Inv(cfg, s) && Started(s)
    ensures Keeps(cfg, SweepFrom(cfg, s, at, fuel))
    decreases fuel
  {
    if at.Some? && Queued(s, at.value) && fuel > 0 {
      QueuedView(s, at.value);
      HandleInv(cfg, s, at.value, fuel - 1);
      var o := HandleReq(cfg, s, at.value, fuel - 1);
      if o.Done? { SweepInv(cfg, o.s, After(s, at.value), fuel - 1); }
    }
  }

  lemma {:induction false} TimerInv(cfg: Config, s: State, fuel: nat)
    requires cfg.Valid() && Inv(cfg, s) && Started(s)
    ensures Keeps(cfg, TimerPass(cfg, s, fuel))
  {
    var op := ArpTable.Pass(s.clock);
    assert (s.ops + [op])[..|s.ops|] == s.ops;
    OpsInv(cfg, s, op, ArpTable.Expire(s.table, s.clock));
    SweepInv(cfg, Expiring(s), Head(Expiring(s)), fuel);
  }

  /** Every completed event keeps the invariant. */
  lemma {:induction false} StepInv(cfg: Config, s: State, e: Event, fuel: nat)
    requires cfg.Valid() && Inv(cfg, s) && Started(s) && s.clock <= e.now
    ensures Keeps(cfg, Step(cfg, s, e, fuel))
  {
    var s1 := s.(clock := e.now);
    ClockInv(cfg, s, e.now);
    match e
    case Timer(now) => TimerInv(cfg, s1, fuel);
    case Receive(now, frame, iface) =>
      if |frame| >= 14 && Ethertype(frame) == 0x0806 {
        ArpInv(cfg, s1, frame, iface);
      } else if |frame| >= 14 && Ethertype(frame) == 0x0800 {
        IpInv(cfg, s1, frame, iface, fuel);
      }
  }
}
