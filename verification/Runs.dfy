/** The main results: what holds along every run of the router. */
module Runs {
  import opened Bytes
  import opened Checksum
  import opened Packets
  import opened Routing
  import opened RouterModel
  import opened RequestQueue
  import opened Termination
  import opened Activation
  import opened Sweep
  import opened Invariants
  import opened Preservation
  import opened Events
  import ArpTable

  // ----- an event has one outcome -----

  lemma {:induction false} StepMoreFuel(cfg: Config, s: State, e: Event, fuel: nat, more: nat)
    requires cfg.Valid() && fuel <= more && Step(cfg, s, e, fuel) != OutOfFuel
    ensures Step(cfg, s, e, more) == Step(cfg, s, e, fuel)
  {
    var s1 := s.(clock := e.now);
    match e
    case Timer(now) =>
      var u := Expiring(s1);
      SweepMoreFuel(cfg, u, Head(u), fuel, more, SweepFrom(cfg, u, Head(u), fuel));
    case Receive(now, frame, iface) =>
      IpRoutes(cfg, s1, frame, iface, fuel);
      IpRoutes(cfg, s1, frame, iface, more);
      if |frame| >= 14 && Ethertype(frame) == 0x0800 && Outgoing(cfg, frame, iface).Some? {
        var out := Outgoing(cfg, frame, iface).value;
        RouteMoreFuel(cfg, s1, out.0, out.1, fuel, more);
      }
  }

  lemma {:induction false} StepsAgree(cfg: Config, s: State, e: Event, f: nat, g: nat)
    requires cfg.Valid() && Step(cfg, s, e, f).Done? && Step(cfg, s, e, g).Done?
    ensures Step(cfg, s, e, f) == Step(cfg, s, e, g)
  {
    if f <= g { StepMoreFuel(cfg, s, e, f, g); } else { StepMoreFuel(cfg, s, e, g, f); }
  }

  /** An event that completes does so in one way: the fuel is not part of the behaviour. */
  lemma {:induction false} NextIsFunctional(cfg: Config, s: State, e: Event, t: State, u: State)
    requires cfg.Valid() && Next(cfg, s, e, t) && Next(cfg, s, e, u)
    ensures t == u
  {
    var f: nat :| Step(cfg, s, e, f) == Done(t);
    var g: nat :| Step(cfg, s, e, g) == Done(u);
    StepsAgree(cfg, s, e, f, g);
  }

  /** Once the routing table has been verified, and whatever interfaces are appended after that,
      `route_and_send` fails on a frame with an IP header exactly if no route names its destination. */
  lemma {:induction false} RoutesIffListed(cfg: Config, more: seq<Iface>, frame: Frame)
    requires cfg.ifaces != [] && cfg.routes != [] && Missing(cfg.ifaces, cfg.routes) == 0 && |frame| >= 34
    ensures Routable(cfg.(ifaces := cfg.ifaces + more), frame) <==> exists r :: r in cfg.routes && r.dest == Dst(frame)
  {
    VerifiedTableResolves(cfg, more, Dst(frame));
  }

  // ----- the invariant along a run -----

  lemma {:induction false} InitInv(cfg: Config)
    requires cfg.Valid()
    ensures Inv(cfg, INIT) && Started(INIT)
  {
  }

  lemma {:induction false} NextInv(cfg: Config, s: State, e: Event, t: State)
    requires cfg.Valid() && Inv(cfg, s) && Started(s) && Next(cfg, s, e, t)
    ensures Inv(cfg, t) && Started(t)
  {
    var fuel: nat :| Step(cfg, s, e, fuel) == Done(t);
    StepInv(cfg, s, e, fuel);
  }

  lemma {:induction false} RunInv(cfg: Config, states: seq<State>, events: seq<Event>, i: nat)
    requires cfg.Valid() && Run(cfg, states, events) && i < |states|
    ensures Inv(cfg, states[i]) && Started(states[i])
    decreases i
  {
    if i == 0 {
      InitInv(cfg);
    } else {
      RunInv(cfg, states, events, i - 1);
      assert Next(cfg, states[i - 1], events[i - 1], states[i]);
      NextInv(cfg, states[i - 1], events[i - 1], states[i]);
    }
  }

  // ----- every accepted frame is in exactly one place -----

  lemma {:induction false} UpToCounts(n: nat, x: nat)
    ensures UpTo(n)[x] == if x < n then 1 else 0
  {
    if n > 0 { UpToCounts(n - 1, x); }
  }

  /** Along every run each accepted frame is pending on one request, or was delivered once, or was
      abandoned once -- and never two of these. */
  lemma {:induction false} FrameInOnePlace(cfg: Config, states: seq<State>, events: seq<Event>, i: nat, pid: nat)
    requires cfg.Valid() && Run(cfg, states, events) && i < |states| && pid < |states[i].accepted|
    ensures var s := states[i];
            PendingPids(s.requests)[pid] + DeliveredPids(s.sent)[pid] + multiset(s.abandoned)[pid] == 1
  {
    var s := states[i];
    RunInv(cfg, states, events, i);
    UpToCounts(|s.accepted|, pid);
    assert (PendingPids(s.requests) + DeliveredPids(s.sent) + multiset(s.abandoned))[pid] == 1;
  }

  lemma {:induction false} HandleKeepsAll(cfg: Config, s: State, rid: nat, fuel: nat, t: State)
    requires cfg.Valid() && Inv(cfg, s) && Started(s) && rid in Q(s) && HandleReq(cfg, s, rid, fuel) == Done(t)
    ensures Inv(cfg, t) && Started(t) && Balanced(s, t)
  {
    HandleInv(cfg, s, rid, fuel);
    HandleBalanced(cfg, s, rid, fuel, t);
  }

  lemma {:induction false} SweepBalancedStep(cfg: Config, s: State, at: Option<nat>, fuel: nat, t: State)
    returns (s1: State, next: Option<nat>)
    requires cfg.Valid() && at.Some? && SweepFrom(cfg, s, at, fuel) == Done(t)
    requires Inv(cfg, s) && Started(s)
    ensures fuel > 0 && SweepFrom(cfg, s1, next, fuel - 1) == Done(t)
    ensures Balanced(s, s1) && Inv(cfg, s1) && Started(s1)
  {
    s1, next := SweepUnfolds(cfg, s, at, fuel);
    QueuedView(s, at.value);
    HandleKeepsAll(cfg, s, at.value, fuel - 1, s1);
  }

  lemma {:induction false} SweepBalanced(cfg: Config, s: State, at: Option<nat>, fuel: nat, t: State)
    requires cfg.Valid() && SweepFrom(cfg, s, at, fuel) == Done(t)
    requires Inv(cfg, s) && Started(s)
    ensures Balanced(s, t)
    decreases fuel
  {
    if at.Some? {
      var s1, next := SweepBalancedStep(cfg, s, at, fuel, t);
      SweepBalanced(cfg, s1, next, fuel - 1, t);
      BalancedTrans(s, s1, t);
    }
  }

  lemma {:induction false} IpBalanced(cfg: Config, s: State, frame: Frame, iface: string, fuel: nat)
    requires cfg.Valid() && Inv(cfg, s) && Started(s) && |frame| >= 14 && Ethertype(frame) == 0x0800
    requires HandleIp(cfg, s, frame, iface, fuel).Done?
    ensures Balanced(s, HandleIp(cfg, s, frame, iface, fuel).s)
  {
    IpRoutes(cfg, s, frame, iface, fuel);
    match Outgoing(cfg, frame, iface)
    case None =>
    case Some(out) =>
      OutgoingIsBuilt(cfg, frame, iface);
      RouteBalanced(cfg, s, out.0, out.1, fuel, HandleIp(cfg, s, frame, iface, fuel).s);
  }

  lemma {:induction false} TimerBalanced(cfg: Config, s: State, fuel: nat)
    requires cfg.Valid() && Inv(cfg, s) && Started(s) && TimerPass(cfg, s, fuel).Done?
    ensures Balanced(s, TimerPass(cfg, s, fuel).s)
  {
    var op := ArpTable.Pass(s.clock);
    assert (s.ops + [op])[..|s.ops|] == s.ops;
    OpsInv(cfg, s, op, ArpTable.Expire(s.table, s.clock));
    var s1 := Expiring(s);
    SweepBalanced(cfg, s1, Head(s1), fuel, TimerPass(cfg, s, fuel).s);
  }

  lemma {:induction false} StepBalanced(cfg: Config, s: State, e: Event, fuel: nat)
    requires cfg.Valid() && Inv(cfg, s) && Started(s) && s.clock <= e.now
    requires Step(cfg, s, e, fuel).Done?
    ensures Balanced(s, Step(cfg, s, e, fuel).s)
  {
    var s1 := s.(clock := e.now);
    ClockInv(cfg, s, e.now);
    match e
    case Timer(now) => TimerBalanced(cfg, s1, fuel);
    case Receive(now, frame, iface) =>
      if |frame| >= 14 && Ethertype(frame) == 0x0800 { IpBalanced(cfg, s1, frame, iface, fuel); }
  }

  lemma {:induction false} NextBalanced(cfg: Config, s: State, e: Event, t: State)
    requires cfg.Valid() && Inv(cfg, s) && Started(s) && Next(cfg, s, e, t)
    ensures Balanced(s, t)
  {
    var fuel: nat :| Step(cfg, s, e, fuel) == Done(t);
    StepBalanced(cfg, s, e, fuel);
  }

  lemma {:induction false} BalancedCancel(s: State, t: State)
    requires Balanced(s, t) && multiset(s.attempts) == multiset(s.abandoned)
    ensures multiset(t.attempts) == multiset(t.abandoned)
  {
    forall x ensures multiset(t.attempts)[x] == multiset(t.abandoned)[x] {
      assert (multiset(t.attempts) + multiset(s.abandoned))[x] == (multiset(s.attempts) + multiset(t.abandoned))[x];
    }
  }

  lemma {:induction false} AbandonedAtMostOnce(s: State, pid: nat)
    requires Conserved(s)
    ensures multiset(s.abandoned)[pid] <= 1
  {
    UpToCounts(|s.accepted|, pid);
    assert (PendingPids(s.requests) + DeliveredPids(s.sent) + multiset(s.abandoned))[pid] == UpTo(|s.accepted|)[pid];
  }

  /** Along every run the packets abandoned are exactly the packets for which a Host Unreachable
      was attempted, each exactly once. */
  lemma {:induction false} AbandonedOnceAnswered(cfg: Config, states: seq<State>, events: seq<Event>, i: nat)
    requires cfg.Valid() && Run(cfg, states, events) && i < |states|
    ensures multiset(states[i].attempts) == multiset(states[i].abandoned)
    ensures forall pid: nat :: multiset(states[i].attempts)[pid] <= 1
    decreases i
  {
    if i > 0 {
      var s, e, t := states[i - 1], events[i - 1], states[i];
      AbandonedOnceAnswered(cfg, states, events, i - 1);
      RunInv(cfg, states, events, i - 1);
      assert Next(cfg, s, e, t);
      NextBalanced(cfg, s, e, t);
      BalancedCancel(s, t);
      RunInv(cfg, states, events, i);
      forall pid: nat ensures multiset(t.attempts)[pid] <= 1 { AbandonedAtMostOnce(t, pid); }
    }
  }

  // ----- the queue between events -----

  /** In every reachable state a queued request has been sent one to five times, the last time at
      `sent`; it holds packets, newest first, and each packet's destination resolves to this
      request's address and to the interface stored with the packet. */
  lemma {:induction false} QueuedRequestFacts(cfg: Config, states: seq<State>, events: seq<Event>, i: nat, rid: nat)
    requires cfg.Valid() && Run(cfg, states, events) && i < |states| && rid in Q(states[i])
    ensures var s := states[i];
            var r, ts := Q(s)[rid], Emissions(s.sent, rid);
            && 1 <= r.timesSent <= 5 && r.timesSent == |ts| && r.sent == ts[|ts| - 1] <= s.clock
            && Spaced(ts)
            && r.packets != [] && NewestFirst(r.packets)
    ensures forall j :: 0 <= j < |Q(states[i])[rid].packets| ==>
              var p := Q(states[i])[rid].packets[j];
              && |p.frame| >= 34 && Resolve(cfg, Dst(p.frame)).Some?
              && Resolve(cfg, Dst(p.frame)).value.ip == Q(states[i])[rid].ip
              && Resolve(cfg, Dst(p.frame)).value.iface.name == p.iface
  {
    var s := states[i];
    RunInv(cfg, states, events, i);
    assert CountOk(s, rid) && EmissionsOk(s, rid) && RequestOk(s.accepted, Q(s)[rid]);
    forall j | 0 <= j < |Q(s)[rid].packets|
      ensures var p := Q(s)[rid].packets[j];
              && |p.frame| >= 34 && Resolve(cfg, Dst(p.frame)).Some?
              && Resolve(cfg, Dst(p.frame)).value.ip == Q(s)[rid].ip
              && Resolve(cfg, Dst(p.frame)).value.iface.name == p.iface
    {
      var p := Q(s)[rid].packets[j];
      assert PacketOk(s.accepted, Q(s)[rid].ip, p) && AcceptedOk(cfg, s.accepted[p.pid]);
    }
  }

  lemma {:induction false} DescendingOrder(rs: seq<Request>, bound: nat, a: nat, b: nat)
    requires Descending(rs, bound) && a < b < |rs|
    ensures rs[a].rid > rs[b].rid
  {
    if a > 0 {
      DescendingOrder(rs[1..], rs[0].rid, a - 1, b - 1);
    } else {
      ViewMember(rs[1..], rs[0].rid, b - 1);
      ViewKeys(rs[1..], rs[0].rid);
    }
  }

  lemma {:induction false} QueuedAddressesDistinct(cfg: Config, states: seq<State>, events: seq<Event>, i: nat,
                                                   a: nat, b: nat)
    requires cfg.Valid() && Run(cfg, states, events) && i < |states|
    requires a < b < |states[i].requests|
    ensures states[i].requests[a].ip != states[i].requests[b].ip
    ensures states[i].requests[a].rid > states[i].requests[b].rid
  {
    var s := states[i];
    RunInv(cfg, states, events, i);
    ViewMember(s.requests, s.nextRid, a);
    ViewMember(s.requests, s.nextRid, b);
    DescendingOrder(s.requests, s.nextRid, a, b);
    assert !SameIp(Q(s), s.requests[a].rid, s.requests[b].rid);
  }

  /** If equal next hops lie behind equal interfaces, all packets on a request share one interface,
      so asking on the first packet's interface is right for all of them. */
  lemma {:induction false} PacketsShareInterface(cfg: Config, states: seq<State>, events: seq<Event>, i: nat,
                                                 rid: nat, a: nat, b: nat)
    requires cfg.Valid() && OneIfacePerHop(cfg) && Run(cfg, states, events) && i < |states| && rid in Q(states[i])
    requires a < |Q(states[i])[rid].packets| && b < |Q(states[i])[rid].packets|
    ensures Q(states[i])[rid].packets[a].iface == Q(states[i])[rid].packets[b].iface
  {
    QueuedRequestFacts(cfg, states, events, i, rid);
    var p, q := Q(states[i])[rid].packets[a], Q(states[i])[rid].packets[b];
    assert Resolve(cfg, Dst(p.frame)).value.ip == Resolve(cfg, Dst(q.frame)).value.ip;
  }

  /** At most five ARP requests are ever emitted for one request, at least a second apart -- also
      for requests that are gone. */
  lemma {:induction false} EmissionsAreLimited(cfg: Config, states: seq<State>, events: seq<Event>, i: nat, rid: nat)
    requires cfg.Valid() && Run(cfg, states, events) && i < |states|
    ensures |Emissions(states[i].sent, rid)| <= 5 && Spaced(Emissions(states[i].sent, rid))
  {
    RunInv(cfg, states, events, i);
    assert EmissionsOk(states[i], rid);
  }

  // ----- the wire -----

  /** Every frame handed to `sr_send_packet` passes its length and address checks. */
  lemma {:induction false} SendNeverRefused(cfg: Config, states: seq<State>, events: seq<Event>, i: nat, j: nat)
    requires cfg.Valid() && Run(cfg, states, events) && i < |states| && j < |states[i].sent|
    ensures AddrsMatch(cfg, states[i].sent[j].frame, states[i].sent[j].iface)
  {
    RunInv(cfg, states, events, i);
    assert SentOk(cfg, states[i].accepted, states[i].ops, states[i].sent[j]);
  }

  /** A delivered frame went to the hardware address that a reply for its next hop supplied, and
      past the link addresses it is the frame that was accepted. */
  lemma {:induction false} DeliveryFacts(cfg: Config, states: seq<State>, events: seq<Event>, i: nat, j: nat)
    requires cfg.Valid() && Run(cfg, states, events) && i < |states|
    requires j < |states[i].sent| && states[i].sent[j].Delivery?
    ensures var s, x := states[i], states[i].sent[j];
            && x.pid < |s.accepted| && AcceptedOk(cfg, s.accepted[x.pid])
            && |x.frame| == |s.accepted[x.pid].frame| >= 34 && x.frame[12..] == s.accepted[x.pid].frame[12..]
            && Dhost(x.frame) == x.mac && x.from == s.accepted[x.pid].hop && Learned(s.ops, x.from, x.mac)
  {
    var s, x := states[i], states[i].sent[j];
    RunInv(cfg, states, events, i);
    assert SentOk(cfg, s.accepted, s.ops, x);
    assert AcceptedOk(cfg, s.accepted[x.pid]);
  }

  lemma {:induction false} SameFrom(f: Frame, g: Frame, n: nat, m: nat)
    requires |f| == |g| && n <= m <= |f| && f[n..] == g[n..]
    ensures (forall k :: n <= k < |f| ==> f[k] == g[k]) && f[m..] == g[m..]
  {
    forall k | n <= k < |f| ensures f[k] == g[k] { assert f[n..][k - n] == g[n..][k - n]; }
  }

  lemma {:induction false} SameType(f: Frame, g: Frame)
    requires |f| >= 14 && |g| >= 14 && Ethertype(f) == Ethertype(g)
    ensures f[12] == g[12] && f[13] == g[13]
  {
  }

  lemma {:induction false} SameIpPart(f: Frame, g: Frame)
    requires |f| == |g| >= 34 && f[14..] == g[14..]
    ensures forall k :: 14 <= k < |f| ==> f[k] == g[k]
    ensures IpValid(f) <==> IpValid(g)
    ensures IpValid(g) ==> Header(f) == Header(g)
  {
    SameFrom(f, g, 14, 14);
    if |f| >= 14 + HeaderLen(f) { assert Header(f) == Header(g); }
  }

  /** `tx` is `f`, which is `rx` but for TTL and checksum, behind another Ethernet header. */
  lemma {:induction false} SameButLink(rx: Frame, f: Frame, tx: Frame)
    requires SameButTtlAndSum(rx, f) && IpValid(f) && |tx| == |f| && tx[14..] == f[14..]
    requires Ethertype(rx) == 0x0800 && Ethertype(tx) == 0x0800
    ensures forall k :: 12 <= k < |rx| && k !in {22, 24, 25} ==> tx[k] == rx[k]
    ensures Ttl(tx) == Ttl(f) && IpValid(tx) && Header(tx) == Header(f)
  {
    SameIpPart(tx, f);
    SameType(tx, rx);
  }

  lemma {:induction false} AcceptedForward(cfg: Config, a: Accepted)
    requires AcceptedOk(cfg, a) && a.origin.Forward?
    ensures var rx := a.origin.received;
            && IpValid(rx) && Ttl(rx) > 1 && Ethertype(rx) == 0x0800 && Ethertype(a.frame) == 0x0800
            && |a.frame| == |Forwarded(rx)| && a.frame[14..] == Forwarded(rx)[14..]
  {
  }

  lemma {:induction false} StampedForward(cfg: Config, a: Accepted, tx: Frame)
    requires AcceptedOk(cfg, a) && a.origin.Forward? && |tx| == |a.frame| && tx[12..] == a.frame[12..]
    ensures var rx := a.origin.received;
            && |tx| == |rx| >= 34 && IpValid(rx)
            && (forall k :: 12 <= k < |rx| && k !in {22, 24, 25} ==> tx[k] == rx[k])
            && Ttl(tx) == Ttl(rx) - 1 >= 1
            && IpValid(tx) && OnesSum(Header(tx)) == 0xffff
  {
    var rx := a.origin.received;
    AcceptedForward(cfg, a);
    ForwardedFacts(rx);
    SameFrom(tx, a.frame, 12, 14);
    SameButLink(rx, Forwarded(rx), tx);
  }

  /** A forwarded packet that is finally transmitted equals the packet received, except for the
      two link addresses, a TTL that is one lower and at least 1, and a checksum that verifies. */
  lemma {:induction false} ForwardedIntact(cfg: Config, states: seq<State>, events: seq<Event>, i: nat, j: nat)
    requires cfg.Valid() && Run(cfg, states, events) && i < |states|
    requires j < |states[i].sent| && states[i].sent[j].Delivery?
    requires states[i].sent[j].pid < |states[i].accepted| && states[i].accepted[states[i].sent[j].pid].origin.Forward?
    ensures var rx, tx := states[i].accepted[states[i].sent[j].pid].origin.received, states[i].sent[j].frame;
            && |tx| == |rx| >= 34 && IpValid(rx)
            && (forall k :: 12 <= k < |rx| && k !in {22, 24, 25} ==> tx[k] == rx[k])
            && Ttl(tx) == Ttl(rx) - 1 >= 1
            && IpValid(tx) && OnesSum(Header(tx)) == 0xffff
  {
    var s, x := states[i], states[i].sent[j];
    DeliveryFacts(cfg, states, events, i, j);
    var a := s.accepted[x.pid];
    StampedForward(cfg, a, x.frame);
  }

  /** In every run an ARP reply sends all packets that wait for the address it comes from, each once, the
      last one queued first, and takes their request off the list; it sends nothing else. */
  lemma {:induction false} ReplyDrainsNewestFirst(cfg: Config, states: seq<State>, events: seq<Event>, i: nat)
    requires cfg.Valid() && Run(cfg, states, events) && i < |events| && CarriesReply(cfg, events[i])
    ensures var s, t, from, mac := states[i], states[i + 1], events[i].frame[28..32], events[i].frame[22..28];
            var k := FindIp(s.requests, from);
            if k == |s.requests| then t.sent == s.sent && t.requests == s.requests
            else
              && Full(s.requests[k].packets) && NewestFirst(s.requests[k].packets)
              && t.sent == s.sent + Deliveries(cfg, s.requests[k].packets, from, mac)
              && t.requests == Remove(s.requests, k)
  {
    var s, from, mac := states[i], events[i].frame[28..32], events[i].frame[22..28];
    var k := FindIp(s.requests, from);
    assert Next(cfg, s, events[i], states[i + 1]);
    ArpFormatIff(events[i].frame, 2);
    assert states[i + 1] == Reply(cfg, s.(clock := events[i].now), from, mac);
    if k < |s.requests| {
      RunInv(cfg, states, events, i);
      ViewMember(s.requests, s.nextRid, k);
      QueuedAreFull(cfg, s, s.requests[k].rid);
      assert RequestOk(s.accepted, Q(s)[s.requests[k].rid]);
      DrainIs(cfg, s.sent, s.requests[k].packets, from, mac);
    }
  }

  /** `x` is the packet `p` as queued, from the address of its interface to the hardware address in `reply`. */
  ghost predicate Delivers(cfg: Config, reply: Frame, p: Packet, x: Sent) {
    && x.Delivery? && x.pid == p.pid && x.iface == p.iface
    && |reply| >= 42 && x.from == reply[28..32] && x.mac == reply[22..28]
    && |x.frame| == |p.frame| >= 34 && GetInterface(cfg.ifaces, p.iface).Some?
    && x.frame[0..6] == reply[22..28] && x.frame[6..12] == GetInterface(cfg.ifaces, p.iface).value.addr
    && x.frame[12..] == p.frame[12..]
  }

  lemma {:induction false} DeliveryDelivers(cfg: Config, reply: Frame, p: Packet, x: Sent)
    requires |p.frame| >= 34 && |reply| >= 42 && AddrsMatch(cfg, x.frame, x.iface)
    requires x == DeliveryOf(cfg, p, reply[28..32], reply[22..28])
    ensures Delivers(cfg, reply, p, x)
  {
  }

  /** What a reply sends for the packet at position `j` of the request it answers. */
  lemma {:induction false} ReplyDelivers(cfg: Config, states: seq<State>, events: seq<Event>, i: nat, k: nat, j: nat)
    requires cfg.Valid() && Run(cfg, states, events) && i < |events| && CarriesReply(cfg, events[i])
    requires k == FindIp(states[i].requests, events[i].frame[28..32]) < |states[i].requests|
    requires j < |states[i].requests[k].packets|
    ensures |states[i + 1].sent| == |states[i].sent| + |states[i].requests[k].packets|
    ensures Delivers(cfg, events[i].frame, states[i].requests[k].packets[j], states[i + 1].sent[|states[i].sent| + j])
  {
    var s, f, p := states[i], events[i].frame, states[i].requests[k].packets[j];
    ReplyDrainsNewestFirst(cfg, states, events, i);
    var x := states[i + 1].sent[|s.sent| + j];
    assert x == DeliveryOf(cfg, p, f[28..32], f[22..28]);
    SendNeverRefused(cfg, states, events, i + 1, |s.sent| + j);
    DeliveryDelivers(cfg, f, p, x);
  }

  // ----- two routers on a link -----

  /** The answer to a query makes the asker learn what it asked for: a router that receives another
      router's query for its own address answers once, and that answer, received by the asker on
      any of its interfaces, is a reply that binds the address to the answering interface. */
  lemma {:induction false} QueryIsResolved(cfg: Config, s: State, name: string, asker: Iface,
                                           peer: Config, u: State, peerName: string, target: Ip)
    requires GetInterface(cfg.ifaces, name).Some?
    requires GetInterface(peer.ifaces, peerName).Some? && GetInterface(peer.ifaces, peerName).value.ip == target
    ensures var b := GetInterface(peer.ifaces, peerName).value;
            var answer := AnswerFrame(b, asker.addr, asker.ip);
            && HandleArp(peer, u, QueryFrame(asker, target), peerName)
               == u.(sent := u.sent + [ArpAnswer(answer, b.name)])
            && Dhost(answer) == asker.addr && Shost(answer) == b.addr
            && HandleArp(cfg, s, answer, name) == Reply(cfg, s, target, b.addr)
  {
    var b := GetInterface(peer.ifaces, peerName).value;
    ArpFrameRoundTrip(BROADCAST, 1, asker.addr, asker.ip, [0, 0, 0, 0, 0, 0], target);
    ArpFrameRoundTrip(asker.addr, 2, b.addr, b.ip, asker.addr, asker.ip);
  }

  // ----- the table -----

  /** In every reachable state a lookup finds an address iff the log of learned and not yet expired
      bindings has one for it. */
  lemma {:induction false} LookupAlongRun(cfg: Config, states: seq<State>, events: seq<Event>, i: nat, ip: Ip)
    requires cfg.Valid() && Run(cfg, states, events) && i < |states|
    ensures ArpTable.Lookup(states[i].table, ip).Some?
            <==> exists b :: b in ArpTable.LogAfter(states[i].ops) && b.ip == ip
  {
    RunInv(cfg, states, events, i);
    ArpTable.LookupFindsLog(states[i].ops, ip);
  }
}
