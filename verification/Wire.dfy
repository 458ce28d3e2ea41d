/** What each event of a run puts on the wire: who is answered, who is asked, and on which interface. */
module Wire {
  import opened Bytes
  import opened Packets
  import opened Routing
  import opened RouterModel
  import opened RequestQueue
  import opened Cascade
  import opened Activation
  import opened Sweep
  import opened Invariants
  import opened Disposition
  import opened Runs
  import opened Resolution
  import opened Timing
  import ArpTable

  /** The event may set off ARP requests: a timer pass or an IPv4 packet. */
  predicate MayAsk(e: Event) {
    e.Timer? || (|e.frame| >= 14 && e.frame[12..14] == [8, 0])
  }

  lemma {:induction false} IpEventAsks(cfg: Config, s: State, e: Event, t: State)
    requires cfg.Valid() && Shape(s) && Next(cfg, s, e, t) && e.Receive? && MayAsk(e)
    ensures Advances(s.(clock := e.now), t)
  {
    var fuel := IpEvent(cfg, s, e, t);
    IpAdvances(cfg, s.(clock := e.now), e.frame, e.iface, fuel, t);
  }

  lemma {:induction false} TimerEventAsks(cfg: Config, s: State, now: int, t: State)
    requires cfg.Valid() && Shape(s) && Next(cfg, s, Timer(now), t)
    ensures Advances(Expiring(s.(clock := now)), t)
  {
    var fuel: nat :| Step(cfg, s, Timer(now), fuel) == Done(t);
    TimerUnfolds(cfg, s, now, fuel);
    SweepLeavesNoneDue(cfg, Expiring(s.(clock := now)), fuel, t);
  }

  /** A timer pass and an IPv4 packet send nothing but queries, and give up only what is exhausted. */
  lemma {:induction false} EventAsks(cfg: Config, s: State, e: Event, t: State)
    requires cfg.Valid() && Shape(s) && Next(cfg, s, e, t) && MayAsk(e)
    ensures OnlyAsks(s.(clock := e.now), t)
    ensures forall k :: k in Q(s) && !Exhausted(e.now, Q(s)[k]) ==> k in Q(t)
  {
    if e.Timer? { TimerEventAsks(cfg, s, e.now, t); } else { IpEventAsks(cfg, s, e, t); }
  }

  // ----- answers -----

  lemma {:induction false} ReplySends(cfg: Config, s: State, from: Ip, mac: Mac)
    ensures var t := Reply(cfg, s, from, mac);
            s.sent <= t.sent && forall j :: |s.sent| <= j < |t.sent| ==> t.sent[j].Delivery?
  {
    var i := FindIp(s.requests, from);
    if i < |s.requests| { DrainTail(cfg, s.sent, s.requests[i].packets, from, mac); }
  }

  /** What an event may send. */
  ghost predicate Sends(cfg: Config, s: State, e: Event, t: State) {
    && s.sent <= t.sent
    && if MayAsk(e) then forall j :: |s.sent| <= j < |t.sent| ==> t.sent[j].ArpQuery? && t.sent[j].time == e.now
       else
         && ArpEffect(cfg, s, e, t)
         && (CarriesReply(cfg, e) ==> forall j :: |s.sent| <= j < |t.sent| ==> t.sent[j].Delivery?)
  }

  lemma {:induction false} ArpSends(cfg: Config, s: State, e: Event, t: State)
    requires !MayAsk(e) && ArpEffect(cfg, s, e, t)
    ensures Sends(cfg, s, e, t)
  {
    if CarriesReply(cfg, e) { ReplySends(cfg, s.(clock := e.now), e.frame[28..32], e.frame[22..28]); }
  }

  lemma {:induction false} EventSends(cfg: Config, s: State, e: Event, t: State)
    requires cfg.Valid() && Shape(s) && Next(cfg, s, e, t)
    ensures Sends(cfg, s, e, t)
  {
    if MayAsk(e) {
      EventAsks(cfg, s, e, t);
    } else {
      ArpDisposition(cfg, s, e, t);
      ArpSends(cfg, s, e, t);
    }
  }

  predicate AddsAnswer(s: State, t: State) {
    exists j :: |s.sent| <= j < |t.sent| && t.sent[j].ArpAnswer?
  }

  lemma {:induction false} AnswersIff(cfg: Config, s: State, e: Event, t: State)
    requires Sends(cfg, s, e, t)
    ensures AsksUs(cfg, e) <==> AddsAnswer(s, t)
  {
    if AsksUs(cfg, e) {
      assert !MayAsk(e) by { assert e.frame[12..14] == [8, 6] != [8, 0]; }
      assert t.sent[|s.sent|].ArpAnswer?;
    }
  }

  /** In every run an event sends an ARP answer if and only if it is a query, for Ethernet and IPv4, for the
      address of the interface it arrives on. It then sends one, to the asker on that interface, and does
      nothing else. A reply sends deliveries only, and a timer pass or an IPv4 packet queries only. Whatever is none
      of these -- a query for another address among them -- leaves all but the clock as it was. */
  lemma {:induction false} ArpAnswerIff(cfg: Config, states: seq<State>, events: seq<Event>, i: nat)
    requires cfg.Valid() && Run(cfg, states, events) && i < |events|
    ensures Sends(cfg, states[i], events[i], states[i + 1])
    ensures AsksUs(cfg, events[i]) <==> AddsAnswer(states[i], states[i + 1])
  {
    var s, e, t := states[i], events[i], states[i + 1];
    assert Shape(s) by { RunInv(cfg, states, events, i); }
    assert Next(cfg, s, e, t);
    EventSends(cfg, s, e, t);
    AnswersIff(cfg, s, e, t);
  }

  // ----- queries -----

  /** In every run a query was sent on account of a frame accepted before it for the address asked for, the last
      such frame by then, and it went out on the interface of that frame: a broadcast from this interface's
      addresses. */
  lemma {:induction false} QueriesFollowPackets(cfg: Config, states: seq<State>, events: seq<Event>, i: nat, j: nat)
    requires cfg.Valid() && Run(cfg, states, events) && i < |states|
    requires j < |states[i].sent| && states[i].sent[j].ArpQuery?
    ensures var acc, x := states[i].accepted, states[i].sent[j];
            && x.pid < x.seen <= |acc| && acc[x.pid].hop == x.target && acc[x.pid].iface == x.iface
            && (forall q :: x.pid < q < x.seen ==> acc[q].hop != x.target)
            && |acc[x.pid].frame| >= 34 && Resolve(cfg, acc[x.pid].frame[30..34]).Some?
            && var hop := Resolve(cfg, acc[x.pid].frame[30..34]).value;
               && hop.ip == x.target && hop.iface.name == x.iface
               && x.frame == [255, 255, 255, 255, 255, 255] + hop.iface.addr + [8, 6] + [0, 1, 8, 0, 6, 4, 0, 1]
                             + hop.iface.addr + hop.iface.ip + [0, 0, 0, 0, 0, 0] + x.target
  {
    var s, x := states[i], states[i].sent[j];
    RunInv(cfg, states, events, i);
    RunTimely(cfg, states, events, i);
    assert AskedFor(s.accepted, x) && SentOk(cfg, s.accepted, s.ops, x);
    assert AcceptedOk(cfg, s.accepted[x.pid]);
  }

  /** The record of how many frames had been accepted when a query was sent lies between what it was before the
      event that sent it and what it was after. */
  lemma {:induction false} QueriesAreDated(cfg: Config, states: seq<State>, events: seq<Event>, i: nat, j: nat)
    requires cfg.Valid() && Run(cfg, states, events) && i < |events|
    requires |states[i].sent| <= j < |states[i + 1].sent| && states[i + 1].sent[j].ArpQuery?
    ensures var x := states[i + 1].sent[j];
            x.time == events[i].now && |states[i].accepted| <= x.seen <= |states[i + 1].accepted|
  {
    ArpAnswerIff(cfg, states, events, i);
    QueriesFollowPackets(cfg, states, events, i + 1, j);
    RunInv(cfg, states, events, i);
    assert Next(cfg, states[i], events[i], states[i + 1]);
    if MayAsk(events[i]) {
      EventAsks(cfg, states[i], events[i], states[i + 1]);
    }
  }

  /** If equal next hops lie behind equal interfaces, a query goes out on the interface over which every
      destination behind the address asked for is routed. */
  lemma {:induction false} AskedOnRightInterface(cfg: Config, states: seq<State>, events: seq<Event>, i: nat, j: nat,
                                                 dst: Ip)
    requires cfg.Valid() && OneIfacePerHop(cfg) && Run(cfg, states, events) && i < |states|
    requires j < |states[i].sent| && states[i].sent[j].ArpQuery?
    requires Resolve(cfg, dst).Some? && Resolve(cfg, dst).value.ip == states[i].sent[j].target
    ensures Resolve(cfg, dst).value.iface.name == states[i].sent[j].iface
  {
    QueriesFollowPackets(cfg, states, events, i, j);
    var back: Ip := states[i].accepted[states[i].sent[j].pid].frame[30..34];
    assert Resolve(cfg, back).value.iface == Resolve(cfg, dst).value.iface;
  }

  // ----- the table -----

  /** What an event adds to the history of the address table. */
  function TableOps(cfg: Config, e: Event): (ops: seq<ArpTable.TableOp>) {
    if e.Timer? then [ArpTable.Pass(e.now)]
    else if CarriesReply(cfg, e) then [ArpTable.Learn(e.frame[22..28], e.frame[28..32], e.now)]
    else []
  }

  lemma {:induction false} ArpEffectOnTable(cfg: Config, s: State, e: Event, t: State)
    requires !MayAsk(e) && ArpEffect(cfg, s, e, t)
    ensures t.clock == e.now && t.ops == s.ops + TableOps(cfg, e)
  {
    if !CarriesReply(cfg, e) { assert s.ops + [] == s.ops; }
  }

  lemma {:induction false} EventOnTable(cfg: Config, s: State, e: Event, t: State)
    requires cfg.Valid() && Shape(s) && Next(cfg, s, e, t)
    ensures t.clock == e.now && t.ops == s.ops + TableOps(cfg, e)
  {
    if e.Timer? {
      TimerEventAsks(cfg, s, e.now, t);
    } else if MayAsk(e) {
      IpEventAsks(cfg, s, e, t);
      assert e.frame[12..14] == [8, 0] != [8, 6];
    } else {
      ArpDisposition(cfg, s, e, t);
      ArpEffectOnTable(cfg, s, e, t);
    }
  }

  /** In every run the table learns from replies only, each at its own time, and expires bindings in timer passes
      only; it is the table that results from these operations in this order. */
  lemma {:induction false} TableFollowsEvents(cfg: Config, states: seq<State>, events: seq<Event>, i: nat)
    requires cfg.Valid() && Run(cfg, states, events) && i < |events|
    ensures states[i + 1].clock == events[i].now && states[i + 1].ops == states[i].ops + TableOps(cfg, events[i])
    ensures states[i].table == ArpTable.TableAfter(states[i].ops)
  {
    assert Shape(states[i]) && TableOk(states[i]) by { RunInv(cfg, states, events, i); }
    assert Next(cfg, states[i], events[i], states[i + 1]);
    EventOnTable(cfg, states[i], events[i], states[i + 1]);
  }

  // ----- what a packet does to the request it joins -----

  /** The request that a frame for `ip` joined is given up if it was exhausted, and otherwise not due any more. */
  ghost predicate Handled(s: State, t: State, ip: Ip) {
    var rid := Joins(s, ip);
    if rid in Q(s) && Exhausted(s.clock, Q(s)[rid]) then rid !in Q(t)
    else rid in Q(t) && Q(t)[rid].ip == ip && !Due(s.clock, Q(t)[rid])
  }

  lemma {:induction false} RouteHandles(cfg: Config, s: State, frame: Frame, origin: Origin, fuel: nat, t: State)
    requires cfg.Valid() && Shape(s) && Routable(cfg, frame) && RouteAndSend(cfg, s, frame, origin, fuel) == Done(t)
    ensures Handled(s, t, Resolve(cfg, Dst(frame)).value.ip)
  {
    var hop := Resolve(cfg, Dst(frame)).value;
    var f := Stamp(frame, hop.iface.addr);
    var u, rid := Enqueue(s, f, hop, origin), Joins(s, hop.ip);
    RouteUnfolds(cfg, s, frame, origin, fuel);
    EnqueueView(s, f, hop, origin);
    JoinsView(s, hop.ip);
    HandleAdvances(cfg, u, rid, fuel, t);
  }

  lemma {:induction false} IpHandles(cfg: Config, s: State, frame: Frame, iface: string, fuel: nat, t: State)
    requires cfg.Valid() && Shape(s) && HandleIp(cfg, s, frame, iface, fuel) == Done(t)
    requires |s.accepted| < |t.accepted|
    ensures Handled(s, t, t.accepted[|s.accepted|].hop)
  {
    IpRoutes(cfg, s, frame, iface, fuel);
    var out := Outgoing(cfg, frame, iface).value;
    RouteOriginates(cfg, s, out.0, out.1, fuel, t);
    RouteHandles(cfg, s, out.0, out.1, fuel, t);
  }

  lemma {:induction false} SentNow(s: State, rid: nat)
    requires AllCounts(s) && rid in Q(s) && !Due(s.clock, Q(s)[rid])
    ensures Q(s)[rid].sent == s.clock
  {
    assert CountOk(s, rid) && EmissionsOk(s, rid);
  }

  lemma {:induction false} ArrivalHandles(cfg: Config, s: State, e: Event, t: State)
    requires cfg.Valid() && Shape(s) && Next(cfg, s, e, t) && e.Receive? && |s.accepted| < |t.accepted|
    ensures Handled(s.(clock := e.now), t, t.accepted[|s.accepted|].hop)
  {
    if MayAsk(e) {
      var fuel := IpEvent(cfg, s, e, t);
      IpHandles(cfg, s.(clock := e.now), e.frame, e.iface, fuel, t);
    } else {
      ArpDisposition(cfg, s, e, t);
    }
  }

  /** In every run a packet that has a frame accepted leaves the request for that frame's next hop asked for at that
      very time, whether it is a new request or an old one -- unless five queries had gone out for it before, the
      last at least a second ago: then the request is given up. */
  lemma {:induction false} ArrivalAsks(cfg: Config, states: seq<State>, events: seq<Event>, i: nat)
    requires cfg.Valid() && Run(cfg, states, events) && i < |events| && events[i].Receive?
    requires |states[i].accepted| < |states[i + 1].accepted|
    ensures var s, t, now := states[i], states[i + 1], events[i].now;
            var ip := t.accepted[|s.accepted|].hop;
            var rid := Joins(s, ip);
            if rid in Q(s) && Q(s)[rid].timesSent >= 5 && Q(s)[rid].sent + 1 <= now then rid !in Q(t)
            else rid in Q(t) && Q(t)[rid].ip == ip && Q(t)[rid].sent == now
  {
    var s, t, e := states[i], states[i + 1], events[i];
    assert Shape(s) by { RunInv(cfg, states, events, i); }
    assert AllCounts(t) by { RunInv(cfg, states, events, i + 1); }
    assert t.clock == e.now by { TableFollowsEvents(cfg, states, events, i); }
    assert Next(cfg, s, e, t);
    ArrivalHandles(cfg, s, e, t);
    var rid := Joins(s, t.accepted[|s.accepted|].hop);
    if rid in Q(t) && !Due(t.clock, Q(t)[rid]) { SentNow(t, rid); }
  }

  // ----- the end of a request -----

  lemma {:induction false} ReplyRemoves(cfg: Config, s: State, from: Ip, mac: Mac, rid: nat)
    requires Shape(s) && rid in Q(s) && rid !in Q(Reply(cfg, s, from, mac))
    ensures Q(s)[rid].ip == from
  {
    var i := FindIp(s.requests, from);
    if i < |s.requests| {
      RemoveView(s.requests, s.nextRid, i);
      FindIpView(s.requests, s.nextRid, from);
    }
  }

  lemma {:induction false} ArpEnds(cfg: Config, s: State, e: Event, t: State, rid: nat)
    requires Shape(s) && !MayAsk(e) && ArpEffect(cfg, s, e, t) && rid in Q(s) && rid !in Q(t)
    ensures CarriesReply(cfg, e) && e.frame[28..32] == Q(s)[rid].ip
  {
    if CarriesReply(cfg, e) { ReplyRemoves(cfg, s.(clock := e.now), e.frame[28..32], e.frame[22..28], rid); }
  }

  lemma {:induction false} EndsBy(cfg: Config, s: State, e: Event, t: State, rid: nat)
    requires cfg.Valid() && Shape(s) && Next(cfg, s, e, t) && rid in Q(s) && rid !in Q(t)
    ensures (CarriesReply(cfg, e) && e.frame[28..32] == Q(s)[rid].ip) || (MayAsk(e) && Exhausted(e.now, Q(s)[rid]))
  {
    if MayAsk(e) {
      EventAsks(cfg, s, e, t);
    } else {
      ArpDisposition(cfg, s, e, t);
      ArpEnds(cfg, s, e, t, rid);
    }
  }

  lemma {:induction false} EndsInRun(cfg: Config, states: seq<State>, events: seq<Event>, i: nat, rid: nat)
    requires cfg.Valid() && Run(cfg, states, events) && i < |events|
    requires rid in Q(states[i]) && rid !in Q(states[i + 1])
    ensures var e, r := events[i], Q(states[i])[rid];
            (CarriesReply(cfg, e) && e.frame[28..32] == r.ip) || (MayAsk(e) && Exhausted(e.now, r))
  {
    assert Shape(states[i]) by { RunInv(cfg, states, events, i); }
    assert Next(cfg, states[i], events[i], states[i + 1]);
    EndsBy(cfg, states[i], events[i], states[i + 1], rid);
  }

  lemma {:induction false} LastOfFive(cfg: Config, states: seq<State>, events: seq<Event>, i: nat, rid: nat, now: int)
    requires cfg.Valid() && Run(cfg, states, events) && i < |states| && rid in Q(states[i])
    requires Exhausted(now, Q(states[i])[rid])
    ensures var ts := Emissions(states[i].sent, rid); |ts| == 5 && ts[4] + 1 <= now
  {
    QueuedRequestFacts(cfg, states, events, i, rid);
  }

  /** In every run a request ends in one of two ways: by a reply from its address, or after exactly five queries,
      the last of them at least a second old. */
  lemma {:induction false} RequestEnds(cfg: Config, states: seq<State>, events: seq<Event>, i: nat, rid: nat)
    requires cfg.Valid() && Run(cfg, states, events) && i < |events|
    requires rid in Q(states[i]) && rid !in Q(states[i + 1])
    ensures var e, ts := events[i], Emissions(states[i].sent, rid);
            || (CarriesReply(cfg, e) && e.frame[28..32] == Q(states[i])[rid].ip)
            || (MayAsk(e) && |ts| == 5 && ts[4] + 1 <= e.now)
  {
    EndsInRun(cfg, states, events, i, rid);
    if Exhausted(events[i].now, Q(states[i])[rid]) { LastOfFive(cfg, states, events, i, rid, events[i].now); }
  }

}
