/** How long a request can last, and which events complete at all. */
module Resolution {
  import opened Bytes
  import opened Packets
  import opened Routing
  import opened RouterModel
  import opened RequestQueue
  import opened ReturnGraph
  import opened Cascade
  import opened Termination
  import opened Activation
  import opened Sweep
  import opened Invariants
  import opened Runs

  // ----- what an event does to requests that survive it -----

  /** `b` is `a` some time later: asked for again if and only if it was sent again. */
  predicate Later(a: Request, b: Request) {
    a.sent <= b.sent && a.timesSent <= b.timesSent && (a.sent < b.sent ==> a.timesSent < b.timesSent)
  }

  /** Requests that are gone do not come back, and those that stay only get older. */
  ghost predicate Persists(s: State, t: State) {
    s.nextRid <= t.nextRid && forall k :: k in Q(t) && k < s.nextRid ==> k in Q(s) && Later(Q(s)[k], Q(t)[k])
  }

  lemma {:induction false} PersistsSelf(s: State)
    ensures Persists(s, s)
  {
  }

  lemma {:induction false} PersistsTrans(s: State, t: State, u: State)
    requires Persists(s, t) && Persists(t, u)
    ensures Persists(s, u)
  {
  }

  lemma {:induction false} AdvancesPersists(s: State, t: State)
    requires Advances(s, t)
    ensures Persists(s, t)
  {
  }

  lemma {:induction false} IpPersists(cfg: Config, s: State, frame: Frame, iface: string, fuel: nat, t: State)
    requires cfg.Valid() && Shape(s) && HandleIp(cfg, s, frame, iface, fuel) == Done(t)
    ensures Persists(s, t)
  {
    IpAdvances(cfg, s, frame, iface, fuel, t);
    AdvancesPersists(s, t);
  }

  lemma {:induction false} ArpPersists(cfg: Config, s: State, frame: Frame, iface: string)
    requires Shape(s)
    ensures Persists(s, HandleArp(cfg, s, frame, iface))
  {
    var t := HandleArp(cfg, s, frame, iface);
    if t.requests != s.requests {
      var i := FindIp(s.requests, ArpSip(frame));
      assert t.requests == Remove(s.requests, i);
      RemoveView(s.requests, s.nextRid, i);
    }
  }

  /** After a timer pass every request that was queued before it and is still queued has just been
      sent. */
  lemma {:induction false} TimerFacts(cfg: Config, s: State, fuel: nat, t: State)
    requires cfg.Valid() && Shape(s) && TimerPass(cfg, s, fuel) == Done(t)
    ensures Persists(s, t) && t.clock == s.clock
    ensures forall k :: k in Q(t) && k < s.nextRid ==> !Due(t.clock, Q(t)[k])
  {
    var s1 := Expiring(s);
    SweepLeavesNoneDue(cfg, s1, fuel, t);
    AdvancesPersists(s1, t);
  }

  lemma {:induction false} StepPersists(cfg: Config, s: State, e: Event, fuel: nat)
    requires cfg.Valid() && Shape(s) && s.clock <= e.now && Step(cfg, s, e, fuel).Done?
    ensures Persists(s, Step(cfg, s, e, fuel).s)
  {
    var s1 := s.(clock := e.now);
    PersistsSelf(s1);
    match e
    case Timer(now) => TimerFacts(cfg, s1, fuel, TimerPass(cfg, s1, fuel).s);
    case Receive(now, frame, iface) =>
      if |frame| >= 14 && Ethertype(frame) == 0x0806 {
        ArpPersists(cfg, s1, frame, iface);
      } else if |frame| >= 14 && Ethertype(frame) == 0x0800 {
        IpPersists(cfg, s1, frame, iface, fuel, HandleIp(cfg, s1, frame, iface, fuel).s);
      }
  }

  lemma {:induction false} NextPersists(cfg: Config, states: seq<State>, events: seq<Event>, i: nat)
    requires cfg.Valid() && Run(cfg, states, events) && i < |events|
    ensures Persists(states[i], states[i + 1])
  {
    RunInv(cfg, states, events, i);
    assert Next(cfg, states[i], events[i], states[i + 1]);
    var fuel: nat :| Step(cfg, states[i], events[i], fuel) == Done(states[i + 1]);
    StepPersists(cfg, states[i], events[i], fuel);
  }

  lemma {:induction false} PersistsAlong(cfg: Config, states: seq<State>, events: seq<Event>, i: nat, j: nat)
    requires cfg.Valid() && Run(cfg, states, events) && i <= j < |states|
    ensures Persists(states[i], states[j])
    decreases j
  {
    if i == j {
      PersistsSelf(states[i]);
    } else {
      PersistsAlong(cfg, states, events, i, j - 1);
      NextPersists(cfg, states, events, j - 1);
      PersistsTrans(states[i], states[j - 1], states[j]);
    }
  }

  // ----- six sweeps -----

  lemma {:induction false} AfterTimer(cfg: Config, states: seq<State>, events: seq<Event>, i: nat, rid: nat)
    requires cfg.Valid() && Run(cfg, states, events) && i < |events| && events[i].Timer?
    requires rid in Q(states[i + 1]) && rid < states[i].nextRid
    ensures Q(states[i + 1])[rid].sent == events[i].now && Q(states[i + 1])[rid].timesSent >= 1
  {
    var s, t := states[i], states[i + 1];
    RunInv(cfg, states, events, i);
    RunInv(cfg, states, events, i + 1);
    assert Next(cfg, s, events[i], t);
    var fuel: nat :| Step(cfg, s, events[i], fuel) == Done(t);
    TimerFacts(cfg, s.(clock := events[i].now), fuel, t);
    assert CountOk(t, rid) && EmissionsOk(t, rid);
  }

  /** Six timer passes, in this order and at least a second apart. */
  ghost predicate Ticks(events: seq<Event>, ticks: seq<nat>) {
    && (forall j :: 0 <= j < |ticks| ==> ticks[j] < |events| && events[ticks[j]].Timer?)
    && (forall j :: 0 < j < |ticks| ==>
          ticks[j - 1] < ticks[j] && events[ticks[j - 1]].now + 1 <= events[ticks[j]].now)
  }

  lemma {:induction false} FirstTick(cfg: Config, states: seq<State>, events: seq<Event>, ticks: seq<nat>, j: nat)
    requires cfg.Valid() && Run(cfg, states, events) && Ticks(events, ticks) && j < |ticks|
    ensures states[ticks[0]].nextRid <= states[ticks[j]].nextRid
    decreases j
  {
    if j > 0 {
      FirstTick(cfg, states, events, ticks, j - 1);
      PersistsAlong(cfg, states, events, ticks[j - 1], ticks[j]);
    }
  }

  lemma {:induction false} SurvivorWasSent(cfg: Config, states: seq<State>, events: seq<Event>, ticks: seq<nat>,
                                           rid: nat, j: nat)
    requires cfg.Valid() && Run(cfg, states, events) && Ticks(events, ticks) && j < |ticks|
    requires rid < states[ticks[0]].nextRid && rid in Q(states[ticks[j] + 1])
    ensures Q(states[ticks[j] + 1])[rid].sent == events[ticks[j]].now
    ensures Q(states[ticks[j] + 1])[rid].timesSent >= j + 1
    decreases j
  {
    FirstTick(cfg, states, events, ticks, j);
    AfterTimer(cfg, states, events, ticks[j], rid);
    if j > 0 {
      var before, after := states[ticks[j - 1] + 1], states[ticks[j] + 1];
      PersistsAlong(cfg, states, events, ticks[j - 1] + 1, ticks[j] + 1);
      FirstTick(cfg, states, events, ticks, j - 1);
      NextPersists(cfg, states, events, ticks[j - 1]);
      assert rid in Q(before) && Later(Q(before)[rid], Q(after)[rid]);
      SurvivorWasSent(cfg, states, events, ticks, rid, j - 1);
    }
  }

  /** No request survives six timer passes that are at least a second apart, however many packets
      are queued on it meanwhile. */
  lemma {:induction false} GoneAfterSixSweeps(cfg: Config, states: seq<State>, events: seq<Event>, ticks: seq<nat>,
                                              rid: nat, i: nat)
    requires cfg.Valid() && Run(cfg, states, events) && Ticks(events, ticks) && |ticks| == 6
    requires rid < states[ticks[0]].nextRid && ticks[5] < i < |states|
    ensures rid !in Q(states[i])
  {
    var s := states[ticks[5] + 1];
    FirstTick(cfg, states, events, ticks, 5);
    NextPersists(cfg, states, events, ticks[5]);
    PersistsAlong(cfg, states, events, ticks[5] + 1, i);
    if rid in Q(s) {
      QueuedRequestFacts(cfg, states, events, ticks[5] + 1, rid);
      SurvivorWasSent(cfg, states, events, ticks, rid, 5);
    }
  }

  // ----- which events complete -----

  /** No cycle can be reached from the request that `frame` joins, with the frame queued on it. */
  ghost predicate JoinsAcyclic(cfg: Config, s: State, frame: Frame, origin: Origin)
    requires Routable(cfg, frame)
  {
    var hop := Resolve(cfg, Dst(frame)).value;
    AcyclicFrom(ReturnEdges(cfg, Enqueue(s, Stamp(frame, hop.iface.addr), hop, origin)), hop.ip)
  }

  lemma {:induction false} RouteDone(cfg: Config, s: State, frame: Frame, origin: Origin, fuel: nat)
    requires cfg.Valid() && Shape(s) && Routable(cfg, frame)
    ensures RouteAndSend(cfg, s, frame, origin, fuel) != Fault
    ensures RouteAndSend(cfg, s, frame, origin, fuel).Done? ==> JoinsAcyclic(cfg, s, frame, origin)
  {
    var hop := Resolve(cfg, Dst(frame)).value;
    EnqueueView(s, Stamp(frame, hop.iface.addr), hop, origin);
    RouteUnfolds(cfg, s, frame, origin, fuel);
    HandleEndsIff(cfg, Enqueue(s, Stamp(frame, hop.iface.addr), hop, origin), Joins(s, hop.ip));
  }

  lemma {:induction false} RouteFinishes(cfg: Config, s: State, frame: Frame, origin: Origin) returns (fuel: nat)
    requires cfg.Valid() && NoSelfRoute(cfg) && Shape(s) && Routable(cfg, frame) && JoinsAcyclic(cfg, s, frame, origin)
    ensures RouteAndSend(cfg, s, frame, origin, fuel).Done?
  {
    var hop := Resolve(cfg, Dst(frame)).value;
    var t := Enqueue(s, Stamp(frame, hop.iface.addr), hop, origin);
    EnqueueView(s, Stamp(frame, hop.iface.addr), hop, origin);
    HandleEndsIff(cfg, t, Joins(s, hop.ip));
    fuel :| HandleReq(cfg, t, Joins(s, hop.ip), fuel).Done?;
    RouteUnfolds(cfg, s, frame, origin, fuel);
  }

  /** `route_and_send` never touches freed memory, and it ends only if no cycle of exhausted requests
      can be reached from the request its frame joins -- for every routing table. If no route leads to
      an own address, it ends whenever no cycle can be reached. */
  lemma {:induction false} RouteEndsIff(cfg: Config, s: State, frame: Frame, origin: Origin)
    requires cfg.Valid() && Shape(s) && Routable(cfg, frame)
    ensures forall fuel: nat :: RouteAndSend(cfg, s, frame, origin, fuel) != Fault
    ensures (exists fuel: nat :: RouteAndSend(cfg, s, frame, origin, fuel).Done?) ==>
              JoinsAcyclic(cfg, s, frame, origin)
    ensures NoSelfRoute(cfg) && JoinsAcyclic(cfg, s, frame, origin) ==>
              exists fuel: nat :: RouteAndSend(cfg, s, frame, origin, fuel).Done?
  {
    forall fuel: nat
      ensures RouteAndSend(cfg, s, frame, origin, fuel) != Fault
      ensures RouteAndSend(cfg, s, frame, origin, fuel).Done? ==> JoinsAcyclic(cfg, s, frame, origin)
    {
      RouteDone(cfg, s, frame, origin, fuel);
    }
    if NoSelfRoute(cfg) && JoinsAcyclic(cfg, s, frame, origin) {
      var fuel := RouteFinishes(cfg, s, frame, origin);
    }
  }

  /** The condition for a frame handed to `route_and_send`, if any is. */
  ghost predicate Ends(cfg: Config, s: State, out: Option<(Frame, Origin)>) {
    out.Some? && Routable(cfg, out.value.0) ==> JoinsAcyclic(cfg, s, out.value.0, out.value.1)
  }

  lemma {:induction false} DispatchEndsIff(cfg: Config, s: State, out: Option<(Frame, Origin)>)
    requires cfg.Valid() && Shape(s)
    ensures forall fuel: nat :: Dispatch(cfg, s, out, fuel) != Fault
    ensures (exists fuel: nat :: Dispatch(cfg, s, out, fuel).Done?) ==> Ends(cfg, s, out)
    ensures NoSelfRoute(cfg) && Ends(cfg, s, out) ==> exists fuel: nat :: Dispatch(cfg, s, out, fuel).Done?
  {
    forall fuel: nat
      ensures Dispatch(cfg, s, out, fuel) != Fault && (Dispatch(cfg, s, out, fuel).Done? ==> Ends(cfg, s, out))
    {
      if out.Some? && Routable(cfg, out.value.0) { RouteDone(cfg, s, out.value.0, out.value.1, fuel); }
    }
    if NoSelfRoute(cfg) && Ends(cfg, s, out) {
      var fuel := 0;
      if out.Some? && Routable(cfg, out.value.0) { fuel := RouteFinishes(cfg, s, out.value.0, out.value.1); }
      assert Dispatch(cfg, s, out, fuel).Done?;
    }
  }

  lemma {:induction false} ReceiveUnfolds(cfg: Config, s: State, now: int, frame: Frame, iface: string, fuel: nat)
    requires cfg.Valid() && |frame| >= 14 && Ethertype(frame) == 0x0800
    ensures Step(cfg, s, Receive(now, frame, iface), fuel)
            == Dispatch(cfg, s.(clock := now), Outgoing(cfg, frame, iface), fuel)
  {
    IpRoutes(cfg, s.(clock := now), frame, iface, fuel);
  }

  /** The condition for a received frame. */
  ghost predicate ReceiveEnds(cfg: Config, s: State, frame: Frame, iface: string)
    requires cfg.Valid()
  {
    |frame| >= 14 && Ethertype(frame) == 0x0800 ==> Ends(cfg, s, Outgoing(cfg, frame, iface))
  }

  /** A received frame never makes the router touch freed memory, and its handling ends only if it is
      not IP, or the frame it gives rise to is none, has no route, or joins a request from which no
      cycle can be reached -- for every routing table. If no route leads to an own address, that
      suffices. */
  lemma {:induction false} ReceiveEndsIff(cfg: Config, s: State, now: int, frame: Frame, iface: string)
    requires cfg.Valid() && Shape(s)
    ensures forall fuel: nat :: Step(cfg, s, Receive(now, frame, iface), fuel) != Fault
    ensures (exists fuel: nat :: Step(cfg, s, Receive(now, frame, iface), fuel).Done?) ==>
              ReceiveEnds(cfg, s.(clock := now), frame, iface)
    ensures NoSelfRoute(cfg) && ReceiveEnds(cfg, s.(clock := now), frame, iface) ==>
              exists fuel: nat :: Step(cfg, s, Receive(now, frame, iface), fuel).Done?
  {
    var u, out := s.(clock := now), Outgoing(cfg, frame, iface);
    if |frame| >= 14 && Ethertype(frame) == 0x0800 {
      DispatchEndsIff(cfg, u, out);
      forall fuel: nat ensures Step(cfg, s, Receive(now, frame, iface), fuel) == Dispatch(cfg, u, out, fuel) {
        ReceiveUnfolds(cfg, s, now, frame, iface, fuel);
      }
      if fuel: nat :| Dispatch(cfg, u, out, fuel).Done? {
        assert Step(cfg, s, Receive(now, frame, iface), fuel).Done?;
      }
    } else {
      assert Step(cfg, s, Receive(now, frame, iface), 0).Done?;
    }
  }

  lemma {:induction false} TimerUnfolds(cfg: Config, s: State, now: int, fuel: nat)
    requires cfg.Valid()
    ensures var u := Expiring(s.(clock := now)); Step(cfg, s, Timer(now), fuel) == SweepFrom(cfg, u, Head(u), fuel)
  {
  }

  /** The fate on the state in which a timer pass starts its sweep says what the pass does. */
  lemma {:induction false} TimerOutcomeIff(cfg: Config, s: State, now: int)
    requires cfg.Valid() && NoSelfRoute(cfg) && Shape(s)
    ensures var u := Expiring(s.(clock := now));
            && OnQueue(u, Head(u))
            && ((exists fuel: nat :: Step(cfg, s, Timer(now), fuel).Done?) <==> Fate(cfg, u, Head(u)) == Safe)
            && ((exists fuel: nat :: Step(cfg, s, Timer(now), fuel) == Fault) <==> Fate(cfg, u, Head(u)) == Freed)
            && ((forall fuel: nat :: Step(cfg, s, Timer(now), fuel) == OutOfFuel)
                <==> Fate(cfg, u, Head(u)) == Endless)
  {
    var u := Expiring(s.(clock := now));
    assert Shape(u);
    SweepOutcomeIff(cfg, u);
    if Fate(cfg, u, Head(u)) != Endless {
      var fuel := FateIsReached(cfg, u, Head(u));
      TimerUnfolds(cfg, s, now, fuel);
      OutcomeIsFate(cfg, u, Head(u), fuel);
    }
    forall fuel: nat | Step(cfg, s, Timer(now), fuel) != OutOfFuel
      ensures Fate(cfg, u, Head(u)) == if Step(cfg, s, Timer(now), fuel).Done? then Safe else Freed
    {
      TimerUnfolds(cfg, s, now, fuel);
      OutcomeIsFate(cfg, u, Head(u), fuel);
    }
  }
}
