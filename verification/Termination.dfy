/** The give-up recursion ends exactly when no cycle of return routes can be reached, and then it
    destroys exactly the requests that can be reached. */
module Termination {
  import opened Bytes
  import opened Packets
  import opened Routing
  import opened RouterModel
  import opened RequestQueue
  import opened ReturnGraph
  import opened Cascade
  import opened Activation
  import opened Reentrancy

  /** From `s` to `t` everything reachable from `roots` was given up, and nothing else. */
  ghost predicate Cascades(cfg: Config, s: State, t: State, roots: set<Ip>) {
    && Shape(t) && Evolves(s, t)
    && Cut(ReturnEdges(cfg, s), ReturnEdges(cfg, t), roots)
    && exists n: nat :: CutBounded(ReturnEdges(cfg, s), ReturnEdges(cfg, t), n)
  }

  lemma {:induction false} CascadesNothing(cfg: Config, s: State, t: State, roots: set<Ip>)
    requires Shape(t) && Evolves(s, t) && ReturnEdges(cfg, t) == ReturnEdges(cfg, s)
    requires forall r :: r in roots ==> r !in ReturnEdges(cfg, s)
    ensures Cascades(cfg, s, t, roots)
  {
    CutNothing(ReturnEdges(cfg, s), roots);
  }

  lemma {:induction false} CascadesCompose(cfg: Config, s: State, t: State, u: State, a: set<Ip>, b: set<Ip>)
    requires Cascades(cfg, s, t, a) && Cascades(cfg, t, u, b)
    ensures Cascades(cfg, s, u, a + b)
  {
    var f, g, h := ReturnEdges(cfg, s), ReturnEdges(cfg, t), ReturnEdges(cfg, u);
    EvolvesTrans(s, t, u);
    CutCompose(f, g, h, a, b);
    var n: nat :| CutBounded(f, g, n);
    var m: nat :| CutBounded(g, h, m);
    CutBoundedCompose(f, g, h, n, m);
  }

  /** A request survives the cascades that its own packets set off. */
  lemma {:induction false} CascadeKeepsOrigin(cfg: Config, s: State, t: State, rid: nat, roots: set<Ip>)
    requires Shape(s) && rid in Q(s) && Exhausted(s.clock, Q(s)[rid])
    requires Cascades(cfg, s, t, roots) && roots <= Hops(cfg, Q(s)[rid].packets)
    ensures rid in Q(t) && Q(t)[rid] == Q(s)[rid]
  {
    var g, h := ReturnEdges(cfg, s), ReturnEdges(cfg, t);
    NodeOf(cfg, s.clock, Q(s), rid);
    var n: nat :| CutBounded(g, h, n);
    CutKeepsRoot(g, h, Q(s)[rid].ip, n);
    SurvivorIsQueued(cfg, s, t, rid);
  }

  // ----- errors lead back along the return routes -----

  /** Without a route to an own address an error cannot itself be answered. */
  lemma {:induction false} ErrorHasNoHop(cfg: Config, frame: Frame, mac: Mac)
    requires cfg.Valid() && NoSelfRoute(cfg) && |frame| >= 34 && ErrorHop(cfg, frame).Some?
    ensures var e := IcmpError(3, 1, frame, ErrorSource(cfg, frame, ZERO_IP), cfg.beyond);
            ErrorHop(cfg, Stamp(e, mac)).None? && Dst(e) == Src(frame)
  {
  }

  // ----- what a finished activation did -----

  lemma {:induction false} HandleCascades(cfg: Config, s: State, rid: nat, fuel: nat)
    requires cfg.Valid() && NoSelfRoute(cfg) && Shape(s) && rid in Q(s)
    requires HandleReq(cfg, s, rid, fuel) != OutOfFuel
    ensures var o := HandleReq(cfg, s, rid, fuel);
            && o.Done? && Cascades(cfg, s, o.s, {Q(s)[rid].ip})
            && (rid in Q(o.s) <==> !Exhausted(s.clock, Q(s)[rid]))
            && (rid in Q(o.s) ==> !Due(s.clock, Q(o.s)[rid]))
    decreases fuel, 0, 0
  {
    QueuedView(s, rid);
    var r := Q(s)[rid];
    NodeOf(cfg, s.clock, Q(s), rid);
    if !Due(s.clock, r) {
      EvolvesSelf(s);
      CascadesNothing(cfg, s, s, {r.ip});
    } else if r.timesSent < 5 {
      QueryEvolves(cfg, s, rid);
      CascadesNothing(cfg, s, Query(cfg, s, rid), {r.ip});
    } else {
      GiveUpCascades(cfg, s, rid, r.packets, fuel - 1);
      var t := GiveUp(cfg, s, rid, r.packets, fuel - 1).s;
      QueuedView(t, rid);
      DestroyEvolves(cfg, t, rid);
      var u := Destroy(t, rid);
      EvolvesTrans(s, t, u);
      var g, h := ReturnEdges(cfg, s), ReturnEdges(cfg, t);
      var n: nat :| CutBounded(g, h, n);
      CutRoot(g, h, ReturnEdges(cfg, u), r.ip, n);
    }
  }

  lemma {:induction false} GiveUpCascades(cfg: Config, s: State, rid: nat, ps: seq<Packet>, fuel: nat)
    requires cfg.Valid() && NoSelfRoute(cfg) && Shape(s)
    requires rid in Q(s) && Exhausted(s.clock, Q(s)[rid]) && Hops(cfg, ps) <= Hops(cfg, Q(s)[rid].packets)
    requires GiveUp(cfg, s, rid, ps, fuel) != OutOfFuel
    ensures var o := GiveUp(cfg, s, rid, ps, fuel);
            && o.Done? && Cascades(cfg, s, o.s, Hops(cfg, ps))
            && rid in Q(o.s) && Q(o.s)[rid] == Q(s)[rid]
    decreases fuel, 3, |ps|
  {
    if ps == [] {
      EvolvesSelf(s);
      CascadesNothing(cfg, s, s, {});
    } else if |ps[0].frame| < 34 {
      assert Hops(cfg, ps) == Hops(cfg, ps[1..]);
      GiveUpCascades(cfg, s, rid, ps[1..], fuel);
    } else {
      var s1 := s.(attempts := s.attempts + [ps[0].pid]);
      var first := HopSet(ErrorHop(cfg, ps[0].frame));
      ErrorCascades(cfg, s1, ps[0].frame, fuel);
      var t := SendError(cfg, s1, 3, 1, ps[0].frame, ZERO_IP, fuel).s;
      CascadeKeepsOrigin(cfg, s1, t, rid, first);
      QueuedView(t, rid);
      GiveUpCascades(cfg, t, rid, ps[1..], fuel);
      CascadesCompose(cfg, s1, t, GiveUp(cfg, t, rid, ps[1..], fuel).s, first, Hops(cfg, ps[1..]));
    }
  }

  lemma {:induction false} ErrorCascades(cfg: Config, s: State, frame: Frame, fuel: nat)
    requires cfg.Valid() && NoSelfRoute(cfg) && Shape(s) && |frame| >= 34
    requires SendError(cfg, s, 3, 1, frame, ZERO_IP, fuel) != OutOfFuel
    ensures var o := SendError(cfg, s, 3, 1, frame, ZERO_IP, fuel);
            o.Done? && Cascades(cfg, s, o.s, HopSet(ErrorHop(cfg, frame)))
    decreases fuel, 2, 0
  {
    ErrorFollowsHop(cfg, frame);
    if ErrorHop(cfg, frame).None? {
      EvolvesSelf(s);
      CascadesNothing(cfg, s, s, {});
    } else {
      var from := ErrorSource(cfg, frame, ZERO_IP);
      var e, hop := IcmpError(3, 1, frame, from, cfg.beyond), Resolve(cfg, Src(frame)).value;
      ErrorHasNoHop(cfg, frame, hop.iface.addr);
      RouteUnfolds(cfg, s, e, Error(3, 1, frame, from), fuel);
      UnanswerableCascades(cfg, s, Stamp(e, hop.iface.addr), hop, Error(3, 1, frame, from), fuel);
    }
  }

  /** Queueing a frame that cannot be answered, then handling the request it joined. */
  lemma {:induction false} UnanswerableCascades(cfg: Config, s: State, f: Frame, hop: Hop, origin: Origin, fuel: nat)
    requires cfg.Valid() && NoSelfRoute(cfg) && Shape(s) && ErrorHop(cfg, f).None?
    requires HandleReq(cfg, Enqueue(s, f, hop, origin), Joins(s, hop.ip), fuel) != OutOfFuel
    ensures var o := HandleReq(cfg, Enqueue(s, f, hop, origin), Joins(s, hop.ip), fuel);
            o.Done? && Cascades(cfg, s, o.s, {hop.ip})
    decreases fuel, 1, 0
  {
    var t, rid := Enqueue(s, f, hop, origin), Joins(s, hop.ip);
    EnqueueView(s, f, hop, origin);
    EnqueueGraph(cfg, s, f, hop, origin);
    HandleCascades(cfg, t, rid, fuel);
    var u := HandleReq(cfg, t, rid, fuel).s;
    if Exhausted(s.clock, JoinedBy(s, f, hop)) {
      EnqueueThenDestroyed(s, f, hop, origin, u);
    } else {
      EnqueueEvolves(s, f, hop, origin);
      EvolvesTrans(s, t, u);
    }
  }

  // ----- when an activation finishes -----

  lemma {:induction false} HandleConverges(cfg: Config, s: State, rid: nat, fuel: nat)
    requires cfg.Valid() && NoSelfRoute(cfg) && Shape(s) && rid in Q(s)
    requires Bounded(ReturnEdges(cfg, s), Q(s)[rid].ip, fuel)
    ensures HandleReq(cfg, s, rid, fuel) != OutOfFuel
    decreases fuel, 0, 0
  {
    QueuedView(s, rid);
    var r, g := Q(s)[rid], ReturnEdges(cfg, s);
    NodeOf(cfg, s.clock, Q(s), rid);
    if Exhausted(s.clock, r) {
      forall h | h in Hops(cfg, r.packets) ensures Bounded(g, h, fuel - 1) {
        if h in g { assert Edge(g, r.ip, h); }
      }
      GiveUpConverges(cfg, s, rid, r.packets, fuel - 1);
    }
  }

  lemma {:induction false} GiveUpConverges(cfg: Config, s: State, rid: nat, ps: seq<Packet>, fuel: nat)
    requires cfg.Valid() && NoSelfRoute(cfg) && Shape(s)
    requires rid in Q(s) && Exhausted(s.clock, Q(s)[rid]) && Hops(cfg, ps) <= Hops(cfg, Q(s)[rid].packets)
    requires forall h :: h in Hops(cfg, ps) ==> Bounded(ReturnEdges(cfg, s), h, fuel)
    ensures GiveUp(cfg, s, rid, ps, fuel) != OutOfFuel
    decreases fuel, 3, |ps|
  {
    if ps != [] && |ps[0].frame| < 34 {
      GiveUpConverges(cfg, s, rid, ps[1..], fuel);
    } else if ps != [] {
      var s1 := s.(attempts := s.attempts + [ps[0].pid]);
      var first := HopSet(ErrorHop(cfg, ps[0].frame));
      ErrorConverges(cfg, s1, ps[0].frame, fuel);
      ErrorCascades(cfg, s1, ps[0].frame, fuel);
      var t := SendError(cfg, s1, 3, 1, ps[0].frame, ZERO_IP, fuel).s;
      CascadeKeepsOrigin(cfg, s1, t, rid, first);
      forall h | h in Hops(cfg, ps[1..]) ensures Bounded(ReturnEdges(cfg, t), h, fuel) {
        BoundedMonotone(ReturnEdges(cfg, t), ReturnEdges(cfg, s), h, fuel);
      }
      GiveUpConverges(cfg, t, rid, ps[1..], fuel);
    }
  }

  lemma {:induction false} ErrorConverges(cfg: Config, s: State, frame: Frame, fuel: nat)
    requires cfg.Valid() && NoSelfRoute(cfg) && Shape(s) && |frame| >= 34
    requires forall h :: h in HopSet(ErrorHop(cfg, frame)) ==> Bounded(ReturnEdges(cfg, s), h, fuel)
    ensures SendError(cfg, s, 3, 1, frame, ZERO_IP, fuel) != OutOfFuel
    decreases fuel, 2, 0
  {
    ErrorFollowsHop(cfg, frame);
    if ErrorHop(cfg, frame).Some? {
      var from := ErrorSource(cfg, frame, ZERO_IP);
      var e, hop := IcmpError(3, 1, frame, from, cfg.beyond), Resolve(cfg, Src(frame)).value;
      var origin := Error(3, 1, frame, from);
      ErrorHasNoHop(cfg, frame, hop.iface.addr);
      RouteUnfolds(cfg, s, e, origin, fuel);
      EnqueueView(s, Stamp(e, hop.iface.addr), hop, origin);
      EnqueueGraph(cfg, s, Stamp(e, hop.iface.addr), hop, origin);
      HandleConverges(cfg, Enqueue(s, Stamp(e, hop.iface.addr), hop, origin), Joins(s, hop.ip), fuel);
    }
  }

  lemma {:induction false} CascadeBounds(cfg: Config, s: State, t: State, ip: Ip)
    requires Cascades(cfg, s, t, {ip})
    ensures AcyclicFrom(ReturnEdges(cfg, s), ip)
  {
    var g := ReturnEdges(cfg, s);
    var n: nat :| CutBounded(g, ReturnEdges(cfg, t), n);
    assert ip !in g ==> Bounded(g, ip, n);
    BoundedAcyclic(g, ip, n);
  }

  /** Handling a request never touches freed memory, and it ends only if no cycle of exhausted requests
      can be reached from it along return routes -- for every routing table. If no route leads to an
      own address, it ends whenever no cycle can be reached. */
  lemma {:induction false} HandleEndsIff(cfg: Config, s: State, rid: nat)
    requires cfg.Valid() && Shape(s) && rid in Q(s)
    ensures forall fuel: nat :: HandleReq(cfg, s, rid, fuel) != Fault
    ensures (exists fuel: nat :: HandleReq(cfg, s, rid, fuel).Done?) ==> AcyclicFrom(ReturnEdges(cfg, s), Q(s)[rid].ip)
    ensures NoSelfRoute(cfg) && AcyclicFrom(ReturnEdges(cfg, s), Q(s)[rid].ip) ==>
              exists fuel: nat :: HandleReq(cfg, s, rid, fuel).Done?
  {
    var g, ip := ReturnEdges(cfg, s), Q(s)[rid].ip;
    forall fuel: nat ensures HandleReq(cfg, s, rid, fuel) != Fault { HandleNeverFaults(cfg, s, rid, fuel); }
    if fuel: nat :| HandleReq(cfg, s, rid, fuel).Done? {
      EndsOnlyIfAcyclic(cfg, s, rid, fuel, HandleReq(cfg, s, rid, fuel).s);
    }
    if NoSelfRoute(cfg) && AcyclicFrom(g, ip) {
      AcyclicBounded(g, ip);
      HandleConverges(cfg, s, rid, |g|);
      assert HandleReq(cfg, s, rid, |g|) != Fault;
    }
  }

  lemma {:induction false} CascadeDestroysReachable(cfg: Config, s: State, t: State, ip: Ip, k: nat)
    requires Shape(s) && k in Q(s) && Cascades(cfg, s, t, {ip})
    ensures k !in Q(t) <==> Exhausted(s.clock, Q(s)[k]) && Reach(ReturnEdges(cfg, s), ip, Q(s)[k].ip)
  {
    var g, h := ReturnEdges(cfg, s), ReturnEdges(cfg, t);
    CutExact(g, h, ip);
    NodeOf(cfg, s.clock, Q(s), k);
    if Exhausted(s.clock, Q(s)[k]) {
      if k in Q(t) { NodeOf(cfg, s.clock, Q(t), k); }
      if Q(s)[k].ip in h { SurvivorIsQueued(cfg, s, t, k); }
    }
  }

  /** A finished activation destroyed every exhausted request that can be reached from the one it
      handled -- for every routing table -- and, if no route leads to an own address, no other. */
  lemma {:induction false} HandleDestroysReachable(cfg: Config, s: State, rid: nat, fuel: nat, k: nat, t: State)
    requires cfg.Valid() && Shape(s) && rid in Q(s) && k in Q(s) && HandleReq(cfg, s, rid, fuel) == Done(t)
    ensures Exhausted(s.clock, Q(s)[k]) && Reach(ReturnEdges(cfg, s), Q(s)[rid].ip, Q(s)[k].ip) ==> k !in Q(t)
    ensures NoSelfRoute(cfg) && k !in Q(t) ==>
              Exhausted(s.clock, Q(s)[k]) && Reach(ReturnEdges(cfg, s), Q(s)[rid].ip, Q(s)[k].ip)
  {
    EndsOnlyIfAcyclic(cfg, s, rid, fuel, t);
    HandleAdvances(cfg, s, rid, fuel, t);
    if k in Q(t) { NodeOf(cfg, s.clock, Q(t), k); }
    if NoSelfRoute(cfg) {
      HandleCascades(cfg, s, rid, fuel);
      CascadeDestroysReachable(cfg, s, t, Q(s)[rid].ip, k);
    }
  }

  // ----- more fuel does not change a finished activation -----

  lemma {:induction false} HandleMoreFuel(cfg: Config, s: State, rid: nat, fuel: nat, more: nat)
    requires cfg.Valid() && fuel <= more && HandleReq(cfg, s, rid, fuel) != OutOfFuel
    ensures HandleReq(cfg, s, rid, more) == HandleReq(cfg, s, rid, fuel)
    decreases fuel, 0, 0
  {
    if Queued(s, rid) && Exhausted(s.clock, RequestOf(s, rid)) {
      GiveUpMoreFuel(cfg, s, rid, RequestOf(s, rid).packets, fuel - 1, more - 1);
    }
  }

  lemma {:induction false} GiveUpMoreFuel(cfg: Config, s: State, rid: nat, ps: seq<Packet>, fuel: nat, more: nat)
    requires cfg.Valid() && fuel <= more && GiveUp(cfg, s, rid, ps, fuel) != OutOfFuel
    ensures GiveUp(cfg, s, rid, ps, more) == GiveUp(cfg, s, rid, ps, fuel)
    decreases fuel, 3, |ps|
  {
    if ps != [] && |ps[0].frame| < 34 {
      GiveUpMoreFuel(cfg, s, rid, ps[1..], fuel, more);
    } else if ps != [] {
      var s1 := s.(attempts := s.attempts + [ps[0].pid]);
      ErrorMoreFuel(cfg, s1, 3, 1, ps[0].frame, ZERO_IP, fuel, more);
      var o := SendError(cfg, s1, 3, 1, ps[0].frame, ZERO_IP, fuel);
      if o.Done? && Queued(o.s, rid) { GiveUpMoreFuel(cfg, o.s, rid, ps[1..], fuel, more); }
    }
  }

  lemma {:induction false} ErrorMoreFuel(cfg: Config, s: State, kind: byte, code: byte, frame: Frame, src: Ip,
                                         fuel: nat, more: nat)
    requires cfg.Valid() && fuel <= more && SendError(cfg, s, kind, code, frame, src, fuel) != OutOfFuel
    ensures SendError(cfg, s, kind, code, frame, src, more) == SendError(cfg, s, kind, code, frame, src, fuel)
    decreases fuel, 2, 0
  {
    if |frame| >= 34 && ErrorSource(cfg, frame, src) != ZERO_IP {
      var from := ErrorSource(cfg, frame, src);
      RouteMoreFuel(cfg, s, IcmpError(kind, code, frame, from, cfg.beyond), Error(kind, code, frame, from), fuel, more);
    }
  }

  lemma {:induction false} RouteMoreFuel(cfg: Config, s: State, frame: Frame, origin: Origin, fuel: nat, more: nat)
    requires cfg.Valid() && fuel <= more && RouteAndSend(cfg, s, frame, origin, fuel) != OutOfFuel
    ensures RouteAndSend(cfg, s, frame, origin, more) == RouteAndSend(cfg, s, frame, origin, fuel)
    decreases fuel, 1, 0
  {
    if Routable(cfg, frame) {
      var hop := Resolve(cfg, Dst(frame)).value;
      var t := Enqueue(s, Stamp(frame, hop.iface.addr), hop, origin);
      HandleMoreFuel(cfg, t, Joins(s, hop.ip), fuel, more);
    }
  }
}
