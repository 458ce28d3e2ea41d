/** Runs from the start into the ways an event can fail: a timer pass that never completes, one that
    reads a request it has freed, and what a route to an own address does. They need only packets to
    hosts that stay silent. */
module FailingRuns {
  import opened Bytes
  import opened Checksum
  import opened Packets
  import opened Routing
  import opened RouterModel
  import opened RequestQueue
  import opened ReturnGraph
  import opened Cascade
  import opened Activation
  import opened Reentrancy
  import opened Termination
  import opened Sweep
  import opened Invariants
  import opened Runs
  import opened Resolution

  // ----- building runs -----

  lemma {:induction false} RunExtends(cfg: Config, ss: seq<State>, es: seq<Event>, e: Event, t: State)
    requires cfg.Valid() && Run(cfg, ss, es) && Next(cfg, ss[|es|], e, t)
    ensures Run(cfg, ss + [t], es + [e])
  {
    var ts, ds := ss + [t], es + [e];
    forall i | 0 <= i < |ds| ensures Next(cfg, ts[i], ds[i], ts[i + 1]) {
      if i < |es| { assert Next(cfg, ss[i], es[i], ss[i + 1]); }
    }
  }

  /** The packet `rx`, received on `iface`, makes the router queue `f`. */
  predicate Queues(cfg: Config, rx: Frame, iface: string, f: Frame, o: Origin)
    requires cfg.Valid()
  {
    |rx| >= 14 && Ethertype(rx) == 0x0800 && Outgoing(cfg, rx, iface) == Some((f, o)) && Routable(cfg, f)
  }

  function HopOf(cfg: Config, f: Frame): (hop: Hop)
    requires Routable(cfg, f)
  {
    Resolve(cfg, Dst(f)).value
  }

  /** A packet in transit that the router forwards. */
  predicate Forwardable(cfg: Config, rx: Frame) {
    OriginValid(cfg, Forward(rx)) && Routable(cfg, rx)
  }

  lemma {:induction false} ForwardQueues(cfg: Config, rx: Frame, iface: string)
    requires cfg.Valid() && Forwardable(cfg, rx)
    ensures Queues(cfg, rx, iface, Forwarded(rx), Forward(rx))
    ensures HopOf(cfg, Forwarded(rx)) == HopOf(cfg, rx) && Src(Forwarded(rx)) == Src(rx)
    ensures ErrorHop(cfg, Forwarded(rx)) == ErrorHop(cfg, rx)
  {
    ForwardedAddresses(rx);
  }

  /** `r` is the request made for the first frame to its next hop, once it has been asked for. */
  predicate MadeFor(cfg: Config, r: Request, f: Frame) {
    && Routable(cfg, f) && r.ip == HopOf(cfg, f).ip && r.sent == 1 && r.timesSent == 1
    && |r.packets| == 1 && |r.packets[0].frame| >= 34 && Src(r.packets[0].frame) == Src(f)
    && Hops(cfg, r.packets) == HopSet(ErrorHop(cfg, f))
  }

  lemma {:induction false} StampedHops(cfg: Config, f: Frame, p: Packet)
    requires Routable(cfg, f) && p.frame == Stamp(f, HopOf(cfg, f).iface.addr)
    ensures Hops(cfg, [p]) == HopSet(ErrorHop(cfg, f)) && Src(p.frame) == Src(f)
  {
    assert [p][1..] == [] && Hops(cfg, []) == {};
  }

  /** A frame for a next hop that nothing waits for: its request is made and asked for. */
  lemma {:induction false} FirstForHop(cfg: Config, s: State, f: Frame, hop: Hop, origin: Origin)
    returns (t: State, r: Request)
    requires cfg.Valid() && s.clock == 1 && FindIp(s.requests, hop.ip) == |s.requests|
    ensures HandleReq(cfg, Enqueue(s, f, hop, origin), Joins(s, hop.ip), 0) == Done(t)
    ensures t.clock == 1 && t.requests == [r] + s.requests && t.nextRid == s.nextRid + 1
    ensures r == Request(s.nextRid, hop.ip, 1, 1, [Packet(|s.accepted|, f, hop.iface.name)])
  {
    var u := Enqueue(s, f, hop, origin);
    var q := Request(s.nextRid, hop.ip, 0, 0, [Packet(|s.accepted|, f, hop.iface.name)]);
    assert u.requests == [q] + s.requests && FindRid(u.requests, q.rid) == 0;
    t := Query(cfg, u, q.rid);
    r := q.(sent := 1, timesSent := 1);
    assert t.requests == [r] + s.requests;
  }

  lemma {:induction false} PacketArrives(cfg: Config, s: State, rx: Frame, iface: string, f: Frame, o: Origin)
    returns (t: State, r: Request)
    requires cfg.Valid() && s.clock == 1 && Queues(cfg, rx, iface, f, o)
    requires FindIp(s.requests, HopOf(cfg, f).ip) == |s.requests|
    ensures Next(cfg, s, Receive(1, rx, iface), t) && t.clock == 1 && t.requests == [r] + s.requests
    ensures r.rid == s.nextRid && t.nextRid == s.nextRid + 1 && MadeFor(cfg, r, f)
  {
    var hop := HopOf(cfg, f);
    t, r := FirstForHop(cfg, s, Stamp(f, hop.iface.addr), hop, o);
    StampedHops(cfg, f, r.packets[0]);
    RouteUnfolds(cfg, s, f, o, 0);
    ReceiveUnfolds(cfg, s, 1, rx, iface, 0);
    assert s.(clock := 1) == s;
    assert Step(cfg, s, Receive(1, rx, iface), 0) == Done(t);
  }

  /** A packet arrives at a state reached at time 1. */
  lemma {:induction false} RunReceives(cfg: Config, ss: seq<State>, es: seq<Event>, rx: Frame, iface: string, f: Frame,
                                       o: Origin)
    returns (ts: seq<State>, ds: seq<Event>, r: Request)
    requires cfg.Valid() && Run(cfg, ss, es) && ss[|es|].clock == 1 && Queues(cfg, rx, iface, f, o)
    requires FindIp(ss[|es|].requests, HopOf(cfg, f).ip) == |ss[|es|].requests|
    ensures Run(cfg, ts, ds) && |ds| == |es| + 1
    ensures var s, t := ss[|es|], ts[|ds|];
            && t.clock == 1 && t.requests == [r] + s.requests && t.nextRid == s.nextRid + 1
            && r.rid == s.nextRid && MadeFor(cfg, r, f)
  {
    var t;
    t, r := PacketArrives(cfg, ss[|es|], rx, iface, f, o);
    RunExtends(cfg, ss, es, Receive(1, rx, iface), t);
    ts, ds := ss + [t], es + [Receive(1, rx, iface)];
  }

  // ----- timer passes over requests that have attempts left -----

  /** All requests, asked for once more at `now`. */
  function AskedAgain(rs: seq<Request>, now: int): (r: seq<Request>)
    ensures |r| == |rs|
    ensures forall i {:trigger r[i]} :: 0 <= i < |rs| ==> r[i] == rs[i].(sent := now, timesSent := rs[i].timesSent + 1)
  {
    seq(|rs|, i requires 0 <= i < |rs| => rs[i].(sent := now, timesSent := rs[i].timesSent + 1))
  }

  /** All of them are due and have attempts left. */
  predicate Askable(rs: seq<Request>, now: int) {
    forall i :: 0 <= i < |rs| ==> Due(now, rs[i]) && rs[i].timesSent < 5
  }

  /** The first `i` of the requests `rs` have been asked for again. */
  ghost predicate Half(s: State, rs: seq<Request>, i: nat) {
    && i <= |rs| && Descending(s.requests, s.nextRid)
    && s.requests == AskedAgain(rs[..i], s.clock) + rs[i..]
  }

  lemma {:induction false} FindRidAt(rs: seq<Request>, bound: nat, i: nat)
    requires Descending(rs, bound) && i < |rs|
    ensures FindRid(rs, rs[i].rid) == i
  {
    if i > 0 {
      ViewMember(rs[1..], rs[0].rid, i - 1);
      ViewKeys(rs[1..], rs[0].rid);
      FindRidAt(rs[1..], rs[0].rid, i - 1);
    }
  }

  /** Where the sweep stands when `i` requests are done. */
  function Place(rs: seq<Request>, i: nat): (at: Option<nat>) {
    if i < |rs| then Some(rs[i].rid) else None
  }

  /** An iteration takes the sweep from `s` to `t`. */
  ghost predicate Turn(cfg: Config, s: State, at: Option<nat>, t: State, next: Option<nat>)
    requires cfg.Valid()
  {
    forall fuel: nat {:trigger SweepFrom(cfg, s, at, fuel)} :: fuel > 0 ==>
      SweepFrom(cfg, s, at, fuel) == SweepFrom(cfg, t, next, fuel - 1)
  }

  /** The states of a sweep over `rs`. */
  ghost predicate Walk(cfg: Config, us: seq<State>, rs: seq<Request>)
    requires cfg.Valid()
  {
    0 < |us| <= |rs| + 1
    && forall i {:trigger us[i]} :: 0 <= i < |us| - 1 ==> Turn(cfg, us[i], Place(rs, i), us[i + 1], Place(rs, i + 1))
  }

  lemma {:induction false} WalkEnds(cfg: Config, us: seq<State>, rs: seq<Request>, i: nat, fuel: nat)
    requires cfg.Valid() && Walk(cfg, us, rs) && |us| == |rs| + 1 && i + fuel == |rs|
    ensures SweepFrom(cfg, us[i], Place(rs, i), fuel) == Done(us[|rs|])
    decreases fuel
  {
    if fuel > 0 {
      assert Turn(cfg, us[i], Place(rs, i), us[i + 1], Place(rs, i + 1));
      WalkEnds(cfg, us, rs, i + 1, fuel - 1);
    }
  }

  lemma {:induction false} AskedStep(rs: seq<Request>, i: nat, now: int)
    requires i < |rs|
    ensures (AskedAgain(rs[..i], now) + rs[i..])[i := rs[i].(sent := now, timesSent := rs[i].timesSent + 1)]
            == AskedAgain(rs[..i + 1], now) + rs[i + 1..]
  {
    var x := rs[i].(sent := now, timesSent := rs[i].timesSent + 1);
    assert AskedAgain(rs[..i + 1], now) == AskedAgain(rs[..i], now) + [x];
    assert rs[i..] == [rs[i]] + rs[i + 1..];
  }

  /** One iteration over a request that has attempts left. */
  lemma {:induction false} AskTurn(cfg: Config, s: State, rs: seq<Request>, i: nat) returns (t: State)
    requires cfg.Valid() && i < |rs| && Half(s, rs, i) && Askable(rs, s.clock)
    ensures Half(t, rs, i + 1) && t.clock == s.clock && t.nextRid == s.nextRid
    ensures Turn(cfg, s, Place(rs, i), t, Place(rs, i + 1))
  {
    var rid, x := rs[i].rid, rs[i].(sent := s.clock, timesSent := rs[i].timesSent + 1);
    assert s.requests[i] == rs[i];
    FindRidAt(s.requests, s.nextRid, i);
    t := Query(cfg, s, rid);
    assert t.requests == s.requests[i := x];
    ReplaceView(s.requests, s.nextRid, i, x);
    AskedStep(rs, i, s.clock);
    forall fuel: nat | fuel > 0
      ensures SweepFrom(cfg, s, Place(rs, i), fuel) == SweepFrom(cfg, t, Place(rs, i + 1), fuel - 1)
    {
      assert HandleReq(cfg, s, rid, fuel - 1) == Done(t);
      SweepByOutcome(cfg, s, rid, fuel, Done(t));
    }
  }

  lemma {:induction false} AskWalk(cfg: Config, s: State, rs: seq<Request>) returns (us: seq<State>)
    requires cfg.Valid() && Half(s, rs, 0) && Askable(rs, s.clock)
    ensures Walk(cfg, us, rs) && |us| == |rs| + 1 && us[0] == s
    ensures Half(us[|rs|], rs, |rs|) && us[|rs|].clock == s.clock && us[|rs|].nextRid == s.nextRid
  {
    us := [s];
    var i := 0;
    while i < |rs|
      invariant 0 <= i <= |rs| && |us| == i + 1 && us[0] == s && Walk(cfg, us, rs)
      invariant Half(us[i], rs, i) && us[i].clock == s.clock && us[i].nextRid == s.nextRid
    {
      var t := AskTurn(cfg, us[i], rs, i);
      us, i := us + [t], i + 1;
    }
  }

  /** A pass over requests that are all due and have attempts left asks for each of them once more. */
  lemma {:induction false} TickAsksAll(cfg: Config, s: State, now: int) returns (t: State)
    requires cfg.Valid() && s.clock <= now && Descending(s.requests, s.nextRid) && Askable(s.requests, now)
    ensures Next(cfg, s, Timer(now), t) && t.clock == now && t.nextRid == s.nextRid
    ensures Descending(t.requests, t.nextRid) && t.requests == AskedAgain(s.requests, now)
  {
    var u, rs := Expiring(s.(clock := now)), s.requests;
    assert rs[..0] == [] && rs[0..] == rs && rs[..|rs|] == rs && rs[|rs|..] == [];
    assert AskedAgain(rs[..0], now) == [];
    var us := AskWalk(cfg, u, rs);
    WalkEnds(cfg, us, rs, 0, |rs|);
    t := us[|rs|];
    TimerUnfolds(cfg, s, now, |rs|);
    assert Step(cfg, s, Timer(now), |rs|) == Done(t);
  }

  /** All requests, sent for the `n`th time at time `n`. */
  function SentAt(rs: seq<Request>, n: nat): (r: seq<Request>)
    ensures |r| == |rs| && forall i {:trigger r[i]} :: 0 <= i < |rs| ==> r[i] == rs[i].(sent := n, timesSent := n)
  {
    seq(|rs|, i requires 0 <= i < |rs| => rs[i].(sent := n, timesSent := n))
  }

  /** Four more passes: everything has been sent five times. */
  lemma {:induction false} FourTicks(cfg: Config, ss: seq<State>, es: seq<Event>)
    returns (ts: seq<State>, ds: seq<Event>)
    requires cfg.Valid() && Run(cfg, ss, es)
    requires var s := ss[|es|]; s.clock == 1 && Descending(s.requests, s.nextRid) && s.requests == SentAt(s.requests, 1)
    ensures Run(cfg, ts, ds) && |ds| == |es| + 4
    ensures var s, t := ss[|es|], ts[|ds|];
            t.clock == 5 && t.requests == SentAt(s.requests, 5) && Descending(t.requests, t.nextRid)
  {
    var rs, k := ss[|es|].requests, |es|;
    ts, ds := ss, es;
    var n := 1;
    while n < 5
      invariant 1 <= n <= 5 && Run(cfg, ts, ds) && |ds| == k + n - 1 && ts[|ds|].clock == n
      invariant Descending(ts[|ds|].requests, ts[|ds|].nextRid) && ts[|ds|].requests == SentAt(rs, n)
    {
      var t := TickAsksAll(cfg, ts[|ds|], n + 1);
      assert AskedAgain(SentAt(rs, n), n + 1) == SentAt(rs, n + 1);
      RunExtends(cfg, ts, ds, Timer(n + 1), t);
      ts, ds := ts + [t], ds + [Timer(n + 1)];
      n := n + 1;
    }
  }

  // ----- a pass that never completes -----

  /** The event never completes. */
  ghost predicate Hangs(cfg: Config, s: State, e: Event)
    requires cfg.Valid()
  {
    forall fuel: nat :: Step(cfg, s, e, fuel) == OutOfFuel
  }

  /** A pass hangs if handling the first request does. */
  lemma {:induction false} HeadHangs(cfg: Config, s: State, now: int)
    requires cfg.Valid() && s.requests != []
    requires forall fuel: nat :: HandleReq(cfg, Expiring(s.(clock := now)), s.requests[0].rid, fuel) == OutOfFuel
    ensures Hangs(cfg, s, Timer(now))
  {
    var u, rid := Expiring(s.(clock := now)), s.requests[0].rid;
    assert FindRid(u.requests, rid) == 0;
    forall fuel: nat ensures Step(cfg, s, Timer(now), fuel) == OutOfFuel {
      TimerUnfolds(cfg, s, now, fuel);
      if fuel > 0 { SweepByOutcome(cfg, u, rid, fuel, HandleReq(cfg, u, rid, fuel - 1)); }
    }
  }

  lemma {:induction false} LoneShape(s: State, r: Request)
    requires s.requests == [r] && r.rid < s.nextRid
    ensures Shape(s) && Q(s) == map[r.rid := r] && Head(s) == Some(r.rid)
  {
    assert s.requests[1..] == [];
    assert View([]) == map[];
  }

  /** A lone exhausted request whose own packet would be answered through it hangs the sweep. */
  lemma {:induction false} LoneHangs(cfg: Config, s: State, r: Request, now: int)
    requires cfg.Valid() && s.requests == [r] && r.rid < s.nextRid
    requires r.sent < now && r.timesSent >= 5 && Hops(cfg, r.packets) == {r.ip}
    ensures Hangs(cfg, s, Timer(now))
  {
    var u := Expiring(s.(clock := now));
    LoneShape(u, r);
    var g := ReturnEdges(cfg, u);
    NodeOf(cfg, now, Q(u), r.rid);
    assert Edge(g, r.ip, r.ip);
    ReachSelf(g, r.ip);
    assert OnCycle(g, r.ip);
    HandleEndsIff(cfg, u, r.rid);
    HeadHangs(cfg, s, now);
  }

  /** The first packet of a run. */
  lemma {:induction false} FirstReceives(cfg: Config, rx: Frame, iface: string, f: Frame, o: Origin)
    returns (ss: seq<State>, es: seq<Event>, r: Request)
    requires cfg.Valid() && Queues(cfg, rx, iface, f, o)
    ensures Run(cfg, ss, es) && |es| == 1 && ss[1].clock == 1 && ss[1].requests == [r] && r.rid < ss[1].nextRid
    ensures MadeFor(cfg, r, f)
  {
    ss, es, r := RunReceives(cfg, [INIT], [], rx, iface, f, o);
    assert INIT.requests == [];
  }

  /** A packet that makes the router queue a frame whose error would wait where the frame itself waits:
      if that hop never answers, the sixth second never ends. */
  lemma {:induction false} SelfWaitingHangs(cfg: Config, rx: Frame, iface: string, f: Frame, o: Origin)
    returns (states: seq<State>, events: seq<Event>)
    requires cfg.Valid() && Queues(cfg, rx, iface, f, o) && ErrorHop(cfg, f) == Some(HopOf(cfg, f).ip)
    ensures Run(cfg, states, events) && |events| == 5 && states[5].clock == 5 && Hangs(cfg, states[5], Timer(6))
  {
    var ss, es, r := FirstReceives(cfg, rx, iface, f, o);
    assert [r] == SentAt([r], 1);
    LoneShape(ss[1], r);
    states, events := FourTicks(cfg, ss, es);
    LoneHangs(cfg, states[5], r.(sent := 5, timesSent := 5), 6);
  }

  /** Any packet whose source and destination lie behind the same next hop brings the router into
      a state where, if that hop never answers, the sixth second never ends: giving up on the
      request means sending an error that waits on the very same request. */
  lemma {:induction false} SharedNextHopHangs(cfg: Config, rx: Frame, iface: string)
    returns (states: seq<State>, events: seq<Event>)
    requires cfg.Valid() && Forwardable(cfg, rx) && ErrorHop(cfg, rx) == Some(HopOf(cfg, rx).ip)
    ensures Run(cfg, states, events) && |events| == 5 && states[5].clock == 5 && Hangs(cfg, states[5], Timer(6))
  {
    ForwardQueues(cfg, rx, iface);
    states, events := SelfWaitingHangs(cfg, rx, iface, Forwarded(rx), Forward(rx));
  }

  // ----- two requests -----

  lemma {:induction false} PairShape(s: State, a: Request, b: Request)
    requires s.requests == [b, a] && a.rid < b.rid < s.nextRid && a.ip != b.ip
    ensures Shape(s) && Q(s) == map[a.rid := a, b.rid := b] && Head(s) == Some(b.rid)
    ensures Follows(Q(s), b.rid, Some(a.rid))
  {
    assert s.requests[1..] == [a] && [a][1..] == [] && View([]) == map[];
    assert View([a]) == map[a.rid := a];
  }

  /** A second packet, to another next hop. */
  lemma {:induction false} SecondArrives(cfg: Config, ss: seq<State>, es: seq<Event>, ra: Request, b: Frame,
                                         iface: string)
    returns (ts: seq<State>, ds: seq<Event>, rb: Request)
    requires cfg.Valid() && Run(cfg, ss, es) && |es| == 1 && ss[1].clock == 1 && ss[1].requests == [ra]
    requires ra.rid < ss[1].nextRid && Forwardable(cfg, b) && ra.ip != HopOf(cfg, b).ip
    ensures Run(cfg, ts, ds) && |ds| == 2 && ts[2].clock == 1 && ts[2].requests == [rb, ra]
    ensures ra.rid < rb.rid < ts[2].nextRid && MadeFor(cfg, rb, Forwarded(b))
  {
    ForwardQueues(cfg, b, iface);
    FindIpIs(ss[1].requests, HopOf(cfg, b).ip, 1);
    ts, ds, rb := RunReceives(cfg, ss, es, b, iface, Forwarded(b), Forward(b));
  }

  /** The exhausted form of a request made for `f`. */
  predicate WornOut(cfg: Config, r: Request, f: Frame) {
    r.sent == 5 && r.timesSent == 5 && MadeFor(cfg, r.(sent := 1, timesSent := 1), f)
  }

  /** Two packets to different silent next hops: after five seconds both requests are used up. */
  lemma {:induction false} TwoWornOut(cfg: Config, a: Frame, b: Frame, iface: string)
    returns (states: seq<State>, events: seq<Event>, ra: Request, rb: Request)
    requires cfg.Valid() && Forwardable(cfg, a) && Forwardable(cfg, b) && HopOf(cfg, a).ip != HopOf(cfg, b).ip
    ensures Run(cfg, states, events) && |events| == 6 && states[6].clock == 5 && states[6].requests == [rb, ra]
    ensures ra.rid < rb.rid < states[6].nextRid && ra.ip != rb.ip
    ensures WornOut(cfg, ra, Forwarded(a)) && WornOut(cfg, rb, Forwarded(b))
  {
    ForwardQueues(cfg, a, iface);
    ForwardQueues(cfg, b, iface);
    var ss, es, qa := RunReceives(cfg, [INIT], [], a, iface, Forwarded(a), Forward(a));
    assert ss[1].requests == [qa];
    var ts, ds, qb := SecondArrives(cfg, ss, es, qa, b, iface);
    states, events, ra, rb := PairTicks(cfg, ts, ds, qa, qb);
    assert ra.(sent := 1, timesSent := 1) == qa && rb.(sent := 1, timesSent := 1) == qb;
  }

  lemma {:induction false} PairTicks(cfg: Config, ss: seq<State>, es: seq<Event>, qa: Request, qb: Request)
    returns (states: seq<State>, events: seq<Event>, ra: Request, rb: Request)
    requires cfg.Valid() && Run(cfg, ss, es) && |es| == 2
    requires ss[2].clock == 1 && ss[2].requests == [qb, qa] && qa.rid < qb.rid < ss[2].nextRid && qa.ip != qb.ip
    requires qa.sent == 1 && qb.sent == 1 && qa.timesSent == 1 && qb.timesSent == 1
    ensures Run(cfg, states, events) && |events| == 6 && states[6].clock == 5 && states[6].requests == [rb, ra]
    ensures ra == qa.(sent := 5, timesSent := 5) && rb == qb.(sent := 5, timesSent := 5) && rb.rid < states[6].nextRid
  {
    PairShape(ss[2], qa, qb);
    assert ss[2].requests == SentAt(ss[2].requests, 1);
    states, events := FourTicks(cfg, ss, es);
    ra, rb := qa.(sent := 5, timesSent := 5), qb.(sent := 5, timesSent := 5);
  }

  // ----- a pass that reads a freed request -----

  /** Two exhausted requests, the newer of which takes the older one down. */
  lemma {:induction false} PairFaults(cfg: Config, s: State, a: Request, b: Request, now: int)
    requires cfg.Valid() && NoSelfRoute(cfg) && s.requests == [b, a] && a.rid < b.rid < s.nextRid && a.ip != b.ip
    requires a.sent < now && b.sent < now && a.timesSent >= 5 && b.timesSent >= 5
    requires Hops(cfg, a.packets) == {} && Hops(cfg, b.packets) == {a.ip}
    ensures exists fuel: nat :: Step(cfg, s, Timer(now), fuel) == Fault
  {
    var u := Expiring(s.(clock := now));
    PairShape(u, a, b);
    var g, ids := ReturnEdges(cfg, u), Pending(Q(u), Some(b.rid));
    NodeOf(cfg, now, Q(u), a.rid);
    NodeOf(cfg, now, Q(u), b.rid);
    assert Bounded(g, a.ip, 1);
    assert forall c :: Edge(g, b.ip, c) ==> c == a.ip;
    assert Bounded(g, b.ip, 2);
    BoundedAcyclic(g, b.ip, 2);
    assert Edge(g, b.ip, a.ip);
    ReachSelf(g, a.ip);
    ReachStep(g, b.ip, a.ip, a.ip);
    FollowsPending(Q(u), b.rid, Some(a.rid));
    TimerOutcomeIff(cfg, s, now);
  }

  /** A packet `a` that cannot be answered, then in the same second a packet `b` to another next hop
      whose sender lies behind the next hop of `a`: if neither hop answers, the sixth second reads
      the request of `a` after giving up on that of `b` has freed it. */
  lemma {:induction false} ReturnThroughSilentHopFaults(cfg: Config, a: Frame, b: Frame, iface: string)
    returns (states: seq<State>, events: seq<Event>)
    requires cfg.Valid() && NoSelfRoute(cfg) && Forwardable(cfg, a) && Forwardable(cfg, b)
    requires HopOf(cfg, a).ip != HopOf(cfg, b).ip
    requires ErrorHop(cfg, a).None? && ErrorHop(cfg, b) == Some(HopOf(cfg, a).ip)
    ensures Run(cfg, states, events) && |events| == 6 && states[6].clock == 5
    ensures exists fuel: nat :: Step(cfg, states[6], Timer(6), fuel) == Fault
  {
    ForwardQueues(cfg, a, iface);
    ForwardQueues(cfg, b, iface);
    var ra, rb;
    states, events, ra, rb := TwoWornOut(cfg, a, b, iface);
    PairFaults(cfg, states[6], ra, rb, 6);
  }

  // ----- a route to an own address -----

  /** `own` is an address of the router, and a route to it leads over `ip` and back to it. */
  predicate SelfRoute(cfg: Config, own: Ip, ip: Ip) {
    && own != ZERO_IP && Resolve(cfg, own).Some?
    && Resolve(cfg, own).value.ip == ip && Resolve(cfg, own).value.iface.ip == own
  }

  /** The newest packet of an exhausted request comes from `own`. */
  ghost predicate OwnOnTop(s: State, rid: nat, own: Ip) {
    && Shape(s) && rid in Q(s) && Exhausted(s.clock, Q(s)[rid])
    && Q(s)[rid].packets != [] && |Q(s)[rid].packets[0].frame| >= 34 && Src(Q(s)[rid].packets[0].frame) == own
  }

  /** An error that waits on an exhausted request puts a packet of the router on top of it. */
  lemma {:induction false} ErrorJoins(cfg: Config, s: State, rid: nat, frame: Frame, own: Ip, fuel: nat)
    returns (t: State)
    requires cfg.Valid() && Shape(s) && rid in Q(s) && Exhausted(s.clock, Q(s)[rid]) && |frame| >= 34 && own != ZERO_IP
    requires Resolve(cfg, Src(frame)).Some? && Resolve(cfg, Src(frame)).value.ip == Q(s)[rid].ip
    requires Resolve(cfg, Src(frame)).value.iface.ip == own
    ensures OwnOnTop(t, rid, own) && Q(t)[rid].ip == Q(s)[rid].ip
    ensures SendError(cfg, s, 3, 1, frame, ZERO_IP, fuel) == HandleReq(cfg, t, rid, fuel)
  {
    var hop, e := Resolve(cfg, Src(frame)).value, IcmpError(3, 1, frame, own, cfg.beyond);
    var f, o := Stamp(e, hop.iface.addr), Error(3, 1, frame, own);
    t := Enqueue(s, f, hop, o);
    JoinsView(s, hop.ip);
    EnqueueView(s, f, hop, o);
    RouteUnfolds(cfg, s, e, o, fuel);
  }

  /** Giving up on a request hangs if its first error does. */
  lemma {:induction false} FirstErrorHangs(cfg: Config, s: State, rid: nat, p: Packet, fuel: nat, s1: State)
    requires cfg.Valid() && Shape(s) && rid in Q(s) && Exhausted(s.clock, Q(s)[rid]) && fuel > 0
    requires Q(s)[rid].packets != [] && p == Q(s)[rid].packets[0] && |p.frame| >= 34
    requires s1 == s.(attempts := s.attempts + [p.pid])
    requires SendError(cfg, s1, 3, 1, p.frame, ZERO_IP, fuel - 1) == OutOfFuel
    ensures HandleReq(cfg, s, rid, fuel) == OutOfFuel
  {
    QueuedView(s, rid);
  }

  lemma {:induction false} NoFuel(cfg: Config, s: State, rid: nat)
    requires cfg.Valid() && Shape(s) && rid in Q(s) && Exhausted(s.clock, Q(s)[rid])
    ensures HandleReq(cfg, s, rid, 0) == OutOfFuel
  {
    QueuedView(s, rid);
  }

  /** Giving up on `rid` hangs if it puts a packet of the router on top of `other` and that hangs. */
  lemma {:induction false} GiveUpJoins(cfg: Config, s: State, rid: nat, other: nat, own: Ip, fuel: nat)
    returns (t: State)
    requires cfg.Valid() && Shape(s) && rid in Q(s) && Exhausted(s.clock, Q(s)[rid]) && fuel > 0 && own != ZERO_IP
    requires Q(s)[rid].packets != [] && |Q(s)[rid].packets[0].frame| >= 34
    requires other in Q(s) && Exhausted(s.clock, Q(s)[other])
    requires var back := Resolve(cfg, Src(Q(s)[rid].packets[0].frame));
             back.Some? && back.value.ip == Q(s)[other].ip && back.value.iface.ip == own
    ensures OwnOnTop(t, other, own) && Q(t)[other].ip == Q(s)[other].ip
    ensures HandleReq(cfg, t, other, fuel - 1) == OutOfFuel ==> HandleReq(cfg, s, rid, fuel) == OutOfFuel
  {
    var p := Q(s)[rid].packets[0];
    var s1 := s.(attempts := s.attempts + [p.pid]);
    assert Q(s1) == Q(s) && Shape(s1);
    t := ErrorJoins(cfg, s1, other, p.frame, own, fuel - 1);
    if HandleReq(cfg, t, other, fuel - 1) == OutOfFuel {
      assert SendError(cfg, s1, 3, 1, p.frame, ZERO_IP, fuel - 1) == OutOfFuel;
      FirstErrorHangs(cfg, s, rid, p, fuel, s1);
    }
  }

  lemma {:induction false} OwnOnTopHangs(cfg: Config, s: State, rid: nat, own: Ip, ip: Ip, fuel: nat)
    requires cfg.Valid() && OwnOnTop(s, rid, own) && Q(s)[rid].ip == ip && SelfRoute(cfg, own, ip)
    ensures HandleReq(cfg, s, rid, fuel) == OutOfFuel
    decreases fuel
  {
    if fuel == 0 {
      NoFuel(cfg, s, rid);
    } else {
      var t := GiveUpJoins(cfg, s, rid, rid, own, fuel);
      OwnOnTopHangs(cfg, t, rid, own, ip, fuel - 1);
    }
  }

  /** Why the graph needs the assumption that no route leads to an own address: with such a route an
      error can itself be answered, so that an activation need not end although no cycle can be
      reached in the graph of the packets queued at its start. */
  lemma {:induction false} SelfRouteDefeatsGraph(cfg: Config, s: State, a: nat, b: nat, own: Ip)
    requires cfg.Valid() && Shape(s) && a in Q(s) && b in Q(s)
    requires Exhausted(s.clock, Q(s)[a]) && Exhausted(s.clock, Q(s)[b])
    requires |Q(s)[a].packets| == 1 && |Q(s)[a].packets[0].frame| >= 34 && Hops(cfg, Q(s)[b].packets) == {}
    requires var back := Resolve(cfg, Src(Q(s)[a].packets[0].frame));
             back.Some? && back.value.ip == Q(s)[b].ip && back.value.iface.ip == own
    requires SelfRoute(cfg, own, Q(s)[b].ip)
    ensures AcyclicFrom(ReturnEdges(cfg, s), Q(s)[a].ip)
    ensures forall fuel: nat :: HandleReq(cfg, s, a, fuel) == OutOfFuel
  {
    var g := ReturnEdges(cfg, s);
    assert Q(s)[a].packets[1..] == [] && Hops(cfg, Q(s)[a].packets) == {Q(s)[b].ip};
    NodeOf(cfg, s.clock, Q(s), a);
    NodeOf(cfg, s.clock, Q(s), b);
    assert Bounded(g, Q(s)[b].ip, 1);
    assert Bounded(g, Q(s)[a].ip, 2);
    BoundedAcyclic(g, Q(s)[a].ip, 2);
    forall fuel: nat ensures HandleReq(cfg, s, a, fuel) == OutOfFuel {
      if fuel == 0 {
        NoFuel(cfg, s, a);
      } else {
        var t := GiveUpJoins(cfg, s, a, b, own, fuel);
        OwnOnTopHangs(cfg, t, b, own, Q(s)[b].ip, fuel - 1);
      }
    }
  }

  /** It happens: a packet `a` that cannot be answered, and a packet `b` to another next hop whose
      sender lies behind the next hop of `a`, over an interface whose address is routed there too.
      After a run from the start no cycle can be reached from the first request of the list, and yet
      the sixth second never ends. */
  lemma {:induction false} SelfRouteHangs(cfg: Config, a: Frame, b: Frame, iface: string, own: Ip)
    returns (states: seq<State>, events: seq<Event>)
    requires cfg.Valid() && Forwardable(cfg, a) && Forwardable(cfg, b) && HopOf(cfg, a).ip != HopOf(cfg, b).ip
    requires ErrorHop(cfg, a).None? && SelfRoute(cfg, own, HopOf(cfg, a).ip)
    requires var back := Resolve(cfg, Src(b));
             back.Some? && back.value.ip == HopOf(cfg, a).ip && back.value.iface.ip == own
    ensures Run(cfg, states, events) && |events| == 6 && states[6].clock == 5 && states[6].requests != []
    ensures AcyclicFrom(ReturnEdges(cfg, Expiring(states[6].(clock := 6))), states[6].requests[0].ip)
    ensures Hangs(cfg, states[6], Timer(6))
  {
    ForwardQueues(cfg, a, iface);
    ForwardQueues(cfg, b, iface);
    var ra, rb;
    states, events, ra, rb := TwoWornOut(cfg, a, b, iface);
    var u := Expiring(states[6].(clock := 6));
    PairShape(u, ra, rb);
    SelfRouteDefeatsGraph(cfg, u, rb.rid, ra.rid, own);
    HeadHangs(cfg, states[6], 6);
  }

  // ----- packets -----

  /** An Ethernet header in front of an IP header and what it carries. */
  lemma {:induction false} Framed(h: seq<byte>, body: seq<byte>) returns (rx: Frame)
    requires |h| == 20 && h[0] == 0x45
    ensures |rx| == 34 + |body| && Ethertype(rx) == 0x0800 && HeaderLen(rx) == 20 && Header(rx) == h && Icmp(rx) == body
    ensures Get16(rx, 16) == Get16(h, 2) && Ttl(rx) == h[8] && rx[23] == h[9]
    ensures Src(rx) == h[12..16] && Dst(rx) == h[16..20]
  {
    rx := Zeros(12) + [8, 0] + h + body;
    assert rx[14..34] == h && rx[34..] == body;
    assert rx[12] == 8 && rx[13] == 0;
    forall i | 0 <= i < 20 ensures rx[14 + i] == h[i] { assert rx[14..34][i] == h[i]; }
    assert rx[14] == h[0] && rx[16] == h[2] && rx[17] == h[3] && rx[22] == h[8] && rx[23] == h[9];
    assert rx[26..30] == [rx[26], rx[27], rx[28], rx[29]] == [h[12], h[13], h[14], h[15]] == h[12..16];
    assert rx[30..34] == [rx[30], rx[31], rx[32], rx[33]] == [h[16], h[17], h[18], h[19]] == h[16..20];
  }

  lemma {:induction false} ErrorHeaderFields(src: Ip, dst: Ip)
    ensures var h := ErrorHeader(src, dst);
            && h[0] == 0x45 && Get16(h, 2) == 56 && h[8] == 255 && h[9] == 1
            && h[12..16] == src && h[16..20] == dst
  {
  }

  /** Every pair of addresses has a valid packet between them. */
  lemma {:induction false} PacketBetween(src: Ip, dst: Ip, body: seq<byte>) returns (rx: Frame)
    ensures |rx| == 34 + |body| && Ethertype(rx) == 0x0800 && IpValid(rx) && Ttl(rx) > 1 && rx[23] == 1
    ensures Src(rx) == src && Dst(rx) == dst && HeaderLen(rx) == 20 && Icmp(rx) == body
  {
    ErrorHeaderSums(src, dst);
    ErrorHeaderFields(src, dst);
    rx := Framed(ErrorHeader(src, dst), body);
  }

  /** In particular a valid echo request. */
  lemma {:induction false} PingBetween(src: Ip, dst: Ip) returns (rx: Frame)
    ensures |rx| >= 34 && Ethertype(rx) == 0x0800 && IpValid(rx) && rx[23] == 1 && EchoRequestOk(rx)
    ensures Src(rx) == src && Dst(rx) == dst
  {
    var body := Seal([8, 0, 0, 0, 0, 0, 0, 0], 2);
    SealedIsAccepted([8, 0, 0, 0, 0, 0, 0, 0], 2);
    rx := PacketBetween(src, dst, body);
  }

  // ----- which routing tables can hang the router -----

  /** `dst` is routed over an interface that has an address, so that errors to it are sent. */
  predicate Numbered(cfg: Config, dst: Ip) {
    Resolve(cfg, dst).Some? && Resolve(cfg, dst).value.iface.ip != ZERO_IP
  }

  /** Some run from the start leads to an event that never completes. */
  ghost predicate CanHang(cfg: Config)
    requires cfg.Valid()
  {
    exists states: seq<State>, events: seq<Event>, e: Event ::
      Run(cfg, states, events) && states[|events|].clock <= e.now && Hangs(cfg, states[|events|], e)
  }

  lemma {:induction false} EchoQueues(cfg: Config, rx: Frame, iface: string)
    requires cfg.Valid() && IpValid(rx) && rx[23] == 1 && EchoRequestOk(rx) && Ethertype(rx) == 0x0800
    requires IfaceForIp(cfg.ifaces, Dst(rx)).Some? && Resolve(cfg, Src(rx)).Some?
    ensures Queues(cfg, rx, iface, EchoReply(rx), Echo(rx))
    ensures Src(EchoReply(rx)) == Dst(rx) && Dst(EchoReply(rx)) == Src(rx)
  {
    EchoReplyLayout(rx);
  }

  /** A packet from `dst` to itself, or a ping if `dst` is the router's own address, waits on the request
      on which its error would wait. */
  lemma {:induction false} SelfWaiting(cfg: Config, dst: Ip, iface: string) returns (rx: Frame, f: Frame, o: Origin)
    requires cfg.Valid() && Numbered(cfg, dst)
    ensures Queues(cfg, rx, iface, f, o) && ErrorHop(cfg, f) == Some(HopOf(cfg, f).ip)
  {
    if IfaceForIp(cfg.ifaces, dst).None? {
      rx := PacketBetween(dst, dst, []);
      f, o := Forwarded(rx), Forward(rx);
      ForwardQueues(cfg, rx, iface);
    } else {
      rx := PingBetween(dst, dst);
      f, o := EchoReply(rx), Echo(rx);
      EchoQueues(cfg, rx, iface);
    }
  }

  lemma {:induction false} NoErrorHops(cfg: Config, ps: seq<Packet>)
    requires forall dst :: !Numbered(cfg, dst)
    ensures Hops(cfg, ps) == {}
  {
    if ps != [] {
      if |ps[0].frame| >= 34 { assert !Numbered(cfg, Src(ps[0].frame)); }
      NoErrorHops(cfg, ps[1..]);
    }
  }

  lemma {:induction false} UnnumberedIsEdgeFree(cfg: Config, s: State)
    requires forall dst :: !Numbered(cfg, dst)
    ensures EdgeFree(ReturnEdges(cfg, s))
  {
    var g := ReturnEdges(cfg, s);
    forall a, b ensures !Edge(g, a, b) {
      if a in g {
        var k := NodeFrom(cfg, s.clock, Q(s), a);
        NoErrorHops(cfg, Q(s)[k].packets);
      }
    }
  }

  lemma {:induction false} UnnumberedRouteEnds(cfg: Config, s: State, frame: Frame, origin: Origin)
    requires cfg.Valid() && Shape(s) && forall dst :: !Numbered(cfg, dst)
    ensures RouteAndSend(cfg, s, frame, origin, 1).Done?
  {
    if Routable(cfg, frame) {
      var hop := HopOf(cfg, frame);
      var f := Stamp(frame, hop.iface.addr);
      var t := Enqueue(s, f, hop, origin);
      EnqueueView(s, f, hop, origin);
      UnnumberedIsEdgeFree(cfg, t);
      EdgeFreeHandle(cfg, t, Joins(s, hop.ip), 1);
      RouteUnfolds(cfg, s, frame, origin, 1);
    }
  }

  /** If no error can be sent at all, every event completes, from every state. */
  lemma {:induction false} UnnumberedCompletes(cfg: Config, s: State, e: Event) returns (fuel: nat)
    requires cfg.Valid() && Shape(s) && forall dst :: !Numbered(cfg, dst)
    ensures Step(cfg, s, e, fuel).Done?
  {
    var u := s.(clock := e.now);
    match e
    case Timer(now) =>
      UnnumberedIsEdgeFree(cfg, Expiring(u));
      fuel := EdgeFreeSweep(cfg, Expiring(u));
      TimerUnfolds(cfg, s, now, fuel);
    case Receive(now, frame, iface) =>
      fuel := 1;
      if |frame| >= 14 && Ethertype(frame) == 0x0800 {
        ReceiveUnfolds(cfg, s, now, frame, iface, 1);
        var out := Outgoing(cfg, frame, iface);
        if out.Some? { UnnumberedRouteEnds(cfg, u, out.value.0, out.value.1); }
      }
  }

  /** The router can be brought to hang if and only if some destination is routed over an interface that
      has an address. */
  lemma {:induction false} CanHangIff(cfg: Config)
    requires cfg.Valid()
    ensures CanHang(cfg) <==> exists dst :: Numbered(cfg, dst)
  {
    if dst :| Numbered(cfg, dst) {
      var rx, f, o := SelfWaiting(cfg, dst, "");
      var states, events := SelfWaitingHangs(cfg, rx, "", f, o);
      assert Hangs(cfg, states[|events|], Timer(6)) && states[|events|].clock <= Timer(6).now;
    } else if CanHang(cfg) {
      var states: seq<State>, events: seq<Event>, e: Event :|
        Run(cfg, states, events) && states[|events|].clock <= e.now && Hangs(cfg, states[|events|], e);
      RunInv(cfg, states, events, |events|);
      var fuel := UnnumberedCompletes(cfg, states[|events|], e);
    }
  }

  // ----- one of each -----

  const HERE: Ip := [10, 0, 0, 1]
  const HOST_A: Ip := [10, 0, 0, 2]
  const HOST_B: Ip := [10, 0, 0, 3]
  const STRANGER: Ip := [10, 0, 0, 4]
  const GATEWAY: Ip := [10, 0, 0, 9]

  /** One interface, and two hosts behind the same gateway. */
  const TWO_BEHIND_ONE := Config([Iface("eth0", [2, 0, 0, 0, 0, 1], HERE)],
                                 [Route(HOST_A, GATEWAY, "eth0"), Route(HOST_B, GATEWAY, "eth0")], Zeros(8))

  /** One interface, one host behind a gateway and one on the link. */
  const ONE_BEHIND := Config([Iface("eth0", [2, 0, 0, 0, 0, 1], HERE)],
                             [Route(HOST_A, GATEWAY, "eth0"), Route(HOST_B, ZERO_IP, "eth0")], Zeros(8))

  /** The same with a route to the router itself. */
  const SELF_ROUTED := ONE_BEHIND.(routes := ONE_BEHIND.routes + [Route(HERE, GATEWAY, "eth0")])

  lemma {:induction false} LastOctetsDiffer()
    ensures HOST_A != HOST_B && HERE != HOST_A && HERE != HOST_B && GATEWAY != HOST_B
    ensures STRANGER != HOST_A && STRANGER != HOST_B && STRANGER != HERE && GATEWAY != ZERO_IP && HERE != ZERO_IP
  {
    assert HOST_A[3] != HOST_B[3] && HERE[3] != HOST_A[3] && HERE[3] != HOST_B[3] && GATEWAY[3] != HOST_B[3];
    assert STRANGER[3] != HOST_A[3] && STRANGER[3] != HOST_B[3] && STRANGER[3] != HERE[3];
    assert GATEWAY[0] != ZERO_IP[0] && HERE[0] != ZERO_IP[0];
  }

  /** Two routes over one interface, and what may follow them, resolve as they say. */
  lemma {:induction false} TwoRoutes(cfg: Config, gw: Ip, more: seq<Route>)
    requires cfg.ifaces == [Iface("eth0", [2, 0, 0, 0, 0, 1], HERE)]
    requires cfg.routes == [Route(HOST_A, GATEWAY, "eth0"), Route(HOST_B, gw, "eth0")] + more
    ensures Resolve(cfg, HOST_A) == Some(Hop(GATEWAY, cfg.ifaces[0]))
    ensures Resolve(cfg, HOST_B) == Some(Hop(if gw == ZERO_IP then HOST_B else gw, cfg.ifaces[0]))
    ensures forall dst :: dst != HOST_A && dst != HOST_B ==> ExactMatch(cfg.routes, dst) == ExactMatch(more, dst)
    ensures IfaceForIp(cfg.ifaces, HOST_A).None? && IfaceForIp(cfg.ifaces, HOST_B).None?
    ensures more == [] ==> NoSelfRoute(cfg)
  {
    LastOctetsDiffer();
    assert GetInterface(cfg.ifaces, "eth0") == Some(cfg.ifaces[0]);
    assert cfg.routes[1..] == [Route(HOST_B, gw, "eth0")] + more && cfg.routes[1..][1..] == more;
    assert ExactMatch(cfg.routes[1..], HOST_B) == Some(cfg.routes[1]);
    forall i | i in cfg.ifaces ensures i.ip == HERE { }
  }

  lemma {:induction false} HangingRun() returns (states: seq<State>, events: seq<Event>)
    ensures Run(TWO_BEHIND_ONE, states, events) && |events| == 5 && Hangs(TWO_BEHIND_ONE, states[5], Timer(6))
  {
    LastOctetsDiffer();
    TwoRoutes(TWO_BEHIND_ONE, GATEWAY, []);
    var rx := PacketBetween(HOST_A, HOST_B, []);
    states, events := SharedNextHopHangs(TWO_BEHIND_ONE, rx, "eth0");
  }

  lemma {:induction false} FaultingRun() returns (states: seq<State>, events: seq<Event>)
    ensures Run(ONE_BEHIND, states, events) && |events| == 6
    ensures exists fuel: nat :: Step(ONE_BEHIND, states[6], Timer(6), fuel) == Fault
  {
    LastOctetsDiffer();
    TwoRoutes(ONE_BEHIND, ZERO_IP, []);
    var a := PacketBetween(STRANGER, HOST_A, []);
    var b := PacketBetween(HOST_A, HOST_B, []);
    states, events := ReturnThroughSilentHopFaults(ONE_BEHIND, a, b, "eth0");
  }

  lemma {:induction false} SelfRoutedRun() returns (states: seq<State>, events: seq<Event>)
    ensures Run(SELF_ROUTED, states, events) && |events| == 6 && states[6].requests != []
    ensures AcyclicFrom(ReturnEdges(SELF_ROUTED, Expiring(states[6].(clock := 6))), states[6].requests[0].ip)
    ensures Hangs(SELF_ROUTED, states[6], Timer(6))
  {
    var more := [Route(HERE, GATEWAY, "eth0")];
    LastOctetsDiffer();
    TwoRoutes(SELF_ROUTED, ZERO_IP, more);
    assert ExactMatch(more, HERE) == Some(more[0]) && ExactMatch(more, STRANGER).None?;
    assert GetInterface(SELF_ROUTED.ifaces, "eth0") == Some(SELF_ROUTED.ifaces[0]);
    var a := PacketBetween(STRANGER, HOST_A, []);
    var b := PacketBetween(HOST_A, HOST_B, []);
    states, events := SelfRouteHangs(SELF_ROUTED, a, b, "eth0", HERE);
  }
}
