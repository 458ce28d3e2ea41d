/** Who is told that a packet was abandoned. */
module Notices {
  import opened Bytes
  import opened Packets
  import opened Routing
  import opened RouterModel
  import opened RequestQueue
  import opened Activation
  import opened Sweep
  import opened Invariants
  import opened Preservation
  import opened Events
  import opened Disposition
  import opened Runs
  import ArpTable

  /** A route leads back to the sender, over an interface that has an address. */
  predicate Tellable(cfg: Config, f: Frame) {
    |f| >= 34 && Resolve(cfg, f[26..30]).Some? && Resolve(cfg, f[26..30]).value.iface.ip != [0, 0, 0, 0]
  }

  /** How many Host Unreachables among the accepted frames are about `x`. */
  function NoticesAbout(acc: seq<Accepted>, x: Frame): (n: nat) {
    if acc == [] then 0
    else
      var a := acc[|acc| - 1];
      NoticesAbout(acc[..|acc| - 1], x) + if HostUnreachable(a.origin) && a.origin.offender == x then 1 else 0
  }

  /** How many of these accepted frames are `x`. */
  function Copies(acc: seq<Accepted>, pids: seq<nat>, x: Frame): (n: nat) {
    if pids == [] then 0
    else
      var p := pids[|pids| - 1];
      Copies(acc, pids[..|pids| - 1], x) + if p < |acc| && acc[p].frame == x then 1 else 0
  }

  predicate Below(n: nat, p: nat) { p < n }

  ghost predicate Within(pids: seq<nat>, n: nat) {
    forall j {:trigger Below(n, pids[j])} :: 0 <= j < |pids| ==> Below(n, pids[j])
  }

  /** Every attempt was about an accepted frame, and led to a Host Unreachable if its sender can be told. */
  ghost predicate Matched(cfg: Config, s: State) {
    && Within(s.attempts, |s.accepted|)
    && forall x :: NoticesAbout(s.accepted, x) == if Tellable(cfg, x) then Copies(s.accepted, s.attempts, x) else 0
  }

  lemma {:induction false} CopiesGrow(acc: seq<Accepted>, more: seq<Accepted>, pids: seq<nat>, x: Frame)
    requires acc <= more && Within(pids, |acc|)
    ensures Copies(more, pids, x) == Copies(acc, pids, x)
  {
    if pids != [] {
      var n := |pids| - 1;
      assert Below(|acc|, pids[n]);
      assert Within(pids[..n], |acc|) by {
        forall j | 0 <= j < n ensures Below(|acc|, pids[..n][j]) { assert Below(|acc|, pids[j]); }
      }
      CopiesGrow(acc, more, pids[..n], x);
    }
  }

  lemma {:induction false} WithinGrows(pids: seq<nat>, n: nat, m: nat)
    requires Within(pids, n) && n <= m
    ensures Within(pids, m)
  {
    forall j | 0 <= j < |pids| ensures Below(m, pids[j]) { assert Below(n, pids[j]); }
  }

  lemma {:induction false} WithinAppend(pids: seq<nat>, n: nat, p: nat)
    requires Within(pids, n) && p < n
    ensures Within(pids + [p], n)
  {
    var more := pids + [p];
    forall j | 0 <= j < |more| ensures Below(n, more[j]) { if j < |pids| { assert Below(n, pids[j]); } }
  }

  /** Any other frame is accepted without an attempt. */
  lemma {:induction false} OtherMatched(cfg: Config, s: State, t: State, a: Accepted)
    requires Matched(cfg, s) && t.attempts == s.attempts && t.accepted == s.accepted + [a] && !HostUnreachable(a.origin)
    ensures Matched(cfg, t)
  {
    WithinGrows(s.attempts, |s.accepted|, |t.accepted|);
    assert t.accepted[..|s.accepted|] == s.accepted;
    forall x ensures NoticesAbout(t.accepted, x) == if Tellable(cfg, x) then Copies(t.accepted, t.attempts, x) else 0 {
      CopiesGrow(s.accepted, t.accepted, s.attempts, x);
      assert NoticesAbout(t.accepted, x) == NoticesAbout(s.accepted, x);
    }
  }

  /** An attempt for a packet whose sender cannot be told. */
  lemma {:induction false} UntoldMatched(cfg: Config, s: State, t: State, p: Packet)
    requires Matched(cfg, s) && t.attempts == s.attempts + [p.pid] && t.accepted == s.accepted
    requires p.pid < |s.accepted| && s.accepted[p.pid].frame == p.frame && !Tellable(cfg, p.frame)
    ensures Matched(cfg, t)
  {
    WithinAppend(s.attempts, |s.accepted|, p.pid);
    assert t.attempts[..|s.attempts|] == s.attempts;
  }

  /** An attempt together with the Host Unreachable that it leads to. */
  lemma {:induction false} ToldMatched(cfg: Config, s: State, t: State, p: Packet, a: Accepted)
    requires Matched(cfg, s) && t.attempts == s.attempts + [p.pid] && t.accepted == s.accepted + [a]
    requires p.pid < |s.accepted| && s.accepted[p.pid].frame == p.frame && Tellable(cfg, p.frame)
    requires HostUnreachable(a.origin) && a.origin.offender == p.frame
    ensures Matched(cfg, t)
  {
    WithinGrows(s.attempts, |s.accepted|, |t.accepted|);
    WithinAppend(s.attempts, |t.accepted|, p.pid);
    assert t.attempts[..|s.attempts|] == s.attempts && t.accepted[..|s.accepted|] == s.accepted;
    assert t.accepted[p.pid] == s.accepted[p.pid];
    forall x ensures NoticesAbout(t.accepted, x) == if Tellable(cfg, x) then Copies(t.accepted, t.attempts, x) else 0 {
      CopiesGrow(s.accepted, t.accepted, s.attempts, x);
      var one := if x == p.frame then 1 else 0;
      assert NoticesAbout(t.accepted, x) == NoticesAbout(s.accepted, x) + one;
      assert Copies(t.accepted, t.attempts, x) == Copies(t.accepted, s.attempts, x) + one;
    }
  }

  // ----- the mutually recursive part -----

  /** The packets are frames that were accepted. */
  ghost predicate Filed(acc: seq<Accepted>, ps: seq<Packet>) {
    forall i {:trigger ps[i]} :: 0 <= i < |ps| ==>
      ps[i].pid < |acc| && acc[ps[i].pid].frame == ps[i].frame && |ps[i].frame| >= 34
  }

  lemma {:induction false} QueuedAreFiled(cfg: Config, s: State, rid: nat)
    requires Inv(cfg, s) && rid in Q(s)
    ensures Filed(s.accepted, Q(s)[rid].packets)
  {
    var ps := Q(s)[rid].packets;
    QueuedAreFull(cfg, s, rid);
    assert RequestOk(s.accepted, Q(s)[rid]);
    forall i | 0 <= i < |ps| ensures ps[i].pid < |s.accepted| && s.accepted[ps[i].pid].frame == ps[i].frame {
      assert PacketOk(s.accepted, Q(s)[rid].ip, ps[i]);
    }
  }

  lemma {:induction false} KeptIsMatched(cfg: Config, s: State, rid: nat, fuel: nat, t: State)
    requires cfg.Valid() && Shape(s) && rid in Q(s) && !Exhausted(s.clock, Q(s)[rid])
    requires HandleReq(cfg, s, rid, fuel) == Done(t) && Matched(cfg, s)
    ensures Matched(cfg, t)
  {
    QueuedView(s, rid);
  }

  lemma {:induction false} HandleMatched(cfg: Config, s: State, rid: nat, fuel: nat, t: State)
    requires cfg.Valid() && Inv(cfg, s) && rid in Q(s) && StartedBut(s, rid) && HandleReq(cfg, s, rid, fuel) == Done(t)
    requires Matched(cfg, s)
    ensures Matched(cfg, t)
    decreases fuel, 0, 0
  {
    if Exhausted(s.clock, Q(s)[rid]) {
      var u := GiveUpUnfolds(cfg, s, rid, fuel, t);
      AbandonMatched(cfg, s, rid, fuel - 1, u);
    } else {
      KeptIsMatched(cfg, s, rid, fuel, t);
    }
  }

  lemma {:induction false} AbandonMatched(cfg: Config, s: State, rid: nat, fuel: nat, t: State)
    requires cfg.Valid() && Inv(cfg, s) && rid in Q(s) && StartedBut(s, rid) && Exhausted(s.clock, Q(s)[rid])
    requires GiveUp(cfg, s, rid, Q(s)[rid].packets, fuel) == Done(t) && Queued(t, rid) && Matched(cfg, s)
    ensures Matched(cfg, Destroy(t, rid))
    decreases fuel, 4, 0
  {
    StartedAll(s, rid);
    QueuedAreFiled(cfg, s, rid);
    GiveUpMatched(cfg, s, rid, Q(s)[rid].packets, fuel, t);
  }

  lemma {:induction false} GiveUpMatched(cfg: Config, s: State, rid: nat, ps: seq<Packet>, fuel: nat, t: State)
    requires cfg.Valid() && Inv(cfg, s) && Started(s) && Filed(s.accepted, ps)
    requires GiveUp(cfg, s, rid, ps, fuel) == Done(t) && Matched(cfg, s)
    ensures Matched(cfg, t)
    decreases fuel, 3, |ps|
  {
    if ps != [] {
      assert ps[0].pid < |s.accepted|;
      var s1, u := GiveUpFirst(cfg, s, rid, ps, fuel, t);
      AttemptInv(cfg, s, ps[0].pid);
      ErrorInv(cfg, s1, ps[0].frame, fuel);
      ErrorGrows(cfg, s1, ps[0].frame, fuel);
      NoticeMatched(cfg, s, s1, ps[0], fuel, u);
      assert Filed(u.accepted, ps[1..]) by {
        forall i | 0 <= i < |ps[1..]| ensures u.accepted[ps[1..][i].pid] == s.accepted[ps[i + 1].pid] { }
      }
      GiveUpMatched(cfg, u, rid, ps[1..], fuel, t);
    }
  }

  /** One packet of a request that is given up. */
  lemma {:induction false} NoticeMatched(cfg: Config, s: State, s1: State, p: Packet, fuel: nat, t: State)
    requires cfg.Valid() && Inv(cfg, s1) && Started(s1) && s1 == s.(attempts := s.attempts + [p.pid])
    requires p.pid < |s.accepted| && s.accepted[p.pid].frame == p.frame && |p.frame| >= 34
    requires SendError(cfg, s1, 3, 1, p.frame, ZERO_IP, fuel) == Done(t)
    requires Matched(cfg, s)
    ensures Matched(cfg, t)
    decreases fuel, 2, 0
  {
    var from := ErrorSource(cfg, p.frame, ZERO_IP);
    if Tellable(cfg, p.frame) {
      var e, o := IcmpError(3, 1, p.frame, from, cfg.beyond), Error(3, 1, p.frame, from);
      var hop := Resolve(cfg, Dst(e)).value;
      var f := Stamp(e, hop.iface.addr);
      var u := Enqueue(s1, f, hop, o);
      ToldMatched(cfg, s, u, p, Accepted(f, hop.ip, hop.iface.name, o));
      UnreachableIsValid(cfg, p.frame);
      EnqueuedIsReady(cfg, s1, e, o);
      HandleMatched(cfg, u, Joins(s1, hop.ip), fuel, t);
    } else {
      UntoldMatched(cfg, s, s1, p);
    }
  }

  /** After queueing a frame the router has built, its request can be handled. */
  lemma {:induction false} EnqueuedIsReady(cfg: Config, s: State, frame: Frame, origin: Origin)
    requires cfg.Valid() && Inv(cfg, s) && Started(s) && OriginValid(cfg, origin) && frame == Built(cfg, origin)
    requires Routable(cfg, frame)
    ensures var hop := Resolve(cfg, Dst(frame)).value;
            var u := Enqueue(s, Stamp(frame, hop.iface.addr), hop, origin);
            Inv(cfg, u) && Joins(s, hop.ip) in Q(u) && StartedBut(u, Joins(s, hop.ip))
  {
    var hop := Resolve(cfg, Dst(frame)).value;
    var f := Stamp(frame, hop.iface.addr);
    StampedIsAccepted(cfg, frame, origin);
    EnqueueInv(cfg, s, f, hop, origin);
    EnqueueView(s, f, hop, origin);
    EnqueueStarted(s, f, hop, origin);
  }

  // ----- events -----

  lemma {:induction false} RouteMatched(cfg: Config, s: State, frame: Frame, origin: Origin, fuel: nat, t: State)
    requires cfg.Valid() && Inv(cfg, s) && Started(s) && OriginValid(cfg, origin) && frame == Built(cfg, origin)
    requires RouteAndSend(cfg, s, frame, origin, fuel) == Done(t) && !HostUnreachable(origin) && Matched(cfg, s)
    ensures Matched(cfg, t)
  {
    if Routable(cfg, frame) {
      var hop := Resolve(cfg, Dst(frame)).value;
      var f := Stamp(frame, hop.iface.addr);
      var u := Enqueue(s, f, hop, origin);
      OtherMatched(cfg, s, u, Accepted(f, hop.ip, hop.iface.name, origin));
      EnqueuedIsReady(cfg, s, frame, origin);
      HandleMatched(cfg, u, Joins(s, hop.ip), fuel, t);
    }
  }

  lemma {:induction false} HandleKeepsMatched(cfg: Config, s: State, rid: nat, fuel: nat, t: State)
    requires cfg.Valid() && Inv(cfg, s) && Started(s) && rid in Q(s) && HandleReq(cfg, s, rid, fuel) == Done(t)
    requires Matched(cfg, s)
    ensures Inv(cfg, t) && Started(t) && Matched(cfg, t)
  {
    HandleInv(cfg, s, rid, fuel);
    HandleMatched(cfg, s, rid, fuel, t);
  }

  lemma {:induction false} SweepMatchedStep(cfg: Config, s: State, at: Option<nat>, fuel: nat, t: State)
    returns (s1: State, next: Option<nat>)
    requires cfg.Valid() && at.Some? && SweepFrom(cfg, s, at, fuel) == Done(t)
    requires Inv(cfg, s) && Started(s) && Matched(cfg, s)
    ensures fuel > 0 && SweepFrom(cfg, s1, next, fuel - 1) == Done(t)
    ensures Inv(cfg, s1) && Started(s1) && Matched(cfg, s1)
  {
    s1, next := SweepUnfolds(cfg, s, at, fuel);
    QueuedView(s, at.value);
    HandleKeepsMatched(cfg, s, at.value, fuel - 1, s1);
  }

  lemma {:induction false} SweepMatched(cfg: Config, s: State, at: Option<nat>, fuel: nat, t: State)
    requires cfg.Valid() && Inv(cfg, s) && Started(s) && SweepFrom(cfg, s, at, fuel) == Done(t) && Matched(cfg, s)
    ensures Matched(cfg, t)
    decreases fuel
  {
    if at.Some? {
      var s1, next := SweepMatchedStep(cfg, s, at, fuel, t);
      SweepMatched(cfg, s1, next, fuel - 1, t);
    }
  }

  lemma {:induction false} TimerMatched(cfg: Config, s: State, now: int, fuel: nat, t: State)
    requires cfg.Valid() && Inv(cfg, s) && Started(s) && Matched(cfg, s) && s.clock <= now
    requires Step(cfg, s, Timer(now), fuel) == Done(t)
    ensures Matched(cfg, t)
  {
    var u := s.(clock := now);
    ClockInv(cfg, s, now);
    var op := ArpTable.Pass(now);
    assert (u.ops + [op])[..|u.ops|] == u.ops;
    OpsInv(cfg, u, op, ArpTable.Expire(u.table, now));
    SweepMatched(cfg, Expiring(u), Head(Expiring(u)), fuel, t);
  }

  lemma {:induction false} OutgoingIsOther(cfg: Config, frame: Frame, iface: string)
    requires cfg.Valid() && Outgoing(cfg, frame, iface).Some?
    ensures !HostUnreachable(Outgoing(cfg, frame, iface).value.1)
  {
  }

  lemma {:induction false} IpMatched(cfg: Config, s: State, frame: Frame, iface: string, fuel: nat, t: State)
    requires cfg.Valid() && Inv(cfg, s) && Started(s) && Matched(cfg, s) && |frame| >= 14 && Ethertype(frame) == 0x0800
    requires HandleIp(cfg, s, frame, iface, fuel) == Done(t)
    ensures Matched(cfg, t)
  {
    IpRoutes(cfg, s, frame, iface, fuel);
    match Outgoing(cfg, frame, iface)
    case None =>
    case Some(out) =>
      OutgoingIsBuilt(cfg, frame, iface);
      OutgoingIsOther(cfg, frame, iface);
      RouteMatched(cfg, s, out.0, out.1, fuel, t);
  }

  lemma {:induction false} ArpMatched(cfg: Config, s: State, frame: Frame, iface: string)
    requires Matched(cfg, s)
    ensures Matched(cfg, HandleArp(cfg, s, frame, iface))
  {
  }

  lemma {:induction false} ReceiveMatched(cfg: Config, s: State, now: int, frame: Frame, iface: string, fuel: nat,
                                          t: State)
    requires cfg.Valid() && Inv(cfg, s) && Started(s) && Matched(cfg, s) && s.clock <= now
    requires Step(cfg, s, Receive(now, frame, iface), fuel) == Done(t)
    ensures Matched(cfg, t)
  {
    var u := s.(clock := now);
    ClockInv(cfg, s, now);
    if |frame| >= 14 && Ethertype(frame) == 0x0806 {
      ArpMatched(cfg, u, frame, iface);
    } else if |frame| >= 14 && Ethertype(frame) == 0x0800 {
      IpMatched(cfg, u, frame, iface, fuel, t);
    }
  }

  lemma {:induction false} NextMatched(cfg: Config, s: State, e: Event, t: State)
    requires cfg.Valid() && Inv(cfg, s) && Started(s) && Matched(cfg, s) && Next(cfg, s, e, t)
    ensures Matched(cfg, t)
  {
    var fuel: nat :| Step(cfg, s, e, fuel) == Done(t);
    match e
    case Timer(now) => TimerMatched(cfg, s, now, fuel, t);
    case Receive(now, frame, iface) => ReceiveMatched(cfg, s, now, frame, iface, fuel, t);
  }

  lemma {:induction false} RunMatched(cfg: Config, states: seq<State>, events: seq<Event>, i: nat)
    requires cfg.Valid() && Run(cfg, states, events) && i < |states|
    ensures Matched(cfg, states[i])
    decreases i
  {
    if i > 0 {
      RunMatched(cfg, states, events, i - 1);
      RunInv(cfg, states, events, i - 1);
      assert Next(cfg, states[i - 1], events[i - 1], states[i]);
      NextMatched(cfg, states[i - 1], events[i - 1], states[i]);
    }
  }

  // ----- the abandoned packets in any order -----

  lemma {:induction false} CopiesConcat(acc: seq<Accepted>, a: seq<nat>, b: seq<nat>, x: Frame)
    ensures Copies(acc, a + b, x) == Copies(acc, a, x) + Copies(acc, b, x)
  {
    if b == [] {
      assert a + b == a;
    } else {
      var n := |b| - 1;
      assert (a + b)[..|a + b| - 1] == a + b[..n] && (a + b)[|a + b| - 1] == b[n];
      CopiesConcat(acc, a, b[..n], x);
    }
  }

  lemma {:induction false} CopiesWithout(acc: seq<Accepted>, b: seq<nat>, k: nat, x: Frame)
    requires k < |b|
    ensures Copies(acc, b, x) == Copies(acc, b[..k] + b[k + 1..], x) + Copies(acc, [b[k]], x)
    ensures multiset(b) == multiset(b[..k] + b[k + 1..]) + multiset{b[k]}
  {
    var p, q := b[..k], b[k + 1..];
    assert b == p + [b[k]] + q;
    CopiesConcat(acc, p + [b[k]], q, x);
    CopiesConcat(acc, p, [b[k]], x);
    CopiesConcat(acc, p, q, x);
  }

  /** The number does not depend on the order. */
  lemma {:induction false} CopiesSame(acc: seq<Accepted>, a: seq<nat>, b: seq<nat>, x: Frame)
    requires multiset(a) == multiset(b)
    ensures Copies(acc, a, x) == Copies(acc, b, x)
    decreases |a|
  {
    if a == [] {
      assert |b| == |multiset(b)| == |multiset(a)| == 0;
    } else {
      assert a[0] in multiset(b);
      var k :| 0 <= k < |b| && b[k] == a[0];
      CopiesWithout(acc, a, 0, x);
      CopiesWithout(acc, b, k, x);
      var c, d := a[..0] + a[1..], b[..k] + b[k + 1..];
      assert multiset(c) == multiset(a) - multiset{a[0]} == multiset(d);
      CopiesSame(acc, c, d, x);
    }
  }

  /** In every run, whatever frame `x` is: as many Host Unreachables about it were originated as packets with these
      octets were abandoned if its sender can be told, and none if not; and no packet is abandoned twice. */
  lemma {:induction false} AbandonedSendersTold(cfg: Config, states: seq<State>, events: seq<Event>, i: nat, x: Frame)
    requires cfg.Valid() && Run(cfg, states, events) && i < |states|
    ensures NoticesAbout(states[i].accepted, x)
            == if Tellable(cfg, x) then Copies(states[i].accepted, states[i].abandoned, x) else 0
    ensures forall pid: nat :: multiset(states[i].abandoned)[pid] <= 1
  {
    RunMatched(cfg, states, events, i);
    AbandonedOnceAnswered(cfg, states, events, i);
    CopiesSame(states[i].accepted, states[i].attempts, states[i].abandoned, x);
  }

  /** In every run a Host Unreachable goes back to the sender of the packet it is about, from the interface on the
      route there, and quotes that packet. */
  lemma {:induction false} UnreachableContent(cfg: Config, states: seq<State>, events: seq<Event>, i: nat, j: nat)
    requires cfg.Valid() && Run(cfg, states, events) && i < |states|
    requires j < |states[i].accepted| && HostUnreachable(states[i].accepted[j].origin)
    ensures var a := states[i].accepted[j];
            && Tellable(cfg, a.origin.offender)
            && Complaint(cfg, a.origin.offender, Resolve(cfg, a.origin.offender[26..30]).value.iface.ip, 3, 1, a)
  {
    var a := states[i].accepted[j];
    RunInv(cfg, states, events, i);
    assert AcceptedOk(cfg, a);
    ComplaintIs(cfg, a.origin.offender, a.origin.src, 3, 1, a);
  }

}
