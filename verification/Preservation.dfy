/** Every event that completes keeps the invariant. */
module Preservation {
  import opened Bytes
  import opened Packets
  import opened Routing
  import opened RouterModel
  import opened RequestQueue
  import opened Activation
  import opened Invariants

  // ----- the mutually recursive part -----

  /** A request that was never asked for is due. */
  lemma {:induction false} UnstartedIsDue(s: State, rid: nat)
    requires AllCounts(s) && rid in Q(s) && Q(s)[rid].timesSent < 1
    ensures Due(s.clock, Q(s)[rid])
  {
    assert CountOk(s, rid);
  }

  lemma {:induction false} StartedAll(s: State, rid: nat)
    requires StartedBut(s, rid) && rid in Q(s) && Q(s)[rid].timesSent >= 1
    ensures Started(s)
  {
  }

  /** The invariant holds at the end of an activation, if it ends. */
  ghost predicate Keeps(cfg: Config, o: Outcome) {
    o.Done? ==> Inv(cfg, o.s) && Started(o.s)
  }

  lemma {:induction false} HandleInv(cfg: Config, s: State, rid: nat, fuel: nat)
    requires cfg.Valid() && Inv(cfg, s) && rid in Q(s) && StartedBut(s, rid)
    ensures Keeps(cfg, HandleReq(cfg, s, rid, fuel))
    decreases fuel, 0, 0
  {
    QueuedView(s, rid);
    if Q(s)[rid].timesSent < 1 { UnstartedIsDue(s, rid); } else { StartedAll(s, rid); }
    if Exhausted(s.clock, Q(s)[rid]) && fuel > 0 {
      GiveUpInv(cfg, s, rid, Q(s)[rid].packets, fuel - 1);
      var o := GiveUp(cfg, s, rid, Q(s)[rid].packets, fuel - 1);
      if o.Done? && Queued(o.s, rid) { DestroyInv(cfg, o.s, rid); }
    } else if Due(s.clock, Q(s)[rid]) && Q(s)[rid].timesSent < 5 {
      QueryInv(cfg, s, rid);
    }
  }

  lemma {:induction false} GiveUpInv(cfg: Config, s: State, rid: nat, ps: seq<Packet>, fuel: nat)
    requires cfg.Valid() && Inv(cfg, s) && Started(s)
    ensures Keeps(cfg, GiveUp(cfg, s, rid, ps, fuel))
    decreases fuel, 3, |ps|
  {
    if ps != [] && |ps[0].frame| < 34 {
      GiveUpInv(cfg, s, rid, ps[1..], fuel);
    } else if ps != [] {
      var s1 := s.(attempts := s.attempts + [ps[0].pid]);
      AttemptInv(cfg, s, ps[0].pid);
      ErrorInv(cfg, s1, ps[0].frame, fuel);
      var o := SendError(cfg, s1, 3, 1, ps[0].frame, ZERO_IP, fuel);
      if o.Done? { GiveUpInv(cfg, o.s, rid, ps[1..], fuel); }
    }
  }

  /** A Host Unreachable comes from the interface on the route back to its addressee. */
  lemma {:induction false} UnreachableIsValid(cfg: Config, frame: Frame)
    requires |frame| >= 34 && ErrorSource(cfg, frame, ZERO_IP) != ZERO_IP
    ensures OriginValid(cfg, Error(3, 1, frame, ErrorSource(cfg, frame, ZERO_IP)))
  {
  }

  lemma {:induction false} ErrorInv(cfg: Config, s: State, frame: Frame, fuel: nat)
    requires cfg.Valid() && Inv(cfg, s) && Started(s)
    ensures Keeps(cfg, SendError(cfg, s, 3, 1, frame, ZERO_IP, fuel))
    decreases fuel, 2, 0
  {
    if |frame| >= 34 && ErrorSource(cfg, frame, ZERO_IP) != ZERO_IP {
      var from := ErrorSource(cfg, frame, ZERO_IP);
      UnreachableIsValid(cfg, frame);
      RouteInv(cfg, s, IcmpError(3, 1, frame, from, cfg.beyond), Error(3, 1, frame, from), fuel);
    }
  }

  lemma {:induction false} StampedIsAccepted(cfg: Config, frame: Frame, origin: Origin)
    requires cfg.Valid() && Routable(cfg, frame) && OriginValid(cfg, origin) && frame == Built(cfg, origin)
    ensures var hop := Resolve(cfg, Dst(frame)).value;
            AcceptedOk(cfg, Accepted(Stamp(frame, hop.iface.addr), hop.ip, hop.iface.name, origin))
  {
  }

  lemma {:induction false} RouteInv(cfg: Config, s: State, frame: Frame, origin: Origin, fuel: nat)
    requires cfg.Valid() && Inv(cfg, s) && Started(s) && OriginValid(cfg, origin) && frame == Built(cfg, origin)
    ensures Keeps(cfg, RouteAndSend(cfg, s, frame, origin, fuel))
    decreases fuel, 1, 0
  {
    if Routable(cfg, frame) {
      var hop := Resolve(cfg, Dst(frame)).value;
      var f := Stamp(frame, hop.iface.addr);
      var s1 := Enqueue(s, f, hop, origin);
      assert Inv(cfg, s1) by {
        StampedIsAccepted(cfg, frame, origin);
        EnqueueInv(cfg, s, f, hop, origin);
      }
      assert Joins(s, hop.ip) in Q(s1) by { EnqueueView(s, f, hop, origin); }
      EnqueueStarted(s, f, hop, origin);
      HandleInv(cfg, s1, Joins(s, hop.ip), fuel);
    }
  }

  // ----- each abandoned packet was answered exactly once -----

  /** Between `s` and `t` the packets abandoned and the Host Unreachables attempted are the same. */
  ghost predicate Balanced(s: State, t: State) {
    multiset(t.attempts) + multiset(s.abandoned) == multiset(s.attempts) + multiset(t.abandoned)
  }

  lemma {:induction false} BalancedTrans(s: State, t: State, u: State)
    requires Balanced(s, t) && Balanced(t, u)
    ensures Balanced(s, u)
  {
    forall x
      ensures multiset(u.attempts)[x] + multiset(s.abandoned)[x] == multiset(s.attempts)[x] + multiset(u.abandoned)[x]
    {
      var a := multiset(t.attempts) + multiset(s.abandoned);
      var b := multiset(s.attempts) + multiset(t.abandoned);
      assert a[x] == b[x];
      var c := multiset(u.attempts) + multiset(t.abandoned);
      var d := multiset(t.attempts) + multiset(u.abandoned);
      assert c[x] == d[x];
    }
    assert multiset(u.attempts) + multiset(s.abandoned) == multiset(s.attempts) + multiset(u.abandoned);
  }

  /** As `Balanced`, with the errors for `ps` sent and `ps` not yet abandoned. */
  ghost predicate Owes(s: State, t: State, ps: seq<Packet>) {
    multiset(t.attempts) + multiset(s.abandoned) == multiset(s.attempts) + multiset(t.abandoned) + multiset(Pids(ps))
  }

  lemma {:induction false} OwesStep(s: State, s1: State, s2: State, t: State, ps: seq<Packet>)
    requires ps != [] && s1.attempts == s.attempts + [ps[0].pid] && s1.abandoned == s.abandoned
    requires Balanced(s1, s2) && Owes(s2, t, ps[1..])
    ensures Owes(s, t, ps)
  {
    assert Pids(ps) == [ps[0].pid] + Pids(ps[1..]);
    var a := multiset(t.attempts) + multiset(s.abandoned);
    var b := multiset(s.attempts) + multiset(t.abandoned) + multiset(Pids(ps));
    forall x ensures a[x] == b[x] {
      assert (multiset(s2.attempts) + multiset(s1.abandoned))[x] == (multiset(s1.attempts) + multiset(s2.abandoned))[x];
      assert (multiset(t.attempts) + multiset(s2.abandoned))[x]
          == (multiset(s2.attempts) + multiset(t.abandoned) + multiset(Pids(ps[1..])))[x];
    }
  }

  lemma {:induction false} OwesThenDestroyed(s: State, t: State, rid: nat)
    requires Queued(t, rid) && Owes(s, t, RequestOf(t, rid).packets)
    ensures Balanced(s, Destroy(t, rid))
  {
    var pids := Pids(RequestOf(t, rid).packets);
    assert multiset(t.abandoned + pids) == multiset(t.abandoned) + multiset(pids);
  }

  predicate Full(ps: seq<Packet>) {
    forall i :: 0 <= i < |ps| ==> |ps[i].frame| >= 34
  }

  lemma {:induction false} QueuedAreFull(cfg: Config, s: State, rid: nat)
    requires Inv(cfg, s) && rid in Q(s)
    ensures Full(Q(s)[rid].packets)
  {
    assert RequestOk(s.accepted, Q(s)[rid]);
    forall i | 0 <= i < |Q(s)[rid].packets| ensures |Q(s)[rid].packets[i].frame| >= 34 {
      var p := Q(s)[rid].packets[i];
      assert PacketOk(s.accepted, Q(s)[rid].ip, p) && AcceptedOk(cfg, s.accepted[p.pid]);
    }
  }

  /** While its packets are answered, a request and its packets stay as they are. */
  lemma {:induction false} GiveUpKeepsRequest(cfg: Config, s: State, rid: nat, ps: seq<Packet>, fuel: nat, t: State)
    requires cfg.Valid() && Shape(s) && rid in Q(s) && Exhausted(s.clock, Q(s)[rid])
    requires GiveUp(cfg, s, rid, ps, fuel) == Done(t)
    ensures Queued(t, rid) && RequestOf(t, rid).packets == Q(s)[rid].packets
  {
    GiveUpAdvances(cfg, s, rid, ps, fuel, t);
    QueuedView(t, rid);
  }

  lemma {:induction false} GiveUpUnfolds(cfg: Config, s: State, rid: nat, fuel: nat, u: State) returns (t: State)
    requires cfg.Valid() && Shape(s) && rid in Q(s) && Exhausted(s.clock, Q(s)[rid])
    requires HandleReq(cfg, s, rid, fuel) == Done(u)
    ensures fuel > 0 && GiveUp(cfg, s, rid, Q(s)[rid].packets, fuel - 1) == Done(t)
    ensures Queued(t, rid) && u == Destroy(t, rid)
  {
    QueuedView(s, rid);
    t := GiveUp(cfg, s, rid, Q(s)[rid].packets, fuel - 1).s;
  }

  lemma {:induction false} HandleBalanced(cfg: Config, s: State, rid: nat, fuel: nat, t: State)
    requires cfg.Valid() && Inv(cfg, s) && rid in Q(s) && StartedBut(s, rid) && HandleReq(cfg, s, rid, fuel) == Done(t)
    ensures Balanced(s, t)
    decreases fuel, 0, 0
  {
    if Exhausted(s.clock, Q(s)[rid]) {
      var u := GiveUpUnfolds(cfg, s, rid, fuel, t);
      StartedAll(s, rid);
      GiveUpThenDestroy(cfg, s, rid, fuel - 1, u);
    } else {
      QueuedView(s, rid);
    }
  }

  lemma {:induction false} GiveUpThenDestroy(cfg: Config, s: State, rid: nat, fuel: nat, t: State)
    requires cfg.Valid() && Inv(cfg, s) && Started(s) && rid in Q(s) && Exhausted(s.clock, Q(s)[rid])
    requires GiveUp(cfg, s, rid, Q(s)[rid].packets, fuel) == Done(t)
    ensures Queued(t, rid) && Balanced(s, Destroy(t, rid))
    decreases fuel, 4, 0
  {
    QueuedAreFull(cfg, s, rid);
    GiveUpBalanced(cfg, s, rid, Q(s)[rid].packets, fuel, t);
    GiveUpKeepsRequest(cfg, s, rid, Q(s)[rid].packets, fuel, t);
    OwesThenDestroyed(s, t, rid);
  }

  lemma {:induction false} GiveUpBalanced(cfg: Config, s: State, rid: nat, ps: seq<Packet>, fuel: nat, t: State)
    requires cfg.Valid() && Inv(cfg, s) && Started(s) && Full(ps) && GiveUp(cfg, s, rid, ps, fuel) == Done(t)
    ensures Owes(s, t, ps)
    decreases fuel, 3, |ps|
  {
    if ps != [] {
      var s1 := s.(attempts := s.attempts + [ps[0].pid]);
      var s2 := SendError(cfg, s1, 3, 1, ps[0].frame, ZERO_IP, fuel).s;
      AttemptInv(cfg, s, ps[0].pid);
      ErrorInv(cfg, s1, ps[0].frame, fuel);
      ErrorBalanced(cfg, s1, ps[0].frame, fuel, s2);
      GiveUpBalanced(cfg, s2, rid, ps[1..], fuel, t);
      OwesStep(s, s1, s2, t, ps);
    }
  }

  lemma {:induction false} ErrorBalanced(cfg: Config, s: State, frame: Frame, fuel: nat, t: State)
    requires cfg.Valid() && Inv(cfg, s) && Started(s) && SendError(cfg, s, 3, 1, frame, ZERO_IP, fuel) == Done(t)
    ensures Balanced(s, t)
    decreases fuel, 2, 0
  {
    if |frame| >= 34 && ErrorSource(cfg, frame, ZERO_IP) != ZERO_IP {
      var from := ErrorSource(cfg, frame, ZERO_IP);
      UnreachableIsValid(cfg, frame);
      RouteBalanced(cfg, s, IcmpError(3, 1, frame, from, cfg.beyond), Error(3, 1, frame, from), fuel, t);
    }
  }

  lemma {:induction false} RouteBalanced(cfg: Config, s: State, frame: Frame, origin: Origin, fuel: nat, t: State)
    requires cfg.Valid() && Inv(cfg, s) && Started(s) && OriginValid(cfg, origin) && frame == Built(cfg, origin)
    requires RouteAndSend(cfg, s, frame, origin, fuel) == Done(t)
    ensures Balanced(s, t)
    decreases fuel, 1, 0
  {
    if Routable(cfg, frame) {
      var hop := Resolve(cfg, Dst(frame)).value;
      var f := Stamp(frame, hop.iface.addr);
      var s1 := Enqueue(s, f, hop, origin);
      assert Inv(cfg, s1) by {
        StampedIsAccepted(cfg, frame, origin);
        EnqueueInv(cfg, s, f, hop, origin);
      }
      assert Joins(s, hop.ip) in Q(s1) by { EnqueueView(s, f, hop, origin); }
      EnqueueStarted(s, f, hop, origin);
      HandleBalanced(cfg, s1, Joins(s, hop.ip), fuel, t);
    }
  }
}
