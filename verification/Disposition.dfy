/** What becomes of a received packet: which frame, if any, the router originates for it. */
module Disposition {
  import opened Bytes
  import opened Checksum
  import opened Packets
  import opened Routing
  import opened RouterModel
  import opened Activation

  // ----- histories -----

  predicate HostUnreachable(o: Origin) { o.Error? && o.kind == 3 && o.code == 1 }

  /** The histories have grown at the end, and all frames accepted meanwhile are Host Unreachables. */
  ghost predicate Grows(s: State, t: State) {
    && s.accepted <= t.accepted && s.sent <= t.sent && s.attempts <= t.attempts && s.abandoned <= t.abandoned
    && s.ops <= t.ops
    && forall j {:trigger HostUnreachable(t.accepted[j].origin)} :: |s.accepted| <= j < |t.accepted|
         ==> HostUnreachable(t.accepted[j].origin)
  }

  lemma {:induction false} GrowsTrans(s: State, t: State, u: State)
    requires Grows(s, t) && Grows(t, u)
    ensures Grows(s, u)
  {
    forall j | |s.accepted| <= j < |u.accepted| ensures HostUnreachable(u.accepted[j].origin) {
      if j < |t.accepted| { assert HostUnreachable(t.accepted[j].origin); }
    }
  }

  lemma {:induction false} HandleGrows(cfg: Config, s: State, rid: nat, fuel: nat)
    requires cfg.Valid() && HandleReq(cfg, s, rid, fuel).Done?
    ensures Grows(s, HandleReq(cfg, s, rid, fuel).s)
    decreases fuel, 0, 0
  {
    var r := RequestOf(s, rid);
    if Exhausted(s.clock, r) {
      GiveUpGrows(cfg, s, rid, r.packets, fuel - 1);
      var t := GiveUp(cfg, s, rid, r.packets, fuel - 1).s;
      assert Grows(t, Destroy(t, rid));
      GrowsTrans(s, t, Destroy(t, rid));
    }
  }

  lemma {:induction false} GiveUpGrows(cfg: Config, s: State, rid: nat, ps: seq<Packet>, fuel: nat)
    requires cfg.Valid() && GiveUp(cfg, s, rid, ps, fuel).Done?
    ensures Grows(s, GiveUp(cfg, s, rid, ps, fuel).s)
    decreases fuel, 3, |ps|
  {
    if ps != [] && |ps[0].frame| < 34 {
      GiveUpGrows(cfg, s, rid, ps[1..], fuel);
    } else if ps != [] {
      var s1 := s.(attempts := s.attempts + [ps[0].pid]);
      ErrorGrows(cfg, s1, ps[0].frame, fuel);
      var t := SendError(cfg, s1, 3, 1, ps[0].frame, ZERO_IP, fuel).s;
      GiveUpGrows(cfg, t, rid, ps[1..], fuel);
      GrowsTrans(s, s1, t);
      GrowsTrans(s, t, GiveUp(cfg, t, rid, ps[1..], fuel).s);
    }
  }

  lemma {:induction false} ErrorGrows(cfg: Config, s: State, frame: Frame, fuel: nat)
    requires cfg.Valid() && SendError(cfg, s, 3, 1, frame, ZERO_IP, fuel).Done?
    ensures Grows(s, SendError(cfg, s, 3, 1, frame, ZERO_IP, fuel).s)
    decreases fuel, 2, 0
  {
    if |frame| >= 34 && ErrorSource(cfg, frame, ZERO_IP) != ZERO_IP {
      var from := ErrorSource(cfg, frame, ZERO_IP);
      var e, o := IcmpError(3, 1, frame, from, cfg.beyond), Error(3, 1, frame, from);
      RouteGrows(cfg, s, e, o, fuel);
      if Routable(cfg, e) {
        var hop := Resolve(cfg, Dst(e)).value;
        var u := Enqueue(s, Stamp(e, hop.iface.addr), hop, o);
        assert Grows(s, u);
        GrowsTrans(s, u, RouteAndSend(cfg, s, e, o, fuel).s);
      }
    }
  }

  lemma {:induction false} RouteGrows(cfg: Config, s: State, frame: Frame, origin: Origin, fuel: nat)
    requires cfg.Valid() && RouteAndSend(cfg, s, frame, origin, fuel).Done?
    ensures if Routable(cfg, frame) then
              var hop := Resolve(cfg, Dst(frame)).value;
              Grows(Enqueue(s, Stamp(frame, hop.iface.addr), hop, origin), RouteAndSend(cfg, s, frame, origin, fuel).s)
            else RouteAndSend(cfg, s, frame, origin, fuel).s == s
    decreases fuel, 1, 0
  {
    if Routable(cfg, frame) {
      var hop := Resolve(cfg, Dst(frame)).value;
      HandleGrows(cfg, Enqueue(s, Stamp(frame, hop.iface.addr), hop, origin), Joins(s, hop.ip), fuel);
    }
  }

  // ----- the frame originated for a packet -----

  /** Whatever was accepted after the first `n` frames is a Host Unreachable, for a request given up meanwhile. */
  ghost predicate OnlyUnreachable(t: State, n: nat) {
    forall j {:trigger HostUnreachable(t.accepted[j].origin)} :: n <= j < |t.accepted|
      ==> HostUnreachable(t.accepted[j].origin)
  }

  /** If a route leads to its destination, `frame` was accepted on that route; else nothing changed. */
  ghost predicate Originates(cfg: Config, s: State, t: State, frame: Frame, origin: Origin) {
    if Routable(cfg, frame) then
      var hop := Resolve(cfg, Dst(frame)).value;
      && |s.accepted| < |t.accepted| && OnlyUnreachable(t, |s.accepted| + 1)
      && t.accepted[|s.accepted|] == Accepted(Stamp(frame, hop.iface.addr), hop.ip, hop.iface.name, origin)
    else t == s
  }

  lemma {:induction false} RouteOriginates(cfg: Config, s: State, frame: Frame, origin: Origin, fuel: nat, t: State)
    requires cfg.Valid() && RouteAndSend(cfg, s, frame, origin, fuel) == Done(t)
    ensures Originates(cfg, s, t, frame, origin)
  {
    RouteGrows(cfg, s, frame, origin, fuel);
    if Routable(cfg, frame) {
      var hop := Resolve(cfg, Dst(frame)).value;
      var u := Enqueue(s, Stamp(frame, hop.iface.addr), hop, origin);
      assert u.accepted[|s.accepted|] == t.accepted[|s.accepted|];
    }
  }

  lemma {:induction false} ErrorOriginates(cfg: Config, s: State, kind: byte, code: byte, frame: Frame, src: Ip,
                                           fuel: nat, t: State)
    requires cfg.Valid() && |frame| >= 34 && SendError(cfg, s, kind, code, frame, src, fuel) == Done(t)
    ensures var from := ErrorSource(cfg, frame, src);
            if from == ZERO_IP then t == s
            else Originates(cfg, s, t, IcmpError(kind, code, frame, from, cfg.beyond), Error(kind, code, frame, from))
  {
    var from := ErrorSource(cfg, frame, src);
    if from != ZERO_IP {
      RouteOriginates(cfg, s, IcmpError(kind, code, frame, from, cfg.beyond), Error(kind, code, frame, from), fuel, t);
    }
  }

  // ----- in octets -----

  /** The header has the length it announces, at least 20 octets, and sums to 0xffff with a checksum that
      is not 0. */
  predicate GoodHeader(f: Frame) {
    |f| >= 34 && var n := f[14] % 16 * 4;
    && n >= 20 && |f| >= 14 + n && f[16] as int * 256 + f[17] as int >= n
    && OnesSum(f[14..14 + n]) == 0xffff && (f[24] != 0 || f[25] != 0)
  }

  /** A packet for one of the router's addresses. */
  predicate ForUs(cfg: Config, f: Frame)
    requires |f| >= 34
  {
    exists i :: i in cfg.ifaces && i.ip == f[30..34]
  }

  /** An ICMP message of type 8 whose checksum verifies and is not 0. In a message of more than 131074 octets
      the 32-bit sum may overflow, and the test is that of the code. */
  predicate IsEchoRequest(f: Frame)
    requires |f| >= 34
  {
    var off := 14 + f[14] % 16 * 4;
    && f[23] == 1 && |f| >= off + 8 && f[off] == 8
    && if |f| - off <= 131074 then OnesSum(f[off..]) == 0xffff && (f[off + 2] != 0 || f[off + 3] != 0)
       else Accepts(f[off..], 2)
  }

  /** The address that an error for a packet received on `iface` comes from: that of this interface, or if it has
      none that of the interface on the route back to the sender. */
  function Complainant(cfg: Config, f: Frame, iface: string): (src: Ip)
    requires |f| >= 34
  {
    var recv, back := GetInterface(cfg.ifaces, iface), Resolve(cfg, f[26..30]);
    if recv.Some? && recv.value.ip != [0, 0, 0, 0] then recv.value.ip
    else if back.Some? then back.value.iface.ip
    else [0, 0, 0, 0]
  }

  lemma {:induction false} IpEvent(cfg: Config, s: State, e: Event, t: State) returns (fuel: nat)
    requires cfg.Valid() && Next(cfg, s, e, t) && e.Receive? && |e.frame| >= 14 && e.frame[12..14] == [8, 0]
    ensures HandleIp(cfg, s.(clock := e.now), e.frame, e.iface, fuel) == Done(t)
  {
    fuel :| Step(cfg, s, e, fuel) == Done(t);
    EthertypeIff(e.frame, 8, 0);
  }

  lemma {:induction false} GoodHeaderIff(f: Frame)
    ensures IpValid(f) <==> GoodHeader(f)
  {
    IpValidIff(f);
  }

  // ----- packets in transit -----

  /** What was accepted for a packet that is forwarded: the packet with its TTL one lower, on the route to its
      destination. */
  ghost predicate PassedOn(cfg: Config, f: Frame, a: Accepted)
    requires |f| >= 34 && Resolve(cfg, f[30..34]).Some?
  {
    var hop := Resolve(cfg, f[30..34]).value;
    && a.origin == Forward(f) && a.hop == hop.ip && a.iface == hop.iface.name
    && |a.frame| == |f| && a.frame[22] as int == f[22] as int - 1
    && forall k :: 14 <= k < |f| && k !in {22, 24, 25} ==> a.frame[k] == f[k]
  }

  /** What was accepted for a packet whose sender is told that it was dropped: an ICMP error from `src`, on the
      route back to the sender, with the first 28 octets of the packet. */
  ghost predicate Complaint(cfg: Config, f: Frame, src: Ip, kind: byte, code: byte, a: Accepted)
    requires cfg.Valid() && |f| >= 34 && Resolve(cfg, f[26..30]).Some?
  {
    var hop := Resolve(cfg, f[26..30]).value;
    && a.origin == Error(kind, code, f, src) && a.hop == hop.ip && a.iface == hop.iface.name
    && |a.frame| == 70 && a.frame[26..30] == src && a.frame[30..34] == f[26..30]
    && a.frame[34] == kind && a.frame[35] == code && a.frame[42..] == (f[14..] + cfg.beyond)[..28]
  }

  lemma {:induction false} ComplaintIs(cfg: Config, f: Frame, src: Ip, kind: byte, code: byte, a: Accepted)
    requires cfg.Valid() && |f| >= 34 && Resolve(cfg, f[26..30]).Some?
    requires var hop := Resolve(cfg, f[26..30]).value;
             a == Accepted(Stamp(IcmpError(kind, code, f, src, cfg.beyond), hop.iface.addr), hop.ip, hop.iface.name,
                           Error(kind, code, f, src))
    ensures Complaint(cfg, f, src, kind, code, a)
  {
    var r := IcmpError(kind, code, f, src, cfg.beyond);
    IcmpErrorContent(kind, code, f, src, cfg.beyond);
    assert a.frame[34] == a.frame[14..][20] == r[14..][20] && a.frame[35] == a.frame[14..][21] == r[14..][21];
    assert a.frame[42..] == a.frame[14..][28..] == r[14..][28..] == r[42..];
  }

  lemma {:induction false} StampedIpPart(f: Frame, mac: Mac)
    requires |f| >= 34
    ensures forall k :: 14 <= k < |f| ==> Stamp(f, mac)[k] == f[k]
  {
    var r := Stamp(f, mac);
    forall k | 14 <= k < |f| ensures r[k] == f[k] { assert r[14..][k - 14] == f[14..][k - 14]; }
  }

  lemma {:induction false} PassedOnIs(cfg: Config, f: Frame, a: Accepted)
    requires IpValid(f) && Ttl(f) > 1 && Resolve(cfg, f[30..34]).Some?
    requires var hop := Resolve(cfg, f[30..34]).value;
             |Forwarded(f)| >= 34
             && a == Accepted(Stamp(Forwarded(f), hop.iface.addr), hop.ip, hop.iface.name, Forward(f))
    ensures PassedOn(cfg, f, a)
  {
    ForwardedFacts(f);
    StampedIpPart(Forwarded(f), Resolve(cfg, f[30..34]).value.iface.addr);
  }

  /** The sender of a packet that cannot be forwarded. */
  lemma {:induction false} DropDisposition(cfg: Config, s: State, kind: byte, f: Frame, iface: string, fuel: nat,
                                           t: State)
    requires cfg.Valid() && |f| >= 34 && SendError(cfg, s, kind, 0, f, ReceivingIp(cfg, iface), fuel) == Done(t)
    ensures var src := Complainant(cfg, f, iface);
            if src != [0, 0, 0, 0] && Resolve(cfg, f[26..30]).Some? then
              |s.accepted| < |t.accepted| && Complaint(cfg, f, src, kind, 0, t.accepted[|s.accepted|])
            else t == s
    ensures OnlyUnreachable(t, |s.accepted| + 1)
  {
    var src := Complainant(cfg, f, iface);
    ErrorOriginates(cfg, s, kind, 0, f, ReceivingIp(cfg, iface), fuel, t);
    if src != ZERO_IP && Resolve(cfg, f[26..30]).Some? {
      ComplaintIs(cfg, f, src, kind, 0, t.accepted[|s.accepted|]);
    }
  }

  /** A packet that passes the header test and is for none of the router's addresses is passed on if and only if
      its TTL exceeds 1 and a route leads to its destination. Otherwise its sender is told Time Exceeded if the
      TTL was used up, and else Network Unreachable, from the address of the interface it was received on or, if
      that has none, of the interface on the route back -- if there is such an address and a route back. In all
      other cases nothing happens, and nothing else is originated but Host Unreachables for requests given up. */
  lemma {:induction false} TransitDisposition(cfg: Config, s: State, e: Event, t: State)
    requires cfg.Valid() && Next(cfg, s, e, t) && e.Receive? && |e.frame| >= 14 && e.frame[12..14] == [8, 0]
    requires GoodHeader(e.frame) && !ForUs(cfg, e.frame)
    ensures var f, n, src := e.frame, |s.accepted|, Complainant(cfg, e.frame, e.iface);
            if f[22] > 1 && Resolve(cfg, f[30..34]).Some? then
              n < |t.accepted| && PassedOn(cfg, f, t.accepted[n])
            else if src != [0, 0, 0, 0] && Resolve(cfg, f[26..30]).Some? then
              n < |t.accepted| && Complaint(cfg, f, src, if f[22] <= 1 then 11 else 3, 0, t.accepted[n])
            else t == s.(clock := e.now)
    ensures OnlyUnreachable(t, |s.accepted| + 1)
  {
    var f := e.frame;
    var fuel := IpEvent(cfg, s, e, t);
    GoodHeaderIff(f);
    if f[22] <= 1 {
      DropDisposition(cfg, s.(clock := e.now), 11, f, e.iface, fuel, t);
    } else {
      ForwardedAddresses(f);
      if Routable(cfg, Forwarded(f)) {
        RouteOriginates(cfg, s.(clock := e.now), Forwarded(f), Forward(f), fuel, t);
        PassedOnIs(cfg, f, t.accepted[|s.accepted|]);
      } else {
        DropDisposition(cfg, s.(clock := e.now), 3, f, e.iface, fuel, t);
      }
    }
  }

  // ----- packets for the router -----

  /** `g` answers the echo request `f`: addresses exchanged, TTL 255, type and code 0, and the rest of the message
      after its checksum as it was. */
  predicate Echoes(f: Frame, g: Frame)
    requires |f| >= 34
  {
    var off := 14 + f[14] % 16 * 4;
    && |g| == |f| >= off + 8 && g[26..30] == f[30..34] && g[30..34] == f[26..30]
    && g[22] == 255 && g[off] == 0 && g[off + 1] == 0
    && forall k :: off + 4 <= k < |f| ==> g[k] == f[k]
  }

  /** What was accepted for an echo request: the reply, on the route back to the sender. */
  ghost predicate EchoedBack(cfg: Config, f: Frame, a: Accepted)
    requires |f| >= 34 && Resolve(cfg, f[26..30]).Some?
  {
    var hop := Resolve(cfg, f[26..30]).value;
    a.origin == Echo(f) && a.hop == hop.ip && a.iface == hop.iface.name && Echoes(f, a.frame)
  }

  lemma {:induction false} ReplyEchoes(f: Frame)
    requires LengthsOk(f) && |Icmp(f)| >= 8
    ensures Echoes(f, EchoReply(f))
  {
    var r, off := EchoReply(f), 14 + HeaderLen(f);
    EchoReplyLayout(f);
    assert r[off] == Icmp(r)[..2][0] && r[off + 1] == Icmp(r)[..2][1];
    forall k | off + 4 <= k < |f| ensures r[k] == f[k] {
      assert Icmp(r)[4..][k - off - 4] == Icmp(f)[4..][k - off - 4];
    }
  }

  lemma {:induction false} StampedEchoes(f: Frame, r: Frame, mac: Mac)
    requires LengthsOk(f) && |r| >= 34 && Echoes(f, r)
    ensures Echoes(f, Stamp(r, mac))
  {
    StampedIpPart(r, mac);
  }

  /** The sender of an echo request. */
  lemma {:induction false} EchoDisposition(cfg: Config, s: State, f: Frame, fuel: nat, t: State)
    requires cfg.Valid() && LengthsOk(f) && |Icmp(f)| >= 8
    requires RouteAndSend(cfg, s, EchoReply(f), Echo(f), fuel) == Done(t)
    ensures if Resolve(cfg, f[26..30]).Some? then
              |s.accepted| < |t.accepted| && EchoedBack(cfg, f, t.accepted[|s.accepted|])
            else t == s
    ensures OnlyUnreachable(t, |s.accepted| + 1)
  {
    RouteOriginates(cfg, s, EchoReply(f), Echo(f), fuel, t);
    ReplyEchoes(f);
    if Resolve(cfg, f[26..30]).Some? { StampedEchoes(f, EchoReply(f), Resolve(cfg, f[26..30]).value.iface.addr); }
  }

  lemma {:induction false} IsEchoRequestIff(f: Frame)
    requires LengthsOk(f)
    ensures f[23] == 1 && EchoRequestOk(f) <==> IsEchoRequest(f)
  {
    EchoRequestIff(f, 14 + f[14] % 16 * 4);
  }

  lemma {:induction false} OwnRoutes(cfg: Config, s: State, f: Frame, iface: string, fuel: nat, t: State)
    requires cfg.Valid() && HandleIp(cfg, s, f, iface, fuel) == Done(t)
    requires IpValid(f) ==> ForUs(cfg, f)
    ensures if IpValid(f) && f[23] == 1 && EchoRequestOk(f) then
              RouteAndSend(cfg, s, EchoReply(f), Echo(f), fuel) == Done(t)
            else t == s
  {
  }

  /** A packet for one of the router's addresses is answered, by an echo reply, if and only if it passes the
      header test, is an echo request, and a route leads back to its sender. Any other packet for the router,
      and any packet with a bad header, changes nothing. */
  lemma {:induction false} OwnDisposition(cfg: Config, s: State, e: Event, t: State)
    requires cfg.Valid() && Next(cfg, s, e, t) && e.Receive? && |e.frame| >= 14 && e.frame[12..14] == [8, 0]
    requires GoodHeader(e.frame) ==> ForUs(cfg, e.frame)
    ensures var f, n := e.frame, |s.accepted|;
            if GoodHeader(f) && IsEchoRequest(f) && Resolve(cfg, f[26..30]).Some? then
              n < |t.accepted| && EchoedBack(cfg, f, t.accepted[n])
            else t == s.(clock := e.now)
    ensures OnlyUnreachable(t, |s.accepted| + 1)
  {
    var f := e.frame;
    var fuel := IpEvent(cfg, s, e, t);
    GoodHeaderIff(f);
    OwnRoutes(cfg, s.(clock := e.now), f, e.iface, fuel, t);
    if GoodHeader(f) {
      IsEchoRequestIff(f);
      if IsEchoRequest(f) { EchoDisposition(cfg, s.(clock := e.now), f, fuel, t); }
    }
  }

  // ----- the other events -----

  lemma {:induction false} SweepGrows(cfg: Config, s: State, at: Option<nat>, fuel: nat)
    requires cfg.Valid() && SweepFrom(cfg, s, at, fuel).Done?
    ensures Grows(s, SweepFrom(cfg, s, at, fuel).s)
    decreases fuel
  {
    if at.Some? {
      HandleGrows(cfg, s, at.value, fuel - 1);
      var t := HandleReq(cfg, s, at.value, fuel - 1).s;
      SweepGrows(cfg, t, After(s, at.value), fuel - 1);
      GrowsTrans(s, t, SweepFrom(cfg, s, at, fuel).s);
    }
  }

  /** A timer pass originates Host Unreachables and nothing else. */
  lemma {:induction false} TimerDisposition(cfg: Config, s: State, now: int, t: State)
    requires cfg.Valid() && Next(cfg, s, Timer(now), t)
    ensures Grows(s, t)
  {
    var fuel: nat :| Step(cfg, s, Timer(now), fuel) == Done(t);
    var u := Expiring(s.(clock := now));
    SweepGrows(cfg, u, Head(u), fuel);
    GrowsTrans(s, u, t);
  }

  lemma {:induction false} ReplyGrows(cfg: Config, s: State, from: Ip, mac: Mac)
    ensures Grows(s, Reply(cfg, s, from, mac)) && Reply(cfg, s, from, mac).accepted == s.accepted
  {
    var i := FindIp(s.requests, from);
    if i < |s.requests| { DrainTail(cfg, s.sent, s.requests[i].packets, from, mac); }
  }

  /** The effect of a frame that is not IPv4. */
  ghost predicate ArpEffect(cfg: Config, s: State, e: Event, t: State)
    requires e.Receive?
  {
    var f, u := e.frame, s.(clock := e.now);
    if AsksUs(cfg, e) then
      var recv := GetInterface(cfg.ifaces, e.iface).value;
      var answer := f[22..28] + recv.addr + [8, 6] + [0, 1, 8, 0, 6, 4, 0, 2]
                    + recv.addr + recv.ip + f[22..28] + f[28..32];
      t == u.(sent := s.sent + [ArpAnswer(answer, e.iface)])
    else if CarriesReply(cfg, e) then t == Reply(cfg, u, f[28..32], f[22..28])
    else t == u
  }

  /** All other frames. A query for the address of the interface it arrives on is answered, once, to the asker; a
      reply has its effect; anything else -- queries for other addresses, other operations and formats, other
      protocols, frames cut short, unknown interfaces -- changes nothing. */
  lemma {:induction false} ArpDisposition(cfg: Config, s: State, e: Event, t: State)
    requires cfg.Valid() && Next(cfg, s, e, t) && e.Receive? && (|e.frame| < 14 || e.frame[12..14] != [8, 0])
    ensures ArpEffect(cfg, s, e, t)
    ensures Grows(s, t) && t.accepted == s.accepted
  {
    var f, u := e.frame, s.(clock := e.now);
    if |f| >= 14 { EthertypeIff(f, 8, 0); }
    ArpFormatIff(f, 1);
    ArpFormatIff(f, 2);
    if CarriesReply(cfg, e) { ReplyGrows(cfg, u, f[28..32], f[22..28]); }
  }

}
