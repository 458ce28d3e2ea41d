/** The router as the program runs it: a linked request list, an array of bindings, frames written
    in place. Every method refines the function of RouterModel of the same purpose, whenever that
    function says the activation ends. */
module RouterProgram {
  import opened Bytes
  import opened Packets
  import opened Routing
  import opened RequestList
  import opened FrameBuffers
  import ArpTable
  import M = RouterModel
  import Sweep

  class Router {
    const cfg: Config
    const queue: ArpQueue
    const entries: array<ArpTable.Entry>
    var clock: int    // what time(NULL) returns during the current event
    var nextPid: nat  // names the next packet copy
    ghost var accepted: seq<M.Accepted>
    ghost var sent: seq<M.Sent>
    ghost var attempts: seq<nat>
    ghost var abandoned: seq<nat>
    ghost var ops: seq<ArpTable.TableOp>

    ghost predicate Valid()
      reads this, queue, queue.nodes
    {
      cfg.Valid() && queue.Valid() && nextPid == |accepted|
    }

    ghost function State(): M.State
      reads this, queue, entries
    {
      M.State(clock, queue.contents, queue.nextRid, entries[..], accepted, sent, attempts, abandoned, ops)
    }

    /** Requests are only ever added to those allocated before. */
    twostate predicate Grown()
      reads this, queue
    {
      old(queue.made) <= queue.made && forall i :: |old(queue.made)| <= i < |queue.made| ==> fresh(queue.made[i])
    }

    constructor (cfg: Config)
      requires cfg.Valid()
      ensures Valid() && this.cfg == cfg && State() == M.INIT
      ensures fresh(queue) && fresh(entries) && queue.made == []
    {
      this.cfg, clock, nextPid := cfg, 1, 0;
      queue := new ArpQueue();
      entries := new ArpTable.Entry[ArpTable.SIZE](_ => ArpTable.EMPTY);
      accepted, sent, attempts, abandoned, ops := [], [], [], [], [];
      new;
      assert entries[..] == ArpTable.TableAfter([]);
    }

    /** `sr_send_packet`: what is on the wire is only recorded. */
    method SendPacket(frame: Frame, iface: string, ghost x: M.Sent)
      requires x.frame == frame && x.iface == iface
      modifies this`sent
      ensures sent == old(sent) + [x]
    {
      sent := sent + [x];
    }

    /** `send_arp_request`. */
    method SendArpRequest(target: Ip, name: string, ghost rid: nat, ghost pid: nat)
      modifies this`sent
      ensures sent == match GetInterface(cfg.ifaces, name)
                      case None => old(sent)
                      case Some(i) =>
                        old(sent) + [M.ArpQuery(rid, pid, |accepted|, clock, target, M.QueryFrame(i, target), i.name)]
    {
      var iface := FindInterface(cfg.ifaces, name);
      if iface.None? { return; }
      var i := iface.value;
      var buf := BuildArp(BROADCAST, 1, i.addr, i.ip, [0, 0, 0, 0, 0, 0], target);
      SendPacket(buf[..], i.name,
                 M.ArpQuery(rid, pid, |accepted|, clock, target, M.QueryFrame(i, target), i.name));
    }

    /** `send_arp_reply`. */
    method SendArpReply(asker: Mac, askerIp: Ip, iface: Iface)
      modifies this`sent
      ensures sent == old(sent) + [M.ArpAnswer(M.AnswerFrame(iface, asker, askerIp), iface.name)]
    {
      var buf := BuildArp(asker, 2, iface.addr, iface.ip, asker, askerIp);
      SendPacket(buf[..], iface.name, M.ArpAnswer(M.AnswerFrame(iface, asker, askerIp), iface.name));
    }

    /** The part of `handle_arpreq` that asks once more. */
    method Ask(req: ReqNode)
      requires Valid() && req in queue.nodes && M.Queued(State(), req.rid)
      modifies this`sent, queue`contents, req
      ensures Valid() && State() == M.Query(cfg, old(State()), req.rid)
    {
      queue.NodeIsQueued(req);
      if req.packets != [] {
        SendArpRequest(req.ip, req.packets[0].iface, req.rid, req.packets[0].pid);
      }
      queue.MarkSent(req, clock);
    }

    /** `sr_arpreq_destroy` on a request that is given up. */
    method Abandon(req: ReqNode)
      requires Valid() && req in queue.nodes && M.Queued(State(), req.rid)
      modifies this`abandoned, queue, queue.nodes
      ensures Valid() && queue.made == old(queue.made) && State() == M.Destroy(old(State()), req.rid)
    {
      queue.NodeIsQueued(req);
      abandoned := abandoned + M.Pids(req.packets);
      queue.Destroy(req);
    }

    /** The copy `route_and_send` queues for a next hop. */
    method AcceptFrame(frame: Frame, hop: Hop, ghost origin: M.Origin) returns (req: ReqNode)
      requires Valid()
      modifies this`nextPid, this`accepted, queue, queue.nodes
      ensures Valid() && Grown() && req in queue.nodes
      ensures State() == M.Enqueue(old(State()), frame, hop, origin) && req.rid == M.Joins(old(State()), hop.ip)
    {
      req := queue.QueueReq(hop.ip, M.Packet(nextPid, frame, hop.iface.name));
      nextPid := nextPid + 1;
      accepted := accepted + [M.Accepted(frame, hop.ip, hop.iface.name, origin)];
    }

    // ----- retry, give-up and routing -----

    /** `handle_arpreq`. */
    method HandleArpReq(req: ReqNode, ghost fuel: nat)
      requires Valid() && req in queue.nodes && M.HandleReq(cfg, State(), req.rid, fuel).Done?
      modifies this, queue, queue.made
      ensures Valid() && Grown()
      ensures M.HandleReq(cfg, old(State()), req.rid, fuel) == M.Done(State())
      decreases fuel, 0, 0
    {
      queue.NodeIsQueued(req);
      assert req in queue.made;
      if clock - req.sent < 1 { return; }
      if req.timesSent >= 5 {
        NotifySenders(req, fuel - 1);
        Abandon(req);
        return;
      }
      Ask(req);
    }

    /** Its loop over the packets of a request it gives up on. */
    method NotifySenders(req: ReqNode, ghost fuel: nat)
      requires Valid() && req in queue.nodes && M.GiveUp(cfg, State(), req.rid, req.packets, fuel).Done?
      modifies this, queue, queue.made
      ensures Valid() && Grown() && req in queue.nodes
      ensures M.GiveUp(cfg, old(State()), req.rid, old(req.packets), fuel) == M.Done(State())
      decreases fuel, 3, 0
    {
      var ps, i := req.packets, 0;
      ghost var end := M.GiveUp(cfg, State(), req.rid, ps, fuel);
      while i < |ps|
        invariant 0 <= i <= |ps| && Valid() && Grown() && req in queue.nodes
        invariant M.GiveUp(cfg, State(), req.rid, ps[i..], fuel) == end
      {
        assert ps[i..] == [ps[i]] + ps[i + 1..];
        NotifySender(req, ps[i], ps[i + 1..], fuel, end);
        i := i + 1;
      }
    }

    /** One iteration of that loop, with `rest` still to come. */
    method NotifySender(req: ReqNode, p: M.Packet, ghost rest: seq<M.Packet>, ghost fuel: nat, ghost end: M.Outcome)
      requires Valid() && req in queue.nodes && M.GiveUp(cfg, State(), req.rid, [p] + rest, fuel) == end && end.Done?
      modifies this, queue, queue.made
      ensures Valid() && Grown() && req in queue.nodes
      ensures M.GiveUp(cfg, State(), req.rid, rest, fuel) == end
      decreases fuel, 2, 1
    {
      assert ([p] + rest)[1..] == rest;
      if |p.frame| < 34 { return; }
      attempts := attempts + [p.pid];
      SendIcmpError(3, 1, p.frame, ZERO_IP, fuel);
      queue.QueuedIsNode(req);
    }

    /** The source address `send_icmp_error` uses. */
    method ErrorSource(orig: Frame, src: Ip) returns (from: Ip)
      requires |orig| >= 34
      ensures from == M.ErrorSource(cfg, orig, src)
    {
      from := src;
      if from == ZERO_IP {
        var back := FindRoute(cfg.routes, orig[26..30]);
        if back.Some? {
          var iface := FindInterface(cfg.ifaces, back.value.iface);
          if iface.Some? { from := iface.value.ip; }
        }
      }
    }

    /** `send_icmp_error`. */
    method SendIcmpError(kind: byte, code: byte, orig: Frame, src: Ip, ghost fuel: nat)
      requires Valid() && M.SendError(cfg, State(), kind, code, orig, src, fuel).Done?
      modifies this, queue, queue.made
      ensures Valid() && Grown() && M.SendError(cfg, old(State()), kind, code, orig, src, fuel) == M.Done(State())
      decreases fuel, 2, 0
    {
      if |orig| < 34 { return; }
      var from := ErrorSource(orig, src);
      if from == ZERO_IP { return; }
      var buf := BuildIcmpError(kind, code, orig, from, cfg.beyond);
      var _ := RouteAndSend(buf, M.Error(kind, code, orig, from), fuel);
    }

    /** The lookups of `route_and_send`. */
    method ResolveHop(dst: Ip) returns (hop: Option<Hop>)
      ensures hop == Resolve(cfg, dst)
    {
      var route := FindRoute(cfg.routes, dst);
      if route.None? { return None; }
      var iface := FindInterface(cfg.ifaces, route.value.iface);
      if iface.None? { return None; }
      var ip := route.value.gw;
      if ip == ZERO_IP { ip := dst; }
      return Some(Hop(ip, iface.value));
    }

    /** `route_and_send`, which fails exactly when the destination does not resolve. */
    method RouteAndSend(frame: array<byte>, ghost origin: M.Origin, ghost fuel: nat) returns (ok: bool)
      requires Valid() && M.RouteAndSend(cfg, State(), frame[..], origin, fuel).Done?
      modifies this, queue, queue.made, frame
      ensures Valid() && Grown() && ok == M.Routable(cfg, old(frame[..]))
      ensures M.RouteAndSend(cfg, old(State()), old(frame[..]), origin, fuel) == M.Done(State())
      decreases fuel, 1, 0
    {
      if frame.Length < 34 { return false; }
      ghost var f := frame[..];
      assert frame[30..34] == Dst(f);
      var hop := ResolveHop(frame[30..34]);
      if hop.None? { return false; }
      StampInPlace(frame, hop.value.iface.addr);
      QueueAndHandle(frame[..], hop.value, origin, fuel);
      return true;
    }

    /** The end of `route_and_send`, which is one event. */
    method QueueAndHandle(frame: Frame, hop: Hop, ghost origin: M.Origin, ghost fuel: nat)
      requires Valid()
      requires M.HandleReq(cfg, M.Enqueue(State(), frame, hop, origin), M.Joins(State(), hop.ip), fuel).Done?
      modifies this, queue, queue.made
      ensures Valid() && Grown()
      ensures M.HandleReq(cfg, M.Enqueue(old(State()), frame, hop, origin), M.Joins(old(State()), hop.ip), fuel)
              == M.Done(State())
      decreases fuel, 0, 1
    {
      var req := AcceptFrame(frame, hop, origin);
      HandleArpReq(req, fuel);
    }

    // ----- received frames -----

    /** The drain loop of `handle_arp_packet`. */
    method SendWaiting(ps: seq<M.Packet>, ghost from: Ip, mac: Mac)
      modifies this`sent
      ensures sent == M.Drain(cfg, old(sent), ps, from, mac)
    {
      var i := 0;
      while i < |ps|
        invariant 0 <= i <= |ps|
        invariant M.Drain(cfg, sent, ps[i..], from, mac) == M.Drain(cfg, old(sent), ps, from, mac)
      {
        var p := ps[i];
        assert ps[i..][1..] == ps[i + 1..];
        if |p.frame| >= 14 {
          var buf := Copy(p.frame);
          var iface := FindInterface(cfg.ifaces, p.iface);
          AddressInPlace(buf, iface, mac);
          SendPacket(buf[..], p.iface, M.Delivery(p.pid, from, mac, buf[..], p.iface));
        }
        i := i + 1;
      }
    }

    /** `sr_arpcache_insert`. */
    method Learn(from: Ip, mac: Mac) returns (req: ReqNode?)
      requires Valid()
      modifies this`ops, queue, queue.nodes, entries
      ensures Valid() && queue.made == old(queue.made)
      ensures entries[..] == ArpTable.Insert(old(entries[..]), mac, from, clock)
      ensures ops == old(ops) + [ArpTable.Learn(mac, from, clock)] && queue.nextRid == old(queue.nextRid)
      ensures var rs, i := old(queue.contents), M.FindIp(old(queue.contents), from);
              if i == |rs| then req == null && queue.contents == rs
              else
                && req != null && req !in queue.nodes && req.packets == rs[i].packets
                && queue.contents == M.Remove(rs, i)
    {
      req := queue.Detach(from);
      ArpTable.InsertEntry(entries, mac, from, clock);
      ops := ops + [ArpTable.Learn(mac, from, clock)];
    }

    /** An ARP reply: `sr_arpcache_insert`, the drain loop, and `sr_arpreq_destroy` of a request that
        is no longer on the list. */
    method HandleArpReply(from: Ip, mac: Mac)
      requires Valid()
      modifies this`sent, this`ops, queue, queue.made, entries
      ensures Valid() && queue.made == old(queue.made)
      ensures State() == M.Reply(cfg, old(State()), from, mac)
    {
      var req := Learn(from, mac);
      if req != null {
        SendWaiting(req.packets, from, mac);
        queue.Destroy(req);
      }
    }

    /** `handle_arp_packet`. */
    method HandleArpPacket(packet: array<byte>, name: string)
      requires Valid()
      modifies this`sent, this`ops, queue, queue.made, entries
      ensures Valid() && queue.made == old(queue.made)
      ensures State() == M.HandleArp(cfg, old(State()), packet[..], name)
    {
      if packet.Length < 42 { return; }
      ghost var f := packet[..];
      if Word(packet[14], packet[15]) != 1 || Word(packet[16], packet[17]) != 0x0800 { return; }
      var recv := FindInterface(cfg.ifaces, name);
      if recv.None? { return; }
      var op := Word(packet[20], packet[21]);
      var sha, sip := packet[22..28], packet[28..32];
      assert sha == ArpSha(f) && sip == ArpSip(f) && packet[38..42] == ArpTip(f);
      if op == 1 {
        if packet[38..42] == recv.value.ip { SendArpReply(sha, sip, recv.value); }
      } else if op == 2 {
        HandleArpReply(sip, sha);
      }
    }

    /** The header tests at the top of `handle_ip_packet`. */
    method CheckIp(packet: array<byte>) returns (ok: bool)
      modifies packet
      ensures packet[..] == old(packet[..]) && ok == IpValid(packet[..])
    {
      if packet.Length < 34 { return false; }
      var len := packet[14] % 16 * 4;
      if len < 20 || packet.Length < 14 + len || Word(packet[16], packet[17]) < len { return false; }
      ok := Verify(packet, 14, len, 10);
      assert packet[14..14 + len] == Header(packet[..]);
    }

    /** The tests on a packet to the router that may be an echo request. */
    method CheckEcho(packet: array<byte>) returns (ok: bool)
      requires LengthsOk(packet[..])
      modifies packet
      ensures packet[..] == old(packet[..]) && ok == (packet[23] == 1 && EchoRequestOk(packet[..]))
    {
      var off := 14 + packet[14] % 16 * 4;
      assert packet[off..] == Icmp(packet[..]);
      if packet[23] != 1 || packet.Length < off + 8 || packet[off] != 8 { return false; }
      ok := Verify(packet, off, packet.Length - off, 2);
      assert packet[off..packet.Length] == Icmp(packet[..]);
    }

    /** The address of the interface a packet came in on, for the errors it causes. */
    method ReceivingIp(name: string) returns (ip: Ip)
      ensures ip == M.ReceivingIp(cfg, name)
    {
      var iface := FindInterface(cfg.ifaces, name);
      ip := if iface.Some? then iface.value.ip else ZERO_IP;
    }

    /** `send_icmp_echo_reply`. */
    method SendEchoReply(packet: Frame, ghost fuel: nat)
      requires Valid() && LengthsOk(packet) && |Icmp(packet)| >= 8
      requires M.RouteAndSend(cfg, State(), EchoReply(packet), M.Echo(packet), fuel).Done?
      modifies this, queue, queue.made
      ensures Valid() && Grown()
      ensures M.RouteAndSend(cfg, old(State()), EchoReply(packet), M.Echo(packet), fuel) == M.Done(State())
    {
      var buf := BuildEchoReply(packet);
      var _ := RouteAndSend(buf, M.Echo(packet), fuel);
    }

    /** The last part of `handle_ip_packet`: forward a private copy. */
    method ForwardPacket(packet: Frame, ghost fuel: nat) returns (ok: bool)
      requires Valid() && LengthsOk(packet) && Ttl(packet) > 0
      requires M.RouteAndSend(cfg, State(), Forwarded(packet), M.Forward(packet), fuel).Done?
      modifies this, queue, queue.made
      ensures Valid() && Grown() && ok == M.Routable(cfg, Forwarded(packet))
      ensures if ok then
                M.RouteAndSend(cfg, old(State()), Forwarded(packet), M.Forward(packet), fuel) == M.Done(State())
              else
                State() == old(State())
    {
      var frame := ForwardCopy(packet);
      ok := RouteAndSend(frame, M.Forward(packet), fuel);
    }

    /** `handle_ip_packet` for a packet to the router itself. */
    method HandleOwn(packet: array<byte>, ghost name: string, ghost fuel: nat)
      requires Valid() && IpValid(packet[..]) && IfaceForIp(cfg.ifaces, Dst(packet[..])).Some?
      requires M.HandleIp(cfg, State(), packet[..], name, fuel).Done?
      modifies this, queue, queue.made, packet
      ensures Valid() && Grown() && packet[..] == old(packet[..])
      ensures M.HandleIp(cfg, old(State()), packet[..], name, fuel) == M.Done(State())
    {
      var echo := CheckEcho(packet);
      AnswerOwn(packet[..], echo, name, fuel);
    }

    /** Its answer, if the packet is an echo request. */
    method AnswerOwn(packet: Frame, echo: bool, ghost name: string, ghost fuel: nat)
      requires Valid() && IpValid(packet) && IfaceForIp(cfg.ifaces, Dst(packet)).Some?
      requires echo == (packet[23] == 1 && EchoRequestOk(packet))
      requires M.HandleIp(cfg, State(), packet, name, fuel).Done?
      modifies this, queue, queue.made
      ensures Valid() && Grown()
      ensures M.HandleIp(cfg, old(State()), packet, name, fuel) == M.Done(State())
    {
      if echo { SendEchoReply(packet, fuel); }
    }

    /** `handle_ip_packet` for a packet in transit. */
    method HandleTransit(packet: Frame, name: string, ghost fuel: nat)
      requires Valid() && IpValid(packet) && IfaceForIp(cfg.ifaces, Dst(packet)).None?
      requires M.HandleIp(cfg, State(), packet, name, fuel).Done?
      modifies this, queue, queue.made
      ensures Valid() && Grown()
      ensures M.HandleIp(cfg, old(State()), packet, name, fuel) == M.Done(State())
    {
      if packet[22] <= 1 {
        var src := ReceivingIp(name);
        SendIcmpError(11, 0, packet, src, fuel);
        return;
      }
      var ok := ForwardPacket(packet, fuel);
      if !ok {
        var src := ReceivingIp(name);
        SendIcmpError(3, 0, packet, src, fuel);
      }
    }

    /** `handle_ip_packet`. */
    method HandleIpPacket(packet: array<byte>, name: string, ghost fuel: nat)
      requires Valid() && M.HandleIp(cfg, State(), packet[..], name, fuel).Done?
      modifies this, queue, queue.made, packet
      ensures Valid() && Grown() && packet[..] == old(packet[..])
      ensures M.HandleIp(cfg, old(State()), packet[..], name, fuel) == M.Done(State())
    {
      var ok := CheckIp(packet);
      if ok { HandleValid(packet, name, fuel); }
    }

    /** `handle_ip_packet` past the header tests. */
    method HandleValid(packet: array<byte>, name: string, ghost fuel: nat)
      requires Valid() && IpValid(packet[..]) && M.HandleIp(cfg, State(), packet[..], name, fuel).Done?
      modifies this, queue, queue.made, packet
      ensures Valid() && Grown() && packet[..] == old(packet[..])
      ensures M.HandleIp(cfg, old(State()), packet[..], name, fuel) == M.Done(State())
    {
      assert packet[30..34] == Dst(packet[..]);
      var own := FindIfaceForIp(cfg.ifaces, packet[30..34]);
      if own.Some? {
        HandleOwn(packet, name, fuel);
      } else {
        HandleTransit(packet[..], name, fuel);
      }
    }

    /** `sr_handlepacket` at time `now`. The packet is only lent and is left as it was. */
    method HandlePacket(now: int, packet: array<byte>, name: string, ghost fuel: nat)
      requires Valid() && M.Step(cfg, State(), M.Receive(now, packet[..], name), fuel).Done?
      modifies this, queue, queue.made, entries, packet
      ensures Valid() && Grown() && packet[..] == old(packet[..])
      ensures M.Step(cfg, old(State()), M.Receive(now, packet[..], name), fuel) == M.Done(State())
    {
      clock := now;
      if packet.Length < 14 { return; }
      var etype := Word(packet[12], packet[13]);
      if etype == 0x0806 {
        HandleArpPacket(packet, name);
      } else if etype == 0x0800 {
        HandleIpPacket(packet, name, fuel);
      }
    }

    // ----- the timer -----

    /** `sr_arpcache_sweepreqs`. */
    method SweepReqs(ghost fuel: nat)
      requires Valid() && M.SweepFrom(cfg, State(), M.Head(State()), fuel).Done?
      modifies this, queue, queue.made
      ensures Valid() && Grown()
      ensures M.SweepFrom(cfg, old(State()), M.Head(old(State())), fuel) == M.Done(State())
    {
      queue.FrontIs();
      assert Name(queue.requests) == M.Head(State());
      SweepList(queue.requests, fuel, M.SweepFrom(cfg, State(), M.Head(State()), fuel));
    }

    ghost function Name(req: ReqNode?): Option<nat> {
      if req == null then None else Some(req.rid)
    }

    /** The sweep stands at `req`, from where it ends in `end`. */
    ghost predicate Standing(req: ReqNode?, fuel: nat, end: M.Outcome)
      reads this, queue, queue.nodes, entries
    {
      && Valid() && (req != null ==> req in queue.nodes)
      && end.Done? && M.SweepFrom(cfg, State(), Name(req), fuel) == end
    }

    /** Its loop. */
    method SweepList(start: ReqNode?, ghost fuel: nat, ghost end: M.Outcome)
      requires Standing(start, fuel, end)
      modifies this, queue, queue.made
      ensures Valid() && Grown() && end == M.Done(State())
    {
      var req := start;
      ghost var left: nat := fuel;
      while req != null
        invariant Standing(req, left, end) && Grown()
        decreases left
      {
        req, left := SweepOne(req, left, end);
      }
    }

    /** Handling a request while its successor is saved: if the specification still has the successor
        queued, so has the list. */
    method HandleWithSaved(req: ReqNode, ghost next: ReqNode?, ghost fuel: nat, ghost s1: M.State)
      requires Valid() && req in queue.nodes && M.HandleReq(cfg, State(), req.rid, fuel) == M.Done(s1)
      requires next != null ==> next in queue.nodes && M.Queued(s1, next.rid)
      modifies this, queue, queue.made
      ensures Valid() && Grown() && State() == s1 && (next != null ==> next in queue.nodes)
    {
      HandleArpReq(req, fuel);
      if next != null { queue.QueuedIsNode(next); }
    }

    /** One iteration, which saves the successor of a request before handling it. */
    method SweepOne(req: ReqNode, ghost fuel: nat, ghost end: M.Outcome)
      returns (next: ReqNode?, ghost rest: nat)
      requires Standing(req, fuel, end)
      modifies this, queue, queue.made
      ensures Grown() && rest < fuel && Standing(next, rest, end)
    {
      ghost var s1, at := Sweep.SweepUnfolds(cfg, State(), Name(req), fuel);
      queue.NextIs(req);
      next, rest := req.next, fuel - 1;
      assert Name(next) == at && M.SweepFrom(cfg, s1, at, rest) == end;
      HandleWithSaved(req, next, rest, s1);
      assert M.SweepFrom(cfg, State(), Name(next), rest) == end;
    }

    /** One pass of the loop of `sr_arpcache_timeout` at time `now`. */
    method TimerPass(now: int, ghost fuel: nat)
      requires Valid() && M.Step(cfg, State(), M.Timer(now), fuel).Done?
      modifies this, queue, queue.made, entries
      ensures Valid() && Grown()
      ensures M.Step(cfg, old(State()), M.Timer(now), fuel) == M.Done(State())
    {
      clock := now;
      ArpTable.ExpireEntries(entries, now);
      ops := ops + [ArpTable.Pass(now)];
      SweepReqs(fuel);
    }
  }
}
