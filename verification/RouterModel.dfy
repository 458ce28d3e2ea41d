/** The router as a state machine: what each function of sr_router.c and sr_arpcache.c does to the
    queue of ARP requests, the address table and the wire, one event at a time.

    A request's `rid` and a packet's `pid` stand for the identity of their allocations. The
    histories `accepted`, `sent`, `attempts`, `abandoned` and `ops` only grow and are never read. */
module RouterModel {
  import opened Bytes
  import opened Packets
  import opened Routing
  import ArpTable

  // ----- state -----

  datatype Packet = Packet(pid: nat, frame: Frame, iface: string)

  datatype Request = Request(rid: nat, ip: Ip, sent: int, timesSent: nat, packets: seq<Packet>)

  /** Why `route_and_send` was called. */
  datatype Origin =
    | Forward(received: Frame)
    | Echo(received: Frame)
    | Error(kind: byte, code: byte, offender: Frame, src: Ip)

  /** A frame that `route_and_send` queued. */
  datatype Accepted = Accepted(frame: Frame, hop: Ip, iface: string, origin: Origin)

  /** A frame handed to `sr_send_packet`. An ARP query notes the packet on whose account it was sent, and
      how many frames had been accepted by then. */
  datatype Sent =
    | ArpQuery(rid: nat, pid: nat, seen: nat, time: int, target: Ip, frame: Frame, iface: string)
    | ArpAnswer(frame: Frame, iface: string)
    | Delivery(pid: nat, from: Ip, mac: Mac, frame: Frame, iface: string)

  datatype State = State(
    clock: int,
    requests: seq<Request>,
    nextRid: nat,
    table: seq<ArpTable.Entry>,
    accepted: seq<Accepted>,
    sent: seq<Sent>,
    attempts: seq<nat>,
    abandoned: seq<nat>,
    ops: seq<ArpTable.TableOp>)

  const INIT := State(1, [], 0, ArpTable.TableAfter([]), [], [], [], [], [])

  /** An activation ends in a state, touches freed memory, or needs more nested give-ups than it
      was granted. */
  datatype Outcome = Done(s: State) | Fault | OutOfFuel

  // ----- the request queue -----

  function FindIp(rs: seq<Request>, ip: Ip): (i: nat)
    ensures i <= |rs|
    ensures i < |rs| ==> rs[i].ip == ip
  {
    if rs == [] || rs[0].ip == ip then 0 else 1 + FindIp(rs[1..], ip)
  }

  function FindRid(rs: seq<Request>, rid: nat): (i: nat)
    ensures i <= |rs|
    ensures i < |rs| ==> rs[i].rid == rid
  {
    if rs == [] || rs[0].rid == rid then 0 else 1 + FindRid(rs[1..], rid)
  }

  predicate Queued(s: State, rid: nat) {
    FindRid(s.requests, rid) < |s.requests|
  }

  function RequestOf(s: State, rid: nat): (r: Request)
    requires Queued(s, rid)
    ensures r.rid == rid
  {
    s.requests[FindRid(s.requests, rid)]
  }

  function Remove(rs: seq<Request>, i: nat): (r: seq<Request>)
    requires i < |rs|
  {
    rs[..i] + rs[i + 1..]
  }

  /** `sr_arpcache_queuereq` on the list: join the request for `ip`, or prepend a new one. */
  function Join(rs: seq<Request>, rid: nat, ip: Ip, p: Packet): (r: seq<Request>)
  {
    var i := FindIp(rs, ip);
    if i < |rs| then rs[i := rs[i].(packets := [p] + rs[i].packets)]
    else [Request(rid, ip, 0, 0, [p])] + rs
  }

  /** The request that `sr_arpcache_queuereq` returns: the one for `ip`, or the one made for it. */
  function Joins(s: State, ip: Ip): (rid: nat) {
    var i := FindIp(s.requests, ip);
    if i < |s.requests| then s.requests[i].rid else s.nextRid
  }

  /** `sr_arpcache_queuereq`. */
  function Enqueue(s: State, frame: Frame, hop: Hop, origin: Origin): (r: State)
  {
    var p := Packet(|s.accepted|, frame, hop.iface.name);
    s.(requests := Join(s.requests, s.nextRid, hop.ip, p),
       nextRid := if FindIp(s.requests, hop.ip) < |s.requests| then s.nextRid else s.nextRid + 1,
       accepted := s.accepted + [Accepted(frame, hop.ip, hop.iface.name, origin)])
  }

  function Pids(ps: seq<Packet>): (r: seq<nat>)
    ensures |r| == |ps| && forall i :: 0 <= i < |ps| ==> r[i] == ps[i].pid
  {
    seq(|ps|, i requires 0 <= i < |ps| => ps[i].pid)
  }

  /** `sr_arpreq_destroy` of a request that is still queued. */
  function Destroy(s: State, rid: nat): (r: State)
    requires Queued(s, rid)
  {
    s.(requests := Remove(s.requests, FindRid(s.requests, rid)),
       abandoned := s.abandoned + Pids(RequestOf(s, rid).packets))
  }

  // ----- ARP retry, give-up and routing, which call each other -----

  predicate Due(now: int, r: Request) { now - r.sent >= 1 }

  /** Due and out of attempts: handling it gives up. */
  predicate Exhausted(now: int, r: Request) { Due(now, r) && r.timesSent >= 5 }

  /** `send_arp_request` and the bookkeeping after it. */
  function Query(cfg: Config, s: State, rid: nat): (r: State)
    requires Queued(s, rid)
  {
    var i := FindRid(s.requests, rid);
    var r := s.requests[i];
    var s1 := s.(requests := s.requests[i := r.(sent := s.clock, timesSent := r.timesSent + 1)]);
    if r.packets == [] then s1
    else
      match GetInterface(cfg.ifaces, r.packets[0].iface)
      case None => s1
      case Some(iface) =>
        s1.(sent := s.sent + [ArpQuery(rid, r.packets[0].pid, |s.accepted|, s.clock, r.ip,
                                       QueryFrame(iface, r.ip), iface.name)])
  }

  function QueryFrame(iface: Iface, target: Ip): (f: Frame) {
    ArpFrame(BROADCAST, 1, iface.addr, iface.ip, [0, 0, 0, 0, 0, 0], target)
  }

  function AnswerFrame(iface: Iface, asker: Mac, askerIp: Ip): (f: Frame) {
    ArpFrame(asker, 2, iface.addr, iface.ip, asker, askerIp)
  }

  /** `handle_arpreq`. `fuel` bounds how many give-ups may be nested. */
  function HandleReq(cfg: Config, s: State, rid: nat, fuel: nat): (o: Outcome)
    requires cfg.Valid()
    decreases fuel, 0, 0
  {
    if !Queued(s, rid) then Fault
    else
      var r := RequestOf(s, rid);
      if !Due(s.clock, r) then Done(s)
      else if r.timesSent < 5 then Done(Query(cfg, s, rid))
      else if fuel == 0 then OutOfFuel
      else
        match GiveUp(cfg, s, rid, r.packets, fuel - 1)
        case Done(s1) => if Queued(s1, rid) then Done(Destroy(s1, rid)) else Fault
        case Fault => Fault
        case OutOfFuel => OutOfFuel
  }

  /** The loop of `handle_arpreq` over the packets of a request it gives up on. */
  function GiveUp(cfg: Config, s: State, rid: nat, ps: seq<Packet>, fuel: nat): (o: Outcome)
    requires cfg.Valid()
    decreases fuel, 3, |ps|
  {
    if ps == [] then Done(s)
    else if |ps[0].frame| < 34 then GiveUp(cfg, s, rid, ps[1..], fuel)
    else
      match SendError(cfg, s.(attempts := s.attempts + [ps[0].pid]), 3, 1, ps[0].frame, ZERO_IP, fuel)
      case Done(s1) => if Queued(s1, rid) then GiveUp(cfg, s1, rid, ps[1..], fuel) else Fault
      case Fault => Fault
      case OutOfFuel => OutOfFuel
  }

  /** The source address of an ICMP error: the one given, else that of the interface on the
      route back to the offender, else 0.0.0.0. */
  function ErrorSource(cfg: Config, frame: Frame, src: Ip): (from: Ip)
    requires |frame| >= 34
  {
    if src != ZERO_IP then src
    else
      match ExactMatch(cfg.routes, Src(frame))
      case None => ZERO_IP
      case Some(back) =>
        match GetInterface(cfg.ifaces, back.iface)
        case None => ZERO_IP
        case Some(iface) => iface.ip
  }

  /** `send_icmp_error`. */
  function SendError(cfg: Config, s: State, kind: byte, code: byte, frame: Frame, src: Ip, fuel: nat): (o: Outcome)
    requires cfg.Valid()
    decreases fuel, 2, 0
  {
    if |frame| < 34 then Done(s)
    else
      var from := ErrorSource(cfg, frame, src);
      if from == ZERO_IP then Done(s)
      else
        RouteAndSend(cfg, s, IcmpError(kind, code, frame, from, cfg.beyond),
                     Error(kind, code, frame, from), fuel)
  }

  /** `route_and_send` returns 0 exactly when this holds. */
  predicate Routable(cfg: Config, frame: Frame) {
    |frame| >= 34 && Resolve(cfg, Dst(frame)).Some?
  }

  /** `route_and_send`. */
  function RouteAndSend(cfg: Config, s: State, frame: Frame, origin: Origin, fuel: nat): (o: Outcome)
    requires cfg.Valid()
    decreases fuel, 1, 0
  {
    if !Routable(cfg, frame) then Done(s)
    else
      var hop := Resolve(cfg, Dst(frame)).value;
      HandleReq(cfg, Enqueue(s, Stamp(frame, hop.iface.addr), hop, origin), Joins(s, hop.ip), fuel)
  }

  // ----- events -----

  /** What the drain loop hands to `sr_send_packet` for one packet: the source address is rewritten only
      if the interface exists. */
  function DeliveryOf(cfg: Config, p: Packet, from: Ip, mac: Mac): (x: Sent)
    requires |p.frame| >= 14
  {
    var shost := match GetInterface(cfg.ifaces, p.iface) case None => Shost(p.frame) case Some(i) => i.addr;
    Delivery(p.pid, from, mac, Address(p.frame, shost, mac), p.iface)
  }

  /** The drain loop of `handle_arp_packet`, in list order. */
  function Drain(cfg: Config, sent: seq<Sent>, ps: seq<Packet>, from: Ip, mac: Mac): (r: seq<Sent>)
    decreases |ps|
  {
    if ps == [] then sent
    else if |ps[0].frame| < 14 then Drain(cfg, sent, ps[1..], from, mac)
    else Drain(cfg, sent + [DeliveryOf(cfg, ps[0], from, mac)], ps[1..], from, mac)
  }

  /** The table part of a reply. */
  function Learning(s: State, from: Ip, mac: Mac): (r: State) {
    s.(table := ArpTable.Insert(s.table, mac, from, s.clock), ops := s.ops + [ArpTable.Learn(mac, from, s.clock)])
  }

  /** An ARP reply: learn the binding, detach the request it answers, send what waited on it. */
  function Reply(cfg: Config, s: State, from: Ip, mac: Mac): (r: State)
  {
    var i := FindIp(s.requests, from);
    if i == |s.requests| then Learning(s, from, mac)
    else
      Learning(s, from, mac).(requests := Remove(s.requests, i),
                              sent := Drain(cfg, s.sent, s.requests[i].packets, from, mac))
  }

  /** `handle_arp_packet`. */
  function HandleArp(cfg: Config, s: State, frame: Frame, iface: string): (r: State)
  {
    if !ArpValid(frame) then s
    else
      match GetInterface(cfg.ifaces, iface)
      case None => s
      case Some(recv) =>
        if ArpOp(frame) == 1 then
          if ArpTip(frame) != recv.ip then s
          else s.(sent := s.sent + [ArpAnswer(AnswerFrame(recv, ArpSha(frame), ArpSip(frame)), recv.name)])
        else if ArpOp(frame) == 2 then Reply(cfg, s, ArpSip(frame), ArpSha(frame))
        else s
  }

  /** The address `handle_ip_packet` gives its own errors: that of the receiving interface. */
  function ReceivingIp(cfg: Config, iface: string): (ip: Ip) {
    match GetInterface(cfg.ifaces, iface)
    case None => ZERO_IP
    case Some(i) => i.ip
  }

  /** `handle_ip_packet`. */
  function HandleIp(cfg: Config, s: State, frame: Frame, iface: string, fuel: nat): (o: Outcome)
    requires cfg.Valid()
  {
    if !IpValid(frame) then Done(s)
    else if IfaceForIp(cfg.ifaces, Dst(frame)).Some? then
      if frame[23] != 1 || !EchoRequestOk(frame) then Done(s)
      else RouteAndSend(cfg, s, EchoReply(frame), Echo(frame), fuel)
    else if Ttl(frame) <= 1 then
      SendError(cfg, s, 11, 0, frame, ReceivingIp(cfg, iface), fuel)
    else if !Routable(cfg, Forwarded(frame)) then
      SendError(cfg, s, 3, 0, frame, ReceivingIp(cfg, iface), fuel)
    else
      RouteAndSend(cfg, s, Forwarded(frame), Forward(frame), fuel)
  }

  /** `sr_handlepacket`. */
  function HandlePacket(cfg: Config, s: State, frame: Frame, iface: string, fuel: nat): (o: Outcome)
    requires cfg.Valid()
  {
    if |frame| < 14 then Done(s)
    else if Ethertype(frame) == 0x0806 then Done(HandleArp(cfg, s, frame, iface))
    else if Ethertype(frame) == 0x0800 then HandleIp(cfg, s, frame, iface, fuel)
    else Done(s)
  }

  /** The request after the one called `rid`, which is `req->next`. */
  function After(s: State, rid: nat): (r: Option<nat>)
    requires Queued(s, rid)
  {
    var i := FindRid(s.requests, rid) + 1;
    if i == |s.requests| then None else Some(s.requests[i].rid)
  }

  /** `sr_arpcache_sweepreqs` from the request it has reached; reading a request that was freed
      in the meantime is a fault. */
  function SweepFrom(cfg: Config, s: State, at: Option<nat>, fuel: nat): (o: Outcome)
    requires cfg.Valid()
    decreases fuel
  {
    if at.None? then Done(s)
    else if !Queued(s, at.value) then Fault
    else if fuel == 0 then OutOfFuel
    else
      var next := After(s, at.value);
      match HandleReq(cfg, s, at.value, fuel - 1)
      case Done(s1) => SweepFrom(cfg, s1, next, fuel - 1)
      case Fault => Fault
      case OutOfFuel => OutOfFuel
  }

  function Head(s: State): (r: Option<nat>) {
    if s.requests == [] then None else Some(s.requests[0].rid)
  }

  /** The table part of a timer pass. */
  function Expiring(s: State): (r: State) {
    s.(table := ArpTable.Expire(s.table, s.clock), ops := s.ops + [ArpTable.Pass(s.clock)])
  }

  /** One pass of `sr_arpcache_timeout`: expire bindings, then sweep the requests. */
  function TimerPass(cfg: Config, s: State, fuel: nat): (o: Outcome)
    requires cfg.Valid()
  {
    SweepFrom(cfg, Expiring(s), Head(Expiring(s)), fuel)
  }

  datatype Event =
    | Receive(now: int, frame: Frame, iface: string)
    | Timer(now: int)

  /** The event is an ARP reply on one of the router's interfaces. */
  predicate CarriesReply(cfg: Config, e: Event) {
    e.Receive? && IsArp(e.frame, 2) && GetInterface(cfg.ifaces, e.iface).Some?
  }

  /** The event is an ARP query for the address of the interface it arrives on. */
  predicate AsksUs(cfg: Config, e: Event) {
    && e.Receive? && IsArp(e.frame, 1) && GetInterface(cfg.ifaces, e.iface).Some?
    && e.frame[38..42] == GetInterface(cfg.ifaces, e.iface).value.ip
  }

  function Step(cfg: Config, s: State, e: Event, fuel: nat): (o: Outcome)
    requires cfg.Valid()
  {
    match e
    case Receive(now, frame, iface) => HandlePacket(cfg, s.(clock := now), frame, iface, fuel)
    case Timer(now) => TimerPass(cfg, s.(clock := now), fuel)
  }

  /** The event completes in `t`. The clock starts at 1 and never goes back. */
  ghost predicate Next(cfg: Config, s: State, e: Event, t: State)
    requires cfg.Valid()
  {
    s.clock <= e.now && exists fuel: nat :: Step(cfg, s, e, fuel) == Done(t)
  }

  /** States that follow one another from the initial one by completed events. */
  ghost predicate Run(cfg: Config, states: seq<State>, events: seq<Event>)
    requires cfg.Valid()
  {
    && |states| == |events| + 1
    && states[0] == INIT
    && forall i {:trigger events[i]} :: 0 <= i < |events| ==> Next(cfg, states[i], events[i], states[i + 1])
  }
}
