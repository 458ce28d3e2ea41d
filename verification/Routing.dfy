/** Interfaces, the routing table, and how a destination resolves to a next hop. */
module Routing {
  import opened Bytes

  datatype Iface = Iface(name: string, addr: Mac, ip: Ip)
  datatype Route = Route(dest: Ip, gw: Ip, iface: string)

  /** What does not change while packets are handled. `beyond` stands for the octets that follow
      a frame buffer in memory; only frames of 34 to 41 octets make the router read them. */
  datatype Config = Config(ifaces: seq<Iface>, routes: seq<Route>, beyond: seq<byte>) {
    predicate Valid() { |beyond| >= 8 }
  }

  /** A resolved destination: the address to ask ARP for, and the interface to ask on. */
  datatype Hop = Hop(ip: Ip, iface: Iface)

  function GetInterface(ifaces: seq<Iface>, name: string): (r: Option<Iface>)
    ensures r.Some? ==> r.value in ifaces && r.value.name == name
    ensures r.None? <==> forall i :: i in ifaces ==> i.name != name
  {
    if ifaces == [] then None
    else if ifaces[0].name == name then Some(ifaces[0])
    else GetInterface(ifaces[1..], name)
  }

  function ExactMatch(routes: seq<Route>, ip: Ip): (r: Option<Route>)
    ensures r.Some? ==> r.value in routes && r.value.dest == ip
    ensures r.None? <==> forall x :: x in routes ==> x.dest != ip
  {
    if routes == [] then None
    else if routes[0].dest == ip then Some(routes[0])
    else ExactMatch(routes[1..], ip)
  }

  function IfaceForIp(ifaces: seq<Iface>, ip: Ip): (r: Option<Iface>)
    ensures r.Some? ==> r.value in ifaces && r.value.ip == ip
    ensures r.None? <==> forall i :: i in ifaces ==> i.ip != ip
  {
    if ifaces == [] then None
    else if ifaces[0].ip == ip then Some(ifaces[0])
    else IfaceForIp(ifaces[1..], ip)
  }

  /** A gateway of 0.0.0.0 means the destination is on the link. */
  function NextHop(route: Route, dst: Ip): (ip: Ip)
  {
    if route.gw == ZERO_IP then dst else route.gw
  }

  /** Where `route_and_send` sends a packet for `dst`, or None where it returns -1. */
  function Resolve(cfg: Config, dst: Ip): (r: Option<Hop>)
    ensures r.Some? ==> GetInterface(cfg.ifaces, r.value.iface.name) == Some(r.value.iface)
  {
    match ExactMatch(cfg.routes, dst)
    case None => None
    case Some(route) =>
      match GetInterface(cfg.ifaces, route.iface)
      case None => None
      case Some(iface) => Some(Hop(NextHop(route, dst), iface))
  }

  // ----- what the lookups find -----

  /** The first interface of that name. */
  lemma {:induction false} GetInterfaceIsFirst(ifaces: seq<Iface>, name: string, k: nat)
    requires k < |ifaces| && ifaces[k].name == name && forall j :: 0 <= j < k ==> ifaces[j].name != name
    ensures GetInterface(ifaces, name) == Some(ifaces[k])
  {
    if k > 0 { GetInterfaceIsFirst(ifaces[1..], name, k - 1); }
  }

  /** The first route to exactly that destination. */
  lemma {:induction false} ExactMatchIsFirst(routes: seq<Route>, ip: Ip, k: nat)
    requires k < |routes| && routes[k].dest == ip && forall j :: 0 <= j < k ==> routes[j].dest != ip
    ensures ExactMatch(routes, ip) == Some(routes[k])
  {
    if k > 0 { ExactMatchIsFirst(routes[1..], ip, k - 1); }
  }

  /** The first interface with that address. */
  lemma {:induction false} IfaceForIpIsFirst(ifaces: seq<Iface>, ip: Ip, k: nat)
    requires k < |ifaces| && ifaces[k].ip == ip && forall j :: 0 <= j < k ==> ifaces[j].ip != ip
    ensures IfaceForIp(ifaces, ip) == Some(ifaces[k])
  {
    if k > 0 { IfaceForIpIsFirst(ifaces[1..], ip, k - 1); }
  }

  /** What a destination resolves to, if `r` is the first route to it and `k` the first interface the route
      names, each the length of its list if there is none: the gateway, or the destination itself if the
      gateway is 0.0.0.0, over that interface. */
  lemma {:induction false} ResolveIs(cfg: Config, dst: Ip, r: nat, k: nat)
    requires r <= |cfg.routes| && forall j :: 0 <= j < r ==> cfg.routes[j].dest != dst
    requires r < |cfg.routes| ==>
               && cfg.routes[r].dest == dst && k <= |cfg.ifaces|
               && (forall j :: 0 <= j < k ==> cfg.ifaces[j].name != cfg.routes[r].iface)
               && (k < |cfg.ifaces| ==> cfg.ifaces[k].name == cfg.routes[r].iface)
    ensures Resolve(cfg, dst) ==
            if r == |cfg.routes| || k == |cfg.ifaces| then None
            else Some(Hop(if cfg.routes[r].gw == [0, 0, 0, 0] then dst else cfg.routes[r].gw, cfg.ifaces[k]))
  {
    if r < |cfg.routes| {
      ExactMatchIsFirst(cfg.routes, dst, r);
      if k < |cfg.ifaces| { GetInterfaceIsFirst(cfg.ifaces, cfg.routes[r].iface, k); }
    }
  }

  // ----- the search loops -----

  /** `sr_get_interface`: the first interface of that name. */
  method FindInterface(ifaces: seq<Iface>, name: string) returns (r: Option<Iface>)
    ensures r == GetInterface(ifaces, name)
  {
    var i := 0;
    while i < |ifaces|
      invariant 0 <= i <= |ifaces|
      invariant GetInterface(ifaces[i..], name) == GetInterface(ifaces, name)
    {
      if ifaces[i].name == name { return Some(ifaces[i]); }
      assert ifaces[i..][1..] == ifaces[i + 1..];
      i := i + 1;
    }
    return None;
  }

  /** `rt_exact_match`: the first route to exactly that destination. */
  method FindRoute(routes: seq<Route>, ip: Ip) returns (r: Option<Route>)
    ensures r == ExactMatch(routes, ip)
  {
    var i := 0;
    while i < |routes|
      invariant 0 <= i <= |routes|
      invariant ExactMatch(routes[i..], ip) == ExactMatch(routes, ip)
    {
      if routes[i].dest == ip { return Some(routes[i]); }
      assert routes[i..][1..] == routes[i + 1..];
      i := i + 1;
    }
    return None;
  }

  /** `find_iface_for_ip`: the first interface with that address. */
  method FindIfaceForIp(ifaces: seq<Iface>, ip: Ip) returns (r: Option<Iface>)
    ensures r == IfaceForIp(ifaces, ip)
  {
    var i := 0;
    while i < |ifaces|
      invariant 0 <= i <= |ifaces|
      invariant IfaceForIp(ifaces[i..], ip) == IfaceForIp(ifaces, ip)
    {
      if ifaces[i].ip == ip { return Some(ifaces[i]); }
      assert ifaces[i..][1..] == ifaces[i + 1..];
      i := i + 1;
    }
    return None;
  }

  /** The routes whose interface does not exist. */
  function Missing(ifaces: seq<Iface>, routes: seq<Route>): (n: nat)
  {
    if routes == [] then 0
    else (if GetInterface(ifaces, routes[0].iface).None? then 1 else 0) + Missing(ifaces, routes[1..])
  }

  /** The routes, by position, whose interface does not exist. */
  ghost function Dangling(ifaces: seq<Iface>, routes: seq<Route>): (r: set<int>) {
    set j: int | 0 <= j < |routes| && forall i :: i in ifaces ==> i.name != routes[j].iface
  }

  lemma {:induction false} MissingLast(ifaces: seq<Iface>, routes: seq<Route>, x: Route)
    ensures Missing(ifaces, routes + [x])
            == Missing(ifaces, routes) + if GetInterface(ifaces, x.iface).None? then 1 else 0
  {
    if routes == [] {
      assert routes + [x] == [x];
    } else {
      assert (routes + [x])[1..] == routes[1..] + [x];
      MissingLast(ifaces, routes[1..], x);
    }
  }

  lemma {:induction false} DanglingLast(ifaces: seq<Iface>, routes: seq<Route>, x: Route)
    ensures var d := Dangling(ifaces, routes);
            && |routes| !in d
            && Dangling(ifaces, routes + [x]) == if GetInterface(ifaces, x.iface).None? then d + {|routes|} else d
  {
    var more := routes + [x];
    forall j | 0 <= j <= |routes|
      ensures j in Dangling(ifaces, more) <==>
                if j < |routes| then j in Dangling(ifaces, routes) else GetInterface(ifaces, x.iface).None?
    {
      assert more[j] == if j < |routes| then routes[j] else x;
    }
  }

  lemma {:induction false} MissingIsDangling(ifaces: seq<Iface>, routes: seq<Route>)
    ensures Missing(ifaces, routes) == |Dangling(ifaces, routes)|
  {
    if routes != [] {
      var n := |routes| - 1;
      MissingIsDangling(ifaces, routes[..n]);
      MissingLast(ifaces, routes[..n], routes[n]);
      DanglingLast(ifaces, routes[..n], routes[n]);
      assert routes == routes[..n] + [routes[n]];
    }
  }

  /** The count is the number of routes that name no existing interface, so it is 0 if and only if every
      route names one. */
  lemma {:induction false} MissingCounts(ifaces: seq<Iface>, routes: seq<Route>)
    ensures Missing(ifaces, routes)
            == |(set j | 0 <= j < |routes| && forall i :: i in ifaces ==> i.name != routes[j].iface)|
    ensures Missing(ifaces, routes) == 0 <==>
              forall x :: x in routes ==> exists i :: i in ifaces && i.name == x.iface
  {
    var d := Dangling(ifaces, routes);
    MissingIsDangling(ifaces, routes);
    if d == {} {
      forall x | x in routes ensures exists i :: i in ifaces && i.name == x.iface {
        var j :| 0 <= j < |routes| && routes[j] == x;
        assert j !in d;
      }
    } else {
      var j :| j in d;
      assert routes[j] in routes;
    }
  }

  /** `sr_verify_routing_table`: 999 for an empty list, else the number of routes that name an
      unknown interface. */
  method VerifyRoutingTable(ifaces: seq<Iface>, routes: seq<Route>) returns (ret: nat)
    ensures ret == if ifaces == [] || routes == [] then 999 else Missing(ifaces, routes)
    ensures ifaces != [] && routes != [] ==>
              ret == |(set j | 0 <= j < |routes| && forall i :: i in ifaces ==> i.name != routes[j].iface)|
    ensures ret == 0 <==>
              && ifaces != [] && routes != []
              && forall x :: x in routes ==> exists i :: i in ifaces && i.name == x.iface
  {
    MissingCounts(ifaces, routes);
    if ifaces == [] || routes == [] { return 999; }
    ret := 0;
    var r := 0;
    while r < |routes|
      invariant 0 <= r <= |routes|
      invariant ret + Missing(ifaces, routes[r..]) == Missing(ifaces, routes)
    {
      var i := 0;
      while i < |ifaces| && ifaces[i].name != routes[r].iface
        invariant 0 <= i <= |ifaces|
        invariant GetInterface(ifaces[i..], routes[r].iface) == GetInterface(ifaces, routes[r].iface)
      {
        assert ifaces[i..][1..] == ifaces[i + 1..];
        i := i + 1;
      }
      if i == |ifaces| { ret := ret + 1; }
      assert routes[r..][1..] == routes[r + 1..];
      r := r + 1;
    }
  }

  lemma {:induction false} GetInterfaceAppend(ifaces: seq<Iface>, more: seq<Iface>, name: string)
    requires GetInterface(ifaces, name).Some?
    ensures GetInterface(ifaces + more, name) == GetInterface(ifaces, name)
  {
    if ifaces[0].name != name {
      assert (ifaces + more)[1..] == ifaces[1..] + more;
      GetInterfaceAppend(ifaces[1..], more, name);
    }
  }

  /** Once the table verified, and however many interfaces are appended after that, a destination
      resolves if and only if some route names it exactly, and always to the same hop. */
  lemma {:induction false} VerifiedTableResolves(cfg: Config, more: seq<Iface>, dst: Ip)
    requires cfg.ifaces != [] && cfg.routes != [] && Missing(cfg.ifaces, cfg.routes) == 0
    ensures Resolve(cfg, dst).Some? <==> exists x :: x in cfg.routes && x.dest == dst
    ensures Resolve(cfg.(ifaces := cfg.ifaces + more), dst) == Resolve(cfg, dst)
  {
    match ExactMatch(cfg.routes, dst)
    case None =>
    case Some(route) =>
      MissingCounts(cfg.ifaces, cfg.routes);
      GetInterfaceAppend(cfg.ifaces, more, route.iface);
  }

  // ----- assumptions about a configuration -----

  /** No route leads to one of the router's own addresses. */
  ghost predicate NoSelfRoute(cfg: Config) {
    forall i :: i in cfg.ifaces && i.ip != ZERO_IP ==> ExactMatch(cfg.routes, i.ip).None?
  }

  /** Equal next hops lie behind equal interfaces. */
  ghost predicate OneIfacePerHop(cfg: Config) {
    forall a: Ip, b: Ip :: Resolve(cfg, a).Some? && Resolve(cfg, b).Some?
      && Resolve(cfg, a).value.ip == Resolve(cfg, b).value.ip
      ==> Resolve(cfg, a).value.iface == Resolve(cfg, b).value.iface
  }
}
