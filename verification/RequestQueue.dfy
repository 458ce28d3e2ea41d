/** The request list as a map from request identity to request. New requests go to the front with
    ever larger identities, so the list is the map in descending order of identity. */
module RequestQueue {
  import opened Bytes
  import opened Routing
  import opened Packets
  import opened RouterModel

  type Queue = map<nat, Request>

  /** Strictly descending identities, all below `bound`. */
  predicate Descending(rs: seq<Request>, bound: nat) {
    rs == [] || (rs[0].rid < bound && Descending(rs[1..], rs[0].rid))
  }

  function View(rs: seq<Request>): Queue {
    if rs == [] then map[] else View(rs[1..])[rs[0].rid := rs[0]]
  }

  ghost predicate SameIp(q: Queue, a: nat, b: nat) {
    a in q && b in q && q[a].ip == q[b].ip
  }

  ghost predicate OnePerIp(q: Queue) {
    forall a, b {:trigger SameIp(q, a, b)} :: SameIp(q, a, b) ==> a == b
  }

  function Q(s: State): Queue { View(s.requests) }

  ghost predicate Shape(s: State) {
    Descending(s.requests, s.nextRid) && OnePerIp(Q(s))
  }

  lemma {:induction false} ViewKeys(rs: seq<Request>, bound: nat)
    requires Descending(rs, bound)
    ensures forall k :: k in View(rs) ==> k < bound && View(rs)[k].rid == k
  {
    if rs != [] { ViewKeys(rs[1..], rs[0].rid); }
  }

  lemma {:induction false} ViewMember(rs: seq<Request>, bound: nat, i: nat)
    requires Descending(rs, bound) && i < |rs|
    ensures rs[i].rid in View(rs) && View(rs)[rs[i].rid] == rs[i]
  {
    if i > 0 {
      ViewKeys(rs[1..], rs[0].rid);
      ViewMember(rs[1..], rs[0].rid, i - 1);
    }
  }

  lemma {:induction false} FindRidView(rs: seq<Request>, bound: nat, rid: nat)
    requires Descending(rs, bound)
    ensures FindRid(rs, rid) < |rs| <==> rid in View(rs)
    ensures rid in View(rs) ==> rs[FindRid(rs, rid)] == View(rs)[rid]
  {
    if rs != [] { FindRidView(rs[1..], rs[0].rid, rid); }
  }

  lemma {:induction false} FindIpView(rs: seq<Request>, bound: nat, ip: Ip)
    requires Descending(rs, bound)
    ensures FindIp(rs, ip) < |rs| ==> rs[FindIp(rs, ip)].rid in View(rs)
    ensures FindIp(rs, ip) < |rs| ==> View(rs)[rs[FindIp(rs, ip)].rid] == rs[FindIp(rs, ip)]
    ensures FindIp(rs, ip) == |rs| ==> forall k :: k in View(rs) ==> View(rs)[k].ip != ip
  {
    if FindIp(rs, ip) < |rs| {
      ViewMember(rs, bound, FindIp(rs, ip));
    } else if rs != [] {
      FindIpView(rs[1..], rs[0].rid, ip);
    }
  }

  lemma {:induction false} ReplaceView(rs: seq<Request>, bound: nat, i: nat, x: Request)
    requires Descending(rs, bound) && i < |rs| && x.rid == rs[i].rid
    ensures Descending(rs[i := x], bound)
    ensures View(rs[i := x]) == View(rs)[x.rid := x]
  {
    if i == 0 {
      assert rs[0 := x][1..] == rs[1..];
    } else {
      assert rs[i := x][1..] == rs[1..][i - 1 := x];
      ReplaceView(rs[1..], rs[0].rid, i - 1, x);
      ViewMember(rs[1..], rs[0].rid, i - 1);
      ViewKeys(rs[1..], rs[0].rid);
    }
  }

  lemma {:induction false} DescendingUp(rs: seq<Request>, bound: nat, more: nat)
    requires Descending(rs, bound) && bound <= more
    ensures Descending(rs, more)
  {
  }

  lemma {:induction false} RemoveView(rs: seq<Request>, bound: nat, i: nat)
    requires Descending(rs, bound) && i < |rs|
    ensures Descending(Remove(rs, i), bound)
    ensures View(Remove(rs, i)) == View(rs) - {rs[i].rid}
  {
    if i == 0 {
      assert Remove(rs, 0) == rs[1..];
      ViewKeys(rs[1..], rs[0].rid);
      DescendingUp(rs[1..], rs[0].rid, bound);
    } else {
      assert Remove(rs, i)[1..] == Remove(rs[1..], i - 1);
      RemoveView(rs[1..], rs[0].rid, i - 1);
      ViewMember(rs[1..], rs[0].rid, i - 1);
      ViewKeys(rs[1..], rs[0].rid);
    }
  }

  lemma {:induction false} FindIpIs(rs: seq<Request>, ip: Ip, k: nat)
    requires k <= |rs| && (forall j :: 0 <= j < k ==> rs[j].ip != ip) && (k < |rs| ==> rs[k].ip == ip)
    ensures FindIp(rs, ip) == k
  {
    if k > 0 {
      assert forall j :: 0 <= j < k - 1 ==> rs[1..][j] == rs[j + 1];
      FindIpIs(rs[1..], ip, k - 1);
    }
  }

  lemma {:induction false} FindRidIs(rs: seq<Request>, rid: nat, k: nat)
    requires k <= |rs| && (forall j :: 0 <= j < k ==> rs[j].rid != rid) && (k < |rs| ==> rs[k].rid == rid)
    ensures FindRid(rs, rid) == k
  {
    if k > 0 {
      assert forall j :: 0 <= j < k - 1 ==> rs[1..][j] == rs[j + 1];
      FindRidIs(rs[1..], rid, k - 1);
    }
  }

  // ----- the operations on the map -----

  /** Replacing a request, or adding one for a new address, keeps addresses distinct. */
  lemma {:induction false} OnePerIpPut(q: Queue, k: nat, x: Request)
    requires OnePerIp(q)
    requires forall j :: j in q && q[j].ip == x.ip ==> j == k
    ensures OnePerIp(q[k := x])
  {
    var p := q[k := x];
    forall a, b | SameIp(p, a, b) ensures a == b {
      assert a != k && b != k ==> SameIp(q, a, b);
    }
  }

  lemma {:induction false} OnePerIpRemove(q: Queue, k: nat)
    requires OnePerIp(q)
    ensures OnePerIp(q - {k})
  {
    var p := q - {k};
    forall a, b | SameIp(p, a, b) ensures a == b { assert SameIp(q, a, b); }
  }

  lemma {:induction false} QueuedView(s: State, rid: nat)
    requires Shape(s)
    ensures Queued(s, rid) <==> rid in Q(s)
    ensures rid in Q(s) ==> RequestOf(s, rid) == Q(s)[rid] && Q(s)[rid].rid == rid && rid < s.nextRid
  {
    FindRidView(s.requests, s.nextRid, rid);
    ViewKeys(s.requests, s.nextRid);
  }

  lemma {:induction false} QueryView(cfg: Config, s: State, rid: nat)
    requires Shape(s) && rid in Q(s) && Queued(s, rid)
    ensures var t := Query(cfg, s, rid);
            && Shape(t) && t.clock == s.clock && t.nextRid == s.nextRid
            && Q(t) == Q(s)[rid := Q(s)[rid].(sent := s.clock, timesSent := Q(s)[rid].timesSent + 1)]
  {
    var i := FindRid(s.requests, rid);
    var r := s.requests[i];
    FindRidView(s.requests, s.nextRid, rid);
    var x := r.(sent := s.clock, timesSent := r.timesSent + 1);
    ReplaceView(s.requests, s.nextRid, i, x);
    forall j | j in Q(s) && Q(s)[j].ip == x.ip ensures j == rid { assert SameIp(Q(s), j, rid); }
    OnePerIpPut(Q(s), rid, x);
  }

  lemma {:induction false} DestroyView(s: State, rid: nat)
    requires Shape(s) && Queued(s, rid)
    ensures var t := Destroy(s, rid);
            Shape(t) && t.clock == s.clock && t.nextRid == s.nextRid && Q(t) == Q(s) - {rid}
  {
    FindRidView(s.requests, s.nextRid, rid);
    RemoveView(s.requests, s.nextRid, FindRid(s.requests, rid));
    OnePerIpRemove(Q(s), rid);
  }

  lemma {:induction false} JoinsView(s: State, ip: Ip)
    requires Shape(s)
    ensures Joins(s, ip) in Q(s) ==> Q(s)[Joins(s, ip)].ip == ip && Joins(s, ip) < s.nextRid
    ensures Joins(s, ip) !in Q(s) ==> Joins(s, ip) == s.nextRid
    ensures forall k :: k in Q(s) && Q(s)[k].ip == ip ==> k == Joins(s, ip)
    ensures FindIp(s.requests, ip) < |s.requests| <==> Joins(s, ip) in Q(s)
  {
    FindIpView(s.requests, s.nextRid, ip);
    ViewKeys(s.requests, s.nextRid);
    forall k | k in Q(s) && Q(s)[k].ip == ip ensures k == Joins(s, ip) { assert SameIp(Q(s), k, Joins(s, ip)); }
  }

  /** The request of that identity after the packet has been queued on it. */
  function JoinedBy(s: State, frame: Frame, hop: Hop): Request {
    var p := Packet(|s.accepted|, frame, hop.iface.name);
    var rid := Joins(s, hop.ip);
    if rid in Q(s) then Q(s)[rid].(packets := [p] + Q(s)[rid].packets) else Request(rid, hop.ip, 0, 0, [p])
  }

  lemma {:induction false} EnqueueView(s: State, frame: Frame, hop: Hop, origin: Origin)
    requires Shape(s)
    ensures var t := Enqueue(s, frame, hop, origin);
            && Shape(t) && t.clock == s.clock && s.nextRid <= t.nextRid
            && Q(t) == Q(s)[Joins(s, hop.ip) := JoinedBy(s, frame, hop)]
            && t.nextRid == (if Joins(s, hop.ip) in Q(s) then s.nextRid else s.nextRid + 1)
            && JoinedBy(s, frame, hop).rid == Joins(s, hop.ip) && JoinedBy(s, frame, hop).ip == hop.ip
  {
    var t, i := Enqueue(s, frame, hop, origin), FindIp(s.requests, hop.ip);
    JoinsView(s, hop.ip);
    FindIpView(s.requests, s.nextRid, hop.ip);
    ViewKeys(s.requests, s.nextRid);
    if i < |s.requests| {
      ReplaceView(s.requests, s.nextRid, i, JoinedBy(s, frame, hop));
    } else {
      assert t.requests[1..] == s.requests;
    }
    OnePerIpPut(Q(s), Joins(s, hop.ip), JoinedBy(s, frame, hop));
  }
}
