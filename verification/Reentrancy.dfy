/** Giving up on a request while others are being given up, for every routing table: no request in
    progress is ever destroyed, and an activation that ends could not reach a cycle. */
module Reentrancy {
  import opened Bytes
  import opened Packets
  import opened Routing
  import opened RouterModel
  import opened RequestQueue
  import opened ReturnGraph
  import opened Cascade
  import opened Activation

  // ----- what a finished activation leaves of the graph -----

  /** `h` has the edges of `g` and possibly fewer nodes: a node that is gone took its successors along
      and lay on bounded paths only. */
  ghost predicate Clears(g: Graph<Ip>, h: Graph<Ip>) {
    && SubGraph(h, g)
    && (forall a, b :: Edge(g, a, b) && a !in h ==> b !in h)
    && exists n: nat :: CutBounded(g, h, n)
  }

  lemma {:induction false} ClearsNothing(g: Graph<Ip>)
    ensures Clears(g, g)
  {
    assert CutBounded(g, g, 0);
  }

  lemma {:induction false} ClearsCompose(g: Graph<Ip>, h: Graph<Ip>, k: Graph<Ip>)
    requires Clears(g, h) && Clears(h, k)
    ensures Clears(g, k)
  {
    forall a, b | Edge(g, a, b) && a !in k ensures b !in k {
      if b in k { assert a in h && Edge(h, a, b); }
    }
    var n: nat :| CutBounded(g, h, n);
    var m: nat :| CutBounded(h, k, m);
    CutBoundedCompose(g, h, k, n, m);
  }

  /** After its successors, the root itself. */
  lemma {:induction false} ClearsRoot(g: Graph<Ip>, h: Graph<Ip>, k: Graph<Ip>, a: Ip)
    requires a in g && Clears(g, h) && IsWithout(h, k, a) && forall b :: b in g[a] ==> b !in h
    ensures Clears(g, k)
  {
    var n: nat :| CutBounded(g, h, n);
    forall x, y | Edge(g, x, y) && x !in k ensures y !in k {
      if x == a { assert y in g[a]; }
    }
    forall d | d in g && d !in k ensures Bounded(g, d, n + 1) {
      if d == a {
        forall b | Edge(g, a, b) ensures Bounded(g, b, n) { }
      } else {
        BoundedUp(g, d, n, n + 1);
      }
    }
    assert CutBounded(g, k, n + 1);
  }

  /** `g` is `f` with more edges out of `a`. */
  ghost predicate Widens(f: Graph<Ip>, g: Graph<Ip>, a: Ip) {
    && (forall x :: x in f <==> x in g)
    && (forall x :: x in f && x != a ==> g[x] == f[x])
    && (a in f ==> f[a] <= g[a])
  }

  lemma {:induction false} BoundedNarrower(f: Graph<Ip>, g: Graph<Ip>, a: Ip, d: Ip, n: nat)
    requires Widens(f, g, a) && Bounded(g, d, n)
    ensures Bounded(f, d, n)
    decreases n
  {
    if d in f {
      forall b | Edge(f, d, b) ensures Bounded(f, b, n - 1) {
        assert Edge(g, d, b);
        BoundedNarrower(f, g, a, b, n - 1);
      }
    }
  }

  /** Edges added to a node that is gone in the end do not matter. */
  lemma {:induction false} ClearsNarrower(f: Graph<Ip>, g: Graph<Ip>, h: Graph<Ip>, a: Ip)
    requires Widens(f, g, a) && Clears(g, h) && a !in h
    ensures Clears(f, h)
  {
    forall x, y | Edge(f, x, y) && x !in h ensures y !in h { assert Edge(g, x, y); }
    var n: nat :| CutBounded(g, h, n);
    forall d | d in f && d !in h ensures Bounded(f, d, n) { BoundedNarrower(f, g, a, d, n); }
    assert CutBounded(f, h, n);
  }

  // ----- queueing an error -----

  /** A packet queued on a request adds its own error hop to that node and changes nothing else. */
  lemma {:induction false} EnqueueWidens(cfg: Config, s: State, frame: Frame, hop: Hop, origin: Origin)
    requires Shape(s)
    ensures Widens(ReturnEdges(cfg, s), ReturnEdges(cfg, Enqueue(s, frame, hop, origin)), hop.ip)
  {
    var t := Enqueue(s, frame, hop, origin);
    var rid, x := Joins(s, hop.ip), JoinedBy(s, frame, hop);
    var f, g := ReturnEdges(cfg, s), ReturnEdges(cfg, t);
    EnqueueView(s, frame, hop, origin);
    JoinsView(s, hop.ip);
    if rid in Q(s) { assert x.packets[1..] == Q(s)[rid].packets; }
    forall ip | ip in f
      ensures ip in g && (ip != hop.ip ==> g[ip] == f[ip]) && f[ip] <= g[ip]
    {
      var k := NodeFrom(cfg, s.clock, Q(s), ip);
      NodeOf(cfg, s.clock, Q(t), k);
    }
    forall ip | ip in g ensures ip in f {
      var k := NodeFrom(cfg, s.clock, Q(t), ip);
      assert k in Q(s);
      NodeOf(cfg, s.clock, Q(s), k);
    }
  }

  // ----- activations that end -----

  lemma {:induction false} HandleClears(cfg: Config, s: State, rid: nat, fuel: nat, t: State)
    requires cfg.Valid() && Shape(s) && rid in Q(s) && HandleReq(cfg, s, rid, fuel) == Done(t)
    ensures Clears(ReturnEdges(cfg, s), ReturnEdges(cfg, t)) && Q(s)[rid].ip !in ReturnEdges(cfg, t)
    decreases fuel, 0, 0
  {
    QueuedView(s, rid);
    NodeOf(cfg, s.clock, Q(s), rid);
    if !Due(s.clock, Q(s)[rid]) {
      ClearsNothing(ReturnEdges(cfg, s));
    } else if Q(s)[rid].timesSent < 5 {
      QueryEvolves(cfg, s, rid);
      ClearsNothing(ReturnEdges(cfg, s));
    } else {
      var u := GiveUp(cfg, s, rid, Q(s)[rid].packets, fuel - 1).s;
      GiveUpAdvances(cfg, s, rid, Q(s)[rid].packets, fuel - 1, u);
      GiveUpClears(cfg, s, rid, Q(s)[rid].packets, fuel - 1, u);
      QueuedView(u, rid);
      DestroyEvolves(cfg, u, rid);
      ClearsRoot(ReturnEdges(cfg, s), ReturnEdges(cfg, u), ReturnEdges(cfg, t), Q(s)[rid].ip);
    }
  }

  lemma {:induction false} GiveUpClears(cfg: Config, s: State, rid: nat, ps: seq<Packet>, fuel: nat, t: State)
    requires cfg.Valid() && Shape(s) && GiveUp(cfg, s, rid, ps, fuel) == Done(t)
    ensures Clears(ReturnEdges(cfg, s), ReturnEdges(cfg, t))
    ensures forall b :: b in Hops(cfg, ps) ==> b !in ReturnEdges(cfg, t)
    decreases fuel, 3, |ps|
  {
    if ps == [] {
      ClearsNothing(ReturnEdges(cfg, s));
    } else if |ps[0].frame| < 34 {
      GiveUpClears(cfg, s, rid, ps[1..], fuel, t);
    } else {
      var s1 := s.(attempts := s.attempts + [ps[0].pid]);
      var u := SendError(cfg, s1, 3, 1, ps[0].frame, ZERO_IP, fuel).s;
      ErrorAdvances(cfg, s1, 3, 1, ps[0].frame, ZERO_IP, fuel, u);
      ErrorClears(cfg, s1, ps[0].frame, fuel, u);
      GiveUpClears(cfg, u, rid, ps[1..], fuel, t);
      ClearsCompose(ReturnEdges(cfg, s), ReturnEdges(cfg, u), ReturnEdges(cfg, t));
    }
  }

  lemma {:induction false} ErrorClears(cfg: Config, s: State, frame: Frame, fuel: nat, t: State)
    requires cfg.Valid() && Shape(s) && |frame| >= 34 && SendError(cfg, s, 3, 1, frame, ZERO_IP, fuel) == Done(t)
    ensures Clears(ReturnEdges(cfg, s), ReturnEdges(cfg, t))
    ensures forall b :: b in HopSet(ErrorHop(cfg, frame)) ==> b !in ReturnEdges(cfg, t)
    decreases fuel, 2, 0
  {
    ErrorFollowsHop(cfg, frame);
    if ErrorHop(cfg, frame).None? {
      ClearsNothing(ReturnEdges(cfg, s));
    } else {
      var from := ErrorSource(cfg, frame, ZERO_IP);
      RouteClears(cfg, s, IcmpError(3, 1, frame, from, cfg.beyond), Error(3, 1, frame, from), fuel, t);
    }
  }

  lemma {:induction false} RouteClears(cfg: Config, s: State, frame: Frame, origin: Origin, fuel: nat, t: State)
    requires cfg.Valid() && Shape(s) && Routable(cfg, frame) && RouteAndSend(cfg, s, frame, origin, fuel) == Done(t)
    ensures Clears(ReturnEdges(cfg, s), ReturnEdges(cfg, t))
    ensures Resolve(cfg, Dst(frame)).value.ip !in ReturnEdges(cfg, t)
    decreases fuel, 1, 0
  {
    var hop := Resolve(cfg, Dst(frame)).value;
    var f := Stamp(frame, hop.iface.addr);
    var u := Enqueue(s, f, hop, origin);
    EnqueueView(s, f, hop, origin);
    EnqueueWidens(cfg, s, f, hop, origin);
    HandleClears(cfg, u, Joins(s, hop.ip), fuel, t);
    ClearsNarrower(ReturnEdges(cfg, s), ReturnEdges(cfg, u), ReturnEdges(cfg, t), hop.ip);
  }

  /** An activation that ends could reach no cycle, and has destroyed every exhausted request that it
      could reach. */
  lemma {:induction false} EndsOnlyIfAcyclic(cfg: Config, s: State, rid: nat, fuel: nat, t: State)
    requires cfg.Valid() && Shape(s) && rid in Q(s) && HandleReq(cfg, s, rid, fuel) == Done(t)
    ensures AcyclicFrom(ReturnEdges(cfg, s), Q(s)[rid].ip)
    ensures forall b :: Reach(ReturnEdges(cfg, s), Q(s)[rid].ip, b) ==> b !in ReturnEdges(cfg, t)
  {
    var g, h, ip := ReturnEdges(cfg, s), ReturnEdges(cfg, t), Q(s)[rid].ip;
    HandleClears(cfg, s, rid, fuel, t);
    var n: nat :| CutBounded(g, h, n);
    assert Bounded(g, ip, n);
    BoundedAcyclic(g, ip, n);
    forall b | Reach(g, ip, b) ensures b !in h {
      var k: nat :| Path(g, ip, b, k);
      CutCloses(g, h, ip, b, k);
    }
  }

  // ----- requests in progress -----

  /** Requests that are being given up, the outermost first: each has a packet whose error waits on
      the next one. */
  ghost predicate InProgress(cfg: Config, s: State, chain: seq<nat>) {
    && (forall i {:trigger chain[i]} :: 0 <= i < |chain| ==> chain[i] in Q(s) && Exhausted(s.clock, Q(s)[chain[i]]))
    && (forall i {:trigger chain[i]} :: 0 < i < |chain| ==>
          Q(s)[chain[i]].ip in Hops(cfg, Q(s)[chain[i - 1]].packets))
  }

  /** An error of the innermost one may wait at `ip`. */
  ghost predicate Leads(cfg: Config, s: State, chain: seq<nat>, ip: Ip) {
    InProgress(cfg, s, chain) && (chain != [] ==> ip in Hops(cfg, Q(s)[chain[|chain| - 1]].packets))
  }

  ghost predicate AllQueued(s: State, chain: seq<nat>) {
    forall i {:trigger chain[i]} :: 0 <= i < |chain| ==> chain[i] in Q(s)
  }

  /** Coming back to a request in progress closes a cycle. */
  lemma {:induction false} BackIsCycle(cfg: Config, s: State, chain: seq<nat>, rid: nat, i: nat)
    requires Shape(s) && rid in Q(s) && Leads(cfg, s, chain, Q(s)[rid].ip) && i < |chain|
    requires Exhausted(s.clock, Q(s)[rid])
    ensures var g := ReturnEdges(cfg, s);
            exists c :: Edge(g, Q(s)[chain[i]].ip, c) && Reach(g, c, Q(s)[rid].ip)
    decreases |chain| - i
  {
    var g, ip := ReturnEdges(cfg, s), Q(s)[chain[i]].ip;
    NodeOf(cfg, s.clock, Q(s), chain[i]);
    NodeOf(cfg, s.clock, Q(s), rid);
    if i == |chain| - 1 {
      ReachSelf(g, Q(s)[rid].ip);
      assert Edge(g, ip, Q(s)[rid].ip);
    } else {
      var next := chain[i + 1];
      NodeOf(cfg, s.clock, Q(s), next);
      BackIsCycle(cfg, s, chain, rid, i + 1);
      var c :| Edge(g, Q(s)[next].ip, c) && Reach(g, c, Q(s)[rid].ip);
      ReachStep(g, Q(s)[next].ip, c, Q(s)[rid].ip);
      assert Edge(g, ip, Q(s)[next].ip);
    }
  }

  /** Exhausted requests that are still queued are as they were. */
  lemma {:induction false} StillInProgress(cfg: Config, s: State, t: State, chain: seq<nat>)
    requires InProgress(cfg, s, chain) && Advances(s, t) && AllQueued(t, chain)
    ensures InProgress(cfg, t, chain)
    ensures forall i {:trigger chain[i]} :: 0 <= i < |chain| ==> Q(t)[chain[i]] == Q(s)[chain[i]]
  {
    forall i | 0 <= i < |chain| ensures chain[i] in Q(t) && Q(t)[chain[i]] == Q(s)[chain[i]] {
      assert chain[i] in Q(s) && chain[i] < s.nextRid;
    }
    forall i | 0 < i < |chain| ensures Q(t)[chain[i]].ip in Hops(cfg, Q(t)[chain[i - 1]].packets) {
      assert chain[i - 1] in Q(t);
    }
  }

  lemma {:induction false} EnqueueInProgress(cfg: Config, s: State, frame: Frame, hop: Hop, origin: Origin,
                                             chain: seq<nat>)
    requires Shape(s) && Leads(cfg, s, chain, hop.ip)
    ensures Leads(cfg, Enqueue(s, frame, hop, origin), chain, hop.ip)
  {
    var t := Enqueue(s, frame, hop, origin);
    var rid, x := Joins(s, hop.ip), JoinedBy(s, frame, hop);
    EnqueueView(s, frame, hop, origin);
    JoinsView(s, hop.ip);
    if rid in Q(s) { assert x.packets[1..] == Q(s)[rid].packets; }
    forall k | k in Q(s)
      ensures k in Q(t) && Q(t)[k].ip == Q(s)[k].ip && Q(t)[k].sent == Q(s)[k].sent
      ensures Q(t)[k].timesSent == Q(s)[k].timesSent && Hops(cfg, Q(s)[k].packets) <= Hops(cfg, Q(t)[k].packets)
    {
    }
    forall i | 0 <= i < |chain| ensures chain[i] in Q(t) && Exhausted(t.clock, Q(t)[chain[i]]) {
      assert chain[i] in Q(s);
    }
    forall i | 0 < i < |chain| ensures Q(t)[chain[i]].ip in Hops(cfg, Q(t)[chain[i - 1]].packets) {
      assert chain[i] in Q(s) && chain[i - 1] in Q(s);
    }
  }

  // ----- no activation touches freed memory -----

  ghost predicate Spares(o: Outcome, chain: seq<nat>) {
    o != Fault && (o.Done? ==> AllQueued(o.s, chain))
  }

  lemma {:induction false} HandleSpares(cfg: Config, s: State, rid: nat, fuel: nat, chain: seq<nat>)
    requires cfg.Valid() && Shape(s) && rid in Q(s) && Leads(cfg, s, chain, Q(s)[rid].ip)
    ensures Spares(HandleReq(cfg, s, rid, fuel), chain)
    decreases fuel, 0, 0
  {
    QueuedView(s, rid);
    if !Exhausted(s.clock, Q(s)[rid]) {
      if Due(s.clock, Q(s)[rid]) { QueryView(cfg, s, rid); }
    } else if fuel > 0 {
      var more := chain + [rid];
      GrowsChain(cfg, s, rid, chain);
      GiveUpSpares(cfg, s, rid, Q(s)[rid].packets, fuel - 1, more);
      var o := GiveUp(cfg, s, rid, Q(s)[rid].packets, fuel - 1);
      if o.Done? {
        assert more[|chain|] in Q(o.s);
        GiveUpAdvances(cfg, s, rid, Q(s)[rid].packets, fuel - 1, o.s);
        QueuedView(o.s, rid);
        DestroyView(o.s, rid);
        NotInProgress(cfg, s, rid, fuel, chain, Destroy(o.s, rid));
        forall i | 0 <= i < |chain| ensures chain[i] in Q(Destroy(o.s, rid)) { assert more[i] in Q(o.s); }
      }
    }
  }

  lemma {:induction false} GrowsChain(cfg: Config, s: State, rid: nat, chain: seq<nat>)
    requires Shape(s) && rid in Q(s) && Leads(cfg, s, chain, Q(s)[rid].ip) && Exhausted(s.clock, Q(s)[rid])
    ensures InProgress(cfg, s, chain + [rid])
  {
    var more := chain + [rid];
    forall i | 0 <= i < |more| ensures more[i] in Q(s) && Exhausted(s.clock, Q(s)[more[i]]) {
      if i < |chain| { assert chain[i] in Q(s); }
    }
    forall i | 0 < i < |more| ensures Q(s)[more[i]].ip in Hops(cfg, Q(s)[more[i - 1]].packets) {
      if i < |chain| { assert chain[i] in Q(s); }
    }
  }

  /** An activation that ends did not start at a request in progress. */
  lemma {:induction false} NotInProgress(cfg: Config, s: State, rid: nat, fuel: nat, chain: seq<nat>, t: State)
    requires cfg.Valid() && Shape(s) && rid in Q(s) && Leads(cfg, s, chain, Q(s)[rid].ip)
    requires Exhausted(s.clock, Q(s)[rid]) && HandleReq(cfg, s, rid, fuel) == Done(t)
    ensures rid !in chain
  {
    if i :| 0 <= i < |chain| && chain[i] == rid {
      BackIsCycle(cfg, s, chain, rid, i);
      EndsOnlyIfAcyclic(cfg, s, rid, fuel, t);
      NodeOf(cfg, s.clock, Q(s), rid);
      ReachSelf(ReturnEdges(cfg, s), Q(s)[rid].ip);
      assert OnCycle(ReturnEdges(cfg, s), Q(s)[rid].ip);
    }
  }

  lemma {:induction false} GiveUpSpares(cfg: Config, s: State, rid: nat, ps: seq<Packet>, fuel: nat, chain: seq<nat>)
    requires cfg.Valid() && Shape(s) && InProgress(cfg, s, chain) && chain != [] && chain[|chain| - 1] == rid
    requires rid in Q(s) && Hops(cfg, ps) <= Hops(cfg, Q(s)[rid].packets)
    ensures Spares(GiveUp(cfg, s, rid, ps, fuel), chain)
    decreases fuel, 3, |ps|
  {
    if ps == [] {
    } else if |ps[0].frame| < 34 {
      GiveUpSpares(cfg, s, rid, ps[1..], fuel, chain);
    } else {
      var s1 := s.(attempts := s.attempts + [ps[0].pid]);
      assert Q(s1) == Q(s) && Shape(s1) && InProgress(cfg, s1, chain);
      ErrorSpares(cfg, s1, ps[0].frame, fuel, chain);
      var o := SendError(cfg, s1, 3, 1, ps[0].frame, ZERO_IP, fuel);
      if o.Done? {
        ErrorAdvances(cfg, s1, 3, 1, ps[0].frame, ZERO_IP, fuel, o.s);
        StillInProgress(cfg, s1, o.s, chain);
        assert chain[|chain| - 1] in Q(o.s);
        QueuedView(o.s, rid);
        GiveUpSpares(cfg, o.s, rid, ps[1..], fuel, chain);
      }
    }
  }

  lemma {:induction false} ErrorSpares(cfg: Config, s: State, frame: Frame, fuel: nat, chain: seq<nat>)
    requires cfg.Valid() && Shape(s) && |frame| >= 34 && InProgress(cfg, s, chain)
    requires forall b :: b in HopSet(ErrorHop(cfg, frame)) ==> Leads(cfg, s, chain, b)
    ensures Spares(SendError(cfg, s, 3, 1, frame, ZERO_IP, fuel), chain)
    decreases fuel, 2, 0
  {
    ErrorFollowsHop(cfg, frame);
    if ErrorHop(cfg, frame).Some? {
      var from := ErrorSource(cfg, frame, ZERO_IP);
      var e, o := IcmpError(3, 1, frame, from, cfg.beyond), Error(3, 1, frame, from);
      var hop := Resolve(cfg, Src(frame)).value;
      RouteUnfolds(cfg, s, e, o, fuel);
      QueuedSpares(cfg, s, Stamp(e, hop.iface.addr), hop, o, fuel, chain);
    }
  }

  lemma {:induction false} QueuedSpares(cfg: Config, s: State, f: Frame, hop: Hop, origin: Origin, fuel: nat,
                                        chain: seq<nat>)
    requires cfg.Valid() && Shape(s) && Leads(cfg, s, chain, hop.ip)
    ensures Spares(HandleReq(cfg, Enqueue(s, f, hop, origin), Joins(s, hop.ip), fuel), chain)
    decreases fuel, 1, 0
  {
    EnqueueView(s, f, hop, origin);
    EnqueueInProgress(cfg, s, f, hop, origin, chain);
    HandleSpares(cfg, Enqueue(s, f, hop, origin), Joins(s, hop.ip), fuel, chain);
  }

  /** For every routing table, handling a queued request never touches freed memory. */
  lemma {:induction false} HandleNeverFaults(cfg: Config, s: State, rid: nat, fuel: nat)
    requires cfg.Valid() && Shape(s) && rid in Q(s)
    ensures HandleReq(cfg, s, rid, fuel) != Fault
  {
    HandleSpares(cfg, s, rid, fuel, []);
  }

  // ----- without edges -----

  /** No packet's error would wait on an exhausted request. */
  ghost predicate EdgeFree(g: Graph<Ip>) {
    forall a, b :: !Edge(g, a, b)
  }

  ghost predicate KeepsQueue(s: State, o: Outcome) {
    o.Done? && forall k {:trigger k in Q(s)} :: k in Q(s) ==> k in Q(o.s)
  }

  /** A frame queued on a request that is not exhausted gives up nothing. */
  lemma {:induction false} QueuedLands(cfg: Config, s: State, f: Frame, hop: Hop, origin: Origin, fuel: nat)
    requires cfg.Valid() && Shape(s) && hop.ip !in ReturnEdges(cfg, s)
    ensures KeepsQueue(s, HandleReq(cfg, Enqueue(s, f, hop, origin), Joins(s, hop.ip), fuel))
  {
    var t, rid := Enqueue(s, f, hop, origin), Joins(s, hop.ip);
    EnqueueView(s, f, hop, origin);
    JoinsView(s, hop.ip);
    if rid in Q(s) { NodeOf(cfg, s.clock, Q(s), rid); }
    QueuedView(t, rid);
    if Due(t.clock, Q(t)[rid]) { QueryView(cfg, t, rid); }
  }

  lemma {:induction false} ErrorLands(cfg: Config, s: State, frame: Frame, fuel: nat)
    requires cfg.Valid() && Shape(s) && |frame| >= 34
    requires forall b :: b in HopSet(ErrorHop(cfg, frame)) ==> b !in ReturnEdges(cfg, s)
    ensures KeepsQueue(s, SendError(cfg, s, 3, 1, frame, ZERO_IP, fuel))
  {
    ErrorFollowsHop(cfg, frame);
    if ErrorHop(cfg, frame).Some? {
      var from := ErrorSource(cfg, frame, ZERO_IP);
      var e, o := IcmpError(3, 1, frame, from, cfg.beyond), Error(3, 1, frame, from);
      var hop := Resolve(cfg, Src(frame)).value;
      RouteUnfolds(cfg, s, e, o, fuel);
      QueuedLands(cfg, s, Stamp(e, hop.iface.addr), hop, o, fuel);
    }
  }

  lemma {:induction false} GiveUpLands(cfg: Config, s: State, rid: nat, ps: seq<Packet>, fuel: nat)
    requires cfg.Valid() && Shape(s) && rid in Q(s)
    requires forall b :: b in Hops(cfg, ps) ==> b !in ReturnEdges(cfg, s)
    ensures KeepsQueue(s, GiveUp(cfg, s, rid, ps, fuel))
    decreases |ps|
  {
    if ps == [] {
    } else if |ps[0].frame| < 34 {
      GiveUpLands(cfg, s, rid, ps[1..], fuel);
    } else {
      var s1 := s.(attempts := s.attempts + [ps[0].pid]);
      assert Q(s1) == Q(s) && Shape(s1) && ReturnEdges(cfg, s1) == ReturnEdges(cfg, s);
      ErrorLands(cfg, s1, ps[0].frame, fuel);
      var u := SendError(cfg, s1, 3, 1, ps[0].frame, ZERO_IP, fuel).s;
      ErrorAdvances(cfg, s1, 3, 1, ps[0].frame, ZERO_IP, fuel, u);
      ErrorClears(cfg, s1, ps[0].frame, fuel, u);
      QueuedView(u, rid);
      GiveUpLands(cfg, u, rid, ps[1..], fuel);
    }
  }

  /** Without edges a give-up ends at once, destroys its own request only, and adds no edge. */
  lemma {:induction false} EdgeFreeHandle(cfg: Config, s: State, rid: nat, fuel: nat)
    requires cfg.Valid() && Shape(s) && rid in Q(s) && EdgeFree(ReturnEdges(cfg, s))
    ensures fuel > 0 ==> HandleReq(cfg, s, rid, fuel).Done?
    ensures HandleReq(cfg, s, rid, fuel).Done? ==>
              && EdgeFree(ReturnEdges(cfg, HandleReq(cfg, s, rid, fuel).s))
              && forall k :: k in Q(s) && k != rid ==> k in Q(HandleReq(cfg, s, rid, fuel).s)
  {
    QueuedView(s, rid);
    NodeOf(cfg, s.clock, Q(s), rid);
    if !Exhausted(s.clock, Q(s)[rid]) {
      if Due(s.clock, Q(s)[rid]) { QueryView(cfg, s, rid); }
    } else if fuel > 0 {
      forall b | b in Hops(cfg, Q(s)[rid].packets) ensures b !in ReturnEdges(cfg, s) {
        assert !Edge(ReturnEdges(cfg, s), Q(s)[rid].ip, b);
      }
      GiveUpLands(cfg, s, rid, Q(s)[rid].packets, fuel - 1);
      var u := GiveUp(cfg, s, rid, Q(s)[rid].packets, fuel - 1).s;
      GiveUpAdvances(cfg, s, rid, Q(s)[rid].packets, fuel - 1, u);
      QueuedView(u, rid);
      DestroyView(u, rid);
    }
    var o := HandleReq(cfg, s, rid, fuel);
    if o.Done? {
      HandleClears(cfg, s, rid, fuel, o.s);
      forall a, b ensures !Edge(ReturnEdges(cfg, o.s), a, b) { assert !Edge(ReturnEdges(cfg, s), a, b); }
    }
  }
}
