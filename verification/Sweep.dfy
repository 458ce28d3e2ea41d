/** The once-a-second walk over the request list. It saves `next` before handling a request, and
    handling may free that very `next`; this module says exactly when it does not. */
module Sweep {
  import opened Bytes
  import opened Routing
  import opened RouterModel
  import opened RequestQueue
  import opened ReturnGraph
  import opened Cascade
  import opened Termination
  import opened Activation
  import opened Reentrancy

  // ----- list order is descending identity -----

  ghost predicate IsBelow<T>(m: map<nat, T>, k: nat, n: nat) {
    n in m && n < k && forall j :: j in m && j < k ==> j <= n
  }

  /** `next` is the largest identity below `k`, if there is one. */
  ghost predicate Follows<T>(m: map<nat, T>, k: nat, next: Option<nat>) {
    match next
    case Some(n) => IsBelow(m, k, n)
    case None => forall j :: j in m ==> j >= k
  }

  lemma {:induction false} FirstIsLargest(rs: seq<Request>, bound: nat)
    requires Descending(rs, bound) && rs != []
    ensures rs[0].rid in View(rs) && forall j :: j in View(rs) ==> j <= rs[0].rid
  {
    ViewKeys(rs[1..], rs[0].rid);
  }

  lemma {:induction false} FollowsView(rs: seq<Request>, bound: nat, i: nat)
    requires Descending(rs, bound) && i < |rs|
    ensures Follows(View(rs), rs[i].rid, if i + 1 == |rs| then None else Some(rs[i + 1].rid))
  {
    ViewKeys(rs[1..], rs[0].rid);
    if i > 0 {
      FollowsView(rs[1..], rs[0].rid, i - 1);
      ViewMember(rs[1..], rs[0].rid, i - 1);
    } else if 1 < |rs| {
      FirstIsLargest(rs[1..], rs[0].rid);
    }
  }

  lemma {:induction false} AfterView(s: State, rid: nat)
    requires Shape(s) && rid in Q(s)
    ensures Queued(s, rid) && Follows(Q(s), rid, After(s, rid))
  {
    QueuedView(s, rid);
    FindRidView(s.requests, s.nextRid, rid);
    FollowsView(s.requests, s.nextRid, FindRid(s.requests, rid));
  }

  lemma {:induction false} HeadView(s: State)
    requires Shape(s)
    ensures Head(s).Some? ==> Head(s).value in Q(s) && forall j :: j in Q(s) ==> j <= Head(s).value
    ensures Head(s).None? ==> Q(s) == map[]
  {
    if s.requests != [] { FirstIsLargest(s.requests, s.nextRid); }
  }

  // ----- a finished sweep as a chain of steps -----

  /** `at` is where the sweep stands: the end, or a request still in the queue. */
  ghost predicate OnQueue(s: State, at: Option<nat>) {
    at.Some? ==> at.value in Q(s)
  }

  predicate Ahead(at: Option<nat>, k: nat) {
    at.Some? && k <= at.value
  }

  /** A finished sweep, one entry per request it handled, with the queue after each. */
  datatype Chain = End | Visit(rid: nat, after: Queue, next: Option<nat>, rest: Chain)

  function Rids(c: Chain): seq<nat> {
    match c
    case End => []
    case Visit(rid, _, _, rest) => [rid] + Rids(rest)
  }

  /** Requests below `n` do not appear, and do not become due. */
  ghost predicate Thins(now: int, n: nat, q: Queue, p: Queue) {
    forall k :: k in p && k < n ==> k in q && (!Due(now, q[k]) ==> !Due(now, p[k]))
  }

  /** One iteration: a request was handled, and the sweep moves on to the one that followed it. */
  ghost predicate Link(now: int, n: nat, q: Queue, rid: nat, p: Queue, next: Option<nat>) {
    && rid in q && rid < n && Follows(q, rid, next) && Thins(now, n, q, p)
    && (rid in p ==> !Due(now, p[rid]))
    && (next.Some? ==> next.value in p)
  }

  ghost predicate Links(now: int, n: nat, q: Queue, at: Option<nat>, c: Chain, p: Queue)
    decreases c
  {
    match c
    case End => at.None? && p == q
    case Visit(rid, q1, next, rest) =>
      at == Some(rid) && Link(now, n, q, rid, q1, next) && Links(now, n, q1, next, rest, p)
  }

  lemma {:induction false} SweepStep(cfg: Config, s: State, rid: nat, fuel: nat, t: State)
    requires cfg.Valid() && HandleReq(cfg, s, rid, fuel) == Done(t)
    requires Shape(s) && rid in Q(s)
    ensures Queued(s, rid) && Follows(Q(s), rid, After(s, rid))
    ensures Advances(s, t) && (rid in Q(t) ==> !Due(t.clock, Q(t)[rid]))
  {
    AfterView(s, rid);
    HandleAdvances(cfg, s, rid, fuel, t);
  }

  lemma {:induction false} EvolvesThins(s: State, t: State, n: nat)
    requires Evolves(s, t) && n <= s.nextRid
    ensures Thins(s.clock, n, Q(s), Q(t))
  {
  }

  /** The requests `handle_arpreq` is called on, in order. */
  function Visits(cfg: Config, s: State, at: Option<nat>, fuel: nat): (v: seq<nat>)
    requires cfg.Valid()
    decreases fuel
  {
    if at.None? || !Queued(s, at.value) || fuel == 0 then []
    else
      match HandleReq(cfg, s, at.value, fuel - 1)
      case Done(s1) => [at.value] + Visits(cfg, s1, After(s, at.value), fuel - 1)
      case Fault => [at.value]
      case OutOfFuel => [at.value]
  }

  /** The first iteration of a finished sweep. */
  lemma {:induction false} SweepUnfolds(cfg: Config, s: State, at: Option<nat>, fuel: nat)
    returns (s1: State, next: Option<nat>)
    requires cfg.Valid() && at.Some? && SweepFrom(cfg, s, at, fuel).Done?
    ensures fuel > 0 && Queued(s, at.value)
    ensures HandleReq(cfg, s, at.value, fuel - 1) == Done(s1) && After(s, at.value) == next
    ensures SweepFrom(cfg, s, at, fuel) == SweepFrom(cfg, s1, next, fuel - 1)
    ensures next.Some? ==> Queued(s1, next.value)
    ensures Visits(cfg, s, at, fuel) == [at.value] + Visits(cfg, s1, next, fuel - 1)
  {
    s1, next := HandleReq(cfg, s, at.value, fuel - 1).s, After(s, at.value);
  }

  lemma {:induction false} SweepAdvances(cfg: Config, s: State, at: Option<nat>, fuel: nat, t: State)
    returns (s1: State, next: Option<nat>)
    requires cfg.Valid() && at.Some? && SweepFrom(cfg, s, at, fuel) == Done(t)
    requires Shape(s) && OnQueue(s, at)
    ensures fuel > 0 && SweepFrom(cfg, s1, next, fuel - 1) == Done(t)
    ensures Visits(cfg, s, at, fuel) == [at.value] + Visits(cfg, s1, next, fuel - 1)
    ensures Advances(s, s1) && OnQueue(s1, next) && Follows(Q(s), at.value, next)
    ensures at.value in Q(s1) ==> !Due(s1.clock, Q(s1)[at.value])
  {
    s1, next := SweepUnfolds(cfg, s, at, fuel);
    SweepStep(cfg, s, at.value, fuel - 1, s1);
    if next.Some? { QueuedView(s1, next.value); }
  }

  lemma {:induction false} SweepEvolves(cfg: Config, s: State, at: Option<nat>, fuel: nat, t: State)
    requires cfg.Valid() && SweepFrom(cfg, s, at, fuel) == Done(t)
    requires Shape(s) && OnQueue(s, at)
    ensures Advances(s, t)
    decreases fuel
  {
    if at.None? {
      AdvancesSelf(s);
    } else {
      var s1, next := SweepAdvances(cfg, s, at, fuel, t);
      SweepEvolves(cfg, s1, next, fuel - 1, t);
      AdvancesTrans(s, s1, t);
    }
  }

  lemma {:induction false} ChainOf(cfg: Config, s: State, at: Option<nat>, fuel: nat, t: State, n: nat)
    returns (c: Chain)
    requires cfg.Valid() && SweepFrom(cfg, s, at, fuel) == Done(t)
    requires Shape(s) && OnQueue(s, at) && n <= s.nextRid && (at.Some? ==> at.value < n)
    ensures Links(s.clock, n, Q(s), at, c, Q(t)) && Rids(c) == Visits(cfg, s, at, fuel)
    decreases fuel
  {
    if at.None? {
      c := End;
    } else {
      var s1, next := SweepAdvances(cfg, s, at, fuel, t);
      EvolvesThins(s, s1, n);
      var rest := ChainOf(cfg, s1, next, fuel - 1, t, n);
      c := Visit(at.value, Q(s1), next, rest);
    }
  }

  // ----- what a finished sweep did -----

  lemma {:induction false} ChainThins(now: int, n: nat, q: Queue, at: Option<nat>, c: Chain, p: Queue)
    requires Links(now, n, q, at, c, p)
    ensures Thins(now, n, q, p)
    decreases c
  {
    if c.Visit? { ChainThins(now, n, c.after, c.next, c.rest, p); }
  }

  lemma {:induction false} ChainLeavesNoneDue(now: int, n: nat, q: Queue, at: Option<nat>, c: Chain, p: Queue)
    requires Links(now, n, q, at, c, p)
    ensures forall k :: k in p && Ahead(at, k) ==> !Due(now, p[k])
    decreases c
  {
    match c
    case End =>
    case Visit(rid, q1, next, rest) =>
      ChainLeavesNoneDue(now, n, q1, next, rest, p);
      ChainThins(now, n, q1, next, rest, p);
  }

  /** No request that was queued when a sweep started is due when it is over. */
  lemma {:induction false} SweepLeavesNoneDue(cfg: Config, s: State, fuel: nat, t: State)
    requires cfg.Valid() && SweepFrom(cfg, s, Head(s), fuel) == Done(t)
    requires Shape(s)
    ensures Advances(s, t)
    ensures forall k :: k in Q(t) && k in Q(s) ==> !Due(t.clock, Q(t)[k])
  {
    HeadView(s);
    ViewKeys(s.requests, s.nextRid);
    SweepEvolves(cfg, s, Head(s), fuel, t);
    var c := ChainOf(cfg, s, Head(s), fuel, t, s.nextRid);
    ChainLeavesNoneDue(s.clock, s.nextRid, Q(s), Head(s), c, Q(t));
  }

  /** Strictly descending from below `bound`, so without repetition. */
  predicate StrictlyDown(v: seq<nat>, bound: nat) {
    v == [] || (v[0] < bound && StrictlyDown(v[1..], v[0]))
  }

  lemma {:induction false} ChainVisits(now: int, n: nat, q: Queue, at: Option<nat>, c: Chain, p: Queue, bound: nat)
    requires Links(now, n, q, at, c, p) && (at.Some? ==> at.value < bound)
    ensures StrictlyDown(Rids(c), bound)
    ensures forall k :: k in Rids(c) ==> k in q && Ahead(at, k)
    ensures forall k :: k in q && Ahead(at, k) && k !in Rids(c) ==> k !in p
    decreases c
  {
    match c
    case End =>
    case Visit(rid, q1, next, rest) =>
      ChainVisits(now, n, q1, next, rest, p, rid);
      ChainThins(now, n, q1, next, rest, p);
      assert Rids(c)[1..] == Rids(rest);
      forall k | k in q && k <= rid && k !in [rid] + Rids(rest) ensures k !in p {
        assert k != rid && k !in Rids(rest);
      }
  }

  /** A finished sweep visits requests at most once, newest first, and only such as were queued
      when it started; one that was queued then and was not visited is gone. */
  lemma {:induction false} SweepVisits(cfg: Config, s: State, fuel: nat, t: State)
    requires cfg.Valid() && SweepFrom(cfg, s, Head(s), fuel) == Done(t)
    requires Shape(s)
    ensures var v := Visits(cfg, s, Head(s), fuel);
            && StrictlyDown(v, s.nextRid)
            && (forall k :: k in v ==> k in Q(s))
            && (forall k :: k in Q(s) && k !in v ==> k !in Q(t))
  {
    HeadView(s);
    ViewKeys(s.requests, s.nextRid);
    var c := ChainOf(cfg, s, Head(s), fuel, t, s.nextRid);
    ChainVisits(s.clock, s.nextRid, Q(s), Head(s), c, Q(t), s.nextRid);
  }

  // ----- when a sweep is safe -----

  /** The requests the sweep has ahead of it. */
  ghost function Pending(q: Queue, at: Option<nat>): map<nat, Ip> {
    map k | k in q && Ahead(at, k) :: q[k].ip
  }

  /** The largest identity below `k`. */
  function Below<T>(m: map<nat, T>, k: nat): (r: Option<nat>)
    ensures Follows(m, k, r)
  {
    if k == 0 then None else if k - 1 in m then Some(k - 1) else Below(m, k - 1)
  }

  /** How a sweep ends: regularly, in a read of a freed request, or not at all. */
  datatype Ending = Safe | Freed | Endless

  /** Decided on the state before the sweep. From each request reached, a cycle that can be reached
      is never left; without one everything that can be reached is taken down, and if that includes
      the request that follows, that one is read after it was freed. */
  ghost function Judge(g: Graph<Ip>, ids: map<nat, Ip>, at: Option<nat>): (v: Ending)
    requires at.Some? ==> at.value in ids
    decreases if at.None? then 0 else at.value + 1
  {
    if at.None? then Safe
    else if !AcyclicFrom(g, ids[at.value]) then Endless
    else
      var gone, next := ReachSet(g, ids[at.value]), Below(ids, at.value);
      if next.None? then Safe
      else if ids[next.value] in gone then Freed
      else Judge(g - gone, map k | k in ids && k < at.value && ids[k] !in gone :: ids[k], next)
  }

  ghost function Fate(cfg: Config, s: State, at: Option<nat>): (v: Ending)
    requires OnQueue(s, at)
  {
    Judge(ReturnEdges(cfg, s), Pending(Q(s), at), at)
  }

  /** One iteration, seen on the graph: everything reachable is gone, and only that. */
  ghost predicate CutsReachable(p: Queue, q: Queue, rid: nat, g: Graph<Ip>, h: Graph<Ip>)
    requires rid in p
  {
    && AcyclicFrom(g, p[rid].ip)
    && h == g - ReachSet(g, p[rid].ip)
    && (forall k :: k in p ==> (k in q <==> p[k].ip !in ReachSet(g, p[rid].ip)))
    && (forall k :: k in q && k < rid ==> k in p && q[k].ip == p[k].ip)
  }

  lemma {:induction false} HandleCutsReachable(cfg: Config, s: State, rid: nat, fuel: nat, t: State)
    requires cfg.Valid() && HandleReq(cfg, s, rid, fuel) == Done(t)
    requires NoSelfRoute(cfg) && Shape(s) && rid in Q(s)
    ensures CutsReachable(Q(s), Q(t), rid, ReturnEdges(cfg, s), ReturnEdges(cfg, t))
  {
    HandleCascades(cfg, s, rid, fuel);
    QueuedView(s, rid);
    var ip, g := Q(s)[rid].ip, ReturnEdges(cfg, s);
    CascadeBounds(cfg, s, t, ip);
    CutExact(g, ReturnEdges(cfg, t), ip);
    forall k | k in Q(s) ensures k in Q(t) <==> Q(s)[k].ip !in ReachSet(g, ip) {
      CascadeDestroysReachable(cfg, s, t, ip, k);
      NodeOf(cfg, s.clock, Q(s), k);
    }
  }

  lemma {:induction false} PendingStep(p: Queue, q: Queue, rid: nat, n: nat, gone: set<Ip>)
    requires IsBelow(p, rid, n)
    requires forall k :: k in p ==> (k in q <==> p[k].ip !in gone)
    requires forall k :: k in q && k < rid ==> k in p && q[k].ip == p[k].ip
    ensures var ids := Pending(p, Some(rid));
            Pending(q, Some(n)) == map k | k in ids && k < rid && ids[k] !in gone :: ids[k]
  {
  }

  lemma {:induction false} FollowsOnce<T>(m: map<nat, T>, k: nat, a: Option<nat>, b: Option<nat>)
    requires Follows(m, k, a) && Follows(m, k, b)
    ensures a == b
  {
  }

  lemma {:induction false} FollowsPending(q: Queue, rid: nat, next: Option<nat>)
    requires Follows(q, rid, next)
    ensures Below(Pending(q, Some(rid)), rid) == next
  {
    var p := Pending(q, Some(rid));
    assert forall j :: j < rid ==> (j in p <==> j in q);
    FollowsOnce(p, rid, next, Below(p, rid));
  }

  /** The fate before one iteration is the fate after it, unless the saved `next` is gone. */
  lemma {:induction false} JudgeStep(p: Queue, q: Queue, rid: nat, next: Option<nat>, g: Graph<Ip>, h: Graph<Ip>)
    requires rid in p && CutsReachable(p, q, rid, g, h) && Follows(p, rid, next)
    ensures Judge(g, Pending(p, Some(rid)), Some(rid))
            == if next.Some? && next.value !in q then Freed else Judge(h, Pending(q, next), next)
  {
    FollowsPending(p, rid, next);
    if next.Some? { PendingStep(p, q, rid, next.value, ReachSet(g, p[rid].ip)); }
  }

  lemma {:induction false} FateAround(cfg: Config, s: State, rid: nat, fuel: nat, t: State)
    requires cfg.Valid() && HandleReq(cfg, s, rid, fuel) == Done(t)
    requires NoSelfRoute(cfg) && Shape(s) && rid in Q(s) && Queued(s, rid)
    ensures var next := After(s, rid);
            Fate(cfg, s, Some(rid)) == if OnQueue(t, next) then Fate(cfg, t, next) else Freed
  {
    AfterView(s, rid);
    HandleCutsReachable(cfg, s, rid, fuel, t);
    JudgeStep(Q(s), Q(t), rid, After(s, rid), ReturnEdges(cfg, s), ReturnEdges(cfg, t));
  }

  // ----- the fate is what happens -----

  /** With more fuel the first iteration comes to the same. */
  lemma {:induction false} HandleAlike(cfg: Config, s: State, rid: nat, fuel: nat, more: nat) returns (o: Outcome)
    requires cfg.Valid() && Queued(s, rid) && fuel <= more && SweepFrom(cfg, s, Some(rid), fuel) != OutOfFuel
    ensures fuel > 0 && HandleReq(cfg, s, rid, fuel - 1) == o && HandleReq(cfg, s, rid, more - 1) == o
  {
    o := HandleReq(cfg, s, rid, fuel - 1);
    assert o != OutOfFuel;
    HandleMoreFuel(cfg, s, rid, fuel - 1, more - 1);
  }

  /** One iteration of a sweep, by what handling the request comes to. */
  lemma {:induction false} SweepByOutcome(cfg: Config, s: State, rid: nat, fuel: nat, o: Outcome)
    requires cfg.Valid() && Queued(s, rid) && fuel > 0 && HandleReq(cfg, s, rid, fuel - 1) == o
    ensures SweepFrom(cfg, s, Some(rid), fuel) == if o.Done? then SweepFrom(cfg, o.s, After(s, rid), fuel - 1) else o
  {
  }

  /** So the sweep goes on alike, from `t` if there is one. */
  lemma {:induction false} SweepAlike(cfg: Config, s: State, rid: nat, fuel: nat, more: nat, o: Outcome)
    returns (t: Option<State>, next: Option<nat>)
    requires cfg.Valid() && Queued(s, rid) && fuel <= more
    requires SweepFrom(cfg, s, Some(rid), fuel) == o && o != OutOfFuel
    ensures fuel > 0
    ensures t.None? ==> SweepFrom(cfg, s, Some(rid), more) == o
    ensures t.Some? ==> SweepFrom(cfg, t.value, next, fuel - 1) == o
    ensures t.Some? ==> SweepFrom(cfg, s, Some(rid), more) == SweepFrom(cfg, t.value, next, more - 1)
  {
    var first := HandleAlike(cfg, s, rid, fuel, more);
    SweepByOutcome(cfg, s, rid, fuel, first);
    SweepByOutcome(cfg, s, rid, more, first);
    t, next := if first.Done? then Some(first.s) else None, After(s, rid);
  }

  lemma {:induction false} SweepStops(cfg: Config, s: State, at: Option<nat>, fuel: nat)
    requires cfg.Valid() && (at.None? || !Queued(s, at.value))
    ensures SweepFrom(cfg, s, at, fuel) == if at.None? then Done(s) else Fault
  {
  }

  /** More fuel does not change a sweep that came to an end. */
  lemma {:induction false} SweepMoreFuel(cfg: Config, s: State, at: Option<nat>, fuel: nat, more: nat, o: Outcome)
    requires cfg.Valid() && fuel <= more && SweepFrom(cfg, s, at, fuel) == o && o != OutOfFuel
    ensures SweepFrom(cfg, s, at, more) == o
    decreases fuel
  {
    if at.None? || !Queued(s, at.value) {
      SweepStops(cfg, s, at, fuel);
      SweepStops(cfg, s, at, more);
    } else {
      var t, next := SweepAlike(cfg, s, at.value, fuel, more, o);
      if t.Some? { SweepMoreFuel(cfg, t.value, next, fuel - 1, more - 1, o); }
    }
  }

  lemma {:induction false} HandleEnds(cfg: Config, s: State, rid: nat, fuel: nat)
    requires cfg.Valid() && NoSelfRoute(cfg) && Shape(s) && rid in Q(s)
    ensures HandleReq(cfg, s, rid, fuel) != Fault
    ensures HandleReq(cfg, s, rid, fuel).Done? ==> AcyclicFrom(ReturnEdges(cfg, s), Q(s)[rid].ip)
  {
    HandleEndsIff(cfg, s, rid);
  }

  /** The first iteration of a sweep that comes to an end. */
  lemma {:induction false} SweepBegins(cfg: Config, s: State, rid: nat, fuel: nat) returns (t: State)
    requires cfg.Valid() && NoSelfRoute(cfg) && Shape(s) && rid in Q(s)
    requires SweepFrom(cfg, s, Some(rid), fuel) != OutOfFuel
    ensures fuel > 0 && Queued(s, rid) && HandleReq(cfg, s, rid, fuel - 1) == Done(t)
    ensures SweepFrom(cfg, s, Some(rid), fuel) == SweepFrom(cfg, t, After(s, rid), fuel - 1)
  {
    QueuedView(s, rid);
    SweepByOutcome(cfg, s, rid, fuel, HandleReq(cfg, s, rid, fuel - 1));
    HandleEnds(cfg, s, rid, fuel - 1);
    t := HandleReq(cfg, s, rid, fuel - 1).s;
  }

  lemma {:induction false} GoneIsFault(cfg: Config, s: State, at: Option<nat>, fuel: nat)
    requires cfg.Valid() && Shape(s) && !OnQueue(s, at)
    ensures SweepFrom(cfg, s, at, fuel) == Fault
  {
    QueuedView(s, at.value);
    SweepStops(cfg, s, at, fuel);
  }

  lemma {:induction false} FateTurns(cfg: Config, s: State, rid: nat, fuel: nat, t: State, v: Ending)
    requires cfg.Valid() && NoSelfRoute(cfg) && Shape(s) && rid in Q(s) && Queued(s, rid)
    requires HandleReq(cfg, s, rid, fuel) == Done(t) && Fate(cfg, s, Some(rid)) == v
    ensures Shape(t) && if OnQueue(t, After(s, rid)) then Fate(cfg, t, After(s, rid)) == v else v == Freed
  {
    SweepStep(cfg, s, rid, fuel, t);
    FateAround(cfg, s, rid, fuel, t);
  }

  /** The state of a sweep that comes to `o` and is fated to `v`. */
  ghost predicate Fated(cfg: Config, s: State, at: Option<nat>, fuel: nat, o: Outcome, v: Ending)
    requires cfg.Valid()
  {
    Shape(s) && OnQueue(s, at) && SweepFrom(cfg, s, at, fuel) == o && o != OutOfFuel && Fate(cfg, s, at) == v
  }

  /** One iteration: either the next request is gone, or the sweep goes on with the same fate. */
  lemma {:induction false} SweepTurns(cfg: Config, s: State, rid: nat, fuel: nat, o: Outcome, v: Ending)
    returns (gone: bool, t: State, next: Option<nat>)
    requires cfg.Valid() && NoSelfRoute(cfg) && Fated(cfg, s, Some(rid), fuel, o, v)
    ensures fuel > 0
    ensures gone ==> v == Freed && o == Fault
    ensures !gone ==> Fated(cfg, t, next, fuel - 1, o, v)
  {
    t := SweepBegins(cfg, s, rid, fuel);
    next := After(s, rid);
    FateTurns(cfg, s, rid, fuel - 1, t, v);
    gone := !OnQueue(t, next);
    if gone { GoneIsFault(cfg, t, next, fuel - 1); }
  }

  lemma {:induction false} NowhereIsSafe(cfg: Config, s: State, fuel: nat)
    requires cfg.Valid()
    ensures SweepFrom(cfg, s, None, fuel) == Done(s) && Fate(cfg, s, None) == Safe
  {
  }

  lemma {:induction false} FatedEnds(cfg: Config, s: State, at: Option<nat>, fuel: nat, o: Outcome, v: Ending)
    requires cfg.Valid() && NoSelfRoute(cfg) && Fated(cfg, s, at, fuel, o, v)
    ensures v == if o.Done? then Safe else Freed
    decreases fuel
  {
    if at.None? {
      NowhereIsSafe(cfg, s, fuel);
    } else {
      var gone, t, next := SweepTurns(cfg, s, at.value, fuel, o, v);
      if !gone { FatedEnds(cfg, t, next, fuel - 1, o, v); }
    }
  }

  /** A sweep that comes to an end does so as its fate says. */
  lemma {:induction false} OutcomeIsFate(cfg: Config, s: State, at: Option<nat>, fuel: nat)
    requires cfg.Valid() && NoSelfRoute(cfg) && Shape(s) && OnQueue(s, at)
    requires SweepFrom(cfg, s, at, fuel) != OutOfFuel
    ensures Fate(cfg, s, at) == if SweepFrom(cfg, s, at, fuel).Done? then Safe else Freed
  {
    FatedEnds(cfg, s, at, fuel, SweepFrom(cfg, s, at, fuel), Fate(cfg, s, at));
  }

  lemma {:induction false} HandleFinishes(cfg: Config, s: State, rid: nat) returns (fuel: nat, t: State)
    requires cfg.Valid() && NoSelfRoute(cfg) && Shape(s) && rid in Q(s)
    requires AcyclicFrom(ReturnEdges(cfg, s), Q(s)[rid].ip)
    ensures HandleReq(cfg, s, rid, fuel) == Done(t) && Shape(t) && Queued(s, rid)
  {
    HandleEndsIff(cfg, s, rid);
    fuel :| HandleReq(cfg, s, rid, fuel).Done?;
    t := HandleReq(cfg, s, rid, fuel).s;
    SweepStep(cfg, s, rid, fuel, t);
  }

  lemma {:induction false} SweepComposes(cfg: Config, s: State, rid: nat, f: nat, t: State, m: nat, fuel: nat)
    requires cfg.Valid() && Queued(s, rid) && HandleReq(cfg, s, rid, f) == Done(t)
    requires SweepFrom(cfg, t, After(s, rid), m) != OutOfFuel && f <= fuel && m <= fuel
    ensures SweepFrom(cfg, s, Some(rid), fuel + 1) != OutOfFuel
  {
    assert HandleReq(cfg, s, rid, fuel) == Done(t) by { HandleMoreFuel(cfg, s, rid, f, fuel); }
    SweepByOutcome(cfg, s, rid, fuel + 1, Done(t));
    assert SweepFrom(cfg, t, After(s, rid), fuel) != OutOfFuel by {
      SweepMoreFuel(cfg, t, After(s, rid), m, fuel, SweepFrom(cfg, t, After(s, rid), m));
    }
  }

  lemma {:induction false} FateIsReached(cfg: Config, s: State, at: Option<nat>) returns (fuel: nat)
    requires cfg.Valid() && NoSelfRoute(cfg) && Shape(s) && OnQueue(s, at) && Fate(cfg, s, at) != Endless
    ensures SweepFrom(cfg, s, at, fuel) != OutOfFuel
    decreases if at.None? then 0 else at.value + 1
  {
    fuel := 0;
    if at.Some? {
      var f, t := HandleFinishes(cfg, s, at.value);
      var next := After(s, at.value);
      FateAround(cfg, s, at.value, f, t);
      AfterView(s, at.value);
      var m := 0;
      if OnQueue(t, next) { m := FateIsReached(cfg, t, next); } else { QueuedView(t, next.value); }
      SweepComposes(cfg, s, at.value, f, t, m, f + m);
      fuel := f + m + 1;
    }
  }

  /** The fate on the state before a sweep says what the sweep does: it ends, or it reads a freed
      request, or it never ends. */
  lemma {:induction false} SweepOutcomeIff(cfg: Config, s: State)
    requires cfg.Valid() && NoSelfRoute(cfg) && Shape(s)
    ensures OnQueue(s, Head(s))
    ensures (exists fuel: nat :: SweepFrom(cfg, s, Head(s), fuel).Done?) <==> Fate(cfg, s, Head(s)) == Safe
    ensures (exists fuel: nat :: SweepFrom(cfg, s, Head(s), fuel) == Fault) <==> Fate(cfg, s, Head(s)) == Freed
    ensures (forall fuel: nat :: SweepFrom(cfg, s, Head(s), fuel) == OutOfFuel) <==> Fate(cfg, s, Head(s)) == Endless
  {
    HeadView(s);
    forall fuel: nat | SweepFrom(cfg, s, Head(s), fuel) != OutOfFuel
      ensures Fate(cfg, s, Head(s)) == if SweepFrom(cfg, s, Head(s), fuel).Done? then Safe else Freed
    {
      OutcomeIsFate(cfg, s, Head(s), fuel);
    }
    if Fate(cfg, s, Head(s)) != Endless {
      var fuel := FateIsReached(cfg, s, Head(s));
      assert SweepFrom(cfg, s, Head(s), fuel) != OutOfFuel;
    }
  }

  // ----- without edges -----

  lemma {:induction false} EdgeFreeUnfolds(cfg: Config, s: State, rid: nat, fuel: nat, t: State)
    returns (s1: State, next: Option<nat>, w: seq<nat>)
    requires cfg.Valid() && SweepFrom(cfg, s, Some(rid), fuel) == Done(t)
    requires Shape(s) && rid in Q(s) && EdgeFree(ReturnEdges(cfg, s))
    ensures fuel > 0 && SweepFrom(cfg, s1, next, fuel - 1) == Done(t) && w == Visits(cfg, s1, next, fuel - 1)
    ensures Visits(cfg, s, Some(rid), fuel) == [rid] + w
    ensures Shape(s1) && OnQueue(s1, next) && EdgeFree(ReturnEdges(cfg, s1)) && Follows(Q(s), rid, next)
    ensures forall k :: k in Q(s) && k != rid ==> k in Q(s1)
  {
    s1, next := SweepUnfolds(cfg, s, Some(rid), fuel);
    w := Visits(cfg, s1, next, fuel - 1);
    SweepStep(cfg, s, rid, fuel - 1, s1);
    EdgeFreeHandle(cfg, s, rid, fuel - 1);
    if next.Some? { QueuedView(s1, next.value); }
  }

  lemma {:induction false} EdgeFreeVisitsAll(cfg: Config, s: State, at: Option<nat>, fuel: nat, t: State, v: seq<nat>)
    requires cfg.Valid() && SweepFrom(cfg, s, at, fuel) == Done(t) && Visits(cfg, s, at, fuel) == v
    requires Shape(s) && OnQueue(s, at) && EdgeFree(ReturnEdges(cfg, s))
    ensures forall k :: k in Q(s) && Ahead(at, k) ==> k in v
    decreases fuel
  {
    if at.Some? {
      var rid := at.value;
      var s1, next, w := EdgeFreeUnfolds(cfg, s, rid, fuel, t);
      EdgeFreeVisitsAll(cfg, s1, next, fuel - 1, t, w);
      forall k | k in Q(s) && k <= rid ensures k in [rid] + w {
        if k != rid { assert k in w; }
      }
    }
  }

  /** One iteration. */
  lemma {:induction false} EdgeFreeTurn(cfg: Config, s: State, rid: nat) returns (t: State, next: Option<nat>)
    requires cfg.Valid() && Shape(s) && rid in Q(s) && EdgeFree(ReturnEdges(cfg, s))
    ensures HandleReq(cfg, s, rid, 1) == Done(t) && Queued(s, rid) && next == After(s, rid)
    ensures Shape(t) && OnQueue(t, next) && EdgeFree(ReturnEdges(cfg, t)) && (next.Some? ==> next.value < rid)
  {
    AfterView(s, rid);
    EdgeFreeHandle(cfg, s, rid, 1);
    t, next := HandleReq(cfg, s, rid, 1).s, After(s, rid);
    SweepStep(cfg, s, rid, 1, t);
  }

  lemma {:induction false} EdgeFreeFolds(cfg: Config, s: State, rid: nat, fuel: nat, t: State)
    requires cfg.Valid() && Queued(s, rid) && HandleReq(cfg, s, rid, 1) == Done(t) && fuel > 1
    ensures SweepFrom(cfg, s, Some(rid), fuel) == SweepFrom(cfg, t, After(s, rid), fuel - 1)
  {
    HandleMoreFuel(cfg, s, rid, 1, fuel - 1);
    SweepByOutcome(cfg, s, rid, fuel, Done(t));
  }

  lemma {:induction false} EdgeFreeEnds(cfg: Config, s: State, at: Option<nat>) returns (fuel: nat)
    requires cfg.Valid() && Shape(s) && OnQueue(s, at) && EdgeFree(ReturnEdges(cfg, s))
    ensures SweepFrom(cfg, s, at, fuel).Done?
    decreases if at.None? then 0 else at.value + 1
  {
    fuel := 0;
    if at.Some? {
      var t, next := EdgeFreeTurn(cfg, s, at.value);
      var m := EdgeFreeEnds(cfg, t, next);
      SweepMoreFuel(cfg, t, next, m, m + 1, SweepFrom(cfg, t, next, m));
      EdgeFreeFolds(cfg, s, at.value, m + 2, t);
      fuel := m + 2;
    }
  }

  /** Without edges every sweep ends, and it handles every request queued at its start exactly
      once: the saved `next` is still there when it is reached, and requests that are prepended
      meanwhile are not visited. */
  lemma {:induction false} EdgeFreeSweep(cfg: Config, s: State) returns (fuel: nat)
    requires cfg.Valid() && Shape(s) && EdgeFree(ReturnEdges(cfg, s))
    ensures SweepFrom(cfg, s, Head(s), fuel).Done?
    ensures StrictlyDown(Visits(cfg, s, Head(s), fuel), s.nextRid)
    ensures forall k :: k in Visits(cfg, s, Head(s), fuel) <==> k in Q(s)
  {
    HeadView(s);
    fuel := EdgeFreeEnds(cfg, s, Head(s));
    SweepVisits(cfg, s, fuel, SweepFrom(cfg, s, Head(s), fuel).s);
    EdgeFreeVisitsAll(cfg, s, Head(s), fuel, SweepFrom(cfg, s, Head(s), fuel).s, Visits(cfg, s, Head(s), fuel));
  }
}
