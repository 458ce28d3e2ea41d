/** When things happen along a run: how closely queries follow one another, how long a frame can
    wait, and which binding a lookup finds. */
module Timing {
  import opened Bytes
  import opened Packets
  import opened Routing
  import opened RouterModel
  import opened RequestQueue
  import opened Activation
  import opened Sweep
  import opened Invariants
  import opened Runs
  import opened Resolution
  import ArpTable

  // ----- queries for one address are a second apart, or a reply lies between them -----

  lemma {:induction false} LearnedGrowing(ops: seq<ArpTable.TableOp>, more: seq<ArpTable.TableOp>, ip: Ip, from: int,
                                          to: int, later: int)
    requires ops <= more && to <= later && LearnedWithin(ops, ip, from, to)
    ensures LearnedWithin(more, ip, from, later)
  {
    var mac, t :| from <= t <= to && ArpTable.Learn(mac, ip, t) in ops;
    assert ArpTable.Learn(mac, ip, t) in more;
  }

  /** A step between activations: time passes, the table changes, requests may be answered, and no
      query goes out. */
  ghost predicate Answers(s: State, t: State) {
    && s.clock <= t.clock && s.ops <= t.ops && s.sent <= t.sent && s.accepted == t.accepted
    && (forall i {:trigger t.sent[i]} :: |s.sent| <= i < |t.sent| ==> !t.sent[i].ArpQuery?)
    && (forall k {:trigger k in Q(t)} :: k in Q(t) ==> k in Q(s))
    && forall k {:trigger k in Q(s)} :: k in Q(s) ==>
         if k in Q(t) then Q(t)[k] == Q(s)[k] else LearnedWithin(t.ops, Q(s)[k].ip, s.clock, t.clock)
  }

  lemma {:induction false} AnsweredTraced(s: State, t: State, x: Sent)
    requires Answers(s, t) && Traced(s, x)
    ensures Traced(t, x)
  {
    if x.ArpQuery? && x.time + 1 > t.clock {
      if Settled(s, x) {
        LearnedGrowing(s.ops, t.ops, x.target, x.time, s.clock, t.clock);
      } else {
        var k :| k in Q(s) && Q(s)[k].ip == x.target && x.time <= Q(s)[k].sent;
        if k !in Q(t) {
          var mac, n :| s.clock <= n <= t.clock && ArpTable.Learn(mac, x.target, n) in t.ops;
          assert LearnedWithin(t.ops, x.target, x.time, t.clock);
        }
      }
    }
  }

  lemma {:induction false} AnsweredPaced(s: State, t: State)
    requires Paced(s) && Answers(s, t)
    ensures Paced(t)
  {
    forall i | 0 <= i < |t.sent| ensures Traced(t, t.sent[i]) {
      if i < |s.sent| {
        assert t.sent[i] == s.sent[i] && Traced(s, s.sent[i]);
        AnsweredTraced(s, t, s.sent[i]);
      }
    }
    forall i, j | 0 <= i < j < |t.sent| ensures Apart(t.ops, t.sent[i], t.sent[j]) {
      if j < |s.sent| {
        var x, y := s.sent[i], s.sent[j];
        assert t.sent[i] == x && t.sent[j] == y && Apart(s.ops, x, y);
        if x.ArpQuery? && y.ArpQuery? && x.target == y.target && x.time + 1 > y.time {
          LearnedGrowing(s.ops, t.ops, x.target, x.time, y.time, y.time);
        }
      }
    }
  }

  lemma {:induction false} AnsweredAsking(s: State, t: State)
    requires Asking(s) && Answers(s, t)
    ensures Asking(t)
  {
    forall k | k in Q(t) ensures Latest(t.accepted, Q(t)[k]) { assert Latest(s.accepted, Q(s)[k]); }
    forall i | 0 <= i < |t.sent| ensures AskedFor(t.accepted, t.sent[i]) {
      if i < |s.sent| { assert t.sent[i] == s.sent[i] && AskedFor(s.accepted, s.sent[i]); }
    }
  }

  lemma {:induction false} ReplyAnswers(cfg: Config, s: State, from: Ip, mac: Mac)
    requires Shape(s)
    ensures Answers(s, Reply(cfg, s, from, mac)) && Waits(s, Reply(cfg, s, from, mac))
  {
    var t, i := Reply(cfg, s, from, mac), FindIp(s.requests, from);
    assert ArpTable.Learn(mac, from, s.clock) in t.ops;
    if i < |s.requests| {
      RemoveView(s.requests, s.nextRid, i);
      FindIpView(s.requests, s.nextRid, from);
      DrainTail(cfg, s.sent, s.requests[i].packets, from, mac);
      assert LearnedWithin(t.ops, from, s.clock, t.clock);
    }
  }

  lemma {:induction false} ArpAnswers(cfg: Config, s: State, frame: Frame, iface: string)
    requires Shape(s)
    ensures Answers(s, HandleArp(cfg, s, frame, iface)) && Waits(s, HandleArp(cfg, s, frame, iface))
  {
    if ArpValid(frame) { ReplyAnswers(cfg, s, ArpSip(frame), ArpSha(frame)); }
  }

  // ----- every event -----

  /** No operation on the table lies in the future. */
  ghost predicate OpsPast(s: State) {
    forall op :: op in s.ops ==> op.now <= s.clock
  }

  ghost predicate Timely(s: State) { Paced(s) && Asking(s) && OpsPast(s) }

  lemma {:induction false} PassAnswers(s: State, now: int)
    requires s.clock <= now && OpsPast(s)
    ensures var u := s.(clock := now);
            && Answers(s, u) && Answers(u, Expiring(u)) && OpsPast(u) && OpsPast(Expiring(u))
            && Waits(s, u) && Waits(u, Expiring(u))
  {
  }

  lemma {:induction false} AnswersTimely(s: State, t: State)
    requires Answers(s, t) && Timely(s) && OpsPast(t)
    ensures Timely(t)
  {
    AnsweredPaced(s, t);
    AnsweredAsking(s, t);
  }

  lemma {:induction false} AdvancesTimely(s: State, t: State)
    requires Advances(s, t) && Timely(s)
    ensures Timely(t) && Waits(s, t)
  {
  }

  lemma {:induction false} TimerTimely(cfg: Config, s: State, now: int, fuel: nat, t: State)
    requires cfg.Valid() && Shape(s) && s.clock <= now && Timely(s) && Step(cfg, s, Timer(now), fuel) == Done(t)
    ensures Timely(t) && Waits(s, t)
  {
    var u := Expiring(s.(clock := now));
    PassAnswers(s, now);
    AnswersTimely(s, s.(clock := now));
    AnswersTimely(s.(clock := now), u);
    TimerUnfolds(cfg, s, now, fuel);
    SweepLeavesNoneDue(cfg, u, fuel, t);
    AdvancesTimely(u, t);
  }

  lemma {:induction false} ReceiveTimely(cfg: Config, s: State, now: int, frame: Frame, iface: string, fuel: nat,
                                         t: State)
    requires cfg.Valid() && Shape(s) && s.clock <= now && Timely(s)
    requires Step(cfg, s, Receive(now, frame, iface), fuel) == Done(t)
    ensures Timely(t) && Waits(s, t)
  {
    var u := s.(clock := now);
    PassAnswers(s, now);
    AnswersTimely(s, u);
    if |frame| >= 14 && Ethertype(frame) == 0x0806 {
      ArpAnswers(cfg, u, frame, iface);
      AnswersTimely(u, t);
    } else if |frame| >= 14 && Ethertype(frame) == 0x0800 {
      IpAdvances(cfg, u, frame, iface, fuel, t);
      AdvancesTimely(u, t);
    }
  }

  lemma {:induction false} NextTimely(cfg: Config, states: seq<State>, events: seq<Event>, i: nat)
    requires cfg.Valid() && Run(cfg, states, events) && i < |events| && Timely(states[i])
    ensures Timely(states[i + 1]) && Waits(states[i], states[i + 1])
  {
    var s, e, t := states[i], events[i], states[i + 1];
    RunInv(cfg, states, events, i);
    assert Next(cfg, s, e, t);
    var fuel: nat :| Step(cfg, s, e, fuel) == Done(t);
    match e
    case Timer(now) => TimerTimely(cfg, s, now, fuel, t);
    case Receive(now, frame, iface) => ReceiveTimely(cfg, s, now, frame, iface, fuel, t);
  }

  lemma {:induction false} RunTimely(cfg: Config, states: seq<State>, events: seq<Event>, i: nat)
    requires cfg.Valid() && Run(cfg, states, events) && i < |states|
    ensures Timely(states[i])
    decreases i
  {
    if i > 0 {
      RunTimely(cfg, states, events, i - 1);
      NextTimely(cfg, states, events, i - 1);
    }
  }

  /** Of two queries for one address, whatever requests they were made for, the later one comes at
      least a second after the earlier, unless a reply for that address was received in between. */
  lemma {:induction false} QueriesApart(cfg: Config, states: seq<State>, events: seq<Event>, i: nat, a: nat, b: nat)
    requires cfg.Valid() && Run(cfg, states, events) && i < |states| && a < b < |states[i].sent|
    requires states[i].sent[a].ArpQuery? && states[i].sent[b].ArpQuery?
    requires states[i].sent[a].target == states[i].sent[b].target
    ensures var x, y := states[i].sent[a], states[i].sent[b];
            x.time + 1 <= y.time
            || exists mac, t :: x.time <= t <= y.time && ArpTable.Learn(mac, x.target, t) in states[i].ops
  {
    RunTimely(cfg, states, events, i);
    assert Apart(states[i].ops, states[i].sent[a], states[i].sent[b]);
  }

  // ----- no frame waits for more than six sweeps -----

  lemma {:induction false} WaitsAlong(cfg: Config, states: seq<State>, events: seq<Event>, i: nat, j: nat)
    requires cfg.Valid() && Run(cfg, states, events) && i <= j < |states|
    ensures Waits(states[i], states[j])
    decreases j
  {
    if i < j {
      WaitsAlong(cfg, states, events, i, j - 1);
      RunTimely(cfg, states, events, j - 1);
      NextTimely(cfg, states, events, j - 1);
    }
  }

  /** A frame that is pending waits on some request. */
  lemma {:induction false} PendingWaits(rs: seq<Request>, bound: nat, pid: nat) returns (k: nat, p: Packet)
    requires Descending(rs, bound) && PendingPids(rs)[pid] > 0
    ensures k in View(rs) && p in View(rs)[k].packets && p.pid == pid
  {
    ViewKeys(rs[1..], rs[0].rid);
    if multiset(Pids(rs[0].packets))[pid] > 0 {
      assert pid in Pids(rs[0].packets);
      var j :| 0 <= j < |rs[0].packets| && Pids(rs[0].packets)[j] == pid;
      k, p := rs[0].rid, rs[0].packets[j];
    } else {
      k, p := PendingWaits(rs[1..], rs[0].rid, pid);
    }
  }

  lemma {:induction false} TicksRise(events: seq<Event>, ticks: seq<nat>, j: nat)
    requires Ticks(events, ticks) && j < |ticks|
    ensures ticks[0] <= ticks[j]
  {
    if j > 0 { TicksRise(events, ticks, j - 1); }
  }

  /** Every frame accepted before the first of six timer passes a second apart has, after the sixth,
      been delivered once or abandoned once. */
  lemma {:induction false} SettledAfterSixSweeps(cfg: Config, states: seq<State>, events: seq<Event>, ticks: seq<nat>,
                                                 pid: nat, i: nat)
    requires cfg.Valid() && Run(cfg, states, events) && Ticks(events, ticks) && |ticks| == 6
    requires pid < |states[ticks[0]].accepted| && ticks[5] < i < |states|
    ensures DeliveredPids(states[i].sent)[pid] + multiset(states[i].abandoned)[pid] == 1
  {
    var s := states[ticks[0]];
    TicksRise(events, ticks, 5);
    WaitsAlong(cfg, states, events, ticks[0], i);
    RunInv(cfg, states, events, i);
    RunInv(cfg, states, events, ticks[0]);
    if PendingPids(states[i].requests)[pid] > 0 {
      var k, p := PendingWaits(states[i].requests, states[i].nextRid, pid);
      ViewKeys(s.requests, s.nextRid);
      GoneAfterSixSweeps(cfg, states, events, ticks, k, i);
    }
    FrameInOnePlace(cfg, states, events, i, pid);
  }

  // ----- which binding is found -----

  lemma {:induction false} ReplyInserts(cfg: Config, s: State, e: Event, t: State)
    requires cfg.Valid() && CarriesReply(cfg, e) && Next(cfg, s, e, t)
    ensures t.table == ArpTable.Insert(s.table, e.frame[22..28], e.frame[28..32], e.now)
  {
    ArpFormatIff(e.frame, 2);
  }

  lemma {:induction false} TableIsOlder(cfg: Config, states: seq<State>, events: seq<Event>, i: nat, now: int)
    requires cfg.Valid() && Run(cfg, states, events) && i < |states| && states[i].clock < now
    ensures forall e :: e in states[i].table && e.valid ==> e.added < now
  {
    RunInv(cfg, states, events, i);
    RunTimely(cfg, states, events, i);
    forall e | e in states[i].table && e.valid ensures e.added < now { ArpTable.ValidWasLearned(states[i].ops, e); }
  }

  /** What a lookup finds in a table into which a binding has just been inserted, at a given time. */
  ghost predicate FoundIn(t: seq<ArpTable.Entry>, from: Ip, mac: Mac, now: int, after: seq<ArpTable.Entry>) {
    var k, brought := ArpTable.FirstFree(t), ArpTable.Entry(mac, from, now, true);
    var later := ArpTable.Lookup(if k < |t| then t[k + 1..] else t, from);
    var found := ArpTable.Lookup(after, from);
    && found == (if later.None? && k < |t| then Some(brought) else later)
    && (found == Some(brought) <==> later == Some(brought) || (later.None? && k < |t|))
  }

  /** It finds the new binding exactly if there was a free slot and no later slot held the address. */
  ghost predicate FoundIffFree(t: seq<ArpTable.Entry>, from: Ip, mac: Mac, now: int, after: seq<ArpTable.Entry>) {
    var k := ArpTable.FirstFree(t);
    ArpTable.Lookup(after, from) == Some(ArpTable.Entry(mac, from, now, true))
    <==> k < |t| && forall j :: k < j < |t| ==> !(t[j].valid && t[j].ip == from)
  }

  lemma {:induction false} InsertedIsFound(t: seq<ArpTable.Entry>, from: Ip, mac: Mac, now: int)
    ensures FoundIn(t, from, mac, now, ArpTable.Insert(t, mac, from, now))
  {
    ArpTable.LookupAfterInsert(t, mac, from, now, from);
  }

  lemma {:induction false} NewerIsFound(t: seq<ArpTable.Entry>, from: Ip, mac: Mac, now: int)
    requires forall e :: e in t && e.valid ==> e.added < now
    ensures FoundIffFree(t, from, mac, now, ArpTable.Insert(t, mac, from, now))
  {
    ArpTable.NewestIsFoundIff(t, mac, from, now);
  }

  /** What a lookup finds right after a reply, in every run: the last binding for the address in the slots
      after the one that was filled, or else what the reply brought; a full table is as before. If time
      has passed since the event before, the reply is found if and only if the table had a free slot and
      no slot after the first free one held the address. */
  lemma {:induction false} ReplyIsFoundIff(cfg: Config, states: seq<State>, events: seq<Event>, i: nat)
    requires cfg.Valid() && Run(cfg, states, events) && i < |events| && CarriesReply(cfg, events[i])
    ensures FoundIn(states[i].table, events[i].frame[28..32], events[i].frame[22..28], events[i].now,
                    states[i + 1].table)
    ensures states[i].clock < events[i].now ==>
              FoundIffFree(states[i].table, events[i].frame[28..32], events[i].frame[22..28], events[i].now,
                           states[i + 1].table)
  {
    var s, from, mac, now := states[i], events[i].frame[28..32], events[i].frame[22..28], events[i].now;
    assert Next(cfg, s, events[i], states[i + 1]);
    ReplyInserts(cfg, s, events[i], states[i + 1]);
    InsertedIsFound(s.table, from, mac, now);
    if s.clock < now {
      TableIsOlder(cfg, states, events, i, now);
      NewerIsFound(s.table, from, mac, now);
    }
  }

  lemma {:induction false} ExpireKeeps(t: seq<ArpTable.Entry>, now: int, e: ArpTable.Entry)
    requires e.valid
    ensures e in ArpTable.Expire(t, now) <==> e in t && now - e.added <= 15
  {
    var u := ArpTable.Expire(t, now);
    if e in t {
      var j :| 0 <= j < |t| && t[j] == e;
      assert u[j] == ArpTable.ExpireOne(e, now);
    }
    if e in u {
      var j :| 0 <= j < |u| && u[j] == e;
      assert u[j] == ArpTable.ExpireOne(t[j], now);
    }
  }

  /** What a timer pass leaves in the table: the bindings that were there and are at most 15 seconds
      old, each brought by a reply in that time. */
  lemma {:induction false} TimerLeavesFresh(cfg: Config, states: seq<State>, events: seq<Event>, i: nat,
                                            e: ArpTable.Entry)
    requires cfg.Valid() && Run(cfg, states, events) && i < |events| && events[i].Timer? && e.valid
    ensures e in states[i + 1].table <==> e in states[i].table && events[i].now - e.added <= 15
    ensures e in states[i + 1].table ==>
              e.added <= events[i].now && ArpTable.Learn(e.mac, e.ip, e.added) in states[i].ops
  {
    var s, t, now := states[i], states[i + 1], events[i].now;
    RunInv(cfg, states, events, i);
    RunTimely(cfg, states, events, i);
    assert Next(cfg, s, events[i], t);
    var fuel: nat :| Step(cfg, s, events[i], fuel) == Done(t);
    var u := Expiring(s.(clock := now));
    TimerUnfolds(cfg, s, now, fuel);
    SweepLeavesNoneDue(cfg, u, fuel, t);
    ExpireKeeps(s.table, now, e);
    if e in t.table { ArpTable.ValidWasLearned(s.ops, e); }
  }
}
