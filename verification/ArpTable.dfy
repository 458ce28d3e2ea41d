/** The 100-slot address table of sr_arpcache.c, against a chronological log of bindings. */
module ArpTable {
  import opened Bytes

  const SIZE := 100
  const TIMEOUT := 15

  datatype Entry = Entry(mac: Mac, ip: Ip, added: int, valid: bool)
  datatype Binding = Binding(mac: Mac, ip: Ip, added: int)

  const EMPTY := Entry([0, 0, 0, 0, 0, 0], ZERO_IP, 0, false)

  predicate Expired(added: int, now: int) { now - added > TIMEOUT }

  // ----- the slots -----

  function FirstFree(t: seq<Entry>): (i: nat)
    ensures i <= |t|
    ensures i < |t| ==> !t[i].valid
    ensures forall j :: 0 <= j < i ==> t[j].valid
  {
    if t == [] || !t[0].valid then 0 else 1 + FirstFree(t[1..])
  }

  function Insert(t: seq<Entry>, mac: Mac, ip: Ip, now: int): (r: seq<Entry>)
    ensures |r| == |t|
  {
    var i := FirstFree(t);
    if i == |t| then t else t[i := Entry(mac, ip, now, true)]
  }

  function ExpireOne(e: Entry, now: int): Entry {
    if e.valid && Expired(e.added, now) then e.(valid := false) else e
  }

  function Expire(t: seq<Entry>, now: int): (r: seq<Entry>)
    ensures |r| == |t|
  {
    seq(|t|, i requires 0 <= i < |t| => ExpireOne(t[i], now))
  }

  /** The last valid slot for `ip`. */
  function Lookup(t: seq<Entry>, ip: Ip): (r: Option<Entry>)
    ensures r.Some? ==> r.value in t && r.value.valid && r.value.ip == ip
    ensures r.None? ==> forall e :: e in t && e.valid ==> e.ip != ip
  {
    if t == [] then None
    else
      var last := t[|t| - 1];
      if last.valid && last.ip == ip then Some(last) else Lookup(t[..|t| - 1], ip)
  }

  // ----- the methods over the array -----

  /** `sr_arpcache_lookup`. */
  method LookupEntry(entries: array<Entry>, ip: Ip) returns (r: Option<Entry>)
    ensures r == Lookup(entries[..], ip)
  {
    r := None;
    var i := 0;
    while i < entries.Length
      invariant 0 <= i <= entries.Length
      invariant r == Lookup(entries[..i], ip)
    {
      assert entries[..i + 1][..i] == entries[..i];
      if entries[i].valid && entries[i].ip == ip {
        r := Some(entries[i]);
      }
      i := i + 1;
    }
    assert entries[..i] == entries[..];
  }

  /** The slot search and store of `sr_arpcache_insert`; a full table drops the binding. */
  method InsertEntry(entries: array<Entry>, mac: Mac, ip: Ip, now: int)
    modifies entries
    ensures entries[..] == Insert(old(entries[..]), mac, ip, now)
  {
    var i := 0;
    while i < entries.Length && entries[i].valid
      invariant 0 <= i <= entries.Length
      invariant forall j :: 0 <= j < i ==> entries[j].valid
      invariant entries[..] == old(entries[..])
    {
      i := i + 1;
    }
    assert FirstFree(entries[..]) == i;
    if i != entries.Length {
      entries[i] := Entry(mac, ip, now, true);
    }
  }

  /** The expiry loop of `sr_arpcache_timeout`. */
  method ExpireEntries(entries: array<Entry>, now: int)
    modifies entries
    ensures entries[..] == Expire(old(entries[..]), now)
  {
    var i := 0;
    while i < entries.Length
      invariant 0 <= i <= entries.Length
      invariant forall j :: 0 <= j < i ==> entries[j] == ExpireOne(old(entries[j]), now)
      invariant forall j :: i <= j < entries.Length ==> entries[j] == old(entries[j])
    {
      if entries[i].valid && Expired(entries[i].added, now) {
        entries[i] := entries[i].(valid := false);
      }
      i := i + 1;
    }
  }

  // ----- the reference: a log of at most SIZE bindings -----

  function LogInsert(log: seq<Binding>, b: Binding): (r: seq<Binding>) {
    if |log| < SIZE then log + [b] else log
  }

  function LogExpire(log: seq<Binding>, now: int): (r: seq<Binding>)
    ensures |r| <= |log|
    ensures forall b :: b in r ==> b in log && !Expired(b.added, now)
  {
    if log == [] then []
    else (if Expired(log[0].added, now) then [] else [log[0]]) + LogExpire(log[1..], now)
  }

  /** The bindings held by the valid slots, in slot order. */
  function Held(t: seq<Entry>): (r: seq<Binding>)
    ensures |r| <= |t|
  {
    if t == [] then []
    else (if t[0].valid then [Binding(t[0].mac, t[0].ip, t[0].added)] else []) + Held(t[1..])
  }

  predicate Agrees(t: seq<Entry>, log: seq<Binding>) {
    |t| == SIZE && multiset(Held(t)) == multiset(log)
  }

  lemma {:induction false} HeldFull(t: seq<Entry>)
    ensures FirstFree(t) == |t| <==> |Held(t)| == |t|
  {
    if t != [] { HeldFull(t[1..]); }
  }

  lemma {:induction false} HeldInsert(t: seq<Entry>, mac: Mac, ip: Ip, now: int)
    requires FirstFree(t) < |t|
    ensures multiset(Held(Insert(t, mac, ip, now))) == multiset(Held(t)) + multiset{Binding(mac, ip, now)}
  {
    var r := Insert(t, mac, ip, now);
    if !t[0].valid {
      assert r[1..] == t[1..];
      assert Held(r) == [Binding(mac, ip, now)] + Held(t[1..]);
      assert Held(t) == [] + Held(t[1..]) == Held(t[1..]);
    } else {
      assert r[1..] == Insert(t[1..], mac, ip, now);
      HeldInsert(t[1..], mac, ip, now);
    }
  }

  lemma {:induction false} HeldExpire(t: seq<Entry>, now: int)
    ensures Held(Expire(t, now)) == LogExpire(Held(t), now)
  {
    if t != [] {
      assert Expire(t, now)[1..] == Expire(t[1..], now);
      HeldExpire(t[1..], now);
      if t[0].valid {
        assert Held(t)[1..] == Held(t[1..]);
      } else {
        assert Held(t) == Held(t[1..]);
      }
    }
  }

  /** What expiry keeps depends on the bindings, not on their order. */
  lemma {:induction false} ExpireCounts(log: seq<Binding>, now: int, b: Binding)
    ensures multiset(LogExpire(log, now))[b] == if Expired(b.added, now) then 0 else multiset(log)[b]
  {
    if log != [] {
      ExpireCounts(log[1..], now, b);
      assert log == [log[0]] + log[1..];
    }
  }

  lemma {:induction false} InsertAgrees(t: seq<Entry>, log: seq<Binding>, mac: Mac, ip: Ip, now: int)
    requires Agrees(t, log)
    ensures Agrees(Insert(t, mac, ip, now), LogInsert(log, Binding(mac, ip, now)))
  {
    assert |Held(t)| == |multiset(Held(t))| == |multiset(log)| == |log|;
    HeldFull(t);
    if FirstFree(t) < |t| { HeldInsert(t, mac, ip, now); }
  }

  lemma {:induction false} ExpireAgrees(t: seq<Entry>, log: seq<Binding>, now: int)
    requires Agrees(t, log)
    ensures Agrees(Expire(t, now), LogExpire(log, now))
  {
    HeldExpire(t, now);
    forall b ensures multiset(LogExpire(Held(t), now))[b] == multiset(LogExpire(log, now))[b] {
      ExpireCounts(Held(t), now, b);
      ExpireCounts(log, now, b);
    }
  }

  // ----- every history of inserts and timer passes -----

  datatype TableOp = Learn(mac: Mac, ip: Ip, now: int) | Pass(now: int)

  function TableAfter(ops: seq<TableOp>): (t: seq<Entry>) {
    if ops == [] then seq(SIZE, _ => EMPTY)
    else
      var t := TableAfter(ops[..|ops| - 1]);
      match ops[|ops| - 1]
      case Learn(mac, ip, now) => Insert(t, mac, ip, now)
      case Pass(now) => Expire(t, now)
  }

  function LogAfter(ops: seq<TableOp>): (log: seq<Binding>) {
    if ops == [] then []
    else
      var log := LogAfter(ops[..|ops| - 1]);
      match ops[|ops| - 1]
      case Learn(mac, ip, now) => LogInsert(log, Binding(mac, ip, now))
      case Pass(now) => LogExpire(log, now)
  }

  lemma {:induction false} HeldEmpty(n: nat)
    ensures Held(seq(n, _ => EMPTY)) == []
  {
    if n > 0 {
      var t := seq(n, _ => EMPTY);
      assert t[1..] == seq(n - 1, _ => EMPTY);
      HeldEmpty(n - 1);
    }
  }

  /** After every history the slots hold exactly the bindings of the log. */
  lemma {:induction false} TableAgreesWithLog(ops: seq<TableOp>)
    ensures Agrees(TableAfter(ops), LogAfter(ops)) && |TableAfter(ops)| == 100 && |LogAfter(ops)| <= 100
  {
    if ops == [] {
      HeldEmpty(SIZE);
    } else {
      var before := ops[..|ops| - 1];
      TableAgreesWithLog(before);
      match ops[|ops| - 1]
      case Learn(mac, ip, now) => InsertAgrees(TableAfter(before), LogAfter(before), mac, ip, now);
      case Pass(now) => ExpireAgrees(TableAfter(before), LogAfter(before), now);
    }
  }

  lemma {:induction false} HeldMember(t: seq<Entry>, e: Entry)
    ensures e in t && e.valid ==> Binding(e.mac, e.ip, e.added) in Held(t)
  {
    if t != [] { HeldMember(t[1..], e); }
  }

  lemma {:induction false} HeldFrom(t: seq<Entry>, b: Binding)
    requires b in Held(t)
    ensures Entry(b.mac, b.ip, b.added, true) in t
  {
    if !(t[0].valid && b == Binding(t[0].mac, t[0].ip, t[0].added)) { HeldFrom(t[1..], b); }
  }

  /** A lookup finds an address if and only if the log still has a binding for it, and then
      returns one of those bindings. */
  lemma {:induction false} LookupFindsLog(ops: seq<TableOp>, ip: Ip)
    ensures var r := Lookup(TableAfter(ops), ip);
            && (r.Some? <==> exists b :: b in LogAfter(ops) && b.ip == ip)
            && (r.Some? ==> Binding(r.value.mac, ip, r.value.added) in LogAfter(ops))
  {
    var t, log := TableAfter(ops), LogAfter(ops);
    TableAgreesWithLog(ops);
    forall b ensures b in Held(t) <==> b in log {
      assert b in multiset(Held(t)) <==> b in multiset(log);
    }
    var r := Lookup(t, ip);
    if r.Some? {
      HeldMember(t, r.value);
    } else if b :| b in log && b.ip == ip {
      HeldFrom(t, b);
    }
  }

  lemma {:induction false} LookupIsLastSlot(t: seq<Entry>, ip: Ip, k: nat)
    requires k < |t| && t[k].valid && t[k].ip == ip
    requires forall j :: k < j < |t| ==> !(t[j].valid && t[j].ip == ip)
    ensures Lookup(t, ip) == Some(t[k])
  {
    if k < |t| - 1 { LookupIsLastSlot(t[..|t| - 1], ip, k); }
  }

  // ----- whether a lookup returns the newest binding -----

  /** Later slots take precedence. */
  lemma {:induction false} LookupSplit(a: seq<Entry>, b: seq<Entry>, ip: Ip)
    ensures Lookup(a + b, ip) == if Lookup(b, ip).Some? then Lookup(b, ip) else Lookup(a, ip)
    decreases |b|
  {
    if b == [] {
      assert a + b == a;
    } else {
      assert (a + b)[..|a + b| - 1] == a + b[..|b| - 1];
      LookupSplit(a, b[..|b| - 1], ip);
    }
  }

  lemma {:induction false} LookupMiddle(a: seq<Entry>, e: Entry, b: seq<Entry>, ip: Ip)
    ensures Lookup(a + [e] + b, ip)
            == if Lookup(b, ip).Some? then Lookup(b, ip)
               else if e.valid && e.ip == ip then Some(e)
               else Lookup(a, ip)
  {
    LookupSplit(a + [e], b, ip);
    assert (a + [e])[..|a|] == a;
  }

  /** What is found just after an insert: a full table and other addresses are as before, and the
      new binding is hidden by any binding for its address in a slot after the one it went to. */
  lemma {:induction false} LookupAfterInsert(t: seq<Entry>, mac: Mac, ip: Ip, now: int, asked: Ip)
    ensures var k, r := FirstFree(t), Lookup(Insert(t, mac, ip, now), asked);
            if k == |t| || asked != ip then r == Lookup(t, asked)
            else if Lookup(t[k + 1..], ip).Some? then r == Lookup(t[k + 1..], ip)
            else r == Some(Entry(mac, ip, now, true))
  {
    var k := FirstFree(t);
    if k < |t| {
      var e, a, b := Entry(mac, ip, now, true), t[..k], t[k + 1..];
      assert t == a + [t[k]] + b && Insert(t, mac, ip, now) == a + [e] + b;
      LookupMiddle(a, t[k], b, asked);
      LookupMiddle(a, e, b, asked);
    }
  }

  lemma {:induction false} LookupNone(t: seq<Entry>, ip: Ip)
    ensures Lookup(t, ip).None? <==> forall j :: 0 <= j < |t| ==> !(t[j].valid && t[j].ip == ip)
  {
    if j :| 0 <= j < |t| && t[j].valid && t[j].ip == ip { assert t[j] in t; }
  }

  /** A binding newer than all others is found if and only if there was a free slot and no slot
      after the first free one held its address. */
  lemma {:induction false} NewestIsFoundIff(t: seq<Entry>, mac: Mac, ip: Ip, now: int)
    requires forall e :: e in t && e.valid ==> e.added < now
    ensures Lookup(Insert(t, mac, ip, now), ip) == Some(Entry(mac, ip, now, true))
            <==> FirstFree(t) < |t| && forall j :: FirstFree(t) < j < |t| ==> !(t[j].valid && t[j].ip == ip)
  {
    var k := FirstFree(t);
    LookupAfterInsert(t, mac, ip, now, ip);
    if k < |t| {
      var b := t[k + 1..];
      LookupNone(b, ip);
      assert forall j :: 0 <= j < |b| ==> b[j] == t[k + 1 + j];
      assert forall j :: k < j < |t| ==> t[j] == b[j - k - 1];
      assert Lookup(b, ip).Some? ==> Lookup(b, ip).value in t;
    }
  }

  /** Every valid slot was filled by an insert of the history. */
  lemma {:induction false} ValidWasLearned(ops: seq<TableOp>, e: Entry)
    requires e in TableAfter(ops) && e.valid
    ensures Learn(e.mac, e.ip, e.added) in ops
  {
    if ops != [] {
      var before := ops[..|ops| - 1];
      if e in TableAfter(before) {
        ValidWasLearned(before, e);
      } else {
        assert ops[|ops| - 1] in ops;
      }
    }
  }

  /** The same for a history in which time has passed since the last operation. */
  lemma {:induction false} LearnedIsFoundIff(ops: seq<TableOp>, mac: Mac, ip: Ip, now: int)
    requires forall op :: op in ops ==> op.now < now
    ensures var t := TableAfter(ops);
            Lookup(TableAfter(ops + [Learn(mac, ip, now)]), ip) == Some(Entry(mac, ip, now, true))
            <==> FirstFree(t) < |t| && forall j :: FirstFree(t) < j < |t| ==> !(t[j].valid && t[j].ip == ip)
  {
    var t := TableAfter(ops);
    forall e | e in t && e.valid ensures e.added < now { ValidWasLearned(ops, e); }
    assert (ops + [Learn(mac, ip, now)])[..|ops|] == ops;
    NewestIsFoundIff(t, mac, ip, now);
  }

  /** `e` is a binding for `ip`, and none for `ip` is newer. */
  predicate IsNewest(t: seq<Entry>, ip: Ip, e: Entry) {
    && e in t && e.valid && e.ip == ip
    && forall f :: f in t && f.valid && f.ip == ip ==> f.added <= e.added
  }

  lemma {:induction false} LookupSlot(t: seq<Entry>, ip: Ip) returns (k: nat)
    requires Lookup(t, ip).Some?
    ensures k < |t| && Lookup(t, ip) == Some(t[k])
    ensures forall j :: k < j < |t| ==> !(t[j].valid && t[j].ip == ip)
  {
    k := |t| - 1;
    if !(t[k].valid && t[k].ip == ip) { k := LookupSlot(t[..k], ip); }
  }

  /** A timer pass never makes a lookup that returns the newest binding return an older one. */
  lemma {:induction false} PassKeepsNewest(t: seq<Entry>, ip: Ip, now: int)
    requires Lookup(t, ip).Some? && IsNewest(t, ip, Lookup(t, ip).value)
    requires Lookup(Expire(t, now), ip).Some?
    ensures Lookup(Expire(t, now), ip) == Lookup(t, ip)
    ensures IsNewest(Expire(t, now), ip, Lookup(t, ip).value)
  {
    var u := Expire(t, now);
    var k := LookupSlot(t, ip);
    var j := LookupSlot(u, ip);
    assert u[j] == t[j] && t[j] in t && t[j].added <= t[k].added;
    assert u[k] == t[k];
    LookupIsLastSlot(u, ip, k);
    forall f | f in u && f.valid ensures f in t {
      var i :| 0 <= i < |u| && u[i] == f;
      assert u[i] == t[i];
    }
  }

  lemma {:induction false} FirstFreeIs(t: seq<Entry>, k: nat)
    requires k < |t| && !t[k].valid && forall j :: 0 <= j < k ==> t[j].valid
    ensures FirstFree(t) == k
  {
  }

  /** A lookup that is not the newest: after these four operations slot 0 has been
      freed and refilled with a newer binding for `ip`, and the older one in slot 1 is returned. */
  lemma {:induction false} LookupMayBeStale(x: Mac, y: Mac, z: Mac, ip: Ip, other: Ip)
    requires y != z && other != ip
    ensures var ops := [Learn(x, other, 1), Learn(y, ip, 10), Pass(20), Learn(z, ip, 20)];
            && Binding(z, ip, 20) in LogAfter(ops)
            && Lookup(TableAfter(ops), ip) == Some(Entry(y, ip, 10, true))
  {
    var o1 := [Learn(x, other, 1)];
    var o2 := o1 + [Learn(y, ip, 10)];
    var o3 := o2 + [Pass(20)];
    var o4 := o3 + [Learn(z, ip, 20)];
    assert o1[..0] == [] && o2[..1] == o1 && o3[..2] == o2 && o4[..3] == o3;
    var t0: seq<Entry> := TableAfter([]);
    FirstFreeIs(t0, 0);
    FirstFreeIs(TableAfter(o1), 1);
    assert TableAfter(o2) == t0[0 := Entry(x, other, 1, true)][1 := Entry(y, ip, 10, true)];
    FirstFreeIs(TableAfter(o3), 0);
    LookupIsLastSlot(TableAfter(o4), ip, 1);
    assert LogAfter(o1) == [Binding(x, other, 1)];
    assert LogAfter(o2) == [Binding(x, other, 1), Binding(y, ip, 10)];
    assert LogAfter(o3) == LogExpire(LogAfter(o2), 20);
    assert |LogAfter(o3)| <= 2;
    assert LogAfter(o4) == LogAfter(o3) + [Binding(z, ip, 20)];
    assert o4 == [Learn(x, other, 1), Learn(y, ip, 10), Pass(20), Learn(z, ip, 20)];
  }
}
