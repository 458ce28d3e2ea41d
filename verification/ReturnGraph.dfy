/** Finite directed graphs: paths, cycles, and cutting out everything reachable from some roots. */
module ReturnGraph {

  type Graph<V> = map<V, set<V>>

  ghost predicate Edge<V>(g: Graph<V>, a: V, b: V) {
    a in g && b in g && b in g[a]
  }

  /** `h` is `g` without the entry of `x`. */
  ghost predicate IsWithout<V, W>(g: map<V, W>, h: map<V, W>, x: V) {
    && x !in h
    && (forall k :: k in g && k != x ==> k in h)
    && (forall k :: k in h ==> k in g && h[k] == g[k])
  }

  /** A path of exactly `n` edges. */
  ghost predicate Path<V(!new)>(g: Graph<V>, a: V, b: V, n: nat) {
    if n == 0 then a in g && a == b
    else exists c :: Edge(g, a, c) && Path(g, c, b, n - 1)
  }

  ghost predicate Reach<V(!new)>(g: Graph<V>, a: V, b: V) {
    exists n: nat :: Path(g, a, b, n)
  }

  ghost predicate OnCycle<V(!new)>(g: Graph<V>, b: V) {
    exists c :: Edge(g, b, c) && Reach(g, c, b)
  }

  ghost predicate AcyclicFrom<V(!new)>(g: Graph<V>, a: V) {
    forall b :: Reach(g, a, b) ==> !OnCycle(g, b)
  }

  ghost function ReachSet<V(!new)>(g: Graph<V>, a: V): set<V> {
    set b | b in g && Reach(g, a, b)
  }

  /** Every path from `a` has fewer than `n` edges. */
  ghost predicate Bounded<V(!new)>(g: Graph<V>, a: V, n: nat) {
    a in g ==> n > 0 && forall b :: Edge(g, a, b) ==> Bounded(g, b, n - 1)
  }

  // ----- paths -----

  lemma {:induction false} PathEnds<V(!new)>(g: Graph<V>, a: V, b: V, n: nat)
    requires Path(g, a, b, n)
    ensures a in g && b in g
    decreases n
  {
    if n > 0 {
      var c :| Edge(g, a, c) && Path(g, c, b, n - 1);
      PathEnds(g, c, b, n - 1);
    }
  }

  lemma {:induction false} ReachSelf<V(!new)>(g: Graph<V>, a: V)
    requires a in g
    ensures Reach(g, a, a)
  {
    assert Path(g, a, a, 0);
  }

  lemma {:induction false} ReachEnds<V(!new)>(g: Graph<V>, a: V, b: V)
    requires Reach(g, a, b)
    ensures a in g && b in g
  {
    var n: nat :| Path(g, a, b, n);
    PathEnds(g, a, b, n);
  }

  lemma {:induction false} ReachStep<V(!new)>(g: Graph<V>, a: V, c: V, b: V)
    requires Edge(g, a, c) && Reach(g, c, b)
    ensures Reach(g, a, b)
  {
    var n: nat :| Path(g, c, b, n);
    assert Path(g, a, b, n + 1);
  }

  ghost predicate SubGraph<V>(h: Graph<V>, g: Graph<V>) {
    forall k :: k in h ==> k in g && h[k] == g[k]
  }

  lemma {:induction false} PathMonotone<V(!new)>(h: Graph<V>, g: Graph<V>, a: V, b: V, n: nat)
    requires SubGraph(h, g) && Path(h, a, b, n)
    ensures Path(g, a, b, n)
    decreases n
  {
    if n > 0 {
      var c :| Edge(h, a, c) && Path(h, c, b, n - 1);
      PathMonotone(h, g, c, b, n - 1);
      assert Edge(g, a, c);
    }
  }

  lemma {:induction false} ReachMonotone<V(!new)>(h: Graph<V>, g: Graph<V>, a: V, b: V)
    requires SubGraph(h, g) && Reach(h, a, b)
    ensures Reach(g, a, b)
  {
    var n: nat :| Path(h, a, b, n);
    PathMonotone(h, g, a, b, n);
  }

  lemma {:induction false} OnCycleMonotone<V(!new)>(h: Graph<V>, g: Graph<V>, b: V)
    requires SubGraph(h, g) && OnCycle(h, b)
    ensures OnCycle(g, b)
  {
    var c :| Edge(h, b, c) && Reach(h, c, b);
    ReachMonotone(h, g, c, b);
    assert Edge(g, b, c);
  }

  lemma {:induction false} AcyclicMonotone<V(!new)>(h: Graph<V>, g: Graph<V>, a: V)
    requires SubGraph(h, g) && AcyclicFrom(g, a)
    ensures AcyclicFrom(h, a)
  {
    forall b | Reach(h, a, b) ensures !OnCycle(h, b) {
      ReachMonotone(h, g, a, b);
      if OnCycle(h, b) { OnCycleMonotone(h, g, b); }
    }
  }

  // ----- bounded depth is acyclicity -----

  lemma {:induction false} BoundedUp<V(!new)>(g: Graph<V>, a: V, n: nat, m: nat)
    requires Bounded(g, a, n) && n <= m
    ensures Bounded(g, a, m)
    decreases n
  {
    if a in g {
      forall b | Edge(g, a, b) ensures Bounded(g, b, m - 1) {
        BoundedUp(g, b, n - 1, m - 1);
      }
    }
  }

  lemma {:induction false} BoundedMonotone<V(!new)>(h: Graph<V>, g: Graph<V>, a: V, n: nat)
    requires SubGraph(h, g) && Bounded(g, a, n)
    ensures Bounded(h, a, n)
    decreases n
  {
    if a in h {
      forall b | Edge(h, a, b) ensures Bounded(h, b, n - 1) {
        assert Edge(g, a, b);
        BoundedMonotone(h, g, b, n - 1);
      }
    }
  }

  /** Following a path uses up the bound. */
  lemma {:induction false} BoundedPath<V(!new)>(g: Graph<V>, a: V, b: V, n: nat, k: nat)
    requires Bounded(g, a, n) && Path(g, a, b, k)
    ensures k < n && Bounded(g, b, n - k)
    decreases k
  {
    if k > 0 {
      var c :| Edge(g, a, c) && Path(g, c, b, k - 1);
      BoundedPath(g, c, b, n - 1, k - 1);
    }
  }

  lemma {:induction false} BoundedNotOnCycle<V(!new)>(g: Graph<V>, b: V, n: nat)
    requires Bounded(g, b, n)
    ensures !OnCycle(g, b)
    decreases n
  {
    if OnCycle(g, b) {
      var c :| Edge(g, b, c) && Reach(g, c, b);
      var k: nat :| Path(g, c, b, k);
      BoundedPath(g, c, b, n - 1, k);
      BoundedNotOnCycle(g, b, n - 1 - k);
    }
  }

  lemma {:induction false} BoundedAcyclic<V(!new)>(g: Graph<V>, a: V, n: nat)
    requires Bounded(g, a, n)
    ensures AcyclicFrom(g, a)
  {
    forall b | Reach(g, a, b) ensures !OnCycle(g, b) {
      var k: nat :| Path(g, a, b, k);
      BoundedPath(g, a, b, n, k);
      BoundedNotOnCycle(g, b, n - k);
    }
  }

  /** Putting back a node that cannot be reached does not lengthen any path. */
  lemma {:induction false} BoundedWithout<V(!new)>(g: Graph<V>, x: V, b: V, n: nat)
    requires !Reach(g, b, x) && Bounded(g - {x}, b, n)
    ensures Bounded(g, b, n)
    decreases n
  {
    if b in g {
      ReachSelf(g, b);
      forall c | Edge(g, b, c) ensures Bounded(g, c, n - 1) {
        if Reach(g, c, x) { ReachStep(g, b, c, x); }
        ReachSelf(g, c);
        assert Edge(g - {x}, b, c);
        BoundedWithout(g, x, c, n - 1);
      }
    }
  }

  /** Without a reachable cycle no path visits a node twice, so depth is bounded by size. */
  lemma {:induction false} AcyclicBounded<V(!new)>(g: Graph<V>, a: V)
    requires AcyclicFrom(g, a)
    ensures Bounded(g, a, |g|)
    decreases |g|
  {
    if a in g {
      var h := g - {a};
      assert h.Keys == g.Keys - {a};
      assert |h.Keys| == |g.Keys| - 1;
      ReachSelf(g, a);
      forall b | Edge(g, a, b) ensures Bounded(g, b, |g| - 1) {
        assert !OnCycle(g, a);
        forall c | Reach(g, b, c) ensures !OnCycle(g, c) { ReachStep(g, a, b, c); }
        AcyclicMonotone(h, g, b);
        AcyclicBounded(h, b);
        BoundedWithout(g, a, b, |h|);
      }
    }
  }

  // ----- cutting -----

  /** `h` is `g` without the nodes reachable from `roots`: nothing changed, the roots are gone,
      what is gone took its successors along, and only reachable nodes are gone. */
  ghost predicate Cut<V(!new)>(g: Graph<V>, h: Graph<V>, roots: set<V>) {
    && SubGraph(h, g)
    && (forall r :: r in roots ==> r !in h)
    && (forall a, b :: Edge(g, a, b) && a !in h ==> b !in h)
    && (forall d :: d in g && d !in h ==> exists r :: r in roots && Reach(g, r, d))
  }

  /** Every node that was cut lies on bounded paths only. */
  ghost predicate CutBounded<V(!new)>(g: Graph<V>, h: Graph<V>, n: nat) {
    forall d :: d in g && d !in h ==> Bounded(g, d, n)
  }

  lemma {:induction false} CutNothing<V(!new)>(g: Graph<V>, roots: set<V>)
    requires roots !! g.Keys
    ensures Cut(g, g, roots) && CutBounded(g, g, 0)
  {
  }

  lemma {:induction false} CutCompose<V(!new)>(g: Graph<V>, h: Graph<V>, k: Graph<V>, first: set<V>, second: set<V>)
    requires Cut(g, h, first) && Cut(h, k, second)
    ensures Cut(g, k, first + second)
  {
    forall r | r in first + second ensures r !in k { }
    forall a, b | Edge(g, a, b) && a !in k ensures b !in k {
      if b in k { assert a in h && Edge(h, a, b); }
    }
    forall d | d in g && d !in k ensures exists r :: r in first + second && Reach(g, r, d) {
      if d in h {
        var r :| r in second && Reach(h, r, d);
        ReachMonotone(h, g, r, d);
        assert r in first + second;
      } else {
        var r :| r in first && Reach(g, r, d);
        assert r in first + second;
      }
    }
  }

  /** A path of the remaining graph may continue into the part that was cut before. */
  lemma {:induction false} BoundedAcross<V(!new)>(g: Graph<V>, h: Graph<V>, a: V, n: nat, m: nat)
    requires SubGraph(h, g) && CutBounded(g, h, n) && Bounded(h, a, m) && a in h
    ensures Bounded(g, a, m + n)
    decreases m
  {
    forall b | Edge(g, a, b) ensures Bounded(g, b, m + n - 1) {
      if b in h {
        assert Edge(h, a, b);
        BoundedAcross(g, h, b, n, m - 1);
      } else {
        BoundedUp(g, b, n, m + n - 1);
      }
    }
  }

  lemma {:induction false} CutBoundedCompose<V(!new)>(g: Graph<V>, h: Graph<V>, k: Graph<V>, n: nat, m: nat)
    requires SubGraph(h, g) && SubGraph(k, h) && CutBounded(g, h, n) && CutBounded(h, k, m)
    ensures CutBounded(g, k, m + n)
  {
    forall d | d in g && d !in k ensures Bounded(g, d, m + n) {
      if d in h { BoundedAcross(g, h, d, n, m); } else { BoundedUp(g, d, n, m + n); }
    }
  }

  /** After the successors of `a` are cut, `a` itself is still there, and cutting it too leaves
      the graph without everything reachable from `a`. */
  lemma {:induction false} CutRoot<V(!new)>(g: Graph<V>, h: Graph<V>, k: Graph<V>, a: V, n: nat)
    requires a in g && Cut(g, h, g[a]) && CutBounded(g, h, n) && IsWithout(h, k, a)
    ensures Cut(g, k, {a}) && Bounded(g, a, n + 1) && CutBounded(g, k, n + 1)
  {
    forall x, y | Edge(g, x, y) && x !in k ensures y !in k {
      if x == a { assert y in g[a]; }
    }
    forall d | d in g && d !in k ensures Reach(g, a, d) {
      ReachSelf(g, a);
      if d != a {
        var r :| r in g[a] && Reach(g, r, d);
        ReachEnds(g, r, d);
        ReachStep(g, a, r, d);
      }
    }
    forall b | Edge(g, a, b) ensures Bounded(g, b, n) { }
    forall d | d in g && d !in k ensures Bounded(g, d, n + 1) {
      if d != a { BoundedUp(g, d, n, n + 1); }
    }
  }

  lemma {:induction false} CutKeepsRoot<V(!new)>(g: Graph<V>, h: Graph<V>, a: V, n: nat)
    requires a in g && SubGraph(h, g) && CutBounded(g, h, n)
    requires forall d :: d in g && d !in h ==> exists r :: r in g[a] && Reach(g, r, d)
    ensures a in h
  {
    if a !in h {
      var r :| r in g[a] && Reach(g, r, a);
      ReachEnds(g, r, a);
      assert OnCycle(g, a);
      BoundedNotOnCycle(g, a, n);
    }
  }

  lemma {:induction false} CutCloses<V(!new)>(g: Graph<V>, h: Graph<V>, a: V, b: V, n: nat)
    requires forall x, y :: Edge(g, x, y) && x !in h ==> y !in h
    requires a !in h && Path(g, a, b, n)
    ensures b !in h
    decreases n
  {
    if n > 0 {
      var c :| Edge(g, a, c) && Path(g, c, b, n - 1);
      CutCloses(g, h, c, b, n - 1);
    }
  }

  /** Cutting at one root removes exactly the reachable nodes. */
  lemma {:induction false} CutExact<V(!new)>(g: Graph<V>, h: Graph<V>, a: V)
    requires Cut(g, h, {a})
    ensures h == g - ReachSet(g, a)
  {
    forall b | b in g && Reach(g, a, b) ensures b !in h {
      var n: nat :| Path(g, a, b, n);
      CutCloses(g, h, a, b, n);
    }
  }
}
