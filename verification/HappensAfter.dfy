/** What the first pass computes: which writes happen after a read. An epoch node tells its parents what its
    thread knew before it took in what its own children told it, so the clocks follow exactly the paths that
    never leave an epoch node over an inter-thread edge right after entering it over one. */
module HappensAfterSpec {
  import opened Hbg
  import opened Epochs
  import opened VectorClocks

  ghost predicate RelayFree(g: Graph, p: seq<Loc>) {
    forall i | 0 <= i < |p| - 2 :: (p[i], p[i + 1]) !in g.inter || (p[i + 1], p[i + 2]) !in g.inter
  }

  /** `b` can be reached from `a` without relaying. */
  ghost predicate RF(g: Graph, a: Loc, b: Loc) {
    exists p :: Joins(g, p, a, b) && RelayFree(g, p)
  }

  /** No epoch node has both inter-thread parents and inter-thread children. */
  predicate NoRelays(g: Graph) {
    forall e, f | e in g.inter && f in g.inter :: e.1 != f.0
  }

  function Next(n: Loc): Loc { Loc(n.tid, n.tindex + 1) }

  lemma RfImpliesHb(g: Graph, a: Loc, b: Loc)
    requires RF(g, a, b)
    ensures HB(g, a, b)
  {
    var p :| Joins(g, p, a, b) && RelayFree(g, p);
  }

  lemma RfRefl(g: Graph, a: Loc)
    requires g.Has(a)
    ensures RF(g, a, a)
  {
    assert Joins(g, [a], a, a) && RelayFree(g, [a]);
  }

  lemma RfPrepend(g: Graph, a: Loc, w: Loc)
    requires g.WellFormed() && g.Has(a) && RF(g, Next(a), w)
    ensures RF(g, a, w)
  {
    var q :| Joins(g, q, Next(a), w) && RelayFree(g, q);
    var p := [a] + q;
    assert (a, Next(a)) !in g.inter;
    forall i | 0 <= i < |p| - 1 ensures g.Edge(p[i], p[i + 1]) {
      if i > 0 {
        assert g.Edge(q[i - 1], q[i - 1 + 1]);
      }
    }
    forall i | 0 <= i < |p| - 2 ensures (p[i], p[i + 1]) !in g.inter || (p[i + 1], p[i + 2]) !in g.inter {
      if i > 0 {
        assert (q[i - 1], q[i - 1 + 1]) !in g.inter || (q[i - 1 + 1], q[i - 1 + 2]) !in g.inter;
      }
    }
    assert Joins(g, p, a, w) && RelayFree(g, p);
  }

  lemma RfPrependInter(g: Graph, a: Loc, n: Loc, w: Loc)
    requires g.WellFormed() && (a, n) in g.inter && RF(g, Next(n), w)
    ensures RF(g, a, w)
  {
    var q :| Joins(g, q, Next(n), w) && RelayFree(g, q);
    var p := [a, n] + q;
    assert g.Has((a, n).0) && g.Has((a, n).1);
    assert (n, Next(n)) !in g.inter;
    forall i | 0 <= i < |p| - 1 ensures g.Edge(p[i], p[i + 1]) {
      if i > 1 {
        assert g.Edge(q[i - 2], q[i - 2 + 1]);
      }
    }
    forall i | 0 <= i < |p| - 2 ensures (p[i], p[i + 1]) !in g.inter || (p[i + 1], p[i + 2]) !in g.inter {
      if i > 1 {
        assert (q[i - 2], q[i - 2 + 1]) !in g.inter || (q[i - 2 + 1], q[i - 2 + 2]) !in g.inter;
      }
    }
    assert Joins(g, p, a, w) && RelayFree(g, p);
  }

  lemma RfTail(g: Graph, p: seq<Loc>, j: nat, w: Loc)
    requires IsPath(g, p) && RelayFree(g, p) && p[|p| - 1] == w && j < |p|
    ensures RF(g, p[j], w)
  {
    var q := p[j..];
    forall i | 0 <= i < |q| - 1 ensures g.Edge(q[i], q[i + 1]) {
      assert g.Edge(p[j + i], p[j + i + 1]);
    }
    forall i | 0 <= i < |q| - 2 ensures (q[i], q[i + 1]) !in g.inter || (q[i + 1], q[i + 2]) !in g.inter {
      assert (p[j + i], p[j + i + 1]) !in g.inter || (p[j + i + 1], p[j + i + 2]) !in g.inter;
    }
    assert Joins(g, q, p[j], w) && RelayFree(g, q);
  }

  // ----- when relaying does not matter -----

  /** A relay-free path that does not end with an inter-thread edge, so that any may follow. */
  ghost predicate Settled(g: Graph, a: Loc, b: Loc) {
    exists p :: Joins(g, p, a, b) && RelayFree(g, p) && (|p| > 1 ==> (p[|p| - 2], b) !in g.inter)
  }

  lemma SettledRefl(g: Graph, a: Loc)
    requires g.Has(a)
    ensures Settled(g, a, a)
  {
    assert Joins(g, [a], a, a) && RelayFree(g, [a]);
  }

  lemma RfEdge(g: Graph, a: Loc, b: Loc)
    requires g.Edge(a, b)
    ensures RF(g, a, b)
  {
    assert Joins(g, [a, b], a, b) && RelayFree(g, [a, b]);
  }

  lemma Glue(g: Graph, p: seq<Loc>, q: seq<Loc>)
    requires IsPath(g, p) && RelayFree(g, p) && IsPath(g, q) && RelayFree(g, q) && p[|p| - 1] == q[0]
    requires |p| > 1 && |q| > 1 ==> (p[|p| - 2], q[0]) !in g.inter || (q[0], q[1]) !in g.inter
    ensures Joins(g, p + q[1..], p[0], q[|q| - 1]) && RelayFree(g, p + q[1..])
  {
    var r, n := p + q[1..], |p| - 1;
    forall i | 0 <= i < |r| - 1 ensures g.Edge(r[i], r[i + 1]) {
      if i < n {
        assert g.Edge(p[i], p[i + 1]);
      } else {
        assert g.Edge(q[i - n], q[i - n + 1]);
      }
    }
    forall i | 0 <= i < |r| - 2 ensures (r[i], r[i + 1]) !in g.inter || (r[i + 1], r[i + 2]) !in g.inter {
      if i < n - 1 {
        assert (p[i], p[i + 1]) !in g.inter || (p[i + 1], p[i + 2]) !in g.inter;
      } else if i >= n {
        assert (q[i - n], q[i - n + 1]) !in g.inter || (q[i - n + 1], q[i - n + 2]) !in g.inter;
      }
    }
  }

  lemma SettledThen(g: Graph, a: Loc, y: Loc, w: Loc)
    requires Settled(g, a, y) && RF(g, y, w)
    ensures RF(g, a, w)
  {
    var p :| Joins(g, p, a, y) && RelayFree(g, p) && (|p| > 1 ==> (p[|p| - 2], y) !in g.inter);
    var q :| Joins(g, q, y, w) && RelayFree(g, q);
    Glue(g, p, q);
  }

  lemma ThreadSettles(g: Graph, a: Loc, y: Loc, w: Loc)
    requires RF(g, a, y) && g.Edge(y, w) && (y, w) !in g.inter
    ensures Settled(g, a, w)
  {
    var p :| Joins(g, p, a, y) && RelayFree(g, p);
    Glue(g, p, [y, w]);
    assert (p + [y, w][1..])[|p| - 1] == y;
  }

  /** What comes right before the end of a relay-free path. */
  lemma RfLastStep(g: Graph, a: Loc, w: Loc) returns (y: Loc)
    requires RF(g, a, w) && a != w
    ensures g.Edge(y, w) && RF(g, a, y) && ((y, w) in g.inter ==> Settled(g, a, y))
  {
    var p :| Joins(g, p, a, w) && RelayFree(g, p);
    var n := |p| - 2;
    var q := p[..n + 1];
    y := p[n];
    assert g.Edge(p[n], p[n + 1]);
    assert Joins(g, q, a, y) && RelayFree(g, q);
    if n > 0 {
      assert (p[n - 1], p[n - 1 + 1]) !in g.inter || (p[n - 1 + 1], p[n - 1 + 2]) !in g.inter;
      assert q[|q| - 2] == p[n - 1];
    }
  }

  /** Where an epoch node relays, a relay-free path leads past it. */
  ghost predicate Bridged(g: Graph) {
    forall e, f | e in g.inter && f in g.inter && e.1 == f.0 :: RF(g, e.0, f.1)
  }

  lemma BridgedAppend(g: Graph, a: Loc, y: Loc, w: Loc)
    requires Bridged(g) && RF(g, a, y) && g.Edge(y, w)
    ensures RF(g, a, w)
  {
    if (y, w) !in g.inter {
      ThreadSettles(g, a, y, w);
    } else if Settled(g, a, y) {
      RfEdge(g, y, w);
      SettledThen(g, a, y, w);
    } else {
      SettledRefl(g, y);
      var x := RfLastStep(g, a, y);
      if (x, y) !in g.inter {
        ThreadSettles(g, a, x, y);
      }
      assert RF(g, (x, y).0, (y, w).1);
      SettledThen(g, a, x, w);
    }
  }

  lemma {:induction false} BridgedPath(g: Graph, p: seq<Loc>)
    requires Bridged(g) && IsPath(g, p)
    ensures RF(g, p[0], p[|p| - 1])
    decreases |p|
  {
    if |p| == 1 {
      RfRefl(g, p[0]);
    } else {
      var y := p[|p| - 2];
      assert g.Edge(p[|p| - 2], p[|p| - 2 + 1]);
      BridgedPath(g, p[..|p| - 1]);
      BridgedAppend(g, p[0], y, p[|p| - 1]);
    }
  }

  /** Relaying takes nothing from any node exactly if it does not from the neighbours of relaying nodes. */
  lemma BridgedIff(g: Graph)
    requires g.WellFormed()
    ensures Bridged(g) <==> forall a, b :: HB(g, a, b) <==> RF(g, a, b)
  {
    forall a, b | RF(g, a, b) ensures HB(g, a, b) {
      RfImpliesHb(g, a, b);
    }
    if Bridged(g) {
      forall a, b | HB(g, a, b) ensures RF(g, a, b) {
        var p :| Joins(g, p, a, b);
        BridgedPath(g, p);
      }
    }
    if forall a, b :: HB(g, a, b) <==> RF(g, a, b) {
      forall e, f | e in g.inter && f in g.inter && e.1 == f.0 ensures RF(g, e.0, f.1) {
        assert e == (e.0, e.1) && f == (f.0, f.1);
        HbEdge(g, e.0, e.1);
        HbEdge(g, f.0, f.1);
        HbTrans(g, e.0, e.1, f.1);
      }
    }
  }

  /** Without relays every path counts. */
  lemma NoRelaysRf(g: Graph, a: Loc, b: Loc)
    requires g.WellFormed() && NoRelays(g)
    ensures Bridged(g) && (HB(g, a, b) <==> RF(g, a, b))
  {
    BridgedIff(g);
  }

  /** A relay-free path to another write starts within the thread, or over one inter-thread edge followed by
      a step in the thread it leads to. */
  lemma RfFirstStep(g: Graph, a: Loc, w: Loc) returns (n: Loc)
    requires g.WellFormed() && RF(g, a, w) && g.IsWrite(w) && a != w
    ensures RF(g, Next(n), w) && (n == a || (a, n) in g.inter)
  {
    var p :| Joins(g, p, a, w) && RelayFree(g, p);
    assert g.Edge(p[0], p[0 + 1]);
    if p[1] == Next(a) {
      n := a;
      RfTail(g, p, 1, w);
    } else {
      n := p[1];
      assert (a, n) in g.inter && g.At((a, n).1).Epoch?;
      assert g.Edge(p[1], p[1 + 1]);
      assert (p[0], p[0 + 1]) !in g.inter || (p[0 + 1], p[0 + 2]) !in g.inter;
      RfTail(g, p, 2, w);
    }
  }

  lemma {:induction false} RfAppendThread(g: Graph, a: Loc, y: Loc, w: Loc)
    requires g.WellFormed() && RF(g, a, y) && g.Has(w) && y.tid == w.tid && y.tindex <= w.tindex
    ensures RF(g, a, w)
    decreases w.tindex - y.tindex
  {
    if y.tindex < w.tindex {
      var p :| Joins(g, p, a, y) && RelayFree(g, p);
      var q := p + [Next(y)];
      forall i | 0 <= i < |q| - 1 ensures g.Edge(q[i], q[i + 1]) {
        if i < |p| - 1 {
          assert g.Edge(p[i], p[i + 1]);
        }
      }
      assert (y, Next(y)) !in g.inter;
      forall i | 0 <= i < |q| - 2 ensures (q[i], q[i + 1]) !in g.inter || (q[i + 1], q[i + 2]) !in g.inter {
        if i < |p| - 2 {
          assert (p[i], p[i + 1]) !in g.inter || (p[i + 1], p[i + 2]) !in g.inter;
        }
      }
      assert Joins(g, q, a, Next(y)) && RelayFree(g, q);
      RfAppendThread(g, a, Next(y), w);
    }
  }

  // ----- reversed clocks -----

  predicate After(c: Clock, w: Loc) { Reached(true, c, w.tid, w.tindex) }

  ghost predicate RSound(g: Graph, c: Clock, n: Loc) {
    forall t | t in c :: g.IsWrite(Loc(t, c[t])) && RF(g, n, Loc(t, c[t]))
  }

  ghost predicate RComplete(g: Graph, c: Clock, n: Loc) {
    forall w | g.IsWrite(w) && RF(g, n, w) :: After(c, w)
  }

  /** A clock that is sound and complete for relay-free paths decides them exactly. */
  lemma RExact(g: Graph, c: Clock, n: Loc, w: Loc)
    requires g.WellFormed() && RSound(g, c, n) && RComplete(g, c, n) && g.IsWrite(w)
    ensures After(c, w) <==> RF(g, n, w)
  {
    if After(c, w) {
      RfAppendThread(g, n, Loc(w.tid, c[w.tid]), w);
    }
  }

  lemma RSoundJoin(g: Graph, a: Clock, b: Clock, n: Loc)
    requires RSound(g, a, n) && RSound(g, b, n)
    ensures RSound(g, Join(true, a, b), n)
  {
    forall t | t in Join(true, a, b)
      ensures (t in a && Join(true, a, b)[t] == a[t]) || (t in b && Join(true, a, b)[t] == b[t])
    {
      assert Get(Join(true, a, b), t) == Later(true, Get(a, t), Get(b, t));
    }
  }

  // ----- progress from the ends of the threads -----

  /** What `nx.dfs_postorder_nodes` promises on a DAG: every node once, after all it has edges to. */
  ghost predicate PostOrder(g: Graph, order: seq<Loc>) {
    && (forall i, j | 0 <= i < j < |order| :: order[i] != order[j])
    && (forall x :: x in order <==> g.Has(x))
    && (forall i, j | 0 <= i < |order| && 0 <= j < |order| && g.Edge(order[i], order[j]) :: j < i)
  }

  /** `left[t]` nodes of thread `t` are still to come. */
  predicate Visited(left: Progress, x: Loc) { x.tid in left && left[x.tid] <= x.tindex }

  ghost predicate LeftOk(g: Graph, order: seq<Loc>, i: nat, left: Progress)
    requires i <= |order|
  {
    && left.Keys == g.threads.Keys
    && (forall t | t in left :: left[t] <= |g.threads[t]|)
    && (forall x | g.Has(x) :: x in order[..i] <==> Visited(left, x))
  }

  ghost predicate RReady(g: Graph, left: Progress, n: Loc) {
    && g.Has(n) && n.tid in left && left[n.tid] == n.tindex + 1
    && (forall e | e in g.inter && e.0 == n :: Visited(left, e.1))
    && (forall e | e in g.inter && e.1 == n :: !Visited(left, e.0) && e.0 != n)
  }

  lemma RNextIsReady(g: Graph, order: seq<Loc>, i: nat, left: Progress)
    requires g.WellFormed() && PostOrder(g, order) && i < |order| && LeftOk(g, order, i, left)
    ensures RReady(g, left, order[i])
    ensures LeftOk(g, order, i + 1, left[order[i].tid := order[i].tindex])
  {
    var n := order[i];
    assert n in order && n !in order[..i];
    forall m | g.Edge(n, m) ensures Visited(left, m) {
      assert m in order;
      var k :| 0 <= k < |order| && order[k] == m;
      assert g.Edge(order[i], order[k]);
      assert order[..i][k] == m;
    }
    if n.tindex + 1 < |g.threads[n.tid]| {
      assert g.Edge(n, Next(n));
    }
    forall e | e in g.inter && e.0 == n ensures Visited(left, e.1) {
      assert g.Edge(n, e.1);
    }
    forall e | e in g.inter && e.1 == n ensures !Visited(left, e.0) {
      assert g.Edge(e.0, n);
      assert e.0 in order;
      var k :| 0 <= k < |order| && order[k] == e.0;
      assert g.Edge(order[k], order[i]);
      assert e.0 !in order[..i];
    }
    assert order[..i + 1] == order[..i] + [n];
  }

  // ----- what one visit changes -----

  function ClockAt(m: map<Loc, Clock>, n: Loc): Clock { if n in m then m[n] else map[] }

  function ThreadClock(m: map<int, Clock>, t: int): Clock { if t in m then m[t] else map[] }

  function Parents(g: Graph, n: Loc): set<Loc> { set e | e in g.inter && e.1 == n :: e.0 }

  /** The buffers after an epoch node has told `parents` the clock `c`. */
  function Told(buffers: map<Loc, Clock>, parents: set<Loc>, c: Clock): map<Loc, Clock> {
    buffers + map p | p in parents :: Join(true, ClockAt(buffers, p), c)
  }

  ghost predicate RExactAt(g: Graph, c: Clock, n: Loc) { RSound(g, c, n) && RComplete(g, c, n) }

  /** The clock of a thread before node `n` is visited: exact for the node after `n`, empty if there is none. */
  ghost predicate RExactAfter(g: Graph, c: Clock, n: Loc) {
    if g.Has(Next(n)) then RExactAt(g, c, Next(n)) else c == map[]
  }

  ghost predicate ThreadsHold(g: Graph, left: Progress, clocks: map<int, Clock>) {
    forall n | g.Has(n) && n.tid in left && n.tindex + 1 == left[n.tid] :: RExactAfter(g, ThreadClock(clocks, n.tid), n)
  }

  /** Each parent still to be visited has been told what its visited children's threads knew after them. */
  ghost predicate BuffersHold(g: Graph, left: Progress, buffers: map<Loc, Clock>) {
    && (forall p | p in buffers :: g.Has(p) && g.At(p).Epoch? && !Visited(left, p) && RSound(g, buffers[p], p))
    && (forall p, n, w | (p, n) in g.inter && Visited(left, n) && !Visited(left, p) && g.IsWrite(w) && RF(g, Next(n), w) ::
          After(ClockAt(buffers, p), w))
  }

  ghost predicate ReadsHold(g: Graph, left: Progress, readClocks: map<Loc, Clock>) {
    forall r | g.IsRead(r) && Visited(left, r) :: r in readClocks && RExactAt(g, readClocks[r], r)
  }

  lemma PostOrderAcyclic(g: Graph, order: seq<Loc>)
    requires PostOrder(g, order)
    ensures Acyclic(g)
  {
    var reversed := seq(|order|, i requires 0 <= i < |order| => order[|order| - 1 - i]);
    forall x ensures x in reversed <==> x in order {
      if x in order {
        var i :| 0 <= i < |order| && order[i] == x;
        assert reversed[|order| - 1 - i] == x;
      }
    }
    assert TopologicalOrder(g, reversed);
    TopologicalImpliesAcyclic(g, reversed);
  }

  /** `add_epoch` may be called at a write: later writes of the thread have larger indices. */
  lemma ReversedEpochAllowed(g: Graph, c: Clock, n: Loc)
    requires Acyclic(g) && g.Has(n) && RExactAfter(g, c, n)
    ensures Below(true, Get(c, n.tid), Index(n.tindex))
  {
    if n.tid in c {
      RfImpliesHb(g, Next(n), Loc(n.tid, c[n.tid]));
      HbWithinThread(g, Next(n), Loc(n.tid, c[n.tid]));
    }
  }

  lemma SoundFromNext(g: Graph, c: Clock, n: Loc)
    requires g.WellFormed() && g.Has(n) && RExactAfter(g, c, n)
    ensures RSound(g, c, n)
  {
    forall t | t in c ensures RF(g, n, Loc(t, c[t])) {
      RfPrepend(g, n, Loc(t, c[t]));
    }
  }

  lemma WriteVisit(g: Graph, c: Clock, n: Loc)
    requires g.WellFormed() && Acyclic(g) && g.IsWrite(n) && RExactAfter(g, c, n)
    ensures RExactAt(g, c[n.tid := n.tindex], n)
  {
    var c' := c[n.tid := n.tindex];
    SoundFromNext(g, c, n);
    RfRefl(g, n);
    ReversedEpochAllowed(g, c, n);
    forall w | g.IsWrite(w) && RF(g, n, w) ensures After(c', w) {
      if w != n {
        var m := RfFirstStep(g, n, w);
        assert m == n;
      }
    }
  }

  lemma QuietVisit(g: Graph, c: Clock, n: Loc)
    requires g.WellFormed() && g.Has(n) && !g.At(n).Epoch? && !g.At(n).Write? && RExactAfter(g, c, n)
    ensures RExactAt(g, c, n)
  {
    SoundFromNext(g, c, n);
    forall w | g.IsWrite(w) && RF(g, n, w) ensures After(c, w) {
      var m := RfFirstStep(g, n, w);
      assert m == n;
    }
  }

  lemma EpochVisit(g: Graph, left: Progress, c: Clock, buffers: map<Loc, Clock>, n: Loc)
    requires g.WellFormed() && RReady(g, left, n) && g.At(n).Epoch? && RExactAfter(g, c, n) && BuffersHold(g, left, buffers)
    ensures RExactAt(g, Join(true, c, ClockAt(buffers, n)), n)
  {
    SoundFromNext(g, c, n);
    RSoundJoin(g, c, ClockAt(buffers, n), n);
    forall w | g.IsWrite(w) && RF(g, n, w) ensures After(Join(true, c, ClockAt(buffers, n)), w) {
      JoinReaches(true, c, ClockAt(buffers, n), w.tid, w.tindex);
      var m := RfFirstStep(g, n, w);
      if m != n {
        assert Visited(left, (n, m).1);
        assert After(ClockAt(buffers, n), w);
      }
    }
  }

  /** What a parent of `n` is told is reachable from it without relaying. */
  lemma ToldSound(g: Graph, left: Progress, c: Clock, buffers: map<Loc, Clock>, n: Loc, p: Loc)
    requires g.WellFormed() && g.Has(n) && RExactAfter(g, c, n) && BuffersHold(g, left, buffers)
    requires (p, n) in g.inter
    ensures RSound(g, Join(true, ClockAt(buffers, p), c), p)
  {
    forall t | t in c ensures RF(g, p, Loc(t, c[t])) {
      RfPrependInter(g, p, n, Loc(t, c[t]));
    }
    RSoundJoin(g, ClockAt(buffers, p), c, p);
  }

  lemma ToldComplete(g: Graph, left: Progress, c: Clock, buffers: map<Loc, Clock>, n: Loc, p: Loc, m: Loc, w: Loc)
    requires g.WellFormed() && RReady(g, left, n) && RExactAfter(g, c, n) && BuffersHold(g, left, buffers)
    requires (p, m) in g.inter && Visited(left[n.tid := n.tindex], m) && !Visited(left[n.tid := n.tindex], p)
    requires g.IsWrite(w) && RF(g, Next(m), w)
    ensures After(ClockAt(Told(buffers, Parents(g, n), c) - {n}, p), w)
  {
    assert !Visited(left, p) && p != n;
    JoinReaches(true, ClockAt(buffers, p), c, w.tid, w.tindex);
    if m == n {
      assert (p, n).0 in Parents(g, n);
      assert After(c, w);
    } else {
      assert g.Has((p, m).1) && Visited(left, m);
      assert After(ClockAt(buffers, p), w);
    }
  }

  /** Telling the parents of an epoch node and then deleting its own buffer keeps the buffers right. */
  lemma ToldHolds(g: Graph, left: Progress, c: Clock, buffers: map<Loc, Clock>, n: Loc)
    requires g.WellFormed() && RReady(g, left, n) && g.At(n).Epoch? && RExactAfter(g, c, n) && BuffersHold(g, left, buffers)
    ensures BuffersHold(g, left[n.tid := n.tindex], Told(buffers, Parents(g, n), c) - {n})
  {
    var left', buffers' := left[n.tid := n.tindex], Told(buffers, Parents(g, n), c) - {n};
    forall p | p in buffers' ensures g.Has(p) && g.At(p).Epoch? && !Visited(left', p) && RSound(g, buffers'[p], p) {
      if p in Parents(g, n) {
        assert (p, n) in g.inter && g.Has((p, n).0);
        ToldSound(g, left, c, buffers, n, p);
      }
    }
    forall p, m, w | (p, m) in g.inter && Visited(left', m) && !Visited(left', p) && g.IsWrite(w) && RF(g, Next(m), w)
      ensures After(ClockAt(buffers', p), w)
    {
      ToldComplete(g, left, c, buffers, n, p, m, w);
    }
  }

  /** One more parent told. */
  lemma ToldOneMore(buffers: map<Loc, Clock>, told: set<Loc>, p: Loc, c: Clock)
    requires p !in told
    ensures Told(buffers, told, c)[p := Join(true, ClockAt(Told(buffers, told, c), p), c)] == Told(buffers, told + {p}, c)
  {
  }

  lemma QuietBuffers(g: Graph, left: Progress, buffers: map<Loc, Clock>, n: Loc)
    requires g.WellFormed() && RReady(g, left, n) && !g.At(n).Epoch? && BuffersHold(g, left, buffers)
    ensures BuffersHold(g, left[n.tid := n.tindex], buffers)
  {
    var left' := left[n.tid := n.tindex];
    forall p, m, w | (p, m) in g.inter && Visited(left', m) && !Visited(left', p) && g.IsWrite(w) && RF(g, Next(m), w)
      ensures After(ClockAt(buffers, p), w)
    {
      assert g.At((p, m).1).Epoch? && m != n;
      assert Visited(left, m);
    }
  }

  lemma ThreadMovesOn(g: Graph, left: Progress, clocks: map<int, Clock>, n: Loc, c: Clock)
    requires RReady(g, left, n) && ThreadsHold(g, left, clocks) && RExactAt(g, c, n)
    ensures ThreadsHold(g, left[n.tid := n.tindex], clocks[n.tid := c])
  {
    forall m | g.Has(m) && m.tid in left && m.tindex + 1 == left[n.tid := n.tindex][m.tid]
      ensures RExactAfter(g, ThreadClock(clocks[n.tid := c], m.tid), m)
    {
      if m.tid == n.tid {
        assert Next(m) == n;
      } else {
        assert RExactAfter(g, ThreadClock(clocks, m.tid), m);
      }
    }
  }
}

/** `_build_happens_after_vector_clocks` */
module HappensAfterPass {
  import opened Hbg
  import opened Epochs
  import opened VectorClocks
  import opened HappensAfterSpec
  import opened Picking

  class Pass {
    const g: Graph
    var vcPerThread: map<int, Clock>
    var vcPerEpochNode: map<Loc, Clock>
    var vcPerReadNode: map<Loc, Clock>

    constructor (g: Graph)
      ensures this.g == g && vcPerThread == map[] && vcPerEpochNode == map[] && vcPerReadNode == map[]
    {
      this.g := g;
      vcPerThread, vcPerEpochNode, vcPerReadNode := map[], map[], map[];
    }

    ghost predicate Holds(left: Progress)
      reads this
    {
      && left.Keys == g.threads.Keys
      && ThreadsHold(g, left, vcPerThread)
      && BuffersHold(g, left, vcPerEpochNode)
      && ReadsHold(g, left, vcPerReadNode)
    }

    /** Each read's clock has reached exactly the writes a relay-free path leads to; without relays
        those are the writes that happen after the read. */
    method Run(order: seq<Loc>)
      requires g.WellFormed() && PostOrder(g, order)
      requires vcPerThread == map[] && vcPerEpochNode == map[] && vcPerReadNode == map[]
      modifies this
      ensures forall r | g.IsRead(r) :: r in vcPerReadNode && RExactAt(g, vcPerReadNode[r], r)
      ensures forall r, w | g.IsRead(r) && g.IsWrite(w) :: After(vcPerReadNode[r], w) <==> RF(g, r, w)
    {
      PostOrderAcyclic(g, order);
      ghost var left: Progress := map t | t in g.threads :: |g.threads[t]|;
      for i := 0 to |order|
        invariant LeftOk(g, order, i, left) && Holds(left)
      {
        RNextIsReady(g, order, i, left);
        Visit(order[i], left);
        left := left[order[i].tid := order[i].tindex];
      }
      assert order[..|order|] == order;
      forall r | g.IsRead(r) ensures r in vcPerReadNode && RExactAt(g, vcPerReadNode[r], r) {
        assert r in order;
      }
      forall r, w | g.IsRead(r) && g.IsWrite(w) ensures After(vcPerReadNode[r], w) <==> RF(g, r, w) {
        RExact(g, vcPerReadNode[r], r, w);
      }
    }

    method Visit(n: Loc, ghost left: Progress)
      requires g.WellFormed() && Acyclic(g) && RReady(g, left, n) && Holds(left)
      modifies this
      ensures Holds(left[n.tid := n.tindex])
    {
      if g.At(n).Epoch? {
        VisitEpoch(n, left);
      } else {
        VisitQuiet(n, left);
      }
    }

    method VisitEpoch(n: Loc, ghost left: Progress)
      requires g.WellFormed() && Acyclic(g) && RReady(g, left, n) && Holds(left) && g.At(n).Epoch?
      modifies this
      ensures Holds(left[n.tid := n.tindex])
    {
      var vc := ThreadClock(vcPerThread, n.tid);
      assert RExactAfter(g, vc, n);
      EpochVisit(g, left, vc, vcPerEpochNode, n);
      ToldHolds(g, left, vc, vcPerEpochNode, n);
      assert n !in Parents(g, n);
      TellParents(n, vc);
      vc := Join(true, vc, ClockAt(vcPerEpochNode, n));
      vcPerEpochNode := vcPerEpochNode - {n};
      ThreadMovesOn(g, left, vcPerThread, n, vc);
      vcPerThread := vcPerThread[n.tid := vc];
    }

    method VisitQuiet(n: Loc, ghost left: Progress)
      requires g.WellFormed() && Acyclic(g) && RReady(g, left, n) && Holds(left) && !g.At(n).Epoch?
      modifies this
      ensures Holds(left[n.tid := n.tindex])
    {
      var vc := ThreadClock(vcPerThread, n.tid);
      assert RExactAfter(g, vc, n);
      QuietBuffers(g, left, vcPerEpochNode, n);
      if g.At(n).Write? {
        WriteVisit(g, vc, n);
        ReversedEpochAllowed(g, vc, n);
        vc := AddEpoch(vc, n);
      } else {
        QuietVisit(g, vc, n);
        if g.At(n).Read? {
          vcPerReadNode := vcPerReadNode[n := Overwrite(map[], vc)];
        }
      }
      ThreadMovesOn(g, left, vcPerThread, n, vc);
      vcPerThread := vcPerThread[n.tid := vc];
    }

    /** The source asserts that the reversed epoch moves on. */
    static method AddEpoch(vc: Clock, n: Loc) returns (r: Clock)
      requires Below(true, Get(vc, n.tid), Index(n.tindex))
      ensures r == vc[n.tid := n.tindex]
    {
      r := vc[n.tid := n.tindex];
    }

    method TellParents(n: Loc, vc: Clock)
      modifies this`vcPerEpochNode
      ensures vcPerEpochNode == Told(old(vcPerEpochNode), Parents(g, n), vc)
    {
      ghost var before := vcPerEpochNode;
      var todo := Parents(g, n);
      ghost var told: set<Loc> := {};
      while todo != {}
        invariant told + todo == Parents(g, n) && told !! todo
        invariant vcPerEpochNode == Told(before, told, vc)
      {
        var parent := Pick(todo);
        ToldOneMore(before, told, parent, vc);
        told := told + {parent};
        vcPerEpochNode := vcPerEpochNode[parent := Join(true, ClockAt(vcPerEpochNode, parent), vc)];
        todo := todo - {parent};
      }
      assert told == Parents(g, n);
    }
  }
}
