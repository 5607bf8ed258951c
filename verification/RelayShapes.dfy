/** For which shapes of graphs is the first pass exact, whatever is read and written in between? */
module RelayShapes {
  import opened Cachelines
  import opened Hbg
  import opened HappensAfterSpec
  import opened RaceSpec
  import FilterShapes

  /** `g'` is `g` with any number of accesses put in anywhere: `at` says where the nodes of `g` are. */
  ghost predicate Widens(g: Graph, g': Graph, at: map<Loc, Loc>) {
    && at.Keys == g.Nodes()
    && (forall x | x in at :: at[x].tid == x.tid && g'.Has(at[x]) && g'.At(at[x]) == g.At(x))
    && (forall x, y | x in at && y in at && x.tid == y.tid && x.tindex < y.tindex :: at[x].tindex < at[y].tindex)
    && (forall a, b | (a, b) in g.inter && a in at && b in at :: (at[a], at[b]) in g'.inter)
    && (forall e | e in g'.inter :: ComesFrom(g, at, e))
    && (forall y | g'.Has(y) && y !in at.Values :: g'.At(y).IsAccess())
  }

  ghost predicate ComesFrom(g: Graph, at: map<Loc, Loc>, e: (Loc, Loc)) {
    exists a, b :: (a, b) in g.inter && a in at && b in at && e == (at[a], at[b])
  }

  lemma WidensIsFine(g: Graph, g': Graph, at: map<Loc, Loc>)
    requires g.WellFormed() && Widens(g, g', at)
    ensures g'.WellFormed()
  {
    forall e | e in g'.inter
      ensures g'.Has(e.0) && g'.Has(e.1) && g'.At(e.0).Epoch? && g'.At(e.1).Epoch? && e.0.tid != e.1.tid
    {
      assert ComesFrom(g, at, e);
      var a, b :| (a, b) in g.inter && a in at && b in at && e == (at[a], at[b]);
      assert g.At((a, b).0).Epoch? && g.At((a, b).1).Epoch? && (a, b).0.tid != (a, b).1.tid;
    }
  }

  // ----- relay-free paths stay -----

  lemma {:induction false} WalkSettles(g: Graph, a: Loc, y: Loc, w: Loc)
    requires g.WellFormed() && RF(g, a, y) && g.Has(w) && y.tid == w.tid && y.tindex < w.tindex
    ensures Settled(g, a, w)
    decreases w.tindex - y.tindex
  {
    var z := Loc(w.tid, w.tindex - 1);
    if y != z {
      WalkSettles(g, a, y, z);
      var p :| Joins(g, p, a, z) && RelayFree(g, p);
    }
    assert (z, w) !in g.inter;
    ThreadSettles(g, a, z, w);
  }

  /** The path ends with an inter-thread edge. */
  ghost predicate OverEdge(g: Graph, p: seq<Loc>) { |p| > 1 && (p[|p| - 2], p[|p| - 1]) in g.inter }

  lemma NotOverEdge(g: Graph, p: seq<Loc>)
    requires RelayFree(g, p) && OverEdge(g, p)
    ensures !OverEdge(g, p[..|p| - 1])
  {
    var q := p[..|p| - 1];
    assert |q| > 1 ==> q[|q| - 2] == p[|p| - 3] && q[|q| - 1] == p[|p| - 3 + 1] && p[|p| - 1] == p[|p| - 3 + 2];
  }

  lemma WidenStep(g: Graph, g': Graph, at: map<Loc, Loc>, a: Loc, x: Loc, y: Loc)
    requires g'.WellFormed() && Widens(g, g', at) && g.Edge(x, y) && x in at && y in at && RF(g', a, at[x])
    requires (x, y) in g.inter ==> Settled(g', a, at[x])
    ensures RF(g', a, at[y]) && ((x, y) !in g.inter ==> Settled(g', a, at[y]))
  {
    if (x, y) in g.inter {
      RfEdge(g', at[x], at[y]);
      SettledThen(g', a, at[x], at[y]);
    } else {
      WalkSettles(g', a, at[x], at[y]);
      SettledRf(g', a, at[y]);
    }
  }

  lemma SettledRf(g: Graph, a: Loc, b: Loc)
    requires Settled(g, a, b)
    ensures RF(g, a, b)
  {
    var p :| Joins(g, p, a, b) && RelayFree(g, p);
  }

  lemma PathPrefix(g: Graph, p: seq<Loc>)
    requires IsPath(g, p) && RelayFree(g, p) && |p| > 1
    ensures IsPath(g, p[..|p| - 1]) && RelayFree(g, p[..|p| - 1]) && g.Edge(p[|p| - 2], p[|p| - 1])
  {
    var q := p[..|p| - 1];
    assert g.Edge(p[|p| - 2], p[|p| - 2 + 1]);
    forall i | 0 <= i < |q| - 1 ensures g.Edge(q[i], q[i + 1]) {
      assert g.Edge(p[i], p[i + 1]);
    }
    forall i | 0 <= i < |q| - 2 ensures (q[i], q[i + 1]) !in g.inter || (q[i + 1], q[i + 2]) !in g.inter {
      assert (p[i], p[i + 1]) !in g.inter || (p[i + 1], p[i + 2]) !in g.inter;
    }
  }

  lemma {:induction false} WidenPath(g: Graph, g': Graph, at: map<Loc, Loc>, p: seq<Loc>)
    requires g.WellFormed() && g'.WellFormed() && Widens(g, g', at) && IsPath(g, p) && RelayFree(g, p)
    ensures p[0] in at && p[|p| - 1] in at && RF(g', at[p[0]], at[p[|p| - 1]])
    ensures !OverEdge(g, p) ==> Settled(g', at[p[0]], at[p[|p| - 1]])
    decreases |p|
  {
    assert forall x | g.Has(x) :: x in g.Nodes();
    if |p| == 1 {
      RfRefl(g', at[p[0]]);
      SettledRefl(g', at[p[0]]);
    } else {
      PathPrefix(g, p);
      if OverEdge(g, p) {
        NotOverEdge(g, p);
      }
      WidenPath(g, g', at, p[..|p| - 1]);
      WidenStep(g, g', at, at[p[0]], p[|p| - 2], p[|p| - 1]);
    }
  }

  lemma WidenRf(g: Graph, g': Graph, at: map<Loc, Loc>, a: Loc, b: Loc)
    requires g.WellFormed() && g'.WellFormed() && Widens(g, g', at) && RF(g, a, b)
    ensures a in at && b in at && RF(g', at[a], at[b])
  {
    var p :| Joins(g, p, a, b) && RelayFree(g, p);
    WidenPath(g, g', at, p);
  }

  lemma EdgeComesFrom(g: Graph, g': Graph, at: map<Loc, Loc>, e: (Loc, Loc)) returns (a: Loc, b: Loc)
    requires Widens(g, g', at) && e in g'.inter
    ensures (a, b) in g.inter && a in at && b in at && e == (at[a], at[b])
  {
    assert ComesFrom(g, at, e);
    a, b :| (a, b) in g.inter && a in at && b in at && e == (at[a], at[b]);
  }

  lemma SamePlace(g: Graph, g': Graph, at: map<Loc, Loc>, x: Loc, y: Loc)
    requires Widens(g, g', at) && x in at && y in at && at[x] == at[y]
    ensures x == y
  {
  }

  lemma RelayComesFrom(g: Graph, g': Graph, at: map<Loc, Loc>, e: (Loc, Loc), f: (Loc, Loc)) returns (a: Loc, n: Loc, c: Loc)
    requires Widens(g, g', at) && e in g'.inter && f in g'.inter && e.1 == f.0
    ensures (a, n) in g.inter && (n, c) in g.inter && a in at && c in at && e.0 == at[a] && f.1 == at[c]
  {
    a, n := EdgeComesFrom(g, g', at, e);
    var m;
    m, c := EdgeComesFrom(g, g', at, f);
    SamePlace(g, g', at, n, m);
  }

  lemma WidenedIsBridged(g: Graph, g': Graph, at: map<Loc, Loc>)
    requires g.WellFormed() && Widens(g, g', at) && Bridged(g)
    ensures g'.WellFormed() && Bridged(g')
  {
    WidensIsFine(g, g', at);
    forall e, f | e in g'.inter && f in g'.inter && e.1 == f.0 ensures RF(g', e.0, f.1) {
      var a, n, c := RelayComesFrom(g, g', at, e, f);
      assert RF(g, (a, n).0, (n, c).1);
      WidenRf(g, g', at, a, c);
    }
  }

  // ----- a read in front of every node, and two writes behind it -----

  const PIECES := 4

  function Piece(nodes: seq<Node>, line: nat, k: nat): Node
    requires k < PIECES * |nodes|
  {
    if k % PIECES == 0 then Read(0, line, 8)
    else if k % PIECES == 1 then nodes[k / PIECES]
    else if k % PIECES == 2 then Write(1, line, 8, false)
    else Write(2, line + CACHELINE_SIZE, 8, false)
  }

  function Pieces(nodes: seq<Node>, line: nat): (s: seq<Node>)
    ensures |s| == PIECES * |nodes| && forall k | 0 <= k < |s| :: s[k] == Piece(nodes, line, k)
  {
    seq(PIECES * |nodes|, k requires 0 <= k < PIECES * |nodes| => Piece(nodes, line, k))
  }

  function Mid(x: Loc): Loc { Loc(x.tid, PIECES * x.tindex + 1) }

  function Origin(y: Loc): Loc { Loc(y.tid, y.tindex / PIECES) }

  /** The reads and the first writes are of `line`, the second writes of the next one. */
  function Surround(g: Graph, line: nat): Graph {
    Graph(map t | t in g.threads :: Pieces(g.threads[t], line), set e | e in g.inter :: (Mid(e.0), Mid(e.1)))
  }

  lemma SurroundNodes(g: Graph, line: nat, y: Loc)
    ensures Surround(g, line).Has(y) <==> g.Has(Origin(y))
    ensures g.Has(Origin(y)) ==> Surround(g, line).At(y) == Piece(g.threads[y.tid], line, y.tindex)
  {
  }

  lemma SurroundWidens(g: Graph, line: nat)
    requires g.WellFormed()
    ensures Widens(g, Surround(g, line), map x | x in g.Nodes() :: Mid(x))
  {
    var g', at := Surround(g, line), map x | x in g.Nodes() :: Mid(x);
    forall x | x in at ensures g'.Has(at[x]) && g'.At(at[x]) == g.At(x) {
      SurroundNodes(g, line, at[x]);
    }
    forall a, b | (a, b) in g.inter ensures (Mid(a), Mid(b)) in g'.inter {
      assert (a, b) == ((a, b).0, (a, b).1);
    }
    forall e | e in g'.inter ensures ComesFrom(g, at, e) {
      var d :| d in g.inter && e == (Mid(d.0), Mid(d.1));
      assert (d.0, d.1) in g.inter && d.0 in at && d.1 in at;
    }
    forall y | g'.Has(y) ensures y in at.Values || g'.At(y).IsAccess() {
      SurroundNodes(g, line, y);
      assert y.tindex % PIECES == 1 ==> y == at[Origin(y)];
    }
  }

  /** Where a path has got to, seen in the smaller graph. Only between the read and the end of the node itself does it
      matter how the path came there. */
  ghost predicate Follows(g: Graph, a: Loc, y: Loc, overEdge: bool) {
    && RF(g, a, Origin(y))
    && (y.tindex % PIECES == 0 || (y.tindex % PIECES == 1 && !overEdge) ==> Settled(g, a, Origin(y)))
  }

  lemma FollowEdge(g: Graph, line: nat, a: Loc, y: Loc, z: Loc)
    requires g.WellFormed() && Follows(g, a, y, false) && (y, z) in Surround(g, line).inter
    ensures Follows(g, a, z, true)
  {
    var d :| d in g.inter && (y, z) == (Mid(d.0), Mid(d.1));
    assert Origin(y) == d.0 && Origin(z) == d.1;
    RfEdge(g, d.0, d.1);
    SettledThen(g, a, d.0, d.1);
  }

  lemma FollowThread(g: Graph, a: Loc, y: Loc, overEdge: bool)
    requires g.WellFormed() && Follows(g, a, y, overEdge) && g.Has(Origin(Next(y)))
    ensures Follows(g, a, Next(y), false)
  {
    if y.tindex % PIECES == PIECES - 1 {
      assert Origin(Next(y)) == Next(Origin(y));
      assert (Origin(y), Next(Origin(y))) !in g.inter;
      ThreadSettles(g, a, Origin(y), Next(Origin(y)));
      var p :| Joins(g, p, a, Next(Origin(y))) && RelayFree(g, p);
    } else {
      assert Origin(Next(y)) == Origin(y);
    }
  }

  lemma {:induction false} FollowPath(g: Graph, line: nat, a: Loc, p: seq<Loc>)
    requires g.WellFormed() && IsPath(Surround(g, line), p) && RelayFree(Surround(g, line), p)
    requires p[0] == Loc(a.tid, PIECES * a.tindex)
    ensures Follows(g, a, p[|p| - 1], OverEdge(Surround(g, line), p))
    decreases |p|
  {
    var g' := Surround(g, line);
    SurroundNodes(g, line, p[|p| - 1]);
    if |p| == 1 {
      assert Origin(p[0]) == a;
      RfRefl(g, a);
      SettledRefl(g, a);
    } else {
      var q := p[..|p| - 1];
      PathPrefix(g', p);
      FollowPath(g, line, a, q);
      if OverEdge(g', p) {
        NotOverEdge(g', p);
        FollowEdge(g, line, a, p[|p| - 2], p[|p| - 1]);
      } else {
        FollowThread(g, a, p[|p| - 2], OverEdge(g', q));
      }
    }
  }

  /** The race at a relaying node: read in front of `a`, write behind `c`. */
  function RelayedRace(a: Loc, c: Loc): Race {
    Race(Loc(a.tid, PIECES * a.tindex), Loc(c.tid, PIECES * c.tindex + 2), Loc(a.tid, PIECES * a.tindex + 3))
  }

  lemma RelayedIsReached(g: Graph, line: nat, a: Loc, n: Loc, c: Loc)
    requires g.WellFormed() && (a, n) in g.inter && (n, c) in g.inter
    ensures HB(Surround(g, line), RelayedRace(a, c).read, RelayedRace(a, c).write)
  {
    var g', x := Surround(g, line), RelayedRace(a, c);
    assert g.Has((a, n).0) && g.Has((a, n).1) && g.Has((n, c).1);
    SurroundNodes(g, line, x.read);
    SurroundNodes(g, line, x.write);
    SurroundNodes(g, line, Mid(a));
    SurroundNodes(g, line, Mid(n));
    SurroundNodes(g, line, Mid(c));
    assert (Mid((a, n).0), Mid((a, n).1)) in g'.inter && (Mid((n, c).0), Mid((n, c).1)) in g'.inter;
    HbThread(g', x.read, Mid(a));
    HbEdge(g', Mid(a), Mid(n));
    HbEdge(g', Mid(n), Mid(c));
    HbThread(g', Mid(c), x.write);
    HbTrans(g', x.read, Mid(a), Mid(n));
    HbTrans(g', x.read, Mid(n), Mid(c));
    HbTrans(g', x.read, Mid(c), x.write);
  }

  lemma RelayedIsCandidate(g: Graph, line: nat, a: Loc, c: Loc)
    requires g.Has(a) && g.Has(c) && line % CACHELINE_SIZE == 0
    requires forall y | g.Has(y) && !g.At(y).Epoch? :: g.At(y).Line() != line
    ensures var (g', x) := (Surround(g, line), RelayedRace(a, c));
            PdgOk(g', {(x.dependent, x.read)}) && Candidate(g', {(x.dependent, x.read)}, x) && Unflushed(g', x)
  {
    var g', x := Surround(g, line), RelayedRace(a, c);
    SurroundNodes(g, line, x.read);
    SurroundNodes(g, line, x.write);
    SurroundNodes(g, line, x.dependent);
    assert NodesOverlap(g', x.write, x.read);
    forall f ensures !g'.IsFlushOf(f, line) {
      SurroundNodes(g, line, f);
    }
  }

  // ----- the shapes for which the first pass is exact -----

  /** Among reads and writes, the first pass misses nothing. */
  ghost predicate ReadsAndWritesAgree(g: Graph) {
    forall r, w | g.IsRead(r) && g.IsWrite(w) :: HB(g, r, w) <==> RF(g, r, w)
  }

  /** Whatever depends on what, relays make no false races. */
  ghost predicate NoFalseRaces(g: Graph) {
    forall pdg, x | PdgOk(g, pdg) && RaceModuloRelays(g, pdg, x) :: TrueRace(g, pdg, x)
  }

  lemma AgreeingMakesNoFalseRaces(g: Graph)
    requires ReadsAndWritesAgree(g)
    ensures NoFalseRaces(g)
  {
  }

  lemma RelayedIsMissed(g: Graph, line: nat, a: Loc, c: Loc)
    requires g.WellFormed() && !RF(g, a, c)
    ensures !RF(Surround(g, line), RelayedRace(a, c).read, RelayedRace(a, c).write)
  {
    var g', x := Surround(g, line), RelayedRace(a, c);
    assert Origin(x.write) == c;
    if RF(g', x.read, x.write) {
      var p :| Joins(g', p, x.read, x.write) && RelayFree(g', p);
      FollowPath(g, line, a, p);
    }
  }

  lemma RelayedIsFalse(g: Graph, pdg: Pdg, x: Race)
    requires PdgOk(g, pdg) && Candidate(g, pdg, x) && Unflushed(g, x) && HB(g, x.read, x.write) && !RF(g, x.read, x.write)
    ensures !NoFalseRaces(g)
  {
    assert RaceModuloRelays(g, pdg, x);
  }

  lemma SomeFreeLine(g: Graph) returns (line: nat)
    ensures line % CACHELINE_SIZE == 0 && forall y | g.Has(y) && !g.At(y).Epoch? :: g.At(y).Line() != line
  {
    var bound := FilterShapes.LinesBelow(g, g.Nodes());
    line := CACHELINE_SIZE * bound;
    forall y | g.Has(y) && !g.At(y).Epoch? ensures g.At(y).Line() != line {
      assert y in g.Nodes();
    }
  }

  lemma UnbridgedMakesFalseRace(g: Graph, a: Loc, n: Loc, c: Loc) returns (g': Graph, at: map<Loc, Loc>)
    requires g.WellFormed() && (a, n) in g.inter && (n, c) in g.inter && !RF(g, a, c)
    ensures Widens(g, g', at) && !NoFalseRaces(g')
  {
    assert g.Has((a, n).0) && g.Has((n, c).1);
    var line := SomeFreeLine(g);
    var x := RelayedRace(a, c);
    g', at := Surround(g, line), map x | x in g.Nodes() :: Mid(x);
    SurroundWidens(g, line);
    RelayedIsCandidate(g, line, a, c);
    RelayedIsReached(g, line, a, n, c);
    RelayedIsMissed(g, line, a, c);
    RelayedIsFalse(g', {(x.dependent, x.read)}, x);
  }

  /** For every graph: wherever accesses are put in, the first pass misses no write after a read, and relays make no false
      races, if and only if every relay is bridged. */
  lemma ExactIffBridged(g: Graph)
    requires g.WellFormed()
    ensures Bridged(g) <==> forall g', at | Widens(g, g', at) :: ReadsAndWritesAgree(g')
    ensures Bridged(g) <==> forall g', at | Widens(g, g', at) :: NoFalseRaces(g')
  {
    if Bridged(g) {
      forall g', at | Widens(g, g', at) ensures ReadsAndWritesAgree(g') && NoFalseRaces(g') {
        WidenedIsBridged(g, g', at);
        BridgedIff(g');
      }
    } else {
      var e, f :| e in g.inter && f in g.inter && e.1 == f.0 && !RF(g, e.0, f.1);
      assert e == (e.0, e.1) && f == (f.0, f.1);
      var g', at := UnbridgedMakesFalseRace(g, e.0, e.1, f.1);
      if ReadsAndWritesAgree(g') {
        AgreeingMakesNoFalseRaces(g');
      }
    }
  }
}
