/** `is_bug`, the graph-search reference, against the definition of a race. */
module IsBugReference {
  import opened Cachelines
  import opened Hbg
  import opened RaceSpec

  /** What a breadth-first search visits on a DAG: everything reachable except the source itself. */
  ghost predicate VisitsSuccessors(g: Graph, source: Loc, visited: set<Loc>) {
    forall n :: n in visited <==> HB(g, source, n) && n != source
  }

  /** `n` reaches `target` over at most `k` nodes. */
  ghost predicate Within(g: Graph, n: Loc, target: Loc, k: nat) { exists p :: Joins(g, p, n, target) && |p| <= k }

  ghost predicate NoFurther(g: Graph, target: Loc, a: Loc, b: Loc) {
    forall k: nat | Within(g, b, target, k) :: Within(g, a, target, k)
  }

  /** What a breadth-first search against the edges visits, in its order: near nodes before far ones. */
  ghost predicate VisitsPredecessors(g: Graph, source: Loc, visited: seq<Loc>) {
    && (forall n :: n in visited <==> HB(g, n, source) && n != source)
    && (forall i, j | 0 <= i < j < |visited| :: NoFurther(g, source, visited[i], visited[j]))
  }

  /** A flush whose line contains the read's bytes. */
  predicate FlushesRead(g: Graph, f: Loc, r: Loc)
    requires g.IsRead(r)
  {
    g.Has(f) && g.At(f).Flush? && Contains(g.At(f).address, g.At(f).size, g.At(r).address, g.At(r).size)
  }

  /** Whole aligned lines: containing the read is flushing its line. */
  lemma FlushesReadIsLine(g: Graph, f: Loc, r: Loc)
    requires g.LineAligned() && g.IsRead(r)
    ensures FlushesRead(g, f, r) <==> g.IsFlushOf(f, g.At(r).Line())
  {
    assert g.At(r) == g.threads[r.tid][r.tindex];
    if g.Has(f) && g.At(f).Flush? {
      assert g.At(f) == g.threads[f.tid][f.tindex];
      var line, read := g.At(f), g.At(r);
      assert read.Line() % CACHELINE_SIZE == 0 && read.Line() <= read.address < read.Line() + CACHELINE_SIZE;
      if read.Line() == line.Line() {
        assert read.address + read.size - 1 < read.Line() + CACHELINE_SIZE;
      }
    }
  }

  /** A flush of the read's bytes before the dependent write. */
  ghost predicate Eligible(g: Graph, x: Race, f: Loc)
    requires g.IsRead(x.read)
  {
    FlushesRead(g, f, x.read) && HB(g, f, x.dependent) && f != x.dependent
  }

  /** One flush per thread that has one before the dependent write: one of the nearest, as the search meets first. */
  ghost predicate Chosen(g: Graph, x: Race, flushes: map<int, Loc>)
    requires g.IsRead(x.read)
  {
    && (forall t | t in flushes :: flushes[t].tid == t && Eligible(g, x, flushes[t]))
    && (forall f | Eligible(g, x, f) :: f.tid in flushes && NoFurther(g, x.dependent, flushes[f.tid], f))
  }

  /** The flushes the search meets first, one per thread. */
  ghost predicate MetFirst(g: Graph, x: Race, visited: seq<Loc>, flushes: map<int, Loc>)
    requires g.IsRead(x.read)
  {
    && (forall t | t in flushes :: flushes[t].tid == t && flushes[t] in visited && FlushesRead(g, flushes[t], x.read))
    && (forall j: nat | j < |visited| && FlushesRead(g, visited[j], x.read) :: MetBy(visited, flushes, j))
  }

  ghost predicate MetBy(visited: seq<Loc>, flushes: map<int, Loc>, j: nat)
    requires j < |visited|
  {
    visited[j].tid in flushes && flushes[visited[j].tid] in visited[..j + 1]
  }

  lemma MetFirstIsChosen(g: Graph, x: Race, visited: seq<Loc>, flushes: map<int, Loc>)
    requires g.IsRead(x.read) && VisitsPredecessors(g, x.dependent, visited) && MetFirst(g, x, visited, flushes)
    ensures Chosen(g, x, flushes)
  {
    forall f | Eligible(g, x, f) ensures f.tid in flushes && NoFurther(g, x.dependent, flushes[f.tid], f) {
      assert f in visited;
      var j :| 0 <= j < |visited| && visited[j] == f;
      assert MetBy(visited, flushes, j);
      var i :| 0 <= i < j + 1 && visited[..j + 1][i] == flushes[f.tid];
      assert visited[i] == flushes[f.tid];
    }
  }

  /** What the reference answers once the flushes are chosen. */
  ghost predicate Accepts(g: Graph, x: Race, flushes: map<int, Loc>)
    requires g.IsRead(x.read) && g.IsWrite(x.write)
  {
    && NodesOverlap(g, x.read, x.write)
    && !(HB(g, x.read, x.write) && x.write != x.read)
    && (forall t | t in flushes :: !(HB(g, x.read, flushes[t]) && x.read != flushes[t]))
    && (forall t | t in flushes :: !(HB(g, x.write, flushes[t]) && x.write != flushes[t]))
  }

  /** What the reference answers after a search that visits the given predecessors of the dependent write. */
  ghost predicate AcceptsAfter(g: Graph, x: Race, visited: seq<Loc>)
    requires g.IsRead(x.read) && g.IsWrite(x.write)
  {
    exists flushes :: MetFirst(g, x, visited, flushes) && Accepts(g, x, flushes)
  }

  /** A search meets one flush per thread first. */
  lemma MetFirstIsUnique(g: Graph, x: Race, visited: seq<Loc>, a: map<int, Loc>, b: map<int, Loc>)
    requires g.IsRead(x.read) && MetFirst(g, x, visited, a) && MetFirst(g, x, visited, b)
    ensures a == b
  {
    forall t | t in a ensures t in b && MetNoLater(visited, b[t], a[t]) {
      MetByOther(g, x, visited, a, b, t);
    }
    forall t | t in b ensures t in a && MetNoLater(visited, a[t], b[t]) {
      MetByOther(g, x, visited, b, a, t);
    }
    forall t | t in a ensures a[t] == b[t] {
      MetTogether(visited, a[t], b[t]);
    }
  }

  ghost predicate MetUpTo(visited: seq<Loc>, a: Loc, j: nat) { exists k :: 0 <= k <= j && k < |visited| && visited[k] == a }

  /** Wherever `b` is met, `a` has been. */
  ghost predicate MetNoLater(visited: seq<Loc>, a: Loc, b: Loc) {
    b in visited && forall j: nat | j < |visited| && visited[j] == b :: MetUpTo(visited, a, j)
  }

  lemma MetByOther(g: Graph, x: Race, visited: seq<Loc>, a: map<int, Loc>, b: map<int, Loc>, t: int)
    requires g.IsRead(x.read) && MetFirst(g, x, visited, a) && MetFirst(g, x, visited, b) && t in a
    ensures t in b && MetNoLater(visited, b[t], a[t])
  {
    var j :| 0 <= j < |visited| && visited[j] == a[t];
    assert MetBy(visited, b, j);
    forall j: nat | j < |visited| && visited[j] == a[t] ensures MetUpTo(visited, b[t], j) {
      assert MetBy(visited, b, j);
      var k := InPrefix(visited, j + 1, b[t]);
    }
  }

  lemma MetTogether(visited: seq<Loc>, a: Loc, b: Loc)
    requires MetNoLater(visited, a, b) && MetNoLater(visited, b, a)
    ensures a == b
  {
    var i := FirstMet(visited, a);
    assert MetUpTo(visited, b, i);
    var k :| 0 <= k <= i && visited[k] == b;
    assert MetUpTo(visited, a, k);
  }

  lemma InPrefix(visited: seq<Loc>, n: nat, a: Loc) returns (k: nat)
    requires n <= |visited| && a in visited[..n]
    ensures k < n && visited[k] == a
  {
    k :| 0 <= k < n && visited[..n][k] == a;
  }

  lemma {:induction false} FirstMet(visited: seq<Loc>, a: Loc) returns (i: nat)
    requires a in visited
    ensures i < |visited| && visited[i] == a && forall j | 0 <= j < i :: visited[j] != a
    decreases |visited|
  {
    var n := |visited| - 1;
    if a in visited[..n] {
      i := FirstMet(visited[..n], a);
      assert forall j | 0 <= j < i :: visited[j] == visited[..n][j];
    } else {
      i := n;
      assert forall j | 0 <= j < n :: visited[j] == visited[..n][j];
    }
  }

  /** The first flush of each thread that the search meets. */
  method LastKnownFlushes(g: Graph, x: Race, predecessors: seq<Loc>) returns (flushes: map<int, Loc>)
    requires g.IsRead(x.read)
    requires forall n | n in predecessors :: g.Has(n)
    ensures MetFirst(g, x, predecessors, flushes)
  {
    flushes := map[];
    for i := 0 to |predecessors|
      invariant forall t | t in flushes ::
                  flushes[t].tid == t && FlushesRead(g, flushes[t], x.read) && flushes[t] in predecessors[..i]
      invariant forall j: nat | j < i && FlushesRead(g, predecessors[j], x.read) :: MetBy(predecessors, flushes, j)
    {
      var n := predecessors[i];
      ghost var before := flushes;
      if n.tid !in flushes && FlushesRead(g, n, x.read) {
        flushes := flushes[n.tid := n];
      }
      assert predecessors[..i + 1] == predecessors[..i] + [n];
      forall j: nat | j < i + 1 && FlushesRead(g, predecessors[j], x.read) ensures MetBy(predecessors, flushes, j) {
        assert j < i ==> MetBy(predecessors, before, j);
      }
    }
    assert predecessors[..|predecessors|] == predecessors;
  }

  method PersistedBeforeGroup(g: Graph, flushes: map<int, Loc>, predecessorsOf: map<Loc, seq<Loc>>)
    returns (group: set<Loc>)
    requires forall t | t in flushes ::
               flushes[t] in predecessorsOf && VisitsPredecessors(g, flushes[t], predecessorsOf[flushes[t]])
    ensures forall n :: n in group <==> exists t :: t in flushes && HB(g, n, flushes[t]) && n != flushes[t]
  {
    group := set t, n | t in flushes && n in predecessorsOf[flushes[t]] :: n;
  }

  method IsBug(g: Graph, x: Race, successors: set<Loc>, predecessors: seq<Loc>, predecessorsOf: map<Loc, seq<Loc>>)
    returns (bug: bool, flushes: map<int, Loc>)
    requires g.IsRead(x.read) && g.IsWrite(x.write) && g.IsWrite(x.dependent)
    requires VisitsSuccessors(g, x.read, successors) && VisitsPredecessors(g, x.dependent, predecessors)
    requires forall n | n in predecessors :: n in predecessorsOf && VisitsPredecessors(g, n, predecessorsOf[n])
    requires NodesOverlap(g, x.read, x.write) ==> x.dependent in successors  // asserted by the source
    ensures MetFirst(g, x, predecessors, flushes) && Chosen(g, x, flushes)
    ensures (bug <==> Accepts(g, x, flushes)) && (bug <==> AcceptsAfter(g, x, predecessors))
    ensures g.LineAligned() && Racy(g, x) ==> bug
  {
    flushes := LastKnownFlushes(g, x, predecessors);
    MetFirstIsChosen(g, x, predecessors, flushes);
    forall others | MetFirst(g, x, predecessors, others) ensures others == flushes {
      MetFirstIsUnique(g, x, predecessors, flushes, others);
    }
    if g.LineAligned() && Racy(g, x) {
      ReferenceAcceptsRaces(g, x, flushes);
    }
    if !NodesOverlap(g, x.read, x.write) {
      return false, flushes;
    }
    if x.write in successors {
      return false, flushes;
    }
    var persistedBefore := PersistedBeforeGroup(g, flushes, predecessorsOf);
    bug := x.read !in persistedBefore && x.write !in persistedBefore;
  }

  /** What makes a candidate a race, but for non-temporal writes. */
  ghost predicate Racy(g: Graph, x: Race)
    requires g.IsRead(x.read) && g.IsWrite(x.write)
  {
    NodesOverlap(g, x.read, x.write) && !HB(g, x.read, x.write) && Unflushed(g, x)
  }

  /** Whatever flushes the search picks, the reference accepts every race. */
  lemma ReferenceAcceptsRaces(g: Graph, x: Race, flushes: map<int, Loc>)
    requires g.LineAligned() && g.IsRead(x.read) && g.IsWrite(x.write) && Racy(g, x) && Chosen(g, x, flushes)
    ensures Accepts(g, x, flushes)
  {
    forall t | t in flushes
      ensures !HB(g, x.read, flushes[t]) && !HB(g, x.write, flushes[t])
    {
      FlushesReadIsLine(g, flushes[t], x.read);
    }
  }

  /** A flush that makes the read or the write persistent. */
  ghost predicate Persists(g: Graph, x: Race, f: Loc) { HB(g, x.read, f) || HB(g, x.write, f) }

  /** Of the flushes of a thread that a search may meet first, the earliest in the thread. */
  ghost predicate EarliestNearest(g: Graph, x: Race, f: Loc)
    requires g.IsRead(x.read)
  {
    && Eligible(g, x, f)
    && forall e | Eligible(g, x, e) && e.tid == f.tid ::
         NoFurther(g, x.dependent, f, e) && (NoFurther(g, x.dependent, e, f) ==> f.tindex <= e.tindex)
  }

  lemma RacyIs(g: Graph, x: Race)
    requires g.LineAligned() && g.IsRead(x.read) && g.IsWrite(x.write) && g.IsWrite(x.dependent)
    ensures Racy(g, x) <==> NodesOverlap(g, x.read, x.write) && !HB(g, x.read, x.write)
                            && forall f | Eligible(g, x, f) :: !Persists(g, x, f)
  {
    forall f ensures FlushesRead(g, f, x.read) <==> g.IsFlushOf(f, g.At(x.read).Line()) {
      FlushesReadIsLine(g, f, x.read);
    }
    assert forall f | g.IsFlushOf(f, g.At(x.read).Line()) && HB(g, f, x.dependent) :: Eligible(g, x, f);
  }

  lemma AcceptsIs(g: Graph, x: Race, flushes: map<int, Loc>)
    requires g.IsRead(x.read) && g.IsWrite(x.write) && Chosen(g, x, flushes)
    ensures Accepts(g, x, flushes) <==> NodesOverlap(g, x.read, x.write) && !HB(g, x.read, x.write)
                                        && forall t | t in flushes :: !Persists(g, x, flushes[t])
  {
  }

  lemma WithinLater(g: Graph, n: Loc, target: Loc, k: nat, k': nat)
    requires Within(g, n, target, k) && k <= k'
    ensures Within(g, n, target, k')
  {
    var p :| Joins(g, p, n, target) && |p| <= k;
  }

  /** Of the eligible flushes of thread `t`, the nearest ones are at distance `k`. */
  lemma {:induction false} NearestDistance(g: Graph, x: Race, e: Loc, k: nat) returns (least: nat)
    requires g.IsRead(x.read) && Eligible(g, x, e) && Within(g, e, x.dependent, k)
    ensures exists f :: Eligible(g, x, f) && f.tid == e.tid && Within(g, f, x.dependent, least)
    ensures forall f, j: nat | Eligible(g, x, f) && f.tid == e.tid && Within(g, f, x.dependent, j) :: least <= j
    decreases k
  {
    if f, j: nat :| Eligible(g, x, f) && f.tid == e.tid && j < k && Within(g, f, x.dependent, j) {
      least := NearestDistance(g, x, f, j);
    } else {
      least := k;
    }
  }

  lemma {:induction false} EarliestWithin(g: Graph, x: Race, e: Loc, k: nat) returns (f: Loc)
    requires g.IsRead(x.read) && Eligible(g, x, e) && Within(g, e, x.dependent, k)
    ensures Eligible(g, x, f) && f.tid == e.tid && Within(g, f, x.dependent, k)
    ensures forall d | Eligible(g, x, d) && d.tid == e.tid && Within(g, d, x.dependent, k) :: f.tindex <= d.tindex
    decreases e.tindex
  {
    if d :| Eligible(g, x, d) && d.tid == e.tid && Within(g, d, x.dependent, k) && d.tindex < e.tindex {
      f := EarliestWithin(g, x, d, k);
    } else {
      f := e;
    }
  }

  lemma SomeEarliestNearest(g: Graph, x: Race, e: Loc)
    requires g.IsRead(x.read) && Eligible(g, x, e)
    ensures exists f :: EarliestNearest(g, x, f) && f.tid == e.tid
  {
    var p :| Joins(g, p, e, x.dependent);
    assert Within(g, e, x.dependent, |p|);
    var k := NearestDistance(g, x, e, |p|);
    var n :| Eligible(g, x, n) && n.tid == e.tid && Within(g, n, x.dependent, k);
    var f := EarliestWithin(g, x, n, k);
    forall d | Eligible(g, x, d) && d.tid == f.tid
      ensures NoFurther(g, x.dependent, f, d) && (NoFurther(g, x.dependent, d, f) ==> f.tindex <= d.tindex)
    {
      forall j: nat | Within(g, d, x.dependent, j) ensures Within(g, f, x.dependent, j) {
        WithinLater(g, f, x.dependent, k, j);
      }
    }
    assert EarliestNearest(g, x, f);
  }

  ghost predicate HasEligible(g: Graph, x: Race, t: int)
    requires g.IsRead(x.read)
  {
    exists e :: Eligible(g, x, e) && e.tid == t
  }

  ghost function EarliestOf(g: Graph, x: Race, t: int): (f: Loc)
    requires g.IsRead(x.read) && HasEligible(g, x, t)
    ensures EarliestNearest(g, x, f) && f.tid == t
  {
    var e :| Eligible(g, x, e) && e.tid == t;
    SomeEarliestNearest(g, x, e);
    var f :| EarliestNearest(g, x, f) && f.tid == t;
    f
  }

  /** The search that gains least: in every thread the earliest flush it may meet first. */
  lemma EarliestChoice(g: Graph, x: Race) returns (flushes: map<int, Loc>)
    requires g.IsRead(x.read)
    ensures Chosen(g, x, flushes) && forall t | t in flushes :: EarliestNearest(g, x, flushes[t])
  {
    flushes := map t | t in g.threads && HasEligible(g, x, t) :: EarliestOf(g, x, t);
    forall f | Eligible(g, x, f) ensures f.tid in flushes && NoFurther(g, x.dependent, flushes[f.tid], f) {
      assert HasEligible(g, x, f.tid);
    }
  }

  // ----- every choice is some search's -----

  lemma OneIsNoFurther(g: Graph, target: Loc, a: Loc, b: Loc)
    ensures NoFurther(g, target, a, b) || NoFurther(g, target, b, a)
  {
    if k: nat :| Within(g, b, target, k) && !Within(g, a, target, k) {
      forall j: nat | Within(g, a, target, j) ensures Within(g, b, target, j) {
        if j <= k {
          WithinLater(g, a, target, j, k);
        } else {
          WithinLater(g, b, target, k, j);
        }
      }
    }
  }

  lemma NoFurtherTrans(g: Graph, target: Loc, a: Loc, b: Loc, c: Loc)
    requires NoFurther(g, target, a, b) && NoFurther(g, target, b, c)
    ensures NoFurther(g, target, a, c)
  {
    forall k: nat | Within(g, c, target, k) ensures Within(g, a, target, k) {
      assert Within(g, b, target, k);
    }
  }

  ghost predicate IsNearest(g: Graph, target: Loc, s: set<Loc>, a: Loc) {
    a in s && forall b | b in s :: NoFurther(g, target, a, b)
  }

  lemma {:induction false} SomeNearest(g: Graph, target: Loc, s: set<Loc>) returns (a: Loc)
    requires s != {}
    ensures IsNearest(g, target, s, a)
    decreases |s|
  {
    var b :| b in s;
    if s - {b} == {} {
      forall c | c in s ensures c == b {
        assert c != b ==> c in s - {b};
      }
      a := b;
    } else {
      a := SomeNearest(g, target, s - {b});
      OneIsNoFurther(g, target, a, b);
      if !NoFurther(g, target, a, b) {
        forall c | c in s ensures NoFurther(g, target, b, c) {
          if c != b {
            NoFurtherTrans(g, target, b, a, c);
          }
        }
        a := b;
      }
    }
  }

  ghost predicate BreadthFirst(g: Graph, target: Loc, visited: seq<Loc>, s: set<Loc>, picks: set<Loc>) {
    && (forall n :: n in visited <==> n in s)
    && (forall i, j | 0 <= i < j < |visited| :: NoFurther(g, target, visited[i], visited[j]))
    && (forall i, j | 0 <= i < j < |visited| && visited[j] in picks && NoFurther(g, target, visited[j], visited[i]) ::
          visited[i] in picks)
  }

  /** A breadth-first order that among nodes at the same distance visits `picks` first. */
  lemma {:induction false} SearchPrefers(g: Graph, target: Loc, s: set<Loc>, picks: set<Loc>) returns (visited: seq<Loc>)
    ensures BreadthFirst(g, target, visited, s, picks)
    decreases |s|
  {
    if s == {} {
      visited := [];
    } else {
      var a := SomeNearest(g, target, s);
      if p :| p in picks && IsNearest(g, target, s, p) {
        a := p;
      }
      var rest := SearchPrefers(g, target, s - {a}, picks);
      visited := [a] + rest;
      forall j | 0 < j < |visited| && visited[j] in picks && NoFurther(g, target, visited[j], a) ensures a in picks {
        assert rest[j - 1] in rest;
        forall c | c in s ensures NoFurther(g, target, visited[j], c) {
          NoFurtherTrans(g, target, visited[j], a, c);
        }
        assert IsNearest(g, target, s, visited[j]);
      }
    }
  }

  /** Whatever nearest flushes are chosen, some breadth-first search meets them first. */
  lemma ChosenIsMetFirst(g: Graph, x: Race, flushes: map<int, Loc>) returns (visited: seq<Loc>)
    requires g.IsRead(x.read) && Chosen(g, x, flushes)
    ensures VisitsPredecessors(g, x.dependent, visited) && MetFirst(g, x, visited, flushes)
  {
    var before := set n | n in g.Nodes() && HB(g, n, x.dependent) && n != x.dependent;
    var picks := set t | t in flushes :: flushes[t];
    visited := SearchPrefers(g, x.dependent, before, picks);
    assert forall n | HB(g, n, x.dependent) :: n in g.Nodes();
    forall j: nat | j < |visited| && FlushesRead(g, visited[j], x.read) ensures MetBy(visited, flushes, j) {
      assert visited[j] in before;
      var f := flushes[visited[j].tid];
      assert f in visited && f in picks;
      var i :| 0 <= i < |visited| && visited[i] == f;
      if i <= j {
        assert visited[..j + 1][i] == f;
      } else {
        assert Eligible(g, x, visited[j]) && NoFurther(g, x.dependent, visited[i], visited[j]);
        assert visited[j] in picks;
        assert visited[..j + 1][j] == f;
      }
    }
  }

  /** There are searches, from every node of every graph. */
  lemma SomeSearch(g: Graph, n: Loc)
    ensures exists visited :: VisitsSuccessors(g, n, visited)
    ensures exists visited :: VisitsPredecessors(g, n, visited)
  {
    var after := set m | m in g.Nodes() && HB(g, n, m) && m != n;
    var before := set m | m in g.Nodes() && HB(g, m, n) && m != n;
    assert forall m | HB(g, n, m) || HB(g, m, n) :: m in g.Nodes();
    assert VisitsSuccessors(g, n, after);
    var visited := SearchPrefers(g, n, before, {});
    assert VisitsPredecessors(g, n, visited);
  }

  ghost function SuccessorsOf(g: Graph, n: Loc): (visited: set<Loc>)
    ensures VisitsSuccessors(g, n, visited)
  {
    SomeSearch(g, n);
    var visited :| VisitsSuccessors(g, n, visited);
    visited
  }

  ghost function PredecessorsOf(g: Graph, n: Loc): (visited: seq<Loc>)
    ensures VisitsPredecessors(g, n, visited)
  {
    SomeSearch(g, n);
    var visited :| VisitsPredecessors(g, n, visited);
    visited
  }

  /** The searches of the graph library: everything reachable, near nodes first. */
  ghost predicate AreSearches(g: Graph, successors: map<Loc, set<Loc>>, predecessors: map<Loc, seq<Loc>>) {
    forall n | g.Has(n) :: n in successors && n in predecessors
      && VisitsSuccessors(g, n, successors[n]) && VisitsPredecessors(g, n, predecessors[n])
  }

  /** Every graph has some. */
  lemma SomeSearches(g: Graph) returns (successors: map<Loc, set<Loc>>, predecessors: map<Loc, seq<Loc>>)
    ensures AreSearches(g, successors, predecessors)
  {
    successors := map n | n in g.Nodes() :: SuccessorsOf(g, n);
    predecessors := map n | n in g.Nodes() :: PredecessorsOf(g, n);
  }

  // ----- when the reference is right -----

  /** Does the reference agree with the definition, whatever a breadth-first search meets first? */
  ghost predicate Reliable(g: Graph, x: Race)
    requires g.IsRead(x.read) && g.IsWrite(x.write)
  {
    forall visited, flushes | VisitsPredecessors(g, x.dependent, visited) && MetFirst(g, x, visited, flushes) ::
      Accepts(g, x, flushes) <==> Racy(g, x)
  }

  /** If some flush persists the read or the write before the dependent write, then in some thread the flush
      that may be met first does. */
  ghost predicate FlushIsFound(g: Graph, x: Race)
    requires g.IsRead(x.read)
  {
    (exists f :: Eligible(g, x, f) && Persists(g, x, f)) ==> exists f :: EarliestNearest(g, x, f) && Persists(g, x, f)
  }

  lemma PersistsLater(g: Graph, x: Race, f: Loc, e: Loc)
    requires Persists(g, x, f) && HB(g, f, e)
    ensures Persists(g, x, e)
  {
    if HB(g, x.read, f) {
      HbTrans(g, x.read, f, e);
    } else {
      HbTrans(g, x.write, f, e);
    }
  }

  lemma FoundAgrees(g: Graph, x: Race, flushes: map<int, Loc>)
    requires g.LineAligned() && g.IsRead(x.read) && g.IsWrite(x.write) && g.IsWrite(x.dependent)
    requires Chosen(g, x, flushes)
    requires !NodesOverlap(g, x.read, x.write) || HB(g, x.read, x.write) || FlushIsFound(g, x)
    ensures Accepts(g, x, flushes) <==> Racy(g, x)
  {
    RacyIs(g, x);
    AcceptsIs(g, x, flushes);
    if f :| EarliestNearest(g, x, f) && Persists(g, x, f) {
      HbThread(g, f, flushes[f.tid]);
      PersistsLater(g, x, f, flushes[f.tid]);
    }
  }

  lemma NotFoundDisagrees(g: Graph, x: Race) returns (visited: seq<Loc>, flushes: map<int, Loc>)
    requires g.LineAligned() && g.IsRead(x.read) && g.IsWrite(x.write) && g.IsWrite(x.dependent)
    requires NodesOverlap(g, x.read, x.write) && !HB(g, x.read, x.write) && !FlushIsFound(g, x)
    ensures VisitsPredecessors(g, x.dependent, visited) && MetFirst(g, x, visited, flushes)
    ensures Accepts(g, x, flushes) && !Racy(g, x)
  {
    flushes := EarliestChoice(g, x);
    RacyIs(g, x);
    AcceptsIs(g, x, flushes);
    visited := ChosenIsMetFirst(g, x, flushes);
  }

  /** Exactly when the reference is right. It never rejects a race; it accepts what is none if and only if the flushes
      that make it none are all behind nearer ones that do not. Non-temporal writes it does not look at. */
  lemma ReferenceExactIff(g: Graph, x: Race)
    requires g.LineAligned() && g.IsRead(x.read) && g.IsWrite(x.write) && g.IsWrite(x.dependent)
    ensures Reliable(g, x) <==>
            !NodesOverlap(g, x.read, x.write) || HB(g, x.read, x.write) || FlushIsFound(g, x)
  {
    if !NodesOverlap(g, x.read, x.write) || HB(g, x.read, x.write) || FlushIsFound(g, x) {
      forall visited, flushes | VisitsPredecessors(g, x.dependent, visited) && MetFirst(g, x, visited, flushes)
        ensures Accepts(g, x, flushes) <==> Racy(g, x)
      {
        MetFirstIsChosen(g, x, visited, flushes);
        FoundAgrees(g, x, flushes);
      }
    } else {
      var visited, flushes := NotFoundDisagrees(g, x);
    }
  }

  // ----- where the reference is wrong -----

  /** Thread 1 flushes the line before and after writing to it. From the dependent write the way back to the first
      flush, over the earlier edge, is the shorter one. */
  const SHORTCUT := Graph(
    map[0 := [Read(0, 0, 8), Epoch(0), Epoch(1), Write(1, 64, 8, false)],
        1 := [Flush(0, 64), Epoch(0), Write(2, 0, 8, false), Flush(0, 64),
              Read(3, 128, 8), Read(3, 128, 8), Read(3, 128, 8), Epoch(1)]],
    {(Loc(1, 1), Loc(0, 1)), (Loc(1, 7), Loc(0, 2))})

  const FLUSHED := Race(Loc(0, 0), Loc(1, 2), Loc(0, 3))

  lemma NearFlush()
    ensures Eligible(SHORTCUT, FLUSHED, Loc(1, 0)) && Within(SHORTCUT, Loc(1, 0), Loc(0, 3), 5)
  {
    var p := [Loc(1, 0), Loc(1, 1), Loc(0, 1), Loc(0, 2), Loc(0, 3)];
    assert p[0] == Loc(1, 0) && p[1] == Loc(1, 1) && p[2] == Loc(0, 1) && p[3] == Loc(0, 2) && p[4] == Loc(0, 3);
    assert Joins(SHORTCUT, p, Loc(1, 0), Loc(0, 3));
  }

  lemma FarFlush()
    ensures Eligible(SHORTCUT, FLUSHED, Loc(1, 3)) && !Within(SHORTCUT, Loc(1, 3), Loc(0, 3), 5)
    ensures Persists(SHORTCUT, FLUSHED, Loc(1, 3))
  {
    var g := SHORTCUT;
    HbThread(g, Loc(1, 2), Loc(1, 3));
    HbThread(g, Loc(1, 3), Loc(1, 7));
    HbEdge(g, Loc(1, 7), Loc(0, 2));
    HbThread(g, Loc(0, 2), Loc(0, 3));
    HbTrans(g, Loc(1, 3), Loc(1, 7), Loc(0, 2));
    HbTrans(g, Loc(1, 3), Loc(0, 2), Loc(0, 3));
    forall p | Joins(g, p, Loc(1, 3), Loc(0, 3)) ensures |p| > 5 {
      FarPath(p);
    }
  }

  lemma FarPath(p: seq<Loc>)
    requires Joins(SHORTCUT, p, Loc(1, 3), Loc(0, 3))
    ensures |p| > 5
  {
    assert |p| > 1 ==> SHORTCUT.Edge(p[0], p[1]);
    assert |p| > 2 ==> SHORTCUT.Edge(p[1], p[2]);
    assert |p| > 3 ==> SHORTCUT.Edge(p[2], p[3]);
    assert |p| > 4 ==> SHORTCUT.Edge(p[3], p[4]);
  }

  /** No edge leads into thread 1. */
  lemma {:induction false} IntoThread(n: Loc, k: nat)
    requires HB(SHORTCUT, n, Loc(1, k))
    ensures n.tid == 1 && n.tindex <= k
    decreases k
  {
    if n != Loc(1, k) {
      var c := HbLastStep(SHORTCUT, n, Loc(1, k));
      assert c == Loc(1, k - 1);
      IntoThread(n, k - 1);
    }
  }

  lemma ShortcutIsFine()
    ensures SHORTCUT.WellFormed() && SHORTCUT.LineAligned()
  {
  }

  lemma EligibleThere(f: Loc)
    requires Eligible(SHORTCUT, FLUSHED, f)
    ensures f == Loc(1, 0) || f == Loc(1, 3)
  {
    assert f == Loc(f.tid, f.tindex);
  }

  lemma OlderIsChosen(flushes: map<int, Loc>)
    requires Chosen(SHORTCUT, FLUSHED, flushes)
    ensures 1 in flushes && flushes[1] == Loc(1, 0) && forall t | t in flushes :: t == 1
  {
    NearFlush();
    FarFlush();
    forall t | t in flushes ensures t == 1 && flushes[t] == Loc(1, 0) {
      EligibleThere(flushes[t]);
      assert NoFurther(SHORTCUT, Loc(0, 3), flushes[Loc(1, 0).tid], Loc(1, 0));
    }
  }

  lemma OlderPersistsNothing()
    ensures !Persists(SHORTCUT, FLUSHED, Loc(1, 0)) && !HB(SHORTCUT, FLUSHED.read, FLUSHED.write)
  {
    if HB(SHORTCUT, FLUSHED.read, Loc(1, 0)) {
      IntoThread(FLUSHED.read, 0);
    }
    if HB(SHORTCUT, FLUSHED.write, Loc(1, 0)) {
      IntoThread(FLUSHED.write, 0);
    }
    if HB(SHORTCUT, FLUSHED.read, FLUSHED.write) {
      IntoThread(FLUSHED.read, 2);
    }
  }

  lemma AcceptsWithOne(g: Graph, x: Race, t: int, f: Loc, flushes: map<int, Loc>)
    requires g.IsRead(x.read) && g.IsWrite(x.write) && Chosen(g, x, flushes)
    requires t in flushes && flushes[t] == f && forall u | u in flushes :: u == t
    requires NodesOverlap(g, x.read, x.write) && !HB(g, x.read, x.write) && !Persists(g, x, f)
    ensures Accepts(g, x, flushes)
  {
    AcceptsIs(g, x, flushes);
  }

  /** There every breadth-first search, and there are some, meets the flush before the write first, so the reference
      takes for a race what is flushed. */
  lemma ReferenceAcceptsNoRace(visited: seq<Loc>, flushes: map<int, Loc>)
    requires VisitsPredecessors(SHORTCUT, FLUSHED.dependent, visited) && MetFirst(SHORTCUT, FLUSHED, visited, flushes)
    ensures SHORTCUT.WellFormed() && SHORTCUT.LineAligned()
    ensures Accepts(SHORTCUT, FLUSHED, flushes) && !Racy(SHORTCUT, FLUSHED)
  {
    FlushedIsNoRace();
    MetFirstIsChosen(SHORTCUT, FLUSHED, visited, flushes);
    OlderIsChosen(flushes);
    OlderPersistsNothing();
    AcceptsWithOne(SHORTCUT, FLUSHED, 1, Loc(1, 0), flushes);
  }

  lemma FlushedIsNoRace()
    ensures SHORTCUT.WellFormed() && SHORTCUT.LineAligned() && !Racy(SHORTCUT, FLUSHED)
  {
    ShortcutIsFine();
    FarFlush();
    RacyIs(SHORTCUT, FLUSHED);
  }

  /** Such a search exists. */
  lemma SomeSearchThere() returns (visited: seq<Loc>, flushes: map<int, Loc>)
    ensures VisitsPredecessors(SHORTCUT, FLUSHED.dependent, visited) && MetFirst(SHORTCUT, FLUSHED, visited, flushes)
  {
    flushes := EarliestChoice(SHORTCUT, FLUSHED);
    visited := ChosenIsMetFirst(SHORTCUT, FLUSHED, flushes);
  }
}
