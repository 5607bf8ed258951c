/** `pdg.py`: which write depends on which read. Both ways of building a dependency graph give each read the
    first later write of its thread that a rule accepts. */
module PdgSpec {
  import opened Cachelines
  import opened Hbg
  import opened RaceSpec

  /** The mock accepts every write to another line. PC-based dependencies also name the read's instruction,
      and compare whole intervals. */
  datatype Rule = Mock | Pcs(dependencies: map<int, set<int>>)
  {
    predicate Accepts(w: Node, r: Node)
      requires w.Write? && r.Read?
    {
      match this
      case Mock => r.Line() != w.Line()
      case Pcs(deps) =>
        && w.pc in deps && r.pc in deps[w.pc]
        && CachelineInterval(w.address, w.size) != CachelineInterval(r.address, r.size)
    }
  }

  predicate Fits(g: Graph, rule: Rule, w: Loc, r: Loc) {
    g.IsRead(r) && g.IsWrite(w) && w.tid == r.tid && r.tindex < w.tindex && rule.Accepts(g.At(w), g.At(r))
  }

  /** `w` is the first write after `r` that the rule accepts. */
  ghost predicate FirstFit(g: Graph, rule: Rule, w: Loc, r: Loc) {
    Fits(g, rule, w, r) && forall v | Fits(g, rule, v, r) :: w.tindex <= v.tindex
  }

  /** The dependency graph of a rule. */
  ghost predicate IsPdgOf(g: Graph, rule: Rule, pdg: Pdg) {
    forall w, r :: (w, r) in pdg <==> FirstFit(g, rule, w, r)
  }

  lemma {:induction false} FirstFitExists(g: Graph, rule: Rule, w: Loc, r: Loc) returns (first: Loc)
    requires Fits(g, rule, w, r)
    ensures FirstFit(g, rule, first, r) && first.tindex <= w.tindex
    decreases w.tindex
  {
    if v: Loc :| Fits(g, rule, v, r) && v.tindex < w.tindex {
      first := FirstFitExists(g, rule, v, r);
    } else {
      first := w;
    }
  }

  /** For accesses inside one line, different intervals are different lines. */
  lemma IntervalsAreLines(address0: nat, size0: nat, address1: nat, size1: nat)
    requires InOneLine(address0, size0) && InOneLine(address1, size1)
    ensures CachelineInterval(address0, size0) != CachelineInterval(address1, size1) <==>
              CachelineAddress(address0) != CachelineAddress(address1)
  {
    assert CachelineAddress(address0 + size0 - 1 + 64) == CachelineAddress(address0 + size0 - 1) + 64;
    assert CachelineAddress(address1 + size1 - 1 + 64) == CachelineAddress(address1 + size1 - 1) + 64;
  }

  lemma FitsMock(g: Graph, rule: Rule, w: Loc, r: Loc)
    requires g.LineAligned() && Fits(g, rule, w, r)
    ensures Fits(g, Mock, w, r)
  {
    assert g.At(w) == g.threads[w.tid][w.tindex] && g.At(r) == g.threads[r.tid][r.tindex];
    IntervalsAreLines(g.At(w).address, g.At(w).size, g.At(r).address, g.At(r).size);
  }

  /** The mock is optimal: whatever instructions depend on each other, a read's first dependent write in the
      mock comes no later, and a read without one in the mock has none. */
  lemma MockIsOptimal(g: Graph, rule: Rule, mock: Pdg, built: Pdg, w: Loc, r: Loc) returns (first: Loc)
    requires g.LineAligned() && IsPdgOf(g, Mock, mock) && IsPdgOf(g, rule, built) && (w, r) in built
    ensures (first, r) in mock && first.tindex <= w.tindex
  {
    FitsMock(g, rule, w, r);
    first := FirstFitExists(g, Mock, w, r);
  }

  /** The detector may use either: an edge runs from a write to an earlier read of the thread on another line. */
  lemma PdgsAreUsable(g: Graph, rule: Rule, pdg: Pdg)
    requires g.LineAligned() && IsPdgOf(g, rule, pdg)
    ensures PdgOk(g, pdg) && ReadsFirst(pdg)
  {
    forall e | e in pdg
      ensures Fits(g, Mock, e.0, e.1)
    {
      assert e == (e.0, e.1);
      FitsMock(g, rule, e.0, e.1);
    }
  }

  // ----- how far a loop has come -----

  /** Reads before position `i` of a thread that no write before `i` fits. */
  ghost predicate Waiting(g: Graph, rule: Rule, t: int, i: nat, r: Loc) {
    g.IsRead(r) && r.tid == t && r.tindex < i && forall v | Fits(g, rule, v, r) :: i <= v.tindex
  }

  /** Edges of the threads done so far and of the first `i` nodes of thread `t`. */
  ghost predicate EdgesUpTo(g: Graph, rule: Rule, before: Pdg, pdg: Pdg, t: int, i: nat) {
    forall w, r :: (w, r) in pdg <==> (w, r) in before || (FirstFit(g, rule, w, r) && w.tid == t && w.tindex < i)
  }

  lemma WaitingStep(g: Graph, rule: Rule, n: Loc, r: Loc)
    ensures Waiting(g, rule, n.tid, n.tindex + 1, r) <==>
              (Waiting(g, rule, n.tid, n.tindex, r) && !Fits(g, rule, n, r)) || (r == n && g.IsRead(r))
  {
    if Waiting(g, rule, n.tid, n.tindex, r) && !Fits(g, rule, n, r) {
      forall v | Fits(g, rule, v, r) ensures n.tindex + 1 <= v.tindex {
        assert v != n && v.tid == n.tid;
      }
    }
  }
}

module PdgBuilding {
  import opened Cachelines
  import opened Hbg
  import opened RaceSpec
  import opened PdgSpec
  import opened Picking

  /** `r` is in the pending set of its instruction. */
  predicate Pends(g: Graph, pending: map<int, set<Loc>>, r: Loc) {
    g.IsRead(r) && g.At(r).pc in pending && r in pending[g.At(r).pc]
  }

  /** Pending sets hold nothing but reads of their instruction. */
  ghost predicate ByPc(g: Graph, pending: map<int, set<Loc>>) {
    forall pc, r | pc in pending && r in pending[pc] :: g.IsRead(r) && g.At(r).pc == pc
  }

  function WithPc(dependencies: map<int, set<int>>, write: int, read: int): map<int, set<int>> {
    dependencies[write := (if write in dependencies then dependencies[write] else {}) + {read}]
  }

  class PDGBuilder {
    var graph: Pdg
    var dependencies: map<int, set<int>>

    constructor ()
      ensures graph == {} && dependencies == map[]
    {
      graph, dependencies := {}, map[];
    }

    /** The requirements are the assertions of the source. */
    method AddDependency(g: Graph, w: Loc, r: Loc)
      requires g.IsWrite(w) && g.IsRead(r) && w.tid == r.tid
      modifies this`graph
      ensures graph == old(graph) + {(w, r)}
    {
      graph := graph + {(w, r)};
    }

    method AddDependencyPc(write: int, read: int)
      modifies this`dependencies
      ensures dependencies == WithPc(old(dependencies), write, read)
    {
      dependencies := dependencies[write := (if write in dependencies then dependencies[write] else {}) + {read}];
    }

    /** `total_dependencies`: nodes of the graph, and dependent instructions. */
    method TotalDependencies() returns (total: nat)
      ensures total == 0 <==> graph == {} && forall w | w in dependencies :: dependencies[w] == {}
    {
      var nodes := (set e | e in graph :: e.0) + (set e | e in graph :: e.1);
      total := |nodes|;
      if e :| e in graph {
        assert e.0 in nodes;
      }
      var todo := dependencies.Keys;
      while todo != {}
        invariant todo <= dependencies.Keys
        invariant total == 0 <==> graph == {} && forall w | w in dependencies.Keys - todo :: dependencies[w] == {}
      {
        var w := Pick(todo);
        todo := todo - {w};
        total := total + |dependencies[w]|;
      }
    }

    /** One thread of `build`. */
    method BuildThread(g: Graph, t: int)
      requires t in g.threads
      modifies this`graph
      ensures EdgesUpTo(g, Pcs(dependencies), old(graph), graph, t, |g.threads[t]|)
    {
      ghost var rule := Pcs(dependencies);
      var pending: map<int, set<Loc>> := map[];
      for i := 0 to |g.threads[t]|
        invariant rule == Pcs(dependencies) && ByPc(g, pending)
        invariant forall r :: Pends(g, pending, r) <==> Waiting(g, rule, t, i, r)
        invariant EdgesUpTo(g, rule, old(graph), graph, t, i)
      {
        var n := Loc(t, i);
        var node := g.At(n);
        if node.Read? {
          pending := pending[node.pc := (if node.pc in pending then pending[node.pc] else {}) + {n}];
        } else if node.Write? && node.pc in dependencies {
          pending := MatchWrite(g, n, pending);
        }
        forall r ensures Pends(g, pending, r) <==> Waiting(g, rule, t, i + 1, r) {
          WaitingStep(g, rule, n, r);
        }
      }
    }

    /** The reads a write fits, in the pending sets of the instructions it depends on. */
    method MatchWrite(g: Graph, n: Loc, before: map<int, set<Loc>>) returns (pending: map<int, set<Loc>>)
      requires g.IsWrite(n) && g.At(n).pc in dependencies && ByPc(g, before)
      requires forall r | Pends(g, before, r) :: r.tid == n.tid && r.tindex < n.tindex
      modifies this`graph
      ensures ByPc(g, pending)
      ensures forall r :: Pends(g, pending, r) <==> Pends(g, before, r) && !Fits(g, Pcs(dependencies), n, r)
      ensures forall w, r :: (w, r) in graph <==>
                ((w, r) in old(graph) || (w == n && Pends(g, before, r) && Fits(g, Pcs(dependencies), n, r)))
    {
      ghost var rule := Pcs(dependencies);
      pending := before;
      var pcs := dependencies[g.At(n).pc];
      var todo := pcs;
      while todo != {}
        invariant todo <= pcs && pcs == rule.dependencies[g.At(n).pc] && rule == Pcs(dependencies) && ByPc(g, pending)
        invariant forall r :: Pends(g, pending, r) <==>
                    Pends(g, before, r) && (g.At(r).pc in todo || !Fits(g, rule, n, r))
        invariant forall w, r :: (w, r) in graph <==> ((w, r) in old(graph) ||
                    (w == n && Pends(g, before, r) && Fits(g, rule, n, r) && g.At(r).pc !in todo))
      {
        var pc := Pick(todo);
        todo := todo - {pc};
        if pc in pending {
          assert forall r | r in pending[pc] :: Pends(g, pending, r);
          var removed := MatchPc(g, n, pc, pending[pc]);
          pending := pending[pc := pending[pc] - removed];
        }
      }
    }

    /** One pending set: `pending_reads_to_remove` are the reads that got an edge. */
    method MatchPc(g: Graph, n: Loc, pc: int, candidates: set<Loc>)
      returns (removed: set<Loc>)
      requires g.IsWrite(n) && g.At(n).pc in dependencies && pc in dependencies[g.At(n).pc]
      requires forall r | r in candidates :: g.IsRead(r) && g.At(r).pc == pc && r.tid == n.tid && r.tindex < n.tindex
      modifies this`graph
      ensures forall r :: r in removed <==> r in candidates && Fits(g, Pcs(dependencies), n, r)
      ensures forall w, r :: (w, r) in graph <==> ((w, r) in old(graph) || (w == n && r in removed))
    {
      ghost var rule := Pcs(dependencies);
      removed := {};
      var todo := candidates;
      while todo != {}
        invariant todo <= candidates && removed <= candidates && rule == Pcs(dependencies)
        invariant forall r :: r in removed <==> r in candidates - todo && Fits(g, rule, n, r)
        invariant forall w, r :: (w, r) in graph <==> ((w, r) in old(graph) || (w == n && r in removed))
      {
        var r := Pick(todo);
        todo := todo - {r};
        var (write, read) := (g.At(n), g.At(r));
        if CachelineInterval(write.address, write.size) != CachelineInterval(read.address, read.size) {
          AddDependency(g, n, r);
          removed := removed + {r};
        }
      }
    }

    /** `build`: besides the edges added one by one, those of the PC-based dependencies. */
    method Build(g: Graph) returns (pdg: Pdg)
      modifies this`graph
      ensures pdg == graph && old(graph) <= pdg
      ensures forall w, r :: (w, r) in pdg <==> (w, r) in old(graph) || FirstFit(g, Pcs(dependencies), w, r)
    {
      ghost var rule := Pcs(dependencies);
      var todo := if dependencies == map[] then {} else g.threads.Keys;
      while todo != {}
        invariant todo <= g.threads.Keys
        invariant rule == Pcs(dependencies)
        invariant dependencies != map[] ==> forall w, r :: (w, r) in graph <==>
                    ((w, r) in old(graph) || (FirstFit(g, rule, w, r) && w.tid !in todo))
        invariant dependencies == map[] ==> graph == old(graph) && todo == {}
      {
        var t := Pick(todo);
        todo := todo - {t};
        BuildThread(g, t);
      }
      pdg := graph;
      forall e | e in old(graph) ensures e in pdg {
        assert e == (e.0, e.1);
      }
    }
  }

  /** One thread of `generate_mock_pdg_v2`. */
  method MockThread(g: Graph, t: int, builder: PDGBuilder)
    requires t in g.threads
    modifies builder`graph
    ensures EdgesUpTo(g, Mock, old(builder.graph), builder.graph, t, |g.threads[t]|)
  {
    var waiting: set<Loc> := {};
    for i := 0 to |g.threads[t]|
      invariant forall r :: r in waiting <==> Waiting(g, Mock, t, i, r)
      invariant EdgesUpTo(g, Mock, old(builder.graph), builder.graph, t, i)
    {
      var n := Loc(t, i);
      if g.At(n).Read? {
        waiting := waiting + {n};
      } else if g.At(n).Write? {
        waiting := MockWrite(g, n, waiting, builder);
      }
    }
  }

  method MockWrite(g: Graph, n: Loc, before: set<Loc>, builder: PDGBuilder) returns (waiting: set<Loc>)
    requires g.IsWrite(n) && forall r | r in before :: g.IsRead(r) && r.tid == n.tid && r.tindex < n.tindex
    modifies builder`graph
    ensures forall r :: r in waiting <==> r in before && !Fits(g, Mock, n, r)
    ensures forall w, r :: (w, r) in builder.graph <==>
              ((w, r) in old(builder.graph) || (w == n && r in before && Fits(g, Mock, n, r)))
  {
    waiting := before;
    var todo := set r | r in before && g.At(r).Line() != g.At(n).Line();
    while todo != {}
      invariant todo <= waiting <= before
      invariant forall r | r in todo :: Fits(g, Mock, n, r)
      invariant forall r :: r in waiting <==> r in before && (r in todo || !Fits(g, Mock, n, r))
      invariant forall w, r :: (w, r) in builder.graph <==>
                  ((w, r) in old(builder.graph) || (w == n && r in before && Fits(g, Mock, n, r) && r !in todo))
    {
      var r := Pick(todo);
      todo := todo - {r};
      builder.AddDependency(g, n, r);
      waiting := waiting - {r};
    }
  }

  method GenerateMockPdgV2(g: Graph) returns (pdg: Pdg)
    ensures IsPdgOf(g, Mock, pdg)
  {
    var builder := new PDGBuilder();
    var todo := g.threads.Keys;
    while todo != {}
      invariant todo <= g.threads.Keys
      invariant forall w, r :: (w, r) in builder.graph <==> FirstFit(g, Mock, w, r) && w.tid !in todo
    {
      var t := Pick(todo);
      todo := todo - {t};
      MockThread(g, t, builder);
    }
    pdg := builder.graph;
  }
}

/** `pdg_distance`: how much later than in the mock a read's first dependent write comes, counted in writes. */
module PdgDistances {
  import opened Hbg
  import opened RaceSpec
  import opened Wrappers
  import opened PdgSpec
  import opened Picking

  /** A write's position among the writes of its thread. */
  function WritesBefore(nodes: seq<Node>, i: nat): nat
    requires i <= |nodes|
  {
    if i == 0 then 0 else WritesBefore(nodes, i - 1) + if nodes[i - 1].Write? then 1 else 0
  }

  function WriteIndex(g: Graph, w: Loc): nat
    requires g.Has(w)
  {
    WritesBefore(g.threads[w.tid], w.tindex)
  }

  /** How many writes of the thread come before. */
  lemma {:induction false} WritesBeforeIs(nodes: seq<Node>, i: nat)
    requires i <= |nodes|
    ensures WritesBefore(nodes, i) == |set k: nat | k < i && nodes[k].Write?|
  {
    if i > 0 {
      WritesBeforeIs(nodes, i - 1);
      var before, after := set k: nat | k < i - 1 && nodes[k].Write?, set k: nat | k < i && nodes[k].Write?;
      assert after == before + if nodes[i - 1].Write? then {i - 1} else {};
    }
  }

  lemma {:induction false} WritesBeforeGrows(nodes: seq<Node>, i: nat, j: nat)
    requires i <= j <= |nodes|
    ensures WritesBefore(nodes, i) <= WritesBefore(nodes, j)
    decreases j
  {
    if i < j {
      WritesBeforeGrows(nodes, i, j - 1);
    }
  }

  /** Differences of a number or infinity and a number or infinity. */
  datatype Distance = Finite(n: int) | PlusInfinity | MinusInfinity | NotANumber

  function Minus(a: Option<nat>, b: Option<nat>): Distance {
    match (a, b)
    case (Some(i: int), Some(j: int)) => Finite(i - j)
    case (None, Some(_)) => PlusInfinity
    case (Some(_), None) => MinusInfinity
    case (None, None) => NotANumber
  }

  predicate Dependant(pdg: Pdg, w: Loc, r: Loc) { (w, r) in pdg }

  /** The least index of a dependent write; none stands for infinity. */
  ghost predicate IsFirstIndex(g: Graph, pdg: Pdg, r: Loc, m: Option<nat>) {
    match m
    case None => forall w :: !Dependant(pdg, w, r)
    case Some(k) =>
      && (exists w :: Dependant(pdg, w, r) && g.Has(w) && WriteIndex(g, w) == k)
      && (forall w | Dependant(pdg, w, r) && g.Has(w) :: k <= WriteIndex(g, w))
  }

  method FirstIndex(g: Graph, pdg: Pdg, r: Loc, locations: map<Loc, nat>) returns (m: Option<nat>)
    requires PdgOk(g, pdg)
    requires forall w | g.IsWrite(w) && w.tid == r.tid :: w in locations && locations[w] == WriteIndex(g, w)
    ensures IsFirstIndex(g, pdg, r, m)
  {
    m := None;
    var dependants := set e | e in pdg && e.1 == r :: e.0;
    var todo := dependants;
    ghost var seen: set<Loc> := {};
    while todo != {}
      invariant seen + todo == dependants
      invariant m.None? ==> seen == {}
      invariant m.Some? ==> exists w :: w in seen && Dependant(pdg, w, r) && g.Has(w) && WriteIndex(g, w) == m.value
      invariant m.Some? ==> forall w | w in seen && g.Has(w) :: m.value <= WriteIndex(g, w)
    {
      var w := Pick(todo);
      todo := todo - {w};
      seen := seen + {w};
      assert g.IsWrite((w, r).0) && (w, r).0.tid == (w, r).1.tid && Dependant(pdg, w, r);
      if m.None? || locations[w] < m.value {
        m := Some(locations[w]);
      }
    }
    forall w | Dependant(pdg, w, r) ensures w in seen {
      assert (w, r).0 in dependants;
    }
  }

  /** `write_locations` of one thread. */
  method WriteLocations(g: Graph, t: int) returns (locations: map<Loc, nat>)
    requires t in g.threads
    ensures forall w | g.IsWrite(w) && w.tid == t :: w in locations && locations[w] == WriteIndex(g, w)
  {
    locations := map[];
    var next: nat := 0;
    for i := 0 to |g.threads[t]|
      invariant next == WritesBefore(g.threads[t], i)
      invariant forall w | g.IsWrite(w) && w.tid == t && w.tindex < i :: w in locations && locations[w] == WriteIndex(g, w)
    {
      if g.threads[t][i].Write? {
        locations := locations[Loc(t, i) := next];
        next := next + 1;
      }
    }
  }

  ghost predicate IsDistance(g: Graph, pdg1: Pdg, pdg2: Pdg, r: Loc, d: Distance) {
    exists m1, m2 :: IsFirstIndex(g, pdg1, r, m1) && IsFirstIndex(g, pdg2, r, m2) && d == Minus(m2, m1)
  }

  /** The distance of every read. */
  method Distances(g: Graph, pdg1: Pdg, pdg2: Pdg) returns (distances: map<Loc, Distance>)
    requires PdgOk(g, pdg1) && PdgOk(g, pdg2)
    ensures forall r :: r in distances <==> g.IsRead(r)
    ensures forall r | r in distances :: IsDistance(g, pdg1, pdg2, r, distances[r])
  {
    distances := map[];
    var todo := g.threads.Keys;
    while todo != {}
      invariant todo <= g.threads.Keys
      invariant forall r :: r in distances <==> g.IsRead(r) && r.tid !in todo
      invariant forall r | r in distances :: IsDistance(g, pdg1, pdg2, r, distances[r])
    {
      var t := Pick(todo);
      var locations := WriteLocations(g, t);
      for i := 0 to |g.threads[t]|
        invariant forall r :: r in distances <==> g.IsRead(r) && (r.tid !in todo || (r.tid == t && r.tindex < i))
        invariant forall r | r in distances :: IsDistance(g, pdg1, pdg2, r, distances[r])
      {
        var r := Loc(t, i);
        if g.At(r).Read? {
          var m1 := FirstIndex(g, pdg1, r, locations);
          var m2 := FirstIndex(g, pdg2, r, locations);
          distances := distances[r := Minus(m2, m1)];
        }
      }
      todo := todo - {t};
    }
  }

  // ----- mean and count -----

  function FiniteReads(ds: map<Loc, Distance>): set<Loc> { set r | r in ds && ds[r].Finite? }

  ghost function Total(ds: map<Loc, Distance>, rs: set<Loc>): int
    requires forall r | r in rs :: r in ds && ds[r].Finite?
  {
    if rs == {} then 0
    else
      var r :| r in rs;
      ds[r].n + Total(ds, rs - {r})
  }

  /** The order of the summands does not matter. */
  lemma {:induction false} TotalWithout(ds: map<Loc, Distance>, rs: set<Loc>, r: Loc)
    requires (forall q | q in rs :: q in ds && ds[q].Finite?) && r in rs
    ensures Total(ds, rs) == ds[r].n + Total(ds, rs - {r})
    decreases |rs|
  {
    var q :| q in rs && Total(ds, rs) == ds[q].n + Total(ds, rs - {q});
    if q != r {
      TotalWithout(ds, rs - {q}, r);
      TotalWithout(ds, rs - {r}, q);
      assert rs - {q} - {r} == rs - {r} - {q};
    }
  }

  /** The assertion that no distance is negative fails, there is nothing to take the mean of, or there is a mean. */
  datatype Summary = Negative | NoMean | Summary(mean: real, missing: nat)

  ghost predicate Summarizes(ds: map<Loc, Distance>, s: Summary) {
    var finite := FiniteReads(ds);
    match s
    case Negative => exists r :: r in finite && ds[r].n < 0
    case NoMean => finite == {}
    case Summary(mean, missing) =>
      && finite != {} && (forall r | r in finite :: ds[r].n >= 0)
      && mean * |finite| as real == Total(ds, finite) as real && missing == |set r | r in ds && !ds[r].Finite? && !ds[r].NotANumber?|
  }

  method Summarize(ds: map<Loc, Distance>) returns (s: Summary)
    ensures Summarizes(ds, s)
  {
    var finite := FiniteReads(ds);
    if r :| r in finite && ds[r].n < 0 {
      return Negative;
    }
    if finite == {} {
      return NoMean;
    }
    var sum := 0;
    var todo := finite;
    while todo != {}
      invariant todo <= finite && sum + Total(ds, todo) == Total(ds, finite)
    {
      var r := Pick(todo);
      TotalWithout(ds, todo, r);
      sum := sum + ds[r].n;
      todo := todo - {r};
    }
    var missing := set r | r in ds && (ds[r].PlusInfinity? || ds[r].MinusInfinity?);
    assert missing == set r | r in ds && !ds[r].Finite? && !ds[r].NotANumber?;
    s := Summary(sum as real / |finite| as real, |missing|);
  }

  /** `pdg_distance` */
  method PdgDistance(g: Graph, pdg1: Pdg, pdg2: Pdg) returns (distances: map<Loc, Distance>, s: Summary)
    requires PdgOk(g, pdg1) && PdgOk(g, pdg2)
    ensures forall r :: r in distances <==> g.IsRead(r)
    ensures forall r | r in distances :: IsDistance(g, pdg1, pdg2, r, distances[r])
    ensures Summarizes(distances, s)
  {
    distances := Distances(g, pdg1, pdg2);
    s := Summarize(distances);
  }

  /** Measured against the mock no distance is negative, so the assertion at the end of `pdg_distance` never fires;
      a read has no distance exactly when no later write of its thread is to another line. */
  lemma DistanceToMock(g: Graph, rule: Rule, mock: Pdg, built: Pdg, r: Loc, d: Distance)
    requires g.LineAligned() && IsPdgOf(g, Mock, mock) && IsPdgOf(g, rule, built) && IsDistance(g, mock, built, r, d)
    ensures match d case Finite(n) => n >= 0 case PlusInfinity => true case MinusInfinity => false
                case NotANumber => forall w :: !Fits(g, Mock, w, r)
    ensures (forall w :: !Fits(g, Mock, w, r)) ==> d.NotANumber?
  {
    var m1, m2 :| IsFirstIndex(g, mock, r, m1) && IsFirstIndex(g, built, r, m2) && d == Minus(m2, m1);
    if m2.Some? {
      var w :| Dependant(built, w, r) && g.Has(w) && WriteIndex(g, w) == m2.value;
      var first := MockIsOptimal(g, rule, mock, built, w, r);
      assert Dependant(mock, first, r);
      WritesBeforeGrows(g.threads[r.tid], first.tindex, w.tindex);
    }
    if w: Loc :| Fits(g, Mock, w, r) {
      var first := FirstFitExists(g, Mock, w, r);
      assert Dependant(mock, first, r);
    }
    if m1.Some? {
      var w :| Dependant(mock, w, r);
    }
  }

  /** Measured against the mock the assertion never fails. */
  lemma SummaryAgainstMock(g: Graph, rule: Rule, mock: Pdg, built: Pdg, distances: map<Loc, Distance>, s: Summary)
    requires g.LineAligned() && IsPdgOf(g, Mock, mock) && IsPdgOf(g, rule, built)
    requires forall r | r in distances :: IsDistance(g, mock, built, r, distances[r])
    requires Summarizes(distances, s)
    ensures !s.Negative?
  {
    if s.Negative? {
      var r :| r in FiniteReads(distances) && distances[r].n < 0;
      DistanceToMock(g, rule, mock, built, r, distances[r]);
    }
  }
}
