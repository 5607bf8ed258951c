/** From a trace to its races: `run` of `prd_runner.py`. */
module Pipeline {
  import opened Cachelines
  import opened Hbg
  import opened Wrappers
  import opened HappensAfterSpec
  import opened DirtyInvariant
  import opened RaceSpec
  import opened HbgBuilding
  import opened PdgSpec
  import opened PdgBuilding
  import opened PdgDistances
  import opened Detector

  /** What a trace says: nodes, edges between epochs, and dependencies as pairs of instructions, the write's first, or of
      events. */
  datatype Trace = Trace(nodes: seq<(int, Node)>, edges: set<((int, int), (int, int))>,
                         pcs: seq<(int, int)>, events: seq<(Loc, Loc)>)

  /** One of the assertions on the way fails, there is nothing to take the mean of, or there are races. */
  datatype Outcome = Crossing | NegativeDistance | NoMeanDistance | Found(races: map<Race, bool>)

  function Recorded(pcs: seq<(int, int)>): map<int, set<int>> {
    if pcs == [] then map[] else WithPc(Recorded(pcs[..|pcs| - 1]), pcs[|pcs| - 1].0, pcs[|pcs| - 1].1)
  }

  /** What is recorded are the pairs of the trace. */
  lemma {:induction false} RecordedAre(pcs: seq<(int, int)>, w: int, r: int)
    ensures w in Recorded(pcs) && r in Recorded(pcs)[w] <==> (w, r) in pcs
    decreases |pcs|
  {
    if pcs != [] {
      RecordedAre(pcs[..|pcs| - 1], w, r);
      assert pcs == pcs[..|pcs| - 1] + [pcs[|pcs| - 1]];
    }
  }

  lemma RecordedKeys(pcs: seq<(int, int)>)
    ensures (forall w | w in Recorded(pcs) :: Recorded(pcs)[w] == {}) <==> pcs == []
  {
    if pcs != [] {
      assert pcs[0] == (pcs[0].0, pcs[0].1) && pcs[0] in pcs;
      RecordedAre(pcs, pcs[0].0, pcs[0].1);
    }
  }

  function Events(tr: Trace): Pdg { set e | e in tr.events }

  /** The mock is used if it is asked for, and if the trace has no dependencies, neither of instructions nor of events. */
  ghost predicate UsesMock(tr: Trace, mock: bool) { mock || ((forall p :: p !in tr.pcs) && (forall e :: e !in tr.events)) }

  /** Some line of the trace says that the write's instruction depends on the read's, which comes first in the thread and is
      of another line. */
  predicate Depends(tr: Trace, g: Graph, w: Loc, r: Loc) {
    && g.IsWrite(w) && g.IsRead(r) && w.tid == r.tid && r.tindex < w.tindex
    && (g.At(w).pc, g.At(r).pc) in tr.pcs && g.At(w).Line() != g.At(r).Line()
  }

  /** `w` is the first write that depends on the read. */
  ghost predicate FirstDepends(tr: Trace, g: Graph, w: Loc, r: Loc) {
    Depends(tr, g, w, r) && forall v | Depends(tr, g, v, r) :: w.tindex <= v.tindex
  }

  lemma FitsIsDepends(tr: Trace, g: Graph, w: Loc, r: Loc)
    requires g.LineAligned()
    ensures Fits(g, Pcs(Recorded(tr.pcs)), w, r) <==> Depends(tr, g, w, r)
  {
    if g.IsWrite(w) && g.IsRead(r) {
      assert g.At(w) == g.threads[w.tid][w.tindex] && g.At(r) == g.threads[r.tid][r.tindex];
      IntervalsAreLines(g.At(w).address, g.At(w).size, g.At(r).address, g.At(r).size);
      RecordedAre(tr.pcs, g.At(w).pc, g.At(r).pc);
    }
  }

  lemma FirstFitIsFirstDepends(tr: Trace, g: Graph, w: Loc, r: Loc)
    requires g.LineAligned()
    ensures FirstFit(g, Pcs(Recorded(tr.pcs)), w, r) <==> FirstDepends(tr, g, w, r)
  {
    forall v ensures Fits(g, Pcs(Recorded(tr.pcs)), v, r) <==> Depends(tr, g, v, r) {
      FitsIsDepends(tr, g, v, r);
    }
  }

  /** The mock, or what the trace says: dependent events, and for each read the first write that depends on it. */
  ghost predicate IsPdg(tr: Trace, mock: bool, g: Graph, pdg: Pdg) {
    if UsesMock(tr, mock) then IsPdgOf(g, Mock, pdg)
    else forall w, r :: (w, r) in pdg <==> (w, r) in tr.events || FirstDepends(tr, g, w, r)
  }

  /** Reads and writes have a size and flushes are whole aligned lines; dependent events are a write and a read of its
      thread, on two lines. */
  ghost predicate InputOk(tr: Trace) {
    && TraceOk(tr.nodes, tr.edges)
    && (forall i | 0 <= i < |tr.nodes| :: NodeOk(tr.nodes[i].1))
    && (forall g | IsGraphOf(tr.nodes, tr.edges, g) :: PdgOk(g, Events(tr)))
  }

  predicate NodeOk(n: Node) {
    && (n.IsAccess() ==> n.size > 0)
    && (n.Flush? ==> n.address % CACHELINE_SIZE == 0 && n.size == CACHELINE_SIZE)
  }

  predicate StaysInLine(n: Node) { n.IsAccess() ==> InOneLine(n.address, n.size) }

  /** The assertion of `_find_vars`, which every graph has to pass. */
  method FindVars(nodes: seq<(int, Node)>) returns (ok: bool)
    requires forall i | 0 <= i < |nodes| :: NodeOk(nodes[i].1)
    ensures ok <==> forall i | 0 <= i < |nodes| :: StaysInLine(nodes[i].1)
  {
    for i := 0 to |nodes|
      invariant forall j | 0 <= j < i :: StaysInLine(nodes[j].1)
    {
      var n := nodes[i].1;
      if n.IsAccess() && n.address + n.size > CachelineAddress(n.address) + CACHELINE_SIZE {
        assert !StaysInLine(n);
        return false;
      }
    }
    ok := true;
  }

  lemma GraphIsAligned(tr: Trace, g: Graph)
    requires IsGraphOf(tr.nodes, tr.edges, g)
    requires forall i | 0 <= i < |tr.nodes| :: NodeOk(tr.nodes[i].1) && StaysInLine(tr.nodes[i].1)
    ensures g.LineAligned()
  {
    forall t, k | t in g.threads && 0 <= k < |g.threads[t]| ensures NodeOk(g.threads[t][k]) && StaysInLine(g.threads[t][k]) {
      var i := NodeInTrace(tr.nodes, t, k);
    }
  }

  /** The parser tells the builder of the dependencies one by one. */
  method Builder(tr: Trace, g: Graph) returns (builder: PDGBuilder)
    requires PdgOk(g, Events(tr))
    ensures fresh(builder) && builder.graph == Events(tr) && builder.dependencies == Recorded(tr.pcs)
  {
    builder := new PDGBuilder();
    for i := 0 to |tr.pcs|
      invariant builder.graph == {} && builder.dependencies == Recorded(tr.pcs[..i])
    {
      assert tr.pcs[..i + 1][..i] == tr.pcs[..i];
      builder.AddDependencyPc(tr.pcs[i].0, tr.pcs[i].1);
    }
    assert tr.pcs[..|tr.pcs|] == tr.pcs;
    for i := 0 to |tr.events|
      invariant builder.dependencies == Recorded(tr.pcs)
      invariant builder.graph == set e | e in tr.events[..i]
    {
      assert tr.events[i] in Events(tr);
      assert tr.events[..i + 1] == tr.events[..i] + [tr.events[i]];
      builder.AddDependency(g, tr.events[i].0, tr.events[i].1);
    }
    assert tr.events[..|tr.events|] == tr.events;
  }

  /** Some measuring of the dependencies against the mock says so. */
  ghost predicate Measured(g: Graph, pdg: Pdg, s: Summary) {
    exists mock, distances :: IsMeasuring(g, mock, pdg, distances) && Summarizes(distances, s)
  }

  ghost predicate IsMeasuring(g: Graph, mock: Pdg, pdg: Pdg, distances: map<Loc, Distance>) {
    && IsPdgOf(g, Mock, mock) && (forall r :: r in distances <==> g.IsRead(r))
    && (forall r | r in distances :: IsDistance(g, mock, pdg, r, distances[r]))
  }

  /** `build_pdg`, which falls back to the mock, and else compares with it. */
  method BuildPdg(tr: Trace, g: Graph) returns (pdg: Pdg, s: Option<Summary>)
    requires g.LineAligned() && PdgOk(g, Events(tr))
    ensures IsPdg(tr, false, g, pdg) && PdgOk(g, pdg)
    ensures s.None? <==> UsesMock(tr, false)
    ensures s.Some? ==> Measured(g, pdg, s.value) && (s.value.Negative? ==> tr.events != [])
  {
    var builder := Builder(tr, g);
    RecordedKeys(tr.pcs);
    NoneIsEmpty(tr);
    var total := builder.TotalDependencies();
    if total == 0 {
      pdg := GenerateMockPdgV2(g);
      PdgsAreUsable(g, Mock, pdg);
      return pdg, None;
    }
    pdg := builder.Build(g);
    MixedIsUsable(tr, g, pdg);
    var measured := Compare(tr, g, pdg);
    s := Some(measured);
  }

  lemma NoneIsEmpty(tr: Trace)
    ensures UsesMock(tr, false) <==> tr.pcs == [] && Events(tr) == {}
    ensures Events(tr) == {} <==> tr.events == []
  {
    if tr.pcs != [] {
      assert tr.pcs[0] in tr.pcs;
    }
    if tr.events != [] {
      assert tr.events[0] in Events(tr);
    }
  }

  method Compare(tr: Trace, g: Graph, pdg: Pdg) returns (s: Summary)
    requires g.LineAligned() && PdgOk(g, pdg)
    requires forall w, r :: (w, r) in pdg <==> (w, r) in Events(tr) || FirstFit(g, Pcs(Recorded(tr.pcs)), w, r)
    ensures Measured(g, pdg, s) && (s.Negative? ==> tr.events != [])
  {
    var mock := GenerateMockPdgV2(g);
    PdgsAreUsable(g, Mock, mock);
    var distances;
    distances, s := PdgDistance(g, mock, pdg);
    assert IsMeasuring(g, mock, pdg, distances);
    if tr.events == [] {
      assert IsPdgOf(g, Pcs(Recorded(tr.pcs)), pdg);
      SummaryAgainstMock(g, Pcs(Recorded(tr.pcs)), mock, pdg, distances, s);
    }
  }

  lemma MixedIsUsable(tr: Trace, g: Graph, pdg: Pdg)
    requires g.LineAligned() && PdgOk(g, Events(tr))
    requires forall w, r :: (w, r) in pdg <==> (w, r) in Events(tr) || FirstFit(g, Pcs(Recorded(tr.pcs)), w, r)
    ensures PdgOk(g, pdg)
    ensures forall w, r :: (w, r) in pdg <==> (w, r) in tr.events || FirstDepends(tr, g, w, r)
  {
    forall w, r ensures (w, r) in pdg <==> (w, r) in tr.events || FirstDepends(tr, g, w, r) {
      FirstFitIsFirstDepends(tr, g, w, r);
    }
    forall e | e in pdg ensures PdgOk(g, {e}) {
      assert e == (e.0, e.1);
      if e !in Events(tr) {
        FitsMock(g, Pcs(Recorded(tr.pcs)), e.0, e.1);
      }
    }
    forall e | e in pdg ensures g.IsWrite(e.0) && g.IsRead(e.1) && e.0.tid == e.1.tid && g.At(e.0).Line() != g.At(e.1).Line() {
      assert e in {e};
    }
  }

  /** What was found is right for the graph of the trace and its dependencies. */
  ghost predicate IsRight(g: Graph, pdg: Pdg, races: map<Race, bool>) {
    && (forall x :: TrueRace(g, pdg, x) ==> x in races)
    && (FirstReached(g) ==> forall x :: x in races <==> RaceModuloRelays(g, pdg, x))
    && (FirstReached(g) && Bridged(g) ==> forall x :: x in races <==> TrueRace(g, pdg, x))
    && (FirstReached(g) ==> forall x | x in races :: races[x] <==> HB(g, x.write, x.dependent))
  }

  method Detect(g: Graph, chains: DaisyChains, pdg: Pdg, postOrder: seq<Loc>, order: seq<Loc>) returns (races: map<Race, bool>)
    requires g.WellFormed() && g.LineAligned() && PdgOk(g, pdg) && chains.Valid() && ChainsMatch(g.threads, chains)
    requires PostOrder(g, postOrder) && TopologicalOrder(g, order)
    modifies chains
    ensures IsRight(g, pdg, races)
  {
    var prd := new PersistencyRaceDetector(g, pdg, chains);
    var raised := prd.Run(postOrder, order, false, map[], map[]);
    races := prd.races;
  }

  /** From the trace alone: no race of its graph is missed, and under the two hypotheses on the shape of its graph the
      races found are exactly the persistency races. The orders are the graph library's answers. */
  method Run(tr: Trace, mock: bool, postOrder: seq<Loc>, order: seq<Loc>)
    returns (r: Outcome, ghost g: Graph, ghost pdg: Pdg)
    requires InputOk(tr)
    requires forall g | IsGraphOf(tr.nodes, tr.edges, g) :: PostOrder(g, postOrder) && TopologicalOrder(g, order)
    ensures IsGraphOf(tr.nodes, tr.edges, g) && g.WellFormed()
    ensures r.Crossing? <==> exists i :: 0 <= i < |tr.nodes| && !StaysInLine(tr.nodes[i].1)
    ensures !r.Crossing? ==> g.LineAligned() && IsPdg(tr, mock, g, pdg)
    ensures r.NegativeDistance? ==> !UsesMock(tr, mock) && tr.events != [] && Measured(g, pdg, Negative)
    ensures r.NoMeanDistance? ==> !UsesMock(tr, mock) && Measured(g, pdg, NoMean)
    ensures r.Found? ==> IsRight(g, pdg, r.races)
    ensures r.Found? && !UsesMock(tr, mock) ==> exists s: Summary :: s.Summary? && Measured(g, pdg, s)
  {
    var hbg, chains := Build(tr.nodes, tr.edges);
    g, pdg := hbg, {};
    var ok := FindVars(tr.nodes);
    if !ok {
      return Crossing, g, pdg;
    }
    GraphIsAligned(tr, hbg);
    var dependencies, s;
    if mock {
      dependencies := GenerateMockPdgV2(hbg);
      s := None;
      PdgsAreUsable(hbg, Mock, dependencies);
    } else {
      dependencies, s := BuildPdg(tr, hbg);
    }
    if s.Some? && !s.value.Summary? {
      return if s.value.Negative? then NegativeDistance else NoMeanDistance, g, dependencies;
    }
    pdg := dependencies;
    var races := Detect(hbg, chains, dependencies, postOrder, order);
    r := Found(races);
  }
}
