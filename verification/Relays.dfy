/** An epoch node that relays makes the first pass blind: a graph on which the detector reports a race that is
    none, although its second pass loses nothing. */
module Relays {
  import opened Hbg
  import opened HappensAfterSpec
  import opened DirtyInvariant
  import opened RaceSpec
  import opened DirtyFilter
  import opened Detector
  import opened HbgBuilding
  import opened PdgSpec
  import opened Pipeline
  import opened IsBugReference

  /** Thread 1 only passes on to thread 2 what it hears from thread 0. */
  const RELAYING := Graph(
    map[0 := [Read(0, 0, 8), Epoch(0), Write(1, 64, 8, false)], 1 := [Epoch(0)], 2 := [Epoch(0), Write(2, 0, 8, false)]],
    {(Loc(0, 1), Loc(1, 0)), (Loc(1, 0), Loc(2, 0))})

  const DEPENDENCY: Pdg := {(Loc(0, 2), Loc(0, 0))}

  const NO_RACE := Race(Loc(0, 0), Loc(2, 1), Loc(0, 2))

  lemma RelayedWriteFollows()
    ensures HB(RELAYING, NO_RACE.read, NO_RACE.write)
  {
    var p := [Loc(0, 0), Loc(0, 1), Loc(1, 0), Loc(2, 0), Loc(2, 1)];
    assert p[0] == Loc(0, 0) && p[1] == Loc(0, 1) && p[2] == Loc(1, 0) && p[3] == Loc(2, 0) && p[4] == Loc(2, 1);
    assert Joins(RELAYING, p, NO_RACE.read, NO_RACE.write);
  }

  lemma RelayedWriteIsMissed()
    ensures !RF(RELAYING, NO_RACE.read, NO_RACE.write)
  {
    var g, w := RELAYING, NO_RACE.write;
    if RF(g, Loc(0, 0), w) {
      var n := RfFirstStep(g, Loc(0, 0), w);
      assert n == Loc(0, 0);
      n := RfFirstStep(g, Loc(0, 1), w);
      RfImpliesHb(g, Next(n), w);
      HbHas(g, Next(n), w);
      assert n == Loc(0, 1);
      n := RfFirstStep(g, Loc(0, 2), w);
      RfImpliesHb(g, Next(n), w);
      HbHas(g, Next(n), w);
    }
  }

  lemma RelayingIsFine()
    ensures RELAYING.WellFormed() && RELAYING.LineAligned() && FirstReached(RELAYING)
  {
    assert forall e | e in RELAYING.inter :: e.1.tindex == 0;
  }

  /** Every edge ends at the first node its source reaches, and still the detector reports what is no race. */
  lemma RelayMakesFalseRace()
    ensures RELAYING.WellFormed() && RELAYING.LineAligned() && PdgOk(RELAYING, DEPENDENCY) && FirstReached(RELAYING)
    ensures RaceModuloRelays(RELAYING, DEPENDENCY, NO_RACE) && !TrueRace(RELAYING, DEPENDENCY, NO_RACE)
  {
    RelayingIsFine();
    RelayedWriteFollows();
    RelayedWriteIsMissed();
    assert NodesOverlap(RELAYING, NO_RACE.write, NO_RACE.read);
    assert forall f :: !RELAYING.IsFlushOf(f, 0);
  }

  const ORDER := [Loc(0, 0), Loc(0, 1), Loc(0, 2), Loc(1, 0), Loc(2, 0), Loc(2, 1)]
  const POST_ORDER := [Loc(2, 1), Loc(2, 0), Loc(1, 0), Loc(0, 2), Loc(0, 1), Loc(0, 0)]

  lemma RelayingNodes(x: Loc)
    ensures (x in ORDER <==> RELAYING.Has(x)) && (x in POST_ORDER <==> RELAYING.Has(x))
  {
    assert ORDER == [Loc(0, 0), Loc(0, 1), Loc(0, 2), Loc(1, 0), Loc(2, 0), Loc(2, 1)];
    assert POST_ORDER == [Loc(2, 1), Loc(2, 0), Loc(1, 0), Loc(0, 2), Loc(0, 1), Loc(0, 0)];
    if RELAYING.Has(x) {
      assert x == Loc(x.tid, x.tindex);
    }
  }

  lemma OrderRunsForwards()
    ensures forall i, j | 0 <= i < 6 && 0 <= j < 6 && RELAYING.Edge(ORDER[i], ORDER[j]) :: i < j
  {
    var order := ORDER;
    assert order[0] == Loc(0, 0) && order[1] == Loc(0, 1) && order[2] == Loc(0, 2);
    assert order[3] == Loc(1, 0) && order[4] == Loc(2, 0) && order[5] == Loc(2, 1);
  }

  lemma PostOrderIsReversed()
    ensures forall i | 0 <= i < 6 :: POST_ORDER[i] == ORDER[5 - i]
  {
  }

  lemma RelayingIsOrdered()
    ensures TopologicalOrder(RELAYING, ORDER) && PostOrder(RELAYING, POST_ORDER)
  {
    forall x ensures (x in ORDER <==> RELAYING.Has(x)) && (x in POST_ORDER <==> RELAYING.Has(x)) {
      RelayingNodes(x);
    }
    OrderRunsForwards();
    PostOrderIsReversed();
  }

  // ----- the trace it is the graph of -----

  const NODES: seq<(int, Node)> :=
    [(0, Read(0, 0, 8)), (0, Epoch(0)), (0, Write(1, 64, 8, false)), (1, Epoch(0)), (2, Epoch(0)), (2, Write(2, 0, 8, false))]

  const EDGES := {((0, 0), (1, 0)), ((1, 0), (2, 0))}

  const TRACE := Trace(NODES, EDGES, [], [])

  lemma ThreadGrows(i: nat, j: nat, t: int)
    requires i < |NODES| && j == i + 1
    ensures ThreadOf(NODES[..j], t) == ThreadOf(NODES[..i], t) + if NODES[i].0 == t then [NODES[i].1] else []
  {
    TraceStep(NODES, i);
  }

  lemma ThreadsOfTrace(t: int)
    ensures ThreadOf(NODES, t) == if t in RELAYING.threads then RELAYING.threads[t] else []
  {
    assert NODES[..0] == [] && NODES[..6] == NODES;
    ThreadGrows(0, 1, t);
    ThreadGrows(1, 2, t);
    ThreadGrows(2, 3, t);
    ThreadGrows(3, 4, t);
    ThreadGrows(4, 5, t);
    ThreadGrows(5, 6, t);
  }

  lemma TidsOfTrace()
    ensures Tids(NODES) == RELAYING.threads.Keys
  {
    assert NODES[0].0 == 0 && NODES[3].0 == 1 && NODES[4].0 == 2;
  }

  lemma RelayingIsGraphOfTrace()
    ensures IsGraphOf(NODES, EDGES, RELAYING)
  {
    TidsOfTrace();
    forall t | t in RELAYING.threads ensures RELAYING.threads[t] == ThreadOf(NODES, t) {
      ThreadsOfTrace(t);
    }
    assert NamesEdge(RELAYING, ((0, 0), (1, 0)), (Loc(0, 1), Loc(1, 0)));
    assert NamesEdge(RELAYING, ((1, 0), (2, 0)), (Loc(1, 0), Loc(2, 0)));
  }

  lemma TraceIsFine()
    ensures TraceOk(NODES, EDGES)
  {
    assert NODES[1] == (0, Epoch(0)) && NODES[3] == (1, Epoch(0)) && NODES[4] == (2, Epoch(0));
  }

  lemma TraceHasOneGraph(g: Graph)
    requires IsGraphOf(NODES, EDGES, g)
    ensures g == RELAYING
  {
    TraceIsFine();
    RelayingIsGraphOfTrace();
    GraphIsUnique(NODES, EDGES, g, RELAYING);
  }

  /** A detector for that graph, built from the trace. */
  method DetectorForTrace() returns (detector: PersistencyRaceDetector)
    ensures fresh(detector) && fresh(detector.daisyChains) && detector.g == RELAYING && detector.pdg == DEPENDENCY
    ensures detector.Inputs() && detector.races == map[] && detector.state == INITIAL
  {
    TraceIsFine();
    RelayMakesFalseRace();
    var g, chains := Build(NODES, EDGES);
    TraceHasOneGraph(g);
    detector := new PersistencyRaceDetector(g, DEPENDENCY, chains);
  }

  /** In these orders the detector reports the race that is none, and validating what it found raises an exception. */
  method RelayIsReported(successors: map<Loc, set<Loc>>, predecessors: map<Loc, seq<Loc>>)
    returns (raised: bool, races: map<Race, bool>)
    requires AreSearches(RELAYING, successors, predecessors)
    ensures NO_RACE in races && !TrueRace(RELAYING, DEPENDENCY, NO_RACE) && raised
  {
    var detector := DetectorForTrace();
    RelayMakesFalseRace();
    RelayingIsOrdered();
    raised := detector.Run(POST_ORDER, ORDER, true, successors, predecessors);
    races := detector.races;
  }

  lemma TraceIsInput()
    ensures InputOk(TRACE) && forall i | 0 <= i < |NODES| :: StaysInLine(NODES[i].1)
  {
    TraceIsFine();
  }

  lemma TraceIsOrdered()
    ensures forall g | IsGraphOf(NODES, EDGES, g) :: PostOrder(g, POST_ORDER) && TopologicalOrder(g, ORDER)
  {
    RelayingIsOrdered();
    forall g | IsGraphOf(NODES, EDGES, g) ensures g == RELAYING {
      TraceHasOneGraph(g);
    }
  }

  lemma DependencyIsInMock(pdg: Pdg)
    requires IsPdgOf(RELAYING, Mock, pdg)
    ensures (Loc(0, 2), Loc(0, 0)) in pdg
  {
    assert Fits(RELAYING, Mock, Loc(0, 2), Loc(0, 0));
    forall v | Fits(RELAYING, Mock, v, Loc(0, 0)) ensures v == Loc(0, 2) {
      assert v == Loc(v.tid, v.tindex);
    }
  }

  lemma FalseRaceIsRight(pdg: Pdg, races: map<Race, bool>)
    requires IsPdgOf(RELAYING, Mock, pdg) && IsRight(RELAYING, pdg, races)
    ensures NO_RACE in races
  {
    RelayMakesFalseRace();
    DependencyIsInMock(pdg);
    assert RaceModuloRelays(RELAYING, pdg, NO_RACE);
  }

  /** So does the whole way from the trace to the races. */
  method RelayIsReportedForTrace() returns (r: Outcome)
    ensures r.Found? && NO_RACE in r.races && !TrueRace(RELAYING, DEPENDENCY, NO_RACE)
  {
    TraceIsInput();
    TraceIsOrdered();
    ghost var g, pdg;
    r, g, pdg := Pipeline.Run(TRACE, true, POST_ORDER, ORDER);
    TraceHasOneGraph(g);
    FalseRaceIsRight(pdg, r.races);
    RelayMakesFalseRace();
  }
}
