# A verified model of the persistency-race detector and its runtime

The repository finds persistency races: a write that depends on a read of data another write has not yet made
persistent. Its detector (`pyprd/src/pycprd`) takes a happens-before graph of reads, writes, flushes and epoch nodes,
and decides races with vector clocks, a dirty-line filter and daisy chains of writes. Its traces come from a taint
runtime (`instrumentation/`) with its own allocator, hash map and labels. This project models both in Dafny and proves
what they promise, for all graphs, all runs and all interleavings.

`dafny verify dfyconfig.toml` checks everything.

## How the model is laid out

| file | what it models |
|---|---|
| `Hbg.dfy` | cache-line arithmetic, the happens-before graph, paths, topological orders, progress of a pass |
| `VectorClocks.dfy`, `DirtyVectors.dfy` | epochs, vector clocks and dirty-line vectors, updated in place and proved against values |
| `PersistedBefore.dfy` | what a clock of a line should know: seen before, and persisted before |
| `DirtyFilter.dfy`, `DirtyInvariant.dfy`, `FilterRuns.dfy` | the filtered second pass: its state, its invariants, whole runs, and when the filter loses nothing |
| `FullRuns.dfy`, `FilterShapes.dfy` | the pass without the filter, which the filter is measured by, and the shapes of graphs for which the filter is lossless whatever is accessed |
| `HappensAfter.dfy`, `RelayShapes.dfy`, `Relays.dfy` | the first pass, which follows exactly the paths that do not relay; the shapes of graphs for which it is exact; a graph and its trace for which it is not |
| `DaisyChains.dfy`, `HbgBuilder.dfy` | chains of writes, node locations, building a graph from a trace |
| `Races.dfy`, `IsBug.dfy` | the definition of a race, the detector, and the graph-search reference that validates what it finds |
| `Pdg.dfy` | dependency graphs, the mock, and distances to it |
| `Pipeline.dfy` | the whole way from a trace to its races |
| `DfsanLabels.dfy`, `UnionProtocol.dfy` | union labels: one thread, and many threads one atomic access at a time |
| `CombineShadows.dfy`, `ShadowAccess.dfy` | what instrumented code computes: unions, collapsing and expansion of shadows, wide loads, argument passing |
| `AddrHashMap.dfy`, `AddrHashReaders.dfy`, `AddrHashCalls.dfy` | one bucket of the concurrent hash map, one memory access at a time; handles that hold no lock; what whole calls answer |
| `PackedCounters.dfy`, `PageRelease.dfy` | packed counters and which pages go back to the system |
| `RegionRelease.dfy`, `Allocator.dfy` | chunk conservation over the free array, thread caches and the program, and which of their pages may be released |
| `Wrappers.dfy`, `Powers.dfy` | an option type, powers and digits |

## Assumptions the code itself makes

* H1: reads and writes lie in one 64-byte line (asserted at `pyprd/src/pycprd/hbg.py:179`), flushes are whole aligned
  lines. `Graph.LineAligned`.
* H2: every inter-thread edge ends at the first node of its thread that its source reaches. `FirstReached`.
* H3: where an epoch node has inter-thread edges both in and out, some path that does not relay leads from the source of
  the one to the end of the other. `Bridged`; it holds if no epoch node has edges both in and out (`NoRelays`).
* H4: dependencies run from a write to a read of the same thread on another line. `PdgOk`; both ways of building a
  dependency graph are proved to give such a graph, and that the read comes first.
* H5: inter-thread edges join existing, distinct epoch nodes of two threads. `Graph.WellFormed`; `HbgBuilding.ResolvedEdges`
  says when a trace's edges do.

`Detector.PersistencyRaceDetector.Run` needs H1, H4 and H5 only to be called, and to validate what it found also that
every read comes before the write that depends on it (`ReadsFirst`, which both ways of building a dependency graph give).
H2 and H3 appear in what it promises: without them no race is missed, with H2 the races are exact up to relays, with both
they are exact and validation never raises an exception. `Pipeline.Run` promises the same of a trace whose edges name
epochs of it; H1, H5, and H4 except for dependencies that name events, then follow.

The instrumentation pass goes through a block in order (`instrumentation/pass/dfsan/DataFlowSanitizer.cpp:1236-1252`).
`ShadowCombining.DFSanFunction.Here` says so of a position.

## What turned out not to hold

* The dirty-line filter loses knowledge where edges cross. For every DAG, `LosslessIffFirstReached` gives the exact
  condition, H2, for the filter to lose nothing wherever one more access is put in; for graphs in which some crossing edge
  leaves right after an access to a private line, `FilterLosslessIff` needs no access put in. `CrossingEdgesLoseKnowledge` shows it
  on five nodes. Lost knowledge only adds reports.
* The first pass misses writes behind a relaying epoch node. `HappensAfterSpec.RExact` says exactly which it finds. For
  every graph, `ExactIffBridged` gives the exact condition, H3, for it to miss nothing and make no false races wherever
  accesses are put in. `RelayIsReportedForTrace` goes from a trace, whose graph has H1, H2, H4 and H5, to a race that is
  none; `RelayIsReported` shows that validation raises an exception for it.
* `is_bug` looks at one flush per thread, the one its breadth-first search meets first. It accepts every race, but it also
  accepts what is none, exactly when the flushes that make it none are all behind nearer ones that do not
  (`ReferenceExactIff`). `ReferenceAcceptsNoRace` shows it on twelve nodes, for every breadth-first search. It does not look
  at non-temporal writes.
* Past the last label the sixteen-bit counter wraps. Until the marker itself has been drawn and somebody draws again, every
  union is right (`RunsAreGood`), and that is exactly the step that goes wrong (`StepGoodIff`). `SomeRunReturnsZero` builds
  a run, from the first state on, in which a union of two labels comes back as label 0. Creating labels goes wrong too:
  label 0 is returned for a new label, and then every label that has been given out comes again (`LabelsComeAgain`,
  `SomeRunCreatesTwice`).
* `release` checks that the cell still has the handle's address. That is guaranteed for every handle but one that reads an
  embedded cell, which holds no lock (`ReleaseChecks`). For such a handle the check holds exactly when every removal of the
  element since it was found was made good by putting the address back into the cell (`ReaderCheckIff`);
  `RemoverEvictsReader` builds a run, from the first state on, in which it fails.
* Expanding a primitive shadow remembers it for collapsing the result again. For a type without any scalar in it, an empty
  struct say, the result has no part to keep labels in, so that what is remembered is wrong exactly if there are labels
  (`ExpandFromPrimitiveShadow`): collapsing gives them back although the shadow itself has none.
* The size of the first add array fits the memory it is given exactly when one cell fits; for larger cells the subtraction
  wraps (`CapsFit`).

## Model

| member | source | states |
|---|---|---|
| Detector.PersistencyRaceDetector.Run | pyprd/src/pycprd/prd.py:504-523 | on every DAG no persistency race is missed; with H2 the races found are exactly those up to relays, each flagged with whether its write happens before the dependent write; with H2 and H3 they are exactly the persistency races; validation raises an exception only if what was found is no race, with H2 exactly then, with H3 too never |
| Detector.PersistencyRaceDetector.Validate | pyprd/src/pycprd/prd.py:518-521 | an exception is raised if and only if the reference rejects some race found, after the given searches; then something found is no race, and if nothing found is flushed also the other way round |
| Detector.PersistencyRaceDetector.Check | pyprd/src/pycprd/prd.py:525-564 | the assertion that the dependent write is reached from the read never fails; a candidate passes if and only if the reference accepts it after the given search; a race passes, and what is not flushed passes only if it is a race |
| Detector.PersistencyRaceDetector.FastSecondPass | pyprd/src/pycprd/prd.py:440-502 | after any topological order every node is processed, the clocks are sound, under H2 lossless, and no race is missing; the pass is one of the runs the properties of the filter are about |
| Detector.PersistencyRaceDetector.EpochNode | pyprd/src/pycprd/prd.py:474-502 | merging what waits and telling all children, in any order, is a step of a run; it keeps the clocks sound and, under H2, every edge served |
| Detector.PersistencyRaceDetector.TouchNode | pyprd/src/pycprd/prd.py:450-472 | a read, write or flush moves its thread's clock of its line on, which is a step of a run, and keeps the invariant; the epoch added is always later than the last |
| Detector.PersistencyRaceDetector.FindBugs | pyprd/src/pycprd/prd.py:310-369 | adds exactly the triples the clocks call races; starting at the last persisted access and breaking off at a write that happens after the read lose nothing |
| Detector.PersistencyRaceDetector.LookAt | pyprd/src/pycprd/prd.py:340-369 | one write of a chain: the look stops only at a write after the read, and otherwise adds the triple exactly if the clocks call it a race |
| Detector.PersistencyRaceDetector.ChainMissesNothing | pyprd/src/pycprd/prd.py:331-361 | every bug of a thread lies in the part of the chain that is looked at, and nothing else does |
| Detector.PersistencyRaceDetector.RaceAssertions | pyprd/src/pycprd/prd.py:29-34 | the three assertions made when a race is built hold for every candidate |
| Detector.PersistencyRaceDetector.BugIffRace | pyprd/src/pycprd/prd.py:310-369 | what the clocks decide is implied by the definition when they are sound, and equivalent to it when they are also complete |
| RaceSpec.SoundClocksReportRaces | pyprd/src/pycprd/prd.py:321-367 | sound clocks hide no race |
| RaceSpec.ExactClocksReportRaces | pyprd/src/pycprd/prd.py:321-367 | complete clocks report nothing that is no race up to relays |
| RaceSpec.RacesModuloRelays | pyprd/src/pycprd/prd.py:297-305 | relays can only add reports, and without relays the two notions of race are the same |
| PersistedBeforeSpec.ExactClock | pyprd/src/pycprd/vector_clock.py:89-96 | a sound and complete clock answers both queries exactly: seen is reachability, persisted is a flush of the line in between |
| PersistedBeforeSpec.ExactClockUnique | pyprd/src/pycprd/vector_clock.py:89-96 | a sound and complete clock of a line at a node is unique |
| PersistedBeforeSpec.AccessExact | pyprd/src/pycprd/vector_clock.py:79-80 | adding the node's own epoch makes a clock exact at the predecessor exact at the node |
| PersistedBeforeSpec.FlushExact | pyprd/src/pycprd/vector_clock.py:82-83 | so does a flush |
| PersistedBeforeSpec.PersistedNeverExceedsSeen | pyprd/src/pycprd/vector_clock.py:82-83 | in an exact clock persisted never exceeds seen, so the overwriting copy in `flush` only raises it |
| PersistedBeforeSpec.AddEpochAllowed | pyprd/src/pycprd/vector_clock.py:23-25 | the assertion in `add_epoch` never fails |
| DirtyInvariant.MergeKeepsLossless | pyprd/src/pycprd/prd.py:480-490 | taking in what waits at an epoch node keeps every clock complete and every clean line due where it is needed |
| DirtyInvariant.SendKeepsLossless | pyprd/src/pycprd/prd.py:492-502 | telling one child the dirty lines serves the edge, and clearing them starves nobody, under H2 |
| DirtyInvariant.TouchKeepsLossless | pyprd/src/pycprd/prd.py:450-472 | accesses and flushes keep the invariant |
| FilterRuns.FilterLossless | pyprd/src/pycprd/prd.py:440-502 | under H2, in every run, after every node the thread's clocks know everything they should |
| FilterRuns.FilterSound | pyprd/src/pycprd/prd.py:440-502 | in every run, whatever is lost, no clock claims anything false |
| FilterRuns.FilterExact | pyprd/src/pycprd/prd.py:440-502 | under H2 the filtered pass decides seen and persisted exactly, at every node, in every order and with every schedule of children |
| FullRuns.FullIsExact | pyprd/src/pycprd/prd.py:440-502 | sending every line along every edge makes every clock sound and complete, on every DAG and in every topological order |
| FullRuns.FullDecides | pyprd/src/pycprd/vector_clock.py:89-96 | then an access is seen exactly when the node is reached from it, and persisted exactly when a flush of its line lies in between |
| FullRuns.LosslessIsAgreement | pyprd/src/pycprd/prd.py:440-502 | a filtered run loses nothing if and only if after every node its clocks are those of full propagation, in whatever order that went |
| FullRuns.FilteredIsFull | pyprd/src/pycprd/prd.py:440-502 | under H2 the filtered pass computes the same clocks as full propagation |
| FullRuns.SomeFullRun | pyprd/src/pycprd/prd.py:440-502 | full propagation exists for every order and schedule, so there is always something to compare with |
| FilterShapes.LosslessIffFirstReached | pyprd/src/pycprd/dirty_vector.py:44-69 | for every DAG: the filter is lossless wherever one more access is put in, in all orders and schedules, if and only if H2 holds |
| FilterRuns.FilterLosslessIff | pyprd/src/pycprd/dirty_vector.py:44-69 | where some crossing edge, if there is any, leaves right after an access to a private line, all runs are lossless if and only if H2 holds |
| FilterRuns.CrossingStarves | pyprd/src/pycprd/dirty_vector.py:54-63 | a child told first that lies behind another node its sender reaches starves that node |
| FilterRuns.CrossingEdgesLoseKnowledge | pyprd/src/pycprd/dirty_vector.py:54-63 | a five-node graph on which every run loses knowledge |
| FilterRuns.SomeCrossingRun | pyprd/src/pycprd/dirty_vector.py:54-63 | there are such runs |
| DirtyVectors.DirtyCachelinesVector.UpdateChild | pyprd/src/pycprd/dirty_vector.py:44-69 | the child owes what the sender owes, but nothing new to the sender; the sender owes the child's thread nothing, and nothing is pending |
| DirtyVectors.DirtyCachelinesVector.GetDirtyCachelines | pyprd/src/pycprd/dirty_vector.py:35-36 | the lines owed to a thread, pending ones included |
| DirtyVectors.DirtyCachelinesVector.SetCachelineDirty | pyprd/src/pycprd/dirty_vector.py:38-42 | marks the one line of the access |
| DirtyVectors.DirtyCachelinesVector.Merge | pyprd/src/pycprd/dirty_vector.py:71-82 | each set becomes the union of the two |
| DirtyVectors.UpdateChildOf | pyprd/src/pycprd/dirty_vector.py:44-69 | what `update_child` does to the sets the pass looks at |
| VectorClocks.AbstractVectorClock.Merge | pyprd/src/pycprd/vector_clock.py:27-30 | the later entry per thread, in either order |
| VectorClocks.AbstractVectorClock.CopyFrom | pyprd/src/pycprd/vector_clock.py:32-34 | the other clock's entries replace mine |
| VectorClocks.AbstractVectorClock.IsReached | pyprd/src/pycprd/vector_clock.py:46-60 | the comparison with the thread's entry; asking never changes the value |
| VectorClocks.JoinReaches | pyprd/src/pycprd/vector_clock.py:27-30 | a merged clock has reached exactly what one of the two had |
| VectorClocks.PersistencyVectorClock.Flush | pyprd/src/pycprd/vector_clock.py:82-83 | as long as nothing is persisted that was not seen, a flush makes the two clocks equal |
| HappensAfterPass.Pass.Run | pyprd/src/pycprd/prd.py:272-308 | for any order that lists descendants first, each read's clock is after a write if and only if a relay-free path leads there |
| HappensAfterPass.Pass.Visit | pyprd/src/pycprd/prd.py:277-306 | one node: writes, reads and epoch nodes keep thread clocks, buffers and read clocks exact |
| HappensAfterSpec.RExact | pyprd/src/pycprd/vector_clock.py:53-60 | a clock sound and complete for relay-free paths decides them |
| HappensAfterSpec.RfFirstStep | pyprd/src/pycprd/prd.py:297-305 | a relay-free path starts in the thread, or over one edge followed by a step in the other thread |
| HappensAfterSpec.NoRelaysRf | pyprd/src/pycprd/prd.py:297-305 | where no epoch node relays, every path is relay-free, so the clocks are complete for reachability |
| HappensAfterSpec.BridgedIff | pyprd/src/pycprd/prd.py:297-305 | for every graph: all that is reached is reached without relaying if and only if that is so around every relaying epoch node (H3) |
| RelayShapes.ExactIffBridged | pyprd/src/pycprd/prd.py:272-308 | for every graph: wherever accesses are put in, and however many, the first pass finds every write after a read, and makes no false race for any dependencies, if and only if H3 holds |
| RelayShapes.UnbridgedMakesFalseRace | pyprd/src/pycprd/prd.py:297-305 | where a relay is not bridged, accesses can be put in so that some race is false |
| Relays.RelayMakesFalseRace | pyprd/src/pycprd/prd.py:297-305 | a graph with H1, H2, H4 and H5 on which a reported race is none |
| Relays.RelayIsReported | pyprd/src/pycprd/prd.py:504-523 | a detector for that graph, built from its trace, reports it, and validation raises an exception |
| Relays.RelayIsReportedForTrace | pyprd/src/pycprd/prd_runner.py:18-56 | so does the whole way from the trace on |
| Pipeline.Run | pyprd/src/pycprd/prd_runner.py:18-56 | from the trace alone: no race of its graph and dependencies is missed, with H2 and H3 exactly the races are found; it stops before exactly if an access crosses a line, or if the comparison with the mock fails |
| Pipeline.RecordedAre | pyprd/src/pycprd/pdg.py:58-59 | a write instruction depends on a read instruction if and only if the trace has the pair |
| Pipeline.FirstFitIsFirstDepends | pyprd/src/pycprd/pdg.py:61-85 | what the builder adds for the recorded dependencies is, for each read, the first later write of its thread on another line for which the trace has the pair |
| PdgBuilding.PDGBuilder.TotalDependencies | pyprd/src/pycprd/pdg.py:47-49 | is 0 if and only if no dependency has been added, of either kind |
| Pipeline.BuildPdg | pyprd/src/pycprd/trace_parser.py:155-168 | the mock if and only if the trace has no dependencies, otherwise its pairs of events and for each read the first write the trace makes depend on it; usable for the detector; their distance to the mock; if they name instructions only, the assertion that no distance is negative never fails |
| Pipeline.FindVars | pyprd/src/pycprd/hbg.py:173-182 | the assertion made of every graph holds if and only if every read and write stays in one line |
| DaisyChainSpec.DaisyChain.AddWriteNode | pyprd/src/pycprd/hbg.py:58-70 | the new write ends all open links and becomes the last write |
| DaisyChainSpec.DaisyChain.AddReadNode | pyprd/src/pycprd/hbg.py:72-74 | a read has an open link |
| DaisyChainSpec.DaisyChain.GetChain | pyprd/src/pycprd/hbg.py:76-91 | lists all writes from the start node on, in order; an index error exactly if the node was never added |
| DaisyChainSpec.LinkIsNextWrite | pyprd/src/pycprd/hbg.py:58-74 | every link leads to the next write added after its node |
| HbgBuilding.DaisyChains.AddNode | pyprd/src/pycprd/hbg.py:114-121 | one chain per line and thread; only the chain of the node's line and thread grows |
| HbgBuilding.DaisyChains.GetChainByNode | pyprd/src/pycprd/hbg.py:123-124 | the writes of the node's chain from the node on |
| HbgBuilding.Build | pyprd/src/pycprd/hbg.py:522-548 | the graph of the trace: nodes fall to their threads in trace order, and edges join the epochs they name; the chains list exactly its reads and writes |
| HbgBuilding.GraphIsUnique | pyprd/src/pycprd/hbg.py:522-548 | a trace has one graph |
| HbgBuilding.LocationRoundTrip | pyprd/src/pycprd/hbg.py:508-509 | looking a node up by its location gives it back, and no two nodes share one |
| ChainContents.ChainListsWrites | pyprd/src/pycprd/hbg.py:76-91 | the chain from an access on lists exactly the later writes of its line and thread |
| Cachelines.OneLineIffContained | pyprd/src/pycprd/utils.py:13-23 | the assertion of exactly one line holds if and only if all bytes of the access are in one line, and then it is that line |
| Cachelines.CachelineAddress | pyprd/src/pycprd/utils.py:8-10 | the multiple of the line size at or below the address that is less than a line away |
| Cachelines.Overlap | pyprd/src/pycprd/nodes.py:128-134 | true if and only if some byte belongs to both accesses |
| Cachelines.Contains | pyprd/src/pycprd/nodes.py:136-142 | true if and only if the second access has bytes and all of them belong to the first |
| RaceSpec.NodesOverlap | pyprd/src/pycprd/nodes.py:128-134 | the same for two nodes; races are defined by the shared byte |
| Cachelines.OverlapSharesLine | pyprd/src/pycprd/nodes.py:128-134 | accesses that overlap and stay in one line are in the same line |
| IsBugReference.IsBug | pyprd/src/pycprd/prd.py:525-564 | the flushes the breadth-first search meets first, one per thread, and the decision they lead to; an aligned flush chosen anywhere never loses a race |
| IsBugReference.MetFirstIsUnique | pyprd/src/pycprd/prd.py:541-547 | the order of the search determines which flushes it meets first |
| IsBugReference.ReferenceAcceptsRaces | pyprd/src/pycprd/prd.py:541-562 | whichever flush the search picks per thread, every race is accepted |
| IsBugReference.ReferenceExactIff | pyprd/src/pycprd/prd.py:541-562 | the reference agrees with the definition for every breadth-first search if and only if the two accesses do not overlap, the write comes after the read, or, if some flush makes one of them persistent in time, so does one the search may meet first |
| IsBugReference.ReferenceAcceptsNoRace | pyprd/src/pycprd/prd.py:541-549 | on a twelve-node graph every breadth-first search meets the older flush first, and the reference accepts what is no race |
| IsBugReference.ChosenIsMetFirst | pyprd/src/pycprd/prd.py:541-547 | whatever nearest flushes are chosen, some breadth-first search meets them first |
| IsBugReference.SomeSearches | pyprd/src/pycprd/prd.py:535-551 | in every graph there are searches from every node as the model takes them |
| IsBugReference.SomeSearchThere | pyprd/src/pycprd/prd.py:541-549 | in particular on the twelve-node graph |
| PdgBuilding.PDGBuilder.Build | pyprd/src/pycprd/pdg.py:61-85 | besides the edges added by hand, each read gets the first later write of its thread that its instruction's dependencies accept |
| PdgBuilding.GenerateMockPdgV2 | pyprd/src/pycprd/pdg.py:111-129 | each read gets the first later write of its thread to another line |
| PdgSpec.MockIsOptimal | pyprd/src/pycprd/pdg.py:111-149 | the mock's dependent write comes no later than any PC-based one; a read without one in the mock has none |
| PdgSpec.PdgsAreUsable | pyprd/src/pycprd/pdg.py:51-56 | both kinds of graph satisfy H4, with the read first |
| PdgDistances.PdgDistance | pyprd/src/pycprd/pdg.py:132-153 | every read's difference of first dependent write positions, infinities included; the failing assertion, the missing mean, or the mean and the count of missing dependants |
| PdgDistances.WritesBeforeIs | pyprd/src/pycprd/pdg.py:136-137 | positions are counted in writes of the thread |
| PdgDistances.DistanceToMock | pyprd/src/pycprd/pdg.py:144-149 | measured against the mock no distance is negative, so the assertion never fails |
| PdgDistances.SummaryAgainstMock | pyprd/src/pycprd/pdg.py:149 | measured against the mock the assertion never fails |
| LabelTables.LabelTable.Union | instrumentation/runtime/compiler-rt/lib/dfsan/dfsan.cpp:172-219 | the result stands for the union of what the two labels stand for, subsumption and table hits included; the answer for a pair is recorded for good, and a new label is drawn exactly when the pair has no entry and the smaller label is not one of the two parts of the larger; bitwise before any label exists |
| LabelTables.LabelTable.CreateLabel | instrumentation/runtime/compiler-rt/lib/dfsan/dfsan.cpp:273-283 | a new base label, or the end of the process when labels run out; older labels keep their meaning |
| LabelTables.LabelTable.DfsanUnion | instrumentation/runtime/compiler-rt/lib/dfsan/dfsan.cpp:266-271 | the union of any two labels |
| LabelTables.LabelTable.UnionLoad | instrumentation/runtime/compiler-rt/lib/dfsan/dfsan.cpp:221-230 | the union over a range of shadow; if all labels are equal it is that label and the table does not change |
| LabelSpec.HasLabelDecides | instrumentation/runtime/compiler-rt/lib/dfsan/dfsan.cpp:369-379 | the recursion ends and decides membership of base labels |
| LabelSpec.HasLabelIff | instrumentation/runtime/compiler-rt/lib/dfsan/dfsan.cpp:370-380 | a label has another if and only if a chain of parts leads there; so it has itself |
| LabelSpec.HasLabelIncludes | instrumentation/runtime/compiler-rt/lib/dfsan/dfsan.cpp:369-379 | a label has only smaller or equal labels, with all they stand for |
| LabelSpec.HasLabelWithDescDecides | instrumentation/runtime/compiler-rt/lib/dfsan/dfsan.cpp:381-390 | true if and only if some base label of it has the description |
| UnionProtocol.RunsAreGood | instrumentation/runtime/compiler-rt/lib/dfsan/dfsan.cpp:172-219 | in every interleaving, until somebody draws again after the marker has been drawn: each entry is empty, held by one initializer, or the union of its pair; no two threads have the same fresh label |
| UnionProtocol.StepGoodIff | instrumentation/runtime/compiler-rt/lib/dfsan/dfsan.cpp:160-165 | exactly which step of a good state is bad: drawing once more after the marker has been drawn |
| UnionProtocol.SamePairSameLabel | instrumentation/runtime/compiler-rt/lib/dfsan/dfsan.cpp:188-218 | all calls for a pair, at any two moments, return the same label, never the marker, standing for the union |
| UnionProtocol.StepMovesEntries | instrumentation/runtime/compiler-rt/lib/dfsan/dfsan.cpp:188-218 | an entry goes from empty to the marker to a label and stays |
| UnionProtocol.WaitingIsForSomeone | instrumentation/runtime/compiler-rt/lib/dfsan/dfsan.cpp:212-217 | a waiting thread waits for exactly one other thread, which is initializing the entry |
| UnionProtocol.KnownKeepMeaning | instrumentation/runtime/compiler-rt/lib/dfsan/dfsan.cpp:204-209 | no step changes what a label that was given out stands for |
| UnionProtocol.UnionAlone | instrumentation/runtime/compiler-rt/lib/dfsan/dfsan.cpp:172-219 | from every good state, wherever a call for a union is: unless it has to wait for the thread that initializes its entry, it returns the union if labels last, while all others stand still |
| UnionProtocol.UnionCallAlone | instrumentation/runtime/compiler-rt/lib/dfsan/dfsan.cpp:172-219 | the same from the beginning of a call |
| UnionProtocol.CreateAlone | instrumentation/runtime/compiler-rt/lib/dfsan/dfsan.cpp:274-282 | the same for a creation, which returns a label nobody had |
| UnionProtocol.WrapReturnsZero | instrumentation/runtime/compiler-rt/lib/dfsan/dfsan.cpp:160-165 | whenever the marker has been drawn and another thread is about to draw, a union that stands for something can come back as 0, which stands for nothing |
| UnionProtocol.SomeRunReturnsZero | instrumentation/runtime/compiler-rt/lib/dfsan/dfsan.cpp:160-165 | a run from the first state on in which that happens |
| UnionProtocol.DrawingAgainGoesWrong | instrumentation/runtime/compiler-rt/lib/dfsan/dfsan.cpp:160-165 | whatever has been returned up to the draw of the marker is right; whoever draws once more, for a union or for a new label, can get a wrong one |
| UnionProtocol.LabelsComeAgain | instrumentation/runtime/compiler-rt/lib/dfsan/dfsan.cpp:274-282 | a thread that creates a label then is given 0 for it, and going on it is given every label that exists again, which from then on stands for itself only |
| UnionProtocol.SomeRunCreatesTwice | instrumentation/runtime/compiler-rt/lib/dfsan/dfsan.cpp:274-282 | for any label, a run from the first state on in which two callers are given it as a new one |
| ShadowCombining.DFSanFunction.CombineShadows | instrumentation/pass/dfsan/DataFlowSanitizer.cpp:1404-1488 | whatever the caches hold, the returned value denotes the union of the two and is computed before the position, in its block or one that dominates it; a union is computed, and recorded for the two in either order, if and only if neither is zero, they differ, and neither the element sets nor the cache tell the result |
| ShadowCombining.DFSanFunction.SplitBlockAndInsertIfThen | instrumentation/pass/dfsan/DataFlowSanitizer.cpp:1449-1472 | splitting a block keeps the dominators exactly those blocks that every way from the entry passes, and nothing is computed yet in the new blocks |
| Dominance.SplitIsExact | instrumentation/pass/dfsan/DataFlowSanitizer.cpp:1449-1472 | for every control-flow graph: the updated dominators are those of the graph after the split |
| ShadowCombining.KeyIsUnordered | instrumentation/pass/dfsan/DataFlowSanitizer.cpp:1430-1434 | two pairs share a cache entry if and only if they are the same in some order |
| ShadowCombining.DFSanFunction.Record | instrumentation/pass/dfsan/DataFlowSanitizer.cpp:1474-1487 | exactly the element set and the cache entry of the union are recorded; they denote it, so every cache entry stays right |
| ShadowCombining.DFSanFunction.Subsumed | instrumentation/pass/dfsan/DataFlowSanitizer.cpp:1412-1428 | a shadow is returned if and only if its known elements include those of the other, and then it denotes the union |
| ShadowCombining.DFSanFunction.Collapse | instrumentation/pass/dfsan/DataFlowSanitizer.cpp:734-761 | a nested shadow collapses to a primitive one with the labels of all its parts |
| ShadowCombining.DFSanFunction.CollapseToPrimitiveShadow | instrumentation/pass/dfsan/DataFlowSanitizer.cpp:763-781 | the same, using what was collapsed before only where that instruction dominates the position, and computing nothing then |
| ShadowCombining.DFSanFunction.CombineOperandShadows | instrumentation/pass/dfsan/DataFlowSanitizer.cpp:1492-1502 | a shadow of the instruction's type, every part of which has the labels of all operands; the caches stay right exactly if it has a part, or there are no labels |
| ShadowCombining.DFSanFunction.ExpandFromPrimitiveShadow | instrumentation/pass/dfsan/DataFlowSanitizer.cpp:685-732 | inserting the primitive shadow at every index path gives it to every part and to nothing else; when what is remembered for collapsing is right |
| ShadowSpec.ExpandedFlatten | instrumentation/pass/dfsan/DataFlowSanitizer.cpp:713-732 | expanding and then collapsing gives the labels back, unless the type has no scalar in it |
| WideShadows.LoadFast16 | instrumentation/pass/dfsan/DataFlowSanitizer.cpp:1559-1581 | ORing words and folding them gives the OR of all labels |
| WordsAndNumbers.OrAllAgrees | instrumentation/runtime/compiler-rt/lib/dfsan/dfsan.cpp:232-238 | the loop gives the same whether labels are taken for words, as the emitted code does, or for numbers, as the label table does |
| WordsAndNumbers.NumberDecides | instrumentation/runtime/compiler-rt/lib/dfsan/dfsan.cpp:232-238 | different words are different numbers |
| WideShadows.LoadEqual | instrumentation/pass/dfsan/DataFlowSanitizer.cpp:1582-1646 | the chain of tests succeeds if and only if all labels are equal, and then yields that label, as the plain load would |
| WideShadows.RotationTest | instrumentation/pass/dfsan/DataFlowSanitizer.cpp:1593-1604 | a word equals its rotation by one label if and only if its four labels are equal |
| TlsArguments.StoreArguments | instrumentation/pass/dfsan/DataFlowSanitizer.cpp:2078-2095 | every argument that fits is stored whole, no later store overwrites it, and nothing is written behind the last one stored |
| TlsArguments.GetShadowForTLSArgument | instrumentation/pass/dfsan/DataFlowSanitizer.cpp:1311-1340 | where the callee loads a shadow from, or that it uses zero |
| TlsArguments.CallerAndCalleeAgreeIff | instrumentation/pass/dfsan/DataFlowSanitizer.cpp:1311-1340 | the callee loads from where the caller stored, and uses zero where it did not, if and only if no unsized parameter comes before or the sized ones overflow anyway |
| TlsArguments.CalleeSkipsUnsized | instrumentation/pass/dfsan/DataFlowSanitizer.cpp:1311-1326 | the callee looks where a caller would store if there were no unsized parameters |
| TlsArguments.PrimitivesThatFit | instrumentation/pass/dfsan/DataFlowSanitizer.cpp:2078-2095 | of arguments with primitive shadows exactly the first four hundred are stored |
| TlsArguments.SizedArgumentsAgree | instrumentation/pass/dfsan/DataFlowSanitizer.cpp:1311-1340 | for the parameter lists that reach the stores, which have sized parameters only, the callee reads every argument where the caller stored it and uses zero exactly for those not stored |
| HashBucketRuns.AtRest | instrumentation/runtime/compiler-rt/lib/sanitizer_common/sanitizer_addrhashmap.h:166-342 | in every interleaving, whenever nobody holds the write lock, no address is in two cells, add cells below the size are used and the others empty, and the cells hold exactly the elements |
| HashBucketRuns.StepChangesElements | instrumentation/runtime/compiler-rt/lib/sanitizer_common/sanitizer_addrhashmap.h:295-342 | elements change only when an insertion of an absent address completes and when a present one is removed; no other element is touched |
| HashBucketRuns.FoundIsPresent | instrumentation/runtime/compiler-rt/lib/sanitizer_common/sanitizer_addrhashmap.h:181-208 | a cell found without the write lock is of an address present at that moment, even while elements are being moved |
| HashBucketRuns.LockedAnswers | instrumentation/runtime/compiler-rt/lib/sanitizer_common/sanitizer_addrhashmap.h:210-292 | what is created is absent, what is removed is present, and absence is reported only if true at that moment |
| HashBucketCalls.NothingMeansAbsent | instrumentation/runtime/compiler-rt/lib/sanitizer_common/sanitizer_addrhashmap.h:166-292 | in every interleaving: a call of acquire that ends without a handle was not to create an element, and at some moment during the call there was none |
| HashBucketCalls.AcquireAlone | instrumentation/runtime/compiler-rt/lib/sanitizer_common/sanitizer_addrhashmap.h:166-292 | from every state that can be reached, wherever a call of acquire is: if the others hold no lock and stand still, it ends with the cell of the element if there is one, with a cell for a new one if there is none and one is to be created, and else without a handle |
| HashBucketCalls.CallAlone | instrumentation/runtime/compiler-rt/lib/sanitizer_common/sanitizer_addrhashmap.h:166-292 | the same from the beginning of a call |
| HashBucketCalls.ReleaseAlone | instrumentation/runtime/compiler-rt/lib/sanitizer_common/sanitizer_addrhashmap.h:294-342 | releasing a handle ends; a new element is there with the value its cell was given, one to remove is gone, and all others are what they were |
| HashBucketRuns.ReleaseChecks | instrumentation/runtime/compiler-rt/lib/sanitizer_common/sanitizer_addrhashmap.h:301-341 | the checks on the cell's address hold for handles that create, remove, or read an add cell |
| HashBucketReaders.ReaderCheckIff | instrumentation/runtime/compiler-rt/lib/sanitizer_common/sanitizer_addrhashmap.h:337-341 | in every interleaving the check holds for a handle that reads an embedded cell if and only if every removal of the element since it was found was made good by putting the address back |
| HashBucketReaders.StepMovesAddress | instrumentation/runtime/compiler-rt/lib/sanitizer_common/sanitizer_addrhashmap.h:300-330 | an address leaves an embedded cell only by being removed, and comes there only as a new element or moved from an add cell |
| HashBucketReaders.RemoverEvictsReader | instrumentation/runtime/compiler-rt/lib/sanitizer_common/sanitizer_addrhashmap.h:308-341 | a run from the first state on after which the check fails for a handle that reads an embedded cell |
| HashBucket.WriterKeeps | instrumentation/runtime/compiler-rt/lib/sanitizer_common/sanitizer_addrhashmap.h:210-342 | every access under the write lock, the moves from add to embedded cells included, leads to the next one's condition |
| HashBucket.CapsFit | instrumentation/runtime/compiler-rt/lib/sanitizer_common/sanitizer_addrhashmap.h:263-285 | the first add array fits its memory if and only if one cell does; the capacities are the largest that fit, and growing at least doubles them |
| PackedCounters.PackedCounterArray.Inc | instrumentation/runtime/compiler-rt/lib/sanitizer_common/sanitizer_allocator_primary64.h:382-387 | raises one counter by one and leaves all others alone: nothing is carried between packed fields |
| PackedCounters.PackedCounterArray.Get | instrumentation/runtime/compiler-rt/lib/sanitizer_common/sanitizer_allocator_primary64.h:375-380 | shifting and masking yield the counter |
| PackedCounters.CounterBitsFit | instrumentation/runtime/compiler-rt/lib/sanitizer_common/sanitizer_allocator_primary64.h:338-352 | a counter has room for the largest value and a word for a whole number of counters |
| PageRelease.ReleaseFreeMemoryToOS | instrumentation/runtime/compiler-rt/lib/sanitizer_common/sanitizer_allocator_primary64.h:453-555 | for every chunk and page size: a unit is given back if and only if every chunk that overlaps its page is free; the ranges are whole pages, in order and with gaps between |
| PageRelease.ReleasedOnlyOneWay | instrumentation/runtime/compiler-rt/lib/sanitizer_common/sanitizer_allocator_primary64.h:432-438 | that determines the ranges: they are maximal |
| PageRelease.ReleasedIsAllocated | instrumentation/runtime/compiler-rt/lib/sanitizer_common/sanitizer_allocator_primary64.h:453-555 | what is given back lies below the end of the chunks handed out |
| PageSpec.AllFreeIffUnits | instrumentation/runtime/compiler-rt/lib/sanitizer_common/sanitizer_allocator_primary64.h:502-515 | every chunk that overlaps a page is free if and only if every unit of the page is in a free chunk |
| PageRelease.ChunkCountMax | instrumentation/runtime/compiler-rt/lib/sanitizer_common/sanitizer_allocator_primary64.h:459-490 | where the source takes the fast path its closed form is the number of chunks overlapping every page, and elsewhere a bound |
| PageSpec.CountRemainder | instrumentation/runtime/compiler-rt/lib/sanitizer_common/sanitizer_allocator_primary64.h:467-473 | if the remainder of a page divides a chunk, every page overlaps the same number of chunks, one more than fit |
| PageSpec.PageStepCounts | instrumentation/runtime/compiler-rt/lib/sanitizer_common/sanitizer_allocator_primary64.h:525-552 | the running boundary yields the number of chunks overlapping page i and the next boundary |
| PageSpec.CountDecides | instrumentation/runtime/compiler-rt/lib/sanitizer_common/sanitizer_allocator_primary64.h:517-523 | as many free chunks as overlap the page if and only if all of them are free |
| PageRelease.CountFree | instrumentation/runtime/compiler-rt/lib/sanitizer_common/sanitizer_allocator_primary64.h:502-515 | each counter becomes the number of free chunks on its page, and never passes its largest value |
| PageRanges.RunsAreMaximal | instrumentation/runtime/compiler-rt/lib/sanitizer_common/sanitizer_allocator_primary64.h:415-439 | the tracker's ranges cover the set pages by maximal runs, in order and apart |
| PageRanges.FreePagesRangeTracker.NextPage | instrumentation/runtime/compiler-rt/lib/sanitizer_common/sanitizer_allocator_primary64.h:415-425 | one more verdict is taken in |
| Allocator.Region.PopulateFreeArray | instrumentation/runtime/compiler-rt/lib/sanitizer_common/sanitizer_allocator_primary64.h:692-775 | exactly when it succeeds, fails or ends the process, on the sizes before: each mapping is not needed, or fits and succeeds; then all chunks that fit the mapped memory are new, at least those requested, and on failure no chunk changes place |
| MappingSpec.NewChunksFill | instrumentation/runtime/compiler-rt/lib/sanitizer_common/sanitizer_allocator_primary64.h:725-726 | at least the requested chunks are new, and no more would fit |
| MappingSpec.GettingDependsOn | instrumentation/runtime/compiler-rt/lib/sanitizer_common/sanitizer_allocator_primary64.h:700-757 | without the agreement of the environment only what is mapped can be had; with it, what fits can |
| Allocator.Region.GetFromAllocator | instrumentation/runtime/compiler-rt/lib/sanitizer_common/sanitizer_allocator_primary64.h:140-160 | exactly the last n chunks of the free array change hands in order if there are enough or they can be had, or none |
| Allocator.Region.ReturnToAllocator | instrumentation/runtime/compiler-rt/lib/sanitizer_common/sanitizer_allocator_primary64.h:114-138 | if the free array has room or gets it, exactly the given chunks become free again, in order after those already free, and then the pages with free chunks only are released if it is time; else the process ends |
| Allocator.Region.MaybeReleaseToOS | instrumentation/runtime/compiler-rt/lib/sanitizer_common/sanitizer_allocator_primary64.h:825-863 | pages are released exactly if enough is free, enough was freed since the last time, and it is time or forced; none of them holds a chunk the program or a cache has |
| RegionReleaseSpec.FreeArrayIsScannable | instrumentation/runtime/compiler-rt/lib/sanitizer_common/sanitizer_allocator_primary64.h:453-515 | a region's free array is what the scan takes it for: offsets of distinct chunks within the pages counted |
| RegionReleaseSpec.ReleaseSparesOut | instrumentation/runtime/compiler-rt/lib/sanitizer_common/sanitizer_allocator_primary64.h:517-555 | no unit of a released page belongs to a chunk that is out |
| LocalCaches.LocalCache.Allocate | instrumentation/runtime/compiler-rt/lib/sanitizer_common/sanitizer_allocator_local_cache.h:33-46 | succeeds exactly if the cache is not empty or the region can fill half of it; what the region hands out goes into the cache, and the last chunk there to the caller |
| LocalCaches.LocalCache.Deallocate | instrumentation/runtime/compiler-rt/lib/sanitizer_common/sanitizer_allocator_local_cache.h:48-62 | the chunk goes into the cache, half of which is drained first if it is full; exactly if the region cannot take that half the process ends |
| LocalCaches.Heap.Allocate | instrumentation/runtime/compiler-rt/lib/sanitizer_common/sanitizer_allocator_local_cache.h:33-46 | with any number of threads, the program gets one chunk it did not have, exactly if its cache has one or the region can give some, and no chunk is in two places |
| LocalCaches.Heap.Deallocate | instrumentation/runtime/compiler-rt/lib/sanitizer_common/sanitizer_allocator_local_cache.h:48-62 | giving back a chunk it has, the program no longer has it |
| LocalCaches.Heap.PlacesAreExclusive | instrumentation/runtime/compiler-rt/lib/sanitizer_common/sanitizer_allocator_primary64.h:588-612 | the free array, the caches and the program together hold every allocated chunk once, and the statistics add up |

## Left out

- FilterRuns.FilterLosslessIff: the direction from lossless to H2 is for graphs in which some crossing edge, if there is any, leaves right after an access to a private line; whether another graph loses anything depends on which lines are touched where, and on the order of processing. For all graphs see FilterShapes.LosslessIffFirstReached.
- Detector.PersistencyRaceDetector.FastSecondPass: the pass keeps the values of clocks and dirty vectors in its dictionaries, not the objects, so aliasing between dictionary entries is not modelled; the objects are proved against those values in their own modules.
- HappensAfterPass.Pass.Run: keeps clock values, as above.
- DirtyVectors.DirtyCachelinesVector.UpdateChild: requires that nothing is pending or that there is a third thread, because with two threads and pending lines the closing assertion of the source fails; the pass always asks for the dirty lines first.
- IsBugReference.IsBug: the breadth-first searches of the graph library are given, as visiting exactly what is reachable, near nodes before far ones; so are the topological order and the depth-first postorder.
- HashBucketRuns.AtRest: atomics are sequentially consistent, allocating or growing the add array is one step, addresses are not 0, which marks an empty cell, and a cell has at most 48 bytes, as larger ones do not fit the first add array (HashBucket.CapsFit). Handles to read give out a mutable reference; writing through it is not modelled.
- UnionProtocol.RunsAreGood: atomics are sequentially consistent; a label is passed between threads only after some call returned it.
- LabelTables.LabelTable.Union: the table is a map rather than memory at a fixed address.
- ShadowCombining.DFSanFunction.CombineOperandShadows: a lone operand has a primitive shadow, because the code expands it as one; constants of the same type are not the same value.
- Pipeline.Run: the graph library's orders are given, so the graph is a DAG, as the code asserts; dependencies that name events satisfy H4, which the code only asserts of the races it finds.
- PageRelease.ReleaseFreeMemoryToOS: shifts by the logarithm of a page size are divisions; offsets are assumed to fit 32 bits, and mapping the counters always succeeds.
- Allocator.Region.PopulateFreeArray: memory mapping answers yes or no; sizes do not wrap around 64 bits; the shuffle picks any index.
- TlsArguments.CallerAndCalleeAgreeIff: lists with an unsized parameter do not reach the stores, because only intrinsics have such parameters and calls of intrinsics return before (`instrumentation/pass/dfsan/DataFlowSanitizer.cpp:1939-1942`); the condition is stated for all lists.
- LocalCaches.Heap.Allocate: one size class, each call as a whole under the region's lock; address translation and statistics of bytes are left out.
- The older second pass (`pyprd/src/pycprd/prd.py:371-438`), which tells children before merging its own state.
- The options that ignore parts of the analysis, grouping of races, reports, code tours, statistics.
- Trace parsing, filtering of volatile nodes, symbolization, benchmarks, scripts.
- Releasing shadow pages in `__dfsan_set_label`; in `MaybeReleaseToOS` the clock, which is an answer of the environment, and the statistics of releases.
- Emitting LLVM code beyond what shadows denote, function wrapping, ABI lists.
- The 32-bit allocator, the size-class map, platform code and libc wrappers.
