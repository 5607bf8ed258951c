/** Persistency races: the definition in terms of happens-before and flushes, and what the detector decides
    from its clocks. */
module RaceSpec {
  import opened Cachelines
  import opened Hbg
  import opened VectorClocks
  import opened PersistedBeforeSpec
  import opened HappensAfterSpec

  datatype Race = Race(read: Loc, write: Loc, dependent: Loc)

  /** Program dependencies run from a write to a read of the same thread on another line. */
  type Pdg = set<(Loc, Loc)>

  predicate PdgOk(g: Graph, pdg: Pdg) {
    forall e | e in pdg :: g.IsWrite(e.0) && g.IsRead(e.1) && e.0.tid == e.1.tid && g.At(e.0).Line() != g.At(e.1).Line()
  }

  /** The read a write depends on comes first. */
  predicate ReadsFirst(pdg: Pdg) { forall e | e in pdg :: e.1.tindex < e.0.tindex }

  /** Some byte is touched by both. */
  ghost predicate NodesShareByte(g: Graph, a: Loc, b: Loc)
    requires g.Has(a) && g.Has(b) && !g.At(a).Epoch? && !g.At(b).Epoch?
  {
    exists byte: nat :: Touches(g.At(a).address, g.At(a).size, byte) && Touches(g.At(b).address, g.At(b).size, byte)
  }

  predicate NodesOverlap(g: Graph, a: Loc, b: Loc): (overlap: bool)
    requires g.Has(a) && g.Has(b) && !g.At(a).Epoch? && !g.At(b).Epoch?
    ensures overlap <==> NodesShareByte(g, a, b)
  {
    Overlap(g.At(a).address, g.At(a).size, g.At(b).address, g.At(b).size)
  }

  /** The dependent write depends on a read of a byte that the other write, not a non-temporal one, wrote. */
  ghost predicate Candidate(g: Graph, pdg: Pdg, x: Race) {
    && (x.dependent, x.read) in pdg
    && g.IsRead(x.read) && g.IsWrite(x.write)
    && !g.At(x.write).nonTemporal && NodesShareByte(g, x.write, x.read)
  }

  /** Neither the read nor the write is flushed before the dependent write. */
  ghost predicate Unflushed(g: Graph, x: Race)
    requires g.IsRead(x.read)
  {
    && !PersistedBefore(g, g.At(x.read).Line(), x.read, x.dependent)
    && !PersistedBefore(g, g.At(x.read).Line(), x.write, x.dependent)
  }

  ghost predicate TrueRace(g: Graph, pdg: Pdg, x: Race) {
    Candidate(g, pdg, x) && Unflushed(g, x) && !HB(g, x.read, x.write)
  }

  /** The same with the first pass's notion of "after the read". */
  ghost predicate RaceModuloRelays(g: Graph, pdg: Pdg, x: Race) {
    Candidate(g, pdg, x) && Unflushed(g, x) && !RF(g, x.read, x.write)
  }

  /** What `_find_bugs` decides from the clock of the read's line and the read's own clock. */
  ghost predicate Reported(g: Graph, pdg: Pdg, p: Pvc, after: Clock, x: Race) {
    && Candidate(g, pdg, x)
    && !Covers(p, Persisted, x.read) && !Covers(p, Persisted, x.write) && !After(after, x.write)
  }

  lemma CandidateSharesLine(g: Graph, pdg: Pdg, x: Race)
    requires g.LineAligned() && Candidate(g, pdg, x)
    ensures g.At(x.write).Line() == g.At(x.read).Line()
  {
    var w, r := g.At(x.write), g.At(x.read);
    assert w == g.threads[x.write.tid][x.write.tindex] && r == g.threads[x.read.tid][x.read.tindex];
    OverlapSharesLine(w.address, w.size, r.address, r.size);
  }

  /** Sound clocks hide no race. */
  lemma SoundClocksReportRaces(g: Graph, pdg: Pdg, p: Pvc, after: Clock, x: Race)
    requires g.WellFormed() && g.LineAligned() && g.IsRead(x.read)
    requires Sound(g, p, g.At(x.read).Line(), x.dependent) && RSound(g, after, x.read)
    requires RaceModuloRelays(g, pdg, x)
    ensures Reported(g, pdg, p, after, x)
  {
    CandidateSharesLine(g, pdg, x);
    var line := g.At(x.read).Line();
    if Covers(p, Persisted, x.read) {
      SoundCovers(g, p, Persisted, line, x.read, x.dependent);
    }
    if Covers(p, Persisted, x.write) {
      SoundCovers(g, p, Persisted, line, x.write, x.dependent);
    }
    if After(after, x.write) {
      RfAppendThread(g, x.read, Loc(x.write.tid, after[x.write.tid]), x.write);
    }
  }

  /** Exact clocks report nothing else. */
  lemma ExactClocksReportRaces(g: Graph, pdg: Pdg, p: Pvc, after: Clock, x: Race)
    requires g.WellFormed() && g.LineAligned() && g.IsRead(x.read)
    requires Complete(g, p, g.At(x.read).Line(), x.dependent) && RComplete(g, after, x.read)
    requires Reported(g, pdg, p, after, x)
    ensures RaceModuloRelays(g, pdg, x)
  {
    CandidateSharesLine(g, pdg, x);
  }

  /** Relays can only make the detector report too much, and where all of them are bridged they do not. */
  lemma RacesModuloRelays(g: Graph, pdg: Pdg, x: Race)
    requires g.WellFormed()
    ensures TrueRace(g, pdg, x) ==> RaceModuloRelays(g, pdg, x)
    ensures Bridged(g) ==> (TrueRace(g, pdg, x) <==> RaceModuloRelays(g, pdg, x))
  {
    BridgedIff(g);
    if RF(g, x.read, x.write) {
      RfImpliesHb(g, x.read, x.write);
    }
  }
}

/** `PersistencyRaceDetector` */
module Detector {
  import opened Cachelines
  import opened Hbg
  import opened Epochs
  import opened VectorClocks
  import opened PersistedBeforeSpec
  import opened DirtyFilter
  import opened DirtyInvariant
  import opened HappensAfterSpec
  import opened RaceSpec
  import opened ChainContents
  import opened HbgBuilding
  import opened Picking
  import opened FilterRuns
  import opened IsBugReference
  import HappensAfterPass

  ghost predicate ReadClocksOk(g: Graph, clocks: map<Loc, Clock>) {
    forall r | g.IsRead(r) :: r in clocks && RExactAt(g, clocks[r], r)
  }

  class PersistencyRaceDetector {
    const g: Graph
    const pdg: Pdg
    const daisyChains: DaisyChains
    var races: map<Race, bool>
    var state: State
    var vcPerReadNode: map<Loc, Clock>

    constructor (g: Graph, pdg: Pdg, daisyChains: DaisyChains)
      ensures this.g == g && this.pdg == pdg && this.daisyChains == daisyChains
      ensures races == map[] && state == INITIAL && vcPerReadNode == map[]
    {
      this.g, this.pdg, this.daisyChains := g, pdg, daisyChains;
      races, state, vcPerReadNode := map[], INITIAL, map[];
    }

    ghost predicate Inputs()
      reads daisyChains, daisyChains.Repr
    {
      && g.WellFormed() && g.LineAligned() && PdgOk(g, pdg)
      && daisyChains.Valid() && ChainsMatch(g.threads, daisyChains)
    }

    // ----- _find_bugs -----

    ghost predicate Bug(x: Race)
      reads this`state, this`vcPerReadNode
    {
      && g.IsRead(x.read)
      && Reported(g, pdg, state.P(x.dependent.tid, g.At(x.read).Line()), ClockAt(vcPerReadNode, x.read), x)
    }

    /** Does the write happen before the dependent write, as far as the clock knows. */
    predicate Flag(x: Race)
      requires g.IsRead(x.read)
      reads this`state
    {
      Covers(state.P(x.dependent.tid, g.At(x.read).Line()), Seen, x.write)
    }

    /** Exactly the bugs of write `d` with a read in `rs` and a write of a thread in `ts` have been added. */
    ghost predicate Grown(before: map<Race, bool>, d: Loc, rs: set<Loc>, ts: set<int>)
      reads this`races, this`state, this`vcPerReadNode
    {
      && (forall x :: x in races <==> x in before || (x.dependent == d && x.read in rs && x.write.tid in ts && Bug(x)))
      && (forall x | x in before :: races[x] == before[x])
      && (forall x | x in races && x !in before :: g.IsRead(x.read) && races[x] == Flag(x))
    }

    /** `PersistencyRace` asserts all of this when it is built. Adding to a set keeps an equal race. */
    method AddRace(x: Race, isWriteHbDependent: bool)
      requires g.IsRead(x.read) && g.IsWrite(x.write) && g.IsWrite(x.dependent)
      requires x.read.tid == x.dependent.tid
      requires NodesOverlap(g, x.read, x.write)
      requires !NodesOverlap(g, x.read, x.dependent) && !NodesOverlap(g, x.write, x.dependent)
      modifies this`races
      ensures races == old(if x in races then races else races[x := isWriteHbDependent])
    {
      if x !in races {
        races := races[x := isWriteHbDependent];
      }
    }

    /** A race's three nodes always satisfy the assertions of `PersistencyRace`. */
    lemma RaceAssertions(x: Race)
      requires g.WellFormed() && g.LineAligned() && PdgOk(g, pdg) && Candidate(g, pdg, x)
      ensures g.IsWrite(x.dependent) && x.read.tid == x.dependent.tid && NodesOverlap(g, x.read, x.write)
      ensures !NodesOverlap(g, x.read, x.dependent) && !NodesOverlap(g, x.write, x.dependent)
    {
      CandidateSharesLine(g, pdg, x);
      assert g.IsWrite((x.dependent, x.read).0);
      var r, w, d := g.At(x.read), g.At(x.write), g.At(x.dependent);
      assert r == g.threads[x.read.tid][x.read.tindex];
      assert w == g.threads[x.write.tid][x.write.tindex];
      assert d == g.threads[x.dependent.tid][x.dependent.tindex];
      OverlapSharesLine(r.address, r.size, d.address, d.size);
      OverlapSharesLine(w.address, w.size, d.address, d.size);
    }

    method FindBugs(d: Loc)
      requires Inputs() && g.IsWrite(d)
      requires forall line :: Sound(g, state.P(d.tid, line), line, d)
      modifies this`races, daisyChains
      ensures Inputs() && fresh(daisyChains.Repr - old(daisyChains.Repr))
      ensures Grown(old(races), d, set e | e in pdg && e.0 == d :: e.1, g.threads.Keys)
    {
      var deps := set e | e in pdg && e.0 == d :: e.1;
      var todo := deps;
      ghost var seen: set<Loc> := {};
      while todo != {}
        invariant seen + todo == deps
        invariant Inputs() && fresh(daisyChains.Repr - old(daisyChains.Repr))
        invariant Grown(old(races), d, seen, g.threads.Keys)
      {
        var r := Pick(todo);
        todo := todo - {r};
        assert (d, r) in pdg && g.IsRead((d, r).1);
        ghost var before := races;
        var p := state.P(d.tid, g.At(r).Line());
        if !Covers(p, Persisted, r) {
          FindForRead(d, r, p);
        } else {
          assert Grown(before, d, {r}, g.threads.Keys);
        }
        GrowMore(old(races), before, d, seen, {r}, g.threads.Keys, g.threads.Keys);
        seen := seen + {r};
      }
    }

    /** Two rounds of additions make one. */
    lemma GrowMore(first: map<Race, bool>, second: map<Race, bool>, d: Loc, rs: set<Loc>, rs': set<Loc>, ts: set<int>, ts': set<int>)
      requires Grown(second, d, rs', ts')
      requires (ts == ts' || rs == rs')
      requires forall x :: x in second <==> x in first || (x.dependent == d && x.read in rs && x.write.tid in ts && Bug(x))
      requires forall x | x in first :: second[x] == first[x]
      requires forall x | x in second && x !in first :: g.IsRead(x.read) && second[x] == Flag(x)
      ensures Grown(first, d, rs + rs', ts + ts')
    {
    }

    method FindForRead(d: Loc, r: Loc, p: Pvc)
      requires Inputs() && (d, r) in pdg && g.IsWrite(d) && g.IsRead(r) && p == state.P(d.tid, g.At(r).Line())
      requires Sound(g, p, g.At(r).Line(), d) && !Covers(p, Persisted, r)
      modifies this`races, daisyChains
      ensures Inputs() && fresh(daisyChains.Repr - old(daisyChains.Repr))
      ensures Grown(old(races), d, {r}, g.threads.Keys)
    {
      var todo := g.threads.Keys;
      ghost var seen: set<int> := {};
      while todo != {}
        invariant seen + todo == g.threads.Keys
        invariant Inputs() && fresh(daisyChains.Repr - old(daisyChains.Repr))
        invariant Grown(old(races), d, {r}, seen)
      {
        var t := Pick(todo);
        todo := todo - {t};
        ghost var before := races;
        var ws := ChainFor(t, g.At(r).Line(), p, d);
        FindInChain(d, r, p, t, ws);
        GrowMore(old(races), before, d, {r}, {r}, seen, {t});
        seen := seen + {t};
      }
    }

    /** The chain to look through: from the thread's last persisted access on, or all of it. */
    method ChainFor(t: int, line: nat, p: Pvc, ghost d: Loc) returns (ws: seq<Loc>)
      requires Inputs() && t in g.threads && Sound(g, p, line, d)
      modifies daisyChains
      ensures Inputs() && fresh(daisyChains.Repr - old(daisyChains.Repr))
      ensures ListsWrites(g, ws, t, line, if t in p.persisted then p.persisted[t] else 0)
    {
      if t in p.persisted {
        var start := Loc(t, p.persisted[t]);
        assert g.IsAccessOf(Loc(t, Entry(p, Persisted)[t]), line);
        ghost var i := AccessesHave(g.threads[t], t, line, start.tindex);
        var chain := daisyChains.GetChainByNode(start, line);
        ws := chain.value;
        ChainListsWrites(g, t, line, i, start.tindex);
      } else {
        ws := daisyChains.GetChainByThread(t, line);
        ChainListsWrites(g, t, line, 0, 0);
      }
    }

    /** One write of a chain. Looking stops at one that happens after the read. */
    method LookAt(x: Race, p: Pvc) returns (stop: bool)
      requires g.WellFormed() && g.LineAligned() && PdgOk(g, pdg) && (x.dependent, x.read) in pdg
      requires g.IsWrite(x.dependent) && g.IsRead(x.read) && g.IsWrite(x.write)
      requires p == state.P(x.dependent.tid, g.At(x.read).Line()) && !Covers(p, Persisted, x.read)
      modifies this`races
      ensures stop <==> Candidate(g, pdg, x) && !Covers(p, Persisted, x.write) && After(ClockAt(vcPerReadNode, x.read), x.write)
      ensures stop ==> races == old(races)
      ensures !stop ==> races == old(if Bug(x) && x !in races then races[x := Flag(x)] else races)
    {
      if g.At(x.write).nonTemporal || !NodesOverlap(g, x.write, x.read) || Covers(p, Persisted, x.write) {
        stop := false;
      } else if After(ClockAt(vcPerReadNode, x.read), x.write) {
        stop := true;
      } else {
        RaceAssertions(x);
        AddRace(x, Covers(p, Seen, x.write));
        stop := false;
      }
    }

    method FindInChain(d: Loc, r: Loc, p: Pvc, t: int, ws: seq<Loc>)
      requires g.WellFormed() && g.LineAligned() && PdgOk(g, pdg)
      requires (d, r) in pdg && g.IsWrite(d) && g.IsRead(r) && p == state.P(d.tid, g.At(r).Line())
      requires !Covers(p, Persisted, r)
      requires ListsWrites(g, ws, t, g.At(r).Line(), if t in p.persisted then p.persisted[t] else 0)
      modifies this`races
      ensures Grown(old(races), d, {r}, {t})
    {
      var i := 0;
      while i < |ws|
        invariant 0 <= i <= |ws|
        invariant forall x :: x in races <==> x in old(races) || (x.dependent == d && x.read == r && x.write in ws[..i] && Bug(x))
        invariant forall x | x in old(races) :: races[x] == old(races)[x]
        invariant forall x | x in races && x !in old(races) :: g.IsRead(x.read) && races[x] == Flag(x)
      {
        assert ws[..i + 1] == ws[..i] + [ws[i]];
        var stop := LookAt(Race(r, ws[i], d), p);
        if stop {
          break;
        }
        i := i + 1;
      }
      ChainMissesNothing(d, r, p, t, ws, i);
    }

    /** What lies before the start of the chain is persisted; what lies behind a write that happens after the
        read happens after it too. */
    lemma ChainMissesNothing(d: Loc, r: Loc, p: Pvc, t: int, ws: seq<Loc>, i: nat)
      requires g.WellFormed() && g.LineAligned() && g.IsRead(r) && p == state.P(d.tid, g.At(r).Line())
      requires ListsWrites(g, ws, t, g.At(r).Line(), if t in p.persisted then p.persisted[t] else 0)
      requires i <= |ws| && (i < |ws| ==> After(ClockAt(vcPerReadNode, r), ws[i]))
      ensures forall x: Race | x.dependent == d && x.read == r && Bug(x) :: x.write.tid == t <==> x.write in ws[..i]
    {
      forall k | i <= k < |ws| ensures After(ClockAt(vcPerReadNode, r), ws[k]) {
        assert ws[i] in ws && ws[k] in ws;
      }
      forall x: Race | x.dependent == d && x.read == r && Bug(x) ensures x.write.tid == t <==> x.write in ws[..i] {
        CandidateSharesLine(g, pdg, x);
        if x.write.tid == t {
          assert x.write in ws;
          var k :| 0 <= k < |ws| && ws[k] == x.write;
          assert k < i;
          assert ws[..i][k] == x.write;
        } else {
          assert forall w | w in ws[..i] :: w in ws;
        }
      }
    }

    // ----- _do_persisted_before_vector_clocks_analysis_fast -----

    ghost predicate StateOk(done: Progress)
      reads this`state
    {
      ProgressOk(g, done) && state.Shaped(g.threads.Keys) && Keeps(g, done, state, {})
    }

    /** No race whose dependent write has been processed is missing; without a lossy filter there are no others. */
    ghost predicate RacesOk(done: Progress)
      reads this`races
    {
      && (forall x: Race | x in races :: Processed(done, x.dependent) && Candidate(g, pdg, x))
      && (forall x: Race | Processed(done, x.dependent) && RaceModuloRelays(g, pdg, x) :: x in races)
      && (FirstReached(g) ==> forall x | x in races ::
            RaceModuloRelays(g, pdg, x) && (races[x] <==> HB(g, x.write, x.dependent)))
    }

    method TouchNode(n: Loc, ghost done: Progress)
      requires g.WellFormed() && Acyclic(g) && StateOk(done) && Ready(g, done, n) && !g.At(n).Epoch?
      requires ProgressOk(g, Advance(done, n.tid))
      modifies this`state
      ensures Turn(g, old(state), n, [], state) && StateOk(Advance(done, n.tid))
    {
      TouchStepKeeps(g, done, state, n);
      var line := g.At(n).Line();
      var p := state.P(n.tid, line);
      assert SoundBefore(g, p, line, n) by {
        assert SoundBefore(g, p, line, Loc(n.tid, done[n.tid]));
      }
      if g.At(n).Flush? {
        p := p.Flush();
      } else {
        AddEpochAllowed(g, p, line, n);
        p := AddEpoch(p, n);
      }
      state := state.AccessStep(g.threads.Keys, n.tid, line, p);
    }

    /** The source asserts that the epoch moves on. */
    static method AddEpoch(p: Pvc, n: Loc) returns (q: Pvc)
      requires Below(false, Get(p.seen, n.tid), Index(n.tindex))
      ensures q == p.AddEpoch(n.tid, n.tindex)
    {
      q := p.AddEpoch(n.tid, n.tindex);
    }

    /** Merging clocks line by line, as both loops over cache lines do. */
    static method MergeLines(mine: Row, lines: set<nat>, theirs: Row) returns (row: Row)
      ensures row == MergeRows(mine, lines, theirs)
    {
      row := mine;
      var todo := lines;
      ghost var merged: set<nat> := {};
      while todo != {}
        invariant merged + todo == lines && merged !! todo
        invariant row == MergeRows(mine, merged, theirs)
      {
        var line := Pick(todo);
        UpdatedOneMore(mine, merged, MergedClock(mine, theirs), line);
        row := row[line := ClockOf(row, line).Merge(ClockOf(theirs, line))];
        todo := todo - {line};
        merged := merged + {line};
      }
      assert merged == lines;
    }

    /** An epoch node merges what waits for it into its thread. */
    method TakeIn(n: Loc)
      modifies this`state
      ensures state == old(state).MergeStep(g.threads.Keys, n)
    {
      var tids, s := g.threads.Keys, state;
      var dirty := s.dirty[n.tid := s.DirtyOf(n.tid, tids).Merge(s.EpochDirtyOf(n, tids))];
      var row := MergeLines(s.ThreadRow(n.tid), s.EpochRow(n).Keys, s.EpochRow(n));
      state := State(s.pvc[n.tid := row], s.epochPvc - {n}, dirty, s.epochDirty - {n});
    }

    /** An epoch node tells one child the dirty lines. */
    method Tell(n: Loc, c: Loc)
      requires c.tid in state.DirtyOf(n.tid, g.threads.Keys).vector
      modifies this`state
      ensures state == old(state).SendStep(g.threads.Keys, n.tid, c)
    {
      var tids, s := g.threads.Keys, state;
      var row := MergeLines(s.EpochRow(c), s.DirtyOf(n.tid, tids).Of(c.tid), s.ThreadRow(n.tid));
      state := State(s.pvc, s.epochPvc[c := row],
                     s.dirty[n.tid := s.DirtyOf(n.tid, tids).Cleared(c.tid)],
                     s.epochDirty[c := s.EpochDirtyOf(c, tids).Told(s.DirtyOf(n.tid, tids))]);
    }

    /** An epoch node tells its children, in any order. */
    method TellChildren(n: Loc) returns (ghost cs: seq<Loc>)
      requires g.WellFormed() && g.Has(n) && state.Shaped(g.threads.Keys)
      modifies this`state
      ensures ListsChildren(g, n, cs) && Tellable(g.threads.Keys, n.tid, cs)
      ensures state == TellAll(old(state), g.threads.Keys, n.tid, cs)
    {
      var todo := set e | e in g.inter && e.0 == n :: e.1;
      ghost var tids, children, s := g.threads.Keys, todo, state;
      assert forall c :: c in children <==> (n, c) in g.inter by {
        ChildrenAre(g, n);
        assert children == Children(g, n);
      }
      assert forall c | c in children :: c.tid in tids && c.tid != n.tid by {
        assert forall e | e in g.inter :: g.Has(e.1) && e.0.tid != e.1.tid;
        assert forall c | c in children :: (n, c) in g.inter && (n, c).0.tid != (n, c).1.tid;
      }
      cs := [];
      while todo != {}
        invariant todo <= children && forall c :: c in cs <==> c in children && c !in todo
        invariant forall i, j | 0 <= i < j < |cs| :: cs[i] != cs[j]
        invariant Tellable(tids, n.tid, cs) && state == TellAll(s, tids, n.tid, cs)
      {
        var c := Pick(todo);
        assert Tellable(tids, n.tid, [c]) && Tellable(tids, n.tid, cs + [c]);
        TellOne(state, tids, n.tid, c);
        TellOneMore(s, tids, n.tid, cs, c);
        Tell(n, c);
        cs := cs + [c];
        todo := todo - {c};
      }
    }

    method EpochNode(n: Loc, ghost done: Progress) returns (ghost cs: seq<Loc>)
      requires g.WellFormed() && StateOk(done) && Ready(g, done, n) && g.At(n).Epoch?
      requires ProgressOk(g, Advance(done, n.tid))
      modifies this`state
      ensures Turn(g, old(state), n, cs, state) && StateOk(Advance(done, n.tid))
    {
      ghost var s := state;
      MergeShaped(s, g.threads.Keys, n);
      TakeIn(n);
      cs := TellChildren(n);
      EpochStepKeeps(g, done, s, n, cs);
    }

    /** One turn of the loop is a step of a run. */
    method ProcessNode(n: Loc, ghost done: Progress) returns (ghost cs: seq<Loc>)
      requires Inputs() && Acyclic(g) && ReadClocksOk(g, vcPerReadNode)
      requires StateOk(done) && RacesOk(done) && Ready(g, done, n)
      requires ProgressOk(g, Advance(done, n.tid))
      modifies this`state, this`races, daisyChains
      ensures Inputs() && fresh(daisyChains.Repr - old(daisyChains.Repr))
      ensures StateOk(Advance(done, n.tid)) && RacesOk(Advance(done, n.tid))
      ensures Turn(g, old(state), n, cs, state)
    {
      if g.At(n).Epoch? {
        cs := EpochNode(n, done);
        NothingToFind(n, done);
      } else {
        cs := [];
        TouchNode(n, done);
        LookForRaces(n, done);
      }
    }

    method LookForRaces(n: Loc, ghost done: Progress)
      requires Inputs() && ReadClocksOk(g, vcPerReadNode) && Ready(g, done, n)
      requires StateOk(Advance(done, n.tid)) && RacesOk(done)
      modifies this`races, daisyChains
      ensures Inputs() && fresh(daisyChains.Repr - old(daisyChains.Repr))
      ensures RacesOk(Advance(done, n.tid))
    {
      if g.At(n).Write? {
        AnalyseWrite(n, done);
      } else {
        NothingToFind(n, done);
      }
    }

    method AnalyseWrite(n: Loc, ghost done: Progress)
      requires Inputs() && ReadClocksOk(g, vcPerReadNode) && Ready(g, done, n) && g.IsWrite(n)
      requires StateOk(Advance(done, n.tid)) && RacesOk(done)
      modifies this`races, daisyChains
      ensures Inputs() && fresh(daisyChains.Repr - old(daisyChains.Repr))
      ensures RacesOk(Advance(done, n.tid))
    {
      assert forall line :: SoundBefore(g, state.P(n.tid, line), line, Loc(n.tid, Advance(done, n.tid)[n.tid]));
      FindBugs(n);
      FoundAll(n, done, old(races));
    }

    /** Only writes have dependencies. */
    lemma NothingToFind(n: Loc, done: Progress)
      requires PdgOk(g, pdg) && RacesOk(done) && n.tid in done && n.tindex == done[n.tid] && g.Has(n) && !g.At(n).Write?
      ensures RacesOk(Advance(done, n.tid))
    {
      forall x: Race | Processed(Advance(done, n.tid), x.dependent) && RaceModuloRelays(g, pdg, x) ensures x in races {
        assert g.IsWrite((x.dependent, x.read).0);
      }
    }

    lemma BugIffRace(x: Race)
      requires Inputs() && ReadClocksOk(g, vcPerReadNode) && g.IsRead(x.read)
      requires Sound(g, state.P(x.dependent.tid, g.At(x.read).Line()), g.At(x.read).Line(), x.dependent)
      ensures RaceModuloRelays(g, pdg, x) ==> Bug(x)
      ensures Complete(g, state.P(x.dependent.tid, g.At(x.read).Line()), g.At(x.read).Line(), x.dependent) && Bug(x) ==>
                RaceModuloRelays(g, pdg, x) && (Flag(x) <==> HB(g, x.write, x.dependent))
    {
      var line := g.At(x.read).Line();
      var p := state.P(x.dependent.tid, line);
      if RaceModuloRelays(g, pdg, x) {
        SoundClocksReportRaces(g, pdg, p, ClockAt(vcPerReadNode, x.read), x);
      }
      if Complete(g, p, line, x.dependent) && Bug(x) {
        ExactClocksReportRaces(g, pdg, p, ClockAt(vcPerReadNode, x.read), x);
        CandidateSharesLine(g, pdg, x);
        ExactClock(g, p, Seen, line, x.write, x.dependent);
      }
    }

    lemma FoundAll(n: Loc, done: Progress, before: map<Race, bool>)
      requires Inputs() && ReadClocksOk(g, vcPerReadNode) && Ready(g, done, n) && StateOk(Advance(done, n.tid))
      requires Grown(before, n, set e | e in pdg && e.0 == n :: e.1, g.threads.Keys)
      requires forall x: Race | x in before :: Processed(done, x.dependent) && Candidate(g, pdg, x)
      requires forall x: Race | Processed(done, x.dependent) && RaceModuloRelays(g, pdg, x) :: x in before
      requires FirstReached(g) ==> forall x | x in before ::
                 RaceModuloRelays(g, pdg, x) && (before[x] <==> HB(g, x.write, x.dependent))
      ensures RacesOk(Advance(done, n.tid))
    {
      var done' := Advance(done, n.tid);
      forall x: Race | x.dependent == n && g.IsRead(x.read)
        ensures RaceModuloRelays(g, pdg, x) ==> Bug(x)
        ensures FirstReached(g) && Bug(x) ==> RaceModuloRelays(g, pdg, x) && (Flag(x) <==> HB(g, x.write, x.dependent))
      {
        var line := g.At(x.read).Line();
        assert SoundBefore(g, state.P(n.tid, line), line, Loc(n.tid, done'[n.tid]));
        assert FirstReached(g) ==> CompleteBefore(g, state.P(n.tid, line), line, Loc(n.tid, done'[n.tid]));
        BugIffRace(x);
      }
      forall x: Race | Processed(done', x.dependent) && RaceModuloRelays(g, pdg, x) ensures x in races {
        if x.dependent == n {
          assert (n, x.read).1 in set e | e in pdg && e.0 == n :: e.1;
        }
      }
    }

    /** After `i` nodes: what has been found, and that the states so far make a run. */
    ghost predicate PassOk(order: seq<Loc>, i: nat, done: Progress, kids: Schedule, run: seq<State>)
      requires i <= |order|
      reads this`state, this`races
    {
      && PrefixIs(g, order, i, done) && StateOk(done) && RacesOk(done)
      && IsRun(g, order, kids, run) && |run| == i + 1 && run[i] == state
    }

    method NextNode(order: seq<Loc>, i: nat, ghost done: Progress, ghost kids: Schedule, ghost run: seq<State>)
      returns (ghost done': Progress, ghost kids': Schedule, ghost run': seq<State>)
      requires Inputs() && TopologicalOrder(g, order) && ReadClocksOk(g, vcPerReadNode)
      requires i < |order| && PassOk(order, i, done, kids, run)
      modifies this`state, this`races, daisyChains
      ensures Inputs() && fresh(daisyChains.Repr - old(daisyChains.Repr))
      ensures PassOk(order, i + 1, done', kids', run')
    {
      TopologicalImpliesAcyclic(g, order);
      AdvanceOk(g, order, i, done);
      ghost var cs := ProcessNode(order[i], done);
      kids' := OneMoreTurn(g, order, kids, run, cs, state);
      run' := run + [state];
      done' := Advance(done, order[i].tid);
    }

    /** The pass is one of the runs that the properties of the filter are about. */
    method FastSecondPass(order: seq<Loc>) returns (ghost kids: Schedule, ghost run: seq<State>)
      requires Inputs() && TopologicalOrder(g, order) && ReadClocksOk(g, vcPerReadNode)
      requires races == map[] && state == INITIAL
      modifies this`state, this`races, daisyChains
      ensures exists done: Progress :: RacesOk(done) && StateOk(done) && forall x | g.Has(x) :: Processed(done, x)
      ensures IsRun(g, order, kids, run) && |run| == |order| + 1 && run[|order|] == state
    {
      ghost var done: Progress := map t | t in g.threads :: 0;
      InitialState(g, done);
      kids := AnySchedule(g);
      run := [state];
      for i := 0 to |order|
        invariant Inputs() && fresh(daisyChains.Repr - old(daisyChains.Repr))
        invariant PassOk(order, i, done, kids, run)
      {
        done, kids, run := NextNode(order, i, done, kids, run);
      }
      assert order[..|order|] == order;
    }

    // ----- run -----

    ghost predicate CanValidate(successors: map<Loc, set<Loc>>, predecessors: map<Loc, seq<Loc>>) {
      g.WellFormed() && g.LineAligned() && PdgOk(g, pdg) && ReadsFirst(pdg) && AreSearches(g, successors, predecessors)
    }

    /** What a check of one race may say. */
    ghost predicate Verdict(x: Race, bug: bool) {
      && g.IsRead(x.read) && (TrueRace(g, pdg, x) ==> bug)
      && (Unflushed(g, x) ==> (TrueRace(g, pdg, x) <==> bug))
    }

    /** A candidate passes if the reference accepts it after the given search. Races always pass, and if nothing is flushed,
        nothing else. */
    method Check(x: Race, successors: map<Loc, set<Loc>>, predecessors: map<Loc, seq<Loc>>) returns (bug: bool)
      requires CanValidate(successors, predecessors) && Candidate(g, pdg, x)
      ensures Verdict(x, bug) && g.IsRead(x.read) && x.dependent in predecessors
      ensures bug <==> AcceptsAfter(g, x, predecessors[x.dependent])
    {
      assert g.IsWrite((x.dependent, x.read).0) && g.IsRead((x.dependent, x.read).1);
      HbThread(g, x.read, x.dependent);
      forall n | n in predecessors[x.dependent] ensures g.Has(n) {
      }
      var flushes;
      bug, flushes := IsBug(g, x, successors[x.read], predecessors[x.dependent], predecessors);
    }

    ghost predicate AllTrue()
      reads this`races
    {
      forall x | x in races :: TrueRace(g, pdg, x)
    }

    ghost predicate OnlyUnflushed()
      reads this`races
    {
      forall x | x in races :: g.IsRead(x.read) && Unflushed(g, x)
    }

    /** After the given searches the reference rejects the race. */
    ghost predicate Rejects(x: Race, predecessors: map<Loc, seq<Loc>>) {
      g.IsRead(x.read) && g.IsWrite(x.write) && x.dependent in predecessors && !AcceptsAfter(g, x, predecessors[x.dependent])
    }

    ghost predicate SomeRejected(predecessors: map<Loc, seq<Loc>>)
      reads this`races
    {
      exists x :: x in races && Rejects(x, predecessors)
    }

    /** `run` with `validate`: an exception if the reference rejects a race. */
    method Validate(successors: map<Loc, set<Loc>>, predecessors: map<Loc, seq<Loc>>) returns (raised: bool)
      requires CanValidate(successors, predecessors) && forall x | x in races :: Candidate(g, pdg, x)
      ensures raised <==> SomeRejected(predecessors)
      ensures raised ==> !AllTrue()
      ensures OnlyUnflushed() ==> (raised <==> !AllTrue())
    {
      var todo := races.Keys;
      ghost var passed: set<Race> := {};
      while todo != {}
        invariant passed + todo == races.Keys
        invariant forall x | x in passed :: !Rejects(x, predecessors)
        invariant forall x | x in passed :: Verdict(x, true)
      {
        var x := Pick(todo);
        var bug := Check(x, successors, predecessors);
        if !bug {
          Rejected(x);
          return true;
        }
        todo := todo - {x};
        passed := passed + {x};
      }
      AllPassed();
      raised := false;
    }

    lemma Rejected(x: Race)
      requires x in races && Verdict(x, false)
      ensures !AllTrue()
    {
    }

    lemma AllPassed()
      requires forall x | x in races :: Verdict(x, true)
      ensures OnlyUnflushed() ==> AllTrue()
    {
    }

    /** `run` with the fast second pass. No persistency race is ever missed. When every inter-thread edge ends at
        the first node its source reaches, the races found are exact up to relays; when all relays are bridged
        too, they are exactly the persistency races, each with the right flag. Validation raises an exception
        only if what was found is no race; so then it never does. */
    method Run(postOrder: seq<Loc>, order: seq<Loc>, validate: bool,
               successors: map<Loc, set<Loc>>, predecessors: map<Loc, seq<Loc>>)
      returns (raised: bool)
      requires Inputs() && PostOrder(g, postOrder) && TopologicalOrder(g, order)
      requires validate ==> ReadsFirst(pdg) && AreSearches(g, successors, predecessors)
      requires races == map[] && state == INITIAL
      modifies this, daisyChains
      ensures forall x :: TrueRace(g, pdg, x) ==> x in races
      ensures FirstReached(g) ==> forall x :: x in races <==> RaceModuloRelays(g, pdg, x)
      ensures FirstReached(g) && Bridged(g) ==> forall x :: x in races <==> TrueRace(g, pdg, x)
      ensures FirstReached(g) ==> forall x | x in races :: races[x] <==> HB(g, x.write, x.dependent)
      ensures raised <==> validate && SomeRejected(predecessors)
      ensures raised ==> validate && !AllTrue()
      ensures validate && FirstReached(g) ==> (raised <==> !AllTrue())
      ensures FirstReached(g) && Bridged(g) ==> !raised
    {
      FindRaces(postOrder, order);
      raised := false;
      if validate {
        raised := Validate(successors, predecessors);
      }
    }

    method FindRaces(postOrder: seq<Loc>, order: seq<Loc>)
      requires Inputs() && PostOrder(g, postOrder) && TopologicalOrder(g, order)
      requires races == map[] && state == INITIAL
      modifies this, daisyChains
      ensures forall x :: TrueRace(g, pdg, x) ==> x in races
      ensures forall x | x in races :: Candidate(g, pdg, x)
      ensures FirstReached(g) ==> forall x :: x in races <==> RaceModuloRelays(g, pdg, x)
      ensures FirstReached(g) && Bridged(g) ==> forall x :: x in races <==> TrueRace(g, pdg, x)
      ensures FirstReached(g) ==> forall x | x in races :: races[x] <==> HB(g, x.write, x.dependent)
    {
      var first := new HappensAfterPass.Pass(g);
      first.Run(postOrder);
      vcPerReadNode := first.vcPerReadNode;
      ghost var kids, run := FastSecondPass(order);
      ghost var done: Progress :| RacesOk(done) && StateOk(done) && forall x | g.Has(x) :: Processed(done, x);
      Conclude(done);
    }

    /** What having processed every node means for the races found. */
    lemma Conclude(done: Progress)
      requires g.WellFormed() && PdgOk(g, pdg) && RacesOk(done) && forall x | g.Has(x) :: Processed(done, x)
      ensures forall x :: TrueRace(g, pdg, x) ==> x in races
      ensures forall x | x in races :: Candidate(g, pdg, x)
      ensures FirstReached(g) ==> forall x :: x in races <==> RaceModuloRelays(g, pdg, x)
      ensures FirstReached(g) && Bridged(g) ==> forall x :: x in races <==> TrueRace(g, pdg, x)
      ensures FirstReached(g) ==> forall x | x in races :: races[x] <==> HB(g, x.write, x.dependent)
    {
      forall x: Race | RaceModuloRelays(g, pdg, x) ensures x in races {
        assert g.IsWrite((x.dependent, x.read).0);
      }
      forall x ensures TrueRace(g, pdg, x) ==> RaceModuloRelays(g, pdg, x)
               ensures Bridged(g) ==> (TrueRace(g, pdg, x) <==> RaceModuloRelays(g, pdg, x))
      {
        RacesModuloRelays(g, pdg, x);
      }
    }
  }
}
