/** The second pass without its dirty-line filter: every edge carries every line. What the filter is measured by. */
module FullRuns {
  import opened Hbg
  import opened PersistedBeforeSpec
  import opened DirtyFilter
  import opened DirtyInvariant
  import opened FilterRuns

  /** An epoch node of thread `t` tells its child `c` every line its thread knows of. The dirty sets are not used. */
  function SendAllStep(s: State, t: int, c: Loc): State {
    s.(epochPvc := s.epochPvc[c := MergeRows(s.EpochRow(c), s.ThreadRow(t).Keys, s.ThreadRow(t))])
  }

  ghost predicate SentAll(s: State, s': State, t: int, c: Loc) {
    && (forall u, l :: s'.P(u, l) == s.P(u, l))
    && (forall d, l :: s'.Q(d, l) == if d == c then s.Q(d, l).Merge(s.P(t, l)) else s.Q(d, l))
    && s'.dirty == s.dirty && s'.epochDirty == s.epochDirty
  }

  lemma SendAllEffect(s: State, t: int, c: Loc)
    ensures SentAll(s, SendAllStep(s, t, c), t, c)
  {
    var s' := SendAllStep(s, t, c);
    forall d, l ensures s'.Q(d, l) == if d == c then s.Q(d, l).Merge(s.P(t, l)) else s.Q(d, l) {
      MergeEmpty(s.Q(d, l));
    }
  }

  ghost function SendAllTo(s: State, t: int, cs: seq<Loc>): (s': State)
    ensures s'.dirty == s.dirty && s'.epochDirty == s.epochDirty
    decreases |cs|
  {
    if cs == [] then s else SendAllTo(SendAllStep(s, t, cs[0]), t, cs[1..])
  }

  ghost function FullNodeStep(g: Graph, s: State, n: Loc, kids: Schedule): (s': State)
    requires g.WellFormed() && g.Has(n) && IsSchedule(g, kids) && s.Shaped(g.threads.Keys)
    ensures s'.Shaped(g.threads.Keys)
  {
    if g.At(n).Epoch? then
      MergeShaped(s, g.threads.Keys, n);
      SendAllTo(s.MergeStep(g.threads.Keys, n), n.tid, kids[n])
    else
      AccessEffect(s, g.threads.Keys, n.tid, g.At(n).Line(), Touched(g, s, n));
      s.AccessStep(g.threads.Keys, n.tid, g.At(n).Line(), Touched(g, s, n))
  }

  ghost predicate FullMoves(g: Graph, s: State, n: Loc, kids: Schedule, s': State)
    requires g.WellFormed() && IsSchedule(g, kids) && s.Shaped(g.threads.Keys)
  {
    g.Has(n) && s' == FullNodeStep(g, s, n, kids)
  }

  ghost predicate IsFullRun(g: Graph, order: seq<Loc>, kids: Schedule, run: seq<State>) {
    && g.WellFormed() && TopologicalOrder(g, order) && IsSchedule(g, kids)
    && |run| == |order| + 1 && run[0] == INITIAL
    && (forall i | 0 <= i < |run| :: run[i].Shaped(g.threads.Keys))
    && (forall i | 0 <= i < |run| - 1 :: FullMoves(g, run[i], order[i], kids, run[i + 1]))
  }

  // ----- exact on every graph -----

  /** Over every edge that has been used, the child's buffer has what holds at the parent. */
  ghost predicate Served(g: Graph, done: Progress, s: State, unused: set<(Loc, Loc)>) {
    forall m, c, line, k, x | (m, c) in g.inter - unused && Processed(done, m) && !Processed(done, c)
      && g.IsAccessOf(x, line) && Holds(g, k, line, x, m) :: Covers(s.Q(c, line), k, x)
  }

  ghost predicate FullState(g: Graph, done: Progress, s: State, unused: set<(Loc, Loc)>) {
    SoundState(g, done, s) && CompleteThreads(g, done, s) && Served(g, done, s, unused)
  }

  lemma ServedIsDue(g: Graph, done: Progress, s: State)
    requires g.WellFormed() && Served(g, done, s, {})
    ensures EdgesDue(g, done, s, {})
  {
    forall m, c, line, k, x | (m, c) in g.inter - {} && Processed(done, m) && !Processed(done, c)
      && g.IsAccessOf(x, line) && Holds(g, k, line, x, m) ensures Due(g, done, s, c, line, k, x)
    {
      assert g.Has((m, c).1) && Covers(s.Q(c, line), k, x);
    }
  }

  lemma TouchKeepsFull(g: Graph, done: Progress, s: State, s': State, n: Loc)
    requires g.WellFormed() && Acyclic(g) && ProgressOk(g, done) && FullState(g, done, s, {})
    requires Ready(g, done, n) && !g.At(n).Epoch?
    requires s' == s.AccessStep(g.threads.Keys, n.tid, g.At(n).Line(), Touched(g, s, n))
    requires Accessed(s, s', g.threads.Keys, n.tid, g.At(n).Line(), Touched(g, s, n))
    ensures FullState(g, Advance(done, n.tid), s', {})
  {
    var done' := Advance(done, n.tid);
    TouchKeepsSound(g, done, s, s', n);
    forall t, line | t in done' ensures CompleteBefore(g, s'.P(t, line), line, Loc(t, done'[t])) {
      assert SoundBefore(g, s.P(t, line), line, Loc(t, done[t]));
      assert CompleteBefore(g, s.P(t, line), line, Loc(t, done[t]));
      if t == n.tid {
        if line == g.At(n).Line() {
          TouchedExact(g, s, n);
        } else {
          OtherLineExact(g, s.P(t, line), line, n);
        }
      }
    }
    forall m, c, line, k, x | (m, c) in g.inter - {} && Processed(done', m) && !Processed(done', c)
      && g.IsAccessOf(x, line) && Holds(g, k, line, x, m) ensures Covers(s'.Q(c, line), k, x)
    {
      assert g.At((m, c).0).Epoch? && m != n;
      assert Covers(s.Q(c, line), k, x);
    }
  }

  lemma MergeKeepsServed(g: Graph, done: Progress, s: State, s': State, n: Loc)
    requires g.WellFormed() && Served(g, done, s, {}) && Ready(g, done, n) && Merged(s, s', g.threads.Keys, n)
    ensures Served(g, Advance(done, n.tid), s', OutEdges(g, n))
  {
    var done' := Advance(done, n.tid);
    forall m, c, line, k, x | (m, c) in g.inter - OutEdges(g, n) && Processed(done', m) && !Processed(done', c)
      && g.IsAccessOf(x, line) && Holds(g, k, line, x, m) ensures Covers(s'.Q(c, line), k, x)
    {
      assert (m, c) in g.inter - {} && m != n;
      assert Covers(s.Q(c, line), k, x);
    }
  }

  lemma MergeKeepsFull(g: Graph, done: Progress, s: State, s': State, n: Loc)
    requires g.WellFormed() && ProgressOk(g, done) && FullState(g, done, s, {})
    requires Ready(g, done, n) && g.At(n).Epoch?
    requires s' == s.MergeStep(g.threads.Keys, n) && Merged(s, s', g.threads.Keys, n)
    ensures FullState(g, Advance(done, n.tid), s', OutEdges(g, n))
  {
    var done' := Advance(done, n.tid);
    MergeKeepsSound(g, done, s, s', n);
    MergeKeepsServed(g, done, s, s', n);
    ServedIsDue(g, done, s);
    forall t, line | t in done' ensures CompleteBefore(g, s'.P(t, line), line, Loc(t, done'[t])) {
      assert CompleteBefore(g, s.P(t, line), line, Loc(t, done[t]));
      if t == n.tid {
        MergeCompleteAt(g, done, s, n, line);
      }
    }
  }

  lemma SendAllKeepsSound(g: Graph, done: Progress, s: State, n: Loc, c: Loc)
    requires g.WellFormed() && SoundState(g, done, s)
    requires n.tid in done && n.tindex + 1 == done[n.tid] && (n, c) in g.inter && Pending(g, done, c)
    ensures SoundState(g, done, SendAllStep(s, n.tid, c))
  {
    var s' := SendAllStep(s, n.tid, c);
    SendAllEffect(s, n.tid, c);
    assert g.Edge(n, c) && g.At((n, c).1).Epoch?;
    HbEdge(g, n, c);
    forall d, line | g.Has(d) ensures Sound(g, s'.Q(d, line), line, d) {
      if d == c {
        assert SoundBefore(g, s.P(n.tid, line), line, Loc(n.tid, done[n.tid]));
        SoundLater(g, s.P(n.tid, line), line, n, c);
        SoundMerge(g, s.Q(c, line), s.P(n.tid, line), line, c);
      }
    }
    forall t, line | t in done ensures SoundBefore(g, s'.P(t, line), line, Loc(t, done[t])) {
      assert SoundBefore(g, s.P(t, line), line, Loc(t, done[t]));
    }
  }

  lemma SendAllKeepsFull(g: Graph, done: Progress, s: State, n: Loc, c: Loc, unused: set<(Loc, Loc)>)
    requires g.WellFormed() && FullState(g, done, s, unused)
    requires n.tid in done && n.tindex + 1 == done[n.tid] && (n, c) in g.inter && Pending(g, done, c)
    ensures FullState(g, done, SendAllStep(s, n.tid, c), unused - {(n, c)})
  {
    var s' := SendAllStep(s, n.tid, c);
    SendAllKeepsSound(g, done, s, n, c);
    SendAllEffect(s, n.tid, c);
    forall t, line | t in done ensures CompleteBefore(g, s'.P(t, line), line, Loc(t, done[t])) {
      assert CompleteBefore(g, s.P(t, line), line, Loc(t, done[t]));
    }
    forall m, d, line, k, x | (m, d) in g.inter - (unused - {(n, c)}) && Processed(done, m) && !Processed(done, d)
      && g.IsAccessOf(x, line) && Holds(g, k, line, x, m) ensures Covers(s'.Q(d, line), k, x)
    {
      CoversMerge(s.Q(d, line), s.P(n.tid, line), k, x);
      if (m, d) == (n, c) {
        assert CompleteBefore(g, s.P(n.tid, line), line, Loc(n.tid, done[n.tid]));
      } else {
        assert (m, d) in g.inter - unused;
        assert Covers(s.Q(d, line), k, x);
      }
    }
  }

  lemma {:induction false} SendAllToKeepsFull(g: Graph, done: Progress, s: State, n: Loc, cs: seq<Loc>, unused: set<(Loc, Loc)>)
    requires g.WellFormed() && FullState(g, done, s, unused)
    requires n.tid in done && n.tindex + 1 == done[n.tid]
    requires forall c | c in cs :: (n, c) in g.inter && Pending(g, done, c)
    requires unused == set c | c in cs :: (n, c)
    ensures FullState(g, done, SendAllTo(s, n.tid, cs), {})
    decreases |cs|
  {
    if cs == [] {
      assert unused == {};
    } else {
      SendAllKeepsFull(g, done, s, n, cs[0], unused);
      var rest := set c | c in cs[1..] :: (n, c);
      assert unused == rest + {(n, cs[0])};
      assert Served(g, done, SendAllStep(s, n.tid, cs[0]), rest);
      SendAllToKeepsFull(g, done, SendAllStep(s, n.tid, cs[0]), n, cs[1..], rest);
    }
  }

  lemma FullNodeStepKeeps(g: Graph, done: Progress, s: State, n: Loc, kids: Schedule)
    requires g.WellFormed() && Acyclic(g) && IsSchedule(g, kids) && s.Shaped(g.threads.Keys)
    requires ProgressOk(g, done) && FullState(g, done, s, {}) && Ready(g, done, n) && ProgressOk(g, Advance(done, n.tid))
    ensures FullState(g, Advance(done, n.tid), FullNodeStep(g, s, n, kids), {})
  {
    var tids := g.threads.Keys;
    if g.At(n).Epoch? {
      MergeEffect(s, tids, n);
      MergeKeepsFull(g, done, s, s.MergeStep(tids, n), n);
      ChildrenPending(g, done, n, kids[n]);
      SendAllToKeepsFull(g, Advance(done, n.tid), s.MergeStep(tids, n), n, kids[n], OutEdges(g, n));
    } else {
      AccessEffect(s, tids, n.tid, g.At(n).Line(), Touched(g, s, n));
      TouchKeepsFull(g, done, s, FullNodeStep(g, s, n, kids), n);
    }
  }

  lemma {:induction false} FullRunKeeps(g: Graph, order: seq<Loc>, kids: Schedule, run: seq<State>, i: nat)
    returns (done: Progress)
    requires IsFullRun(g, order, kids, run) && i < |run|
    ensures ProgressOk(g, done) && PrefixIs(g, order, i, done) && FullState(g, done, run[i], {})
    ensures i > 0 ==> order[i - 1].tid in done && done[order[i - 1].tid] == order[i - 1].tindex + 1
  {
    if i == 0 {
      done := map t | t in g.threads :: 0;
      InitialState(g, done);
    } else {
      var before := FullRunKeeps(g, order, kids, run, i - 1);
      TopologicalImpliesAcyclic(g, order);
      AdvanceOk(g, order, i - 1, before);
      FullNodeStepKeeps(g, before, run[i - 1], order[i - 1], kids);
      assert FullMoves(g, run[i - 1], order[i - 1], kids, run[i - 1 + 1]);
      done := Advance(before, order[i - 1].tid);
    }
  }

  /** With full propagation every clock is exact, on every DAG, in every topological order. */
  lemma FullIsExact(g: Graph, order: seq<Loc>, kids: Schedule, run: seq<State>, i: nat, line: nat)
    requires IsFullRun(g, order, kids, run) && i < |order|
    ensures Sound(g, run[i + 1].P(order[i].tid, line), line, order[i])
    ensures Complete(g, run[i + 1].P(order[i].tid, line), line, order[i])
  {
    var done := FullRunKeeps(g, order, kids, run, i + 1);
    ClockAfter(g, done, run[i + 1], order[i], line);
  }

  /** The clock of the thread whose node has been processed last. */
  lemma ClockAfter(g: Graph, done: Progress, s: State, n: Loc, line: nat)
    requires FullState(g, done, s, {}) && n.tid in done && done[n.tid] == n.tindex + 1
    ensures Sound(g, s.P(n.tid, line), line, n) && Complete(g, s.P(n.tid, line), line, n)
  {
    assert SoundBefore(g, s.P(n.tid, line), line, Loc(n.tid, done[n.tid]));
    assert CompleteBefore(g, s.P(n.tid, line), line, Loc(n.tid, done[n.tid]));
  }

  /** What full propagation decides: an access is seen exactly when it is reached from, and persisted exactly when a
      flush of the line lies in between. */
  lemma FullDecides(g: Graph, order: seq<Loc>, kids: Schedule, run: seq<State>, i: nat, k: Kind, line: nat, x: Loc)
    requires IsFullRun(g, order, kids, run) && i < |order| && g.IsAccessOf(x, line)
    ensures Covers(run[i + 1].P(order[i].tid, line), k, x) <==> Holds(g, k, line, x, order[i])
  {
    FullIsExact(g, order, kids, run, i, line);
    ExactClock(g, run[i + 1].P(order[i].tid, line), k, line, x, order[i]);
  }

  // ----- the filter against full propagation -----

  /** After every node the filtered clocks are those of full propagation, in whatever order that went. */
  ghost predicate Agrees(g: Graph, order: seq<Loc>, run: seq<State>, order': seq<Loc>, full: seq<State>)
    requires |run| == |order| + 1 && |full| == |order'| + 1
  {
    forall i: nat, j: nat, line: nat | i < |order| && j < |order'| :: SameAt(order, run, order', full, i, j, line)
  }

  ghost predicate SameAt(order: seq<Loc>, run: seq<State>, order': seq<Loc>, full: seq<State>, i: nat, j: nat, line: nat)
    requires i < |order| && i + 1 < |run| && j < |order'| && j + 1 < |full|
  {
    order[i] == order'[j] ==> run[i + 1].P(order[i].tid, line) == full[j + 1].P(order[i].tid, line)
  }

  /** A filtered run loses nothing exactly when it agrees with full propagation. */
  lemma LosslessIsAgreement(g: Graph, order: seq<Loc>, kids: Schedule, run: seq<State>,
                            order': seq<Loc>, kids': Schedule, full: seq<State>)
    requires IsRun(g, order, kids, run) && |run| == |order| + 1 && IsFullRun(g, order', kids', full)
    ensures ClocksComplete(g, order, run) <==> Agrees(g, order, run, order', full)
  {
    if ClocksComplete(g, order, run) {
      forall i: nat, j: nat, line: nat | i < |order| && j < |order'|
        ensures SameAt(order, run, order', full, i, j, line)
      {
        assert CompleteAt(g, order, run, i, line);
        SameClockAt(g, order, kids, run, order', kids', full, i, j, line);
      }
    }
    if Agrees(g, order, run, order', full) {
      forall i: nat, line | i < |order| ensures CompleteAt(g, order, run, i, line) {
        assert order[i] in order && order[i] in order';
        var j :| 0 <= j < |order'| && order'[j] == order[i];
        assert SameAt(order, run, order', full, i, j, line);
        FullIsExact(g, order', kids', full, j, line);
      }
    }
  }

  lemma SameClockAt(g: Graph, order: seq<Loc>, kids: Schedule, run: seq<State>,
                    order': seq<Loc>, kids': Schedule, full: seq<State>, i: nat, j: nat, line: nat)
    requires IsRun(g, order, kids, run) && |run| == |order| + 1 && IsFullRun(g, order', kids', full)
    requires i < |order| && j < |order'| && CompleteAt(g, order, run, i, line)
    ensures SameAt(order, run, order', full, i, j, line)
  {
    if order[i] == order'[j] {
      FilterSound(g, order, kids, run, i, line);
      FullIsExact(g, order', kids', full, j, line);
      ExactClockUnique(g, run[i + 1].P(order[i].tid, line), full[j + 1].P(order[i].tid, line), line, order[i]);
    }
  }

  /** When every edge ends at the first node its source reaches, the filtered pass computes what full propagation does. */
  lemma FilteredIsFull(g: Graph, order: seq<Loc>, kids: Schedule, run: seq<State>,
                       order': seq<Loc>, kids': Schedule, full: seq<State>)
    requires IsRun(g, order, kids, run) && |run| == |order| + 1 && IsFullRun(g, order', kids', full) && FirstReached(g)
    ensures Agrees(g, order, run, order', full)
  {
    FilterLossless(g, order, kids, run);
    LosslessIsAgreement(g, order, kids, run, order', kids', full);
  }

  lemma {:induction false} SomeFullPrefix(g: Graph, order: seq<Loc>, kids: Schedule, n: nat) returns (run: seq<State>)
    requires g.WellFormed() && TopologicalOrder(g, order) && IsSchedule(g, kids) && n <= |order|
    ensures |run| == n + 1 && run[0] == INITIAL && (forall i | 0 <= i < |run| :: run[i].Shaped(g.threads.Keys))
    ensures forall i | 0 <= i < |run| - 1 :: FullMoves(g, run[i], order[i], kids, run[i + 1])
  {
    if n == 0 {
      run := [INITIAL];
    } else {
      var before := SomeFullPrefix(g, order, kids, n - 1);
      assert order[n - 1] in order;
      run := before + [FullNodeStep(g, before[n - 1], order[n - 1], kids)];
      forall i | 0 <= i < |run| - 1 ensures FullMoves(g, run[i], order[i], kids, run[i + 1]) {
        if i < n - 1 {
          assert FullMoves(g, before[i], order[i], kids, before[i + 1]);
        }
      }
    }
  }

  /** There is always something to compare with. */
  lemma SomeFullRun(g: Graph, order: seq<Loc>, kids: Schedule) returns (run: seq<State>)
    requires g.WellFormed() && TopologicalOrder(g, order) && IsSchedule(g, kids)
    ensures IsFullRun(g, order, kids, run)
  {
    run := SomeFullPrefix(g, order, kids, |order|);
  }
}
