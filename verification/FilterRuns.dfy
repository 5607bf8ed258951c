/** Whole runs of the second pass: when does its dirty-line filter lose nothing? */
module FilterRuns {
  import opened Hbg
  import opened VectorClocks
  import opened PersistedBeforeSpec
  import opened DirtyFilter
  import opened DirtyInvariant

  /** An epoch node tells the members of a set of children in any order. */
  type Schedule = map<Loc, seq<Loc>>

  ghost predicate ListsChildren(g: Graph, n: Loc, cs: seq<Loc>) {
    && (forall c :: c in cs <==> (n, c) in g.inter)
    && (forall i, j | 0 <= i < j < |cs| :: cs[i] != cs[j])
  }

  ghost predicate IsSchedule(g: Graph, kids: Schedule) {
    forall n | g.Has(n) && g.At(n).Epoch? :: n in kids && ListsChildren(g, n, kids[n])
  }

  predicate Tellable(tids: set<int>, t: int, cs: seq<Loc>) {
    t in tids && forall c | c in cs :: c.tid in tids && c.tid != t
  }

  ghost function TellAll(s: State, tids: set<int>, t: int, cs: seq<Loc>): (s': State)
    requires s.Shaped(tids) && Tellable(tids, t, cs)
    ensures s'.Shaped(tids)
    decreases |cs|
  {
    if cs == [] then s
    else
      SendShaped(s, tids, t, cs[0]);
      TellAll(s.SendStep(tids, t, cs[0]), tids, t, cs[1..])
  }

  lemma {:induction false} TellOneMore(s: State, tids: set<int>, t: int, cs: seq<Loc>, c: Loc)
    requires s.Shaped(tids) && Tellable(tids, t, cs) && Tellable(tids, t, [c]) && Tellable(tids, t, cs + [c])
    ensures TellAll(s, tids, t, cs + [c]) == TellAll(TellAll(s, tids, t, cs), tids, t, [c])
    decreases |cs|
  {
    if cs == [] {
      assert cs + [c] == [c];
    } else {
      SendShaped(s, tids, t, cs[0]);
      assert (cs + [c])[0] == cs[0] && (cs + [c])[1..] == cs[1..] + [c];
      TellOneMore(s.SendStep(tids, t, cs[0]), tids, t, cs[1..], c);
    }
  }

  lemma TellOne(s: State, tids: set<int>, t: int, c: Loc)
    requires s.Shaped(tids) && Tellable(tids, t, [c])
    ensures c.tid in s.DirtyOf(t, tids).vector && TellAll(s, tids, t, [c]) == s.SendStep(tids, t, c)
  {
    assert c in [c];
    ShapedDirt(s, tids, t, c);
  }

  lemma ChildrenTellable(g: Graph, n: Loc, cs: seq<Loc>)
    requires g.WellFormed() && g.Has(n) && ListsChildren(g, n, cs)
    ensures Tellable(g.threads.Keys, n.tid, cs)
  {
    forall c | c in cs ensures c.tid in g.threads.Keys && c.tid != n.tid {
      assert g.Has((n, c).1) && (n, c).0.tid != (n, c).1.tid;
    }
  }

  /** One turn of the loop over the topological order. */
  ghost function NodeStep(g: Graph, s: State, n: Loc, kids: Schedule): (s': State)
    requires g.WellFormed() && g.Has(n) && IsSchedule(g, kids) && s.Shaped(g.threads.Keys)
    ensures s'.Shaped(g.threads.Keys)
  {
    if g.At(n).Epoch? then
      MergeShaped(s, g.threads.Keys, n);
      ChildrenTellable(g, n, kids[n]);
      TellAll(s.MergeStep(g.threads.Keys, n), g.threads.Keys, n.tid, kids[n])
    else
      AccessEffect(s, g.threads.Keys, n.tid, g.At(n).Line(), Touched(g, s, n));
      s.AccessStep(g.threads.Keys, n.tid, g.At(n).Line(), Touched(g, s, n))
  }

  /** The states of a run, before the first node, after it, and so on. */
  ghost predicate IsRun(g: Graph, order: seq<Loc>, kids: Schedule, run: seq<State>) {
    && g.WellFormed() && TopologicalOrder(g, order) && IsSchedule(g, kids)
    && 0 < |run| <= |order| + 1 && run[0] == INITIAL
    && (forall i | 0 <= i < |run| :: run[i].Shaped(g.threads.Keys))
    && (forall i | 0 <= i < |run| - 1 :: Moves(g, run[i], order[i], kids, run[i + 1]))
  }

  ghost predicate Moves(g: Graph, s: State, n: Loc, kids: Schedule, s': State)
    requires g.WellFormed() && IsSchedule(g, kids) && s.Shaped(g.threads.Keys)
  {
    g.Has(n) && s' == NodeStep(g, s, n, kids)
  }

  lemma RunMoves(g: Graph, order: seq<Loc>, kids: Schedule, run: seq<State>, i: nat)
    requires IsRun(g, order, kids, run) && 0 < i < |run|
    ensures run[i - 1].Shaped(g.threads.Keys) && g.Has(order[i - 1])
    ensures run[i] == NodeStep(g, run[i - 1], order[i - 1], kids)
  {
    assert Moves(g, run[i - 1], order[i - 1], kids, run[i - 1 + 1]);
  }

  lemma {:induction false} SomeRun(g: Graph, order: seq<Loc>, kids: Schedule, n: nat) returns (run: seq<State>)
    requires g.WellFormed() && TopologicalOrder(g, order) && IsSchedule(g, kids) && n <= |order|
    ensures IsRun(g, order, kids, run) && |run| == n + 1
  {
    if n == 0 {
      run := [INITIAL];
    } else {
      var before := SomeRun(g, order, kids, n - 1);
      assert order[n - 1] in order;
      run := before + [NodeStep(g, before[n - 1], order[n - 1], kids)];
      forall i | 0 <= i < |run| - 1 ensures Moves(g, run[i], order[i], kids, run[i + 1]) {
        if i < n - 1 {
          assert Moves(g, before[i], order[i], kids, before[i + 1]);
        }
      }
    }
  }

  /** After every node the thread's clocks know everything they should at that node. */
  ghost predicate ClocksComplete(g: Graph, order: seq<Loc>, run: seq<State>)
    requires |run| == |order| + 1
  {
    forall i: nat, line | i < |order| :: CompleteAt(g, order, run, i, line)
  }

  ghost predicate CompleteAt(g: Graph, order: seq<Loc>, run: seq<State>, i: nat, line: nat)
    requires i < |order| && i + 1 < |run|
  {
    Complete(g, run[i + 1].P(order[i].tid, line), line, order[i])
  }

  // ----- lossless when every edge ends at the first node reached -----

  ghost predicate Keeps(g: Graph, done: Progress, s: State, unused: set<(Loc, Loc)>) {
    SoundState(g, done, s) && (FirstReached(g) ==> LosslessState(g, done, s, unused))
  }

  lemma {:induction false} TellAllKeeps(g: Graph, done: Progress, s: State, n: Loc, cs: seq<Loc>, unused: set<(Loc, Loc)>)
    requires g.WellFormed() && s.Shaped(g.threads.Keys) && Tellable(g.threads.Keys, n.tid, cs) && Keeps(g, done, s, unused)
    requires n.tid in done && n.tindex + 1 == done[n.tid]
    requires forall c | c in cs :: (n, c) in g.inter && Pending(g, done, c)
    requires unused == set c | c in cs :: (n, c)
    ensures Keeps(g, done, TellAll(s, g.threads.Keys, n.tid, cs), {})
    decreases |cs|
  {
    if cs == [] {
      assert unused == {};
    } else {
      var c, tids := cs[0], g.threads.Keys;
      var s' := s.SendStep(tids, n.tid, c);
      SendEffect(s, tids, n.tid, c);
      SendShaped(s, tids, n.tid, c);
      SendKeepsSound(g, done, s, s', n, c);
      if FirstReached(g) {
        SendKeepsLossless(g, done, s, s', n, c, unused);
      }
      var rest := set c | c in cs[1..] :: (n, c);
      assert unused == rest + {(n, c)};
      if FirstReached(g) {
        assert EdgesDue(g, done, s', rest);
      }
      TellAllKeeps(g, done, s', n, cs[1..], rest);
    }
  }

  /** Once an epoch node is processed its children are still pending, and its edges are those to them. */
  lemma ChildrenPending(g: Graph, done: Progress, n: Loc, cs: seq<Loc>)
    requires g.WellFormed() && ListsChildren(g, n, cs) && ProgressOk(g, done) && Ready(g, done, n)
    ensures forall c | c in cs :: (n, c) in g.inter && Pending(g, Advance(done, n.tid), c)
    ensures OutEdges(g, n) == set c | c in cs :: (n, c)
  {
    forall c | c in cs ensures (n, c) in g.inter && Pending(g, Advance(done, n.tid), c) {
      assert g.Has((n, c).1) && (Processed(done, (n, c).1) ==> Processed(done, (n, c).0));
      assert (n, c).0.tid != (n, c).1.tid;
    }
    forall e ensures e in OutEdges(g, n) <==> e in set c | c in cs :: (n, c) {
      assert e == (e.0, e.1);
    }
  }

  lemma EpochStepKeeps(g: Graph, done: Progress, s: State, n: Loc, cs: seq<Loc>)
    requires g.WellFormed() && ListsChildren(g, n, cs) && s.Shaped(g.threads.Keys) && g.Has(n) && g.At(n).Epoch?
    requires ProgressOk(g, done) && Keeps(g, done, s, {}) && Ready(g, done, n)
    ensures var s' := s.MergeStep(g.threads.Keys, n);
            && s'.Shaped(g.threads.Keys) && Tellable(g.threads.Keys, n.tid, cs)
            && Keeps(g, Advance(done, n.tid), TellAll(s', g.threads.Keys, n.tid, cs), {})
  {
    var s', tids := s.MergeStep(g.threads.Keys, n), g.threads.Keys;
    MergeEffect(s, tids, n);
    MergeShaped(s, tids, n);
    MergeKeepsSound(g, done, s, s', n);
    if FirstReached(g) {
      MergeKeepsLossless(g, done, s, s', n);
    }
    ChildrenTellable(g, n, cs);
    ChildrenPending(g, done, n, cs);
    TellAllKeeps(g, Advance(done, n.tid), s', n, cs, OutEdges(g, n));
  }

  lemma TouchStepKeeps(g: Graph, done: Progress, s: State, n: Loc)
    requires g.WellFormed() && Acyclic(g) && s.Shaped(g.threads.Keys) && g.Has(n) && !g.At(n).Epoch?
    requires ProgressOk(g, done) && Keeps(g, done, s, {}) && Ready(g, done, n)
    ensures var s' := s.AccessStep(g.threads.Keys, n.tid, g.At(n).Line(), Touched(g, s, n));
            s'.Shaped(g.threads.Keys) && Keeps(g, Advance(done, n.tid), s', {})
  {
    var s' := s.AccessStep(g.threads.Keys, n.tid, g.At(n).Line(), Touched(g, s, n));
    AccessEffect(s, g.threads.Keys, n.tid, g.At(n).Line(), Touched(g, s, n));
    TouchKeepsSound(g, done, s, s', n);
    if FirstReached(g) {
      TouchKeepsLossless(g, done, s, s', n);
    }
  }

  lemma NodeStepKeeps(g: Graph, done: Progress, s: State, n: Loc, kids: Schedule)
    requires g.WellFormed() && Acyclic(g) && IsSchedule(g, kids) && s.Shaped(g.threads.Keys)
    requires ProgressOk(g, done) && Keeps(g, done, s, {}) && Ready(g, done, n)
    ensures Keeps(g, Advance(done, n.tid), NodeStep(g, s, n, kids), {})
  {
    if g.At(n).Epoch? {
      EpochStepKeeps(g, done, s, n, kids[n]);
    } else {
      TouchStepKeeps(g, done, s, n);
    }
  }

  lemma RunStepKeeps(g: Graph, order: seq<Loc>, i: nat, done: Progress, s: State, kids: Schedule)
    requires g.WellFormed() && TopologicalOrder(g, order) && IsSchedule(g, kids) && i < |order|
    requires s.Shaped(g.threads.Keys) && ProgressOk(g, done) && PrefixIs(g, order, i, done) && Keeps(g, done, s, {})
    ensures g.Has(order[i]) && Ready(g, done, order[i]) && ProgressOk(g, Advance(done, order[i].tid))
    ensures PrefixIs(g, order, i + 1, Advance(done, order[i].tid))
    ensures Keeps(g, Advance(done, order[i].tid), NodeStep(g, s, order[i], kids), {})
  {
    TopologicalImpliesAcyclic(g, order);
    AdvanceOk(g, order, i, done);
    NodeStepKeeps(g, done, s, order[i], kids);
  }

  /** What one turn of the loop does to the state, an epoch node's children being told in the order `cs`. */
  ghost predicate Turn(g: Graph, s: State, n: Loc, cs: seq<Loc>, s': State)
    requires g.Has(n)
  {
    if g.At(n).Epoch? then
      var m := s.MergeStep(g.threads.Keys, n);
      && ListsChildren(g, n, cs) && m.Shaped(g.threads.Keys) && Tellable(g.threads.Keys, n.tid, cs)
      && s' == TellAll(m, g.threads.Keys, n.tid, cs)
    else
      s' == s.AccessStep(g.threads.Keys, n.tid, g.At(n).Line(), Touched(g, s, n))
  }

  lemma TurnIsStep(g: Graph, s: State, n: Loc, cs: seq<Loc>, s': State, kids: Schedule)
    requires g.WellFormed() && g.Has(n) && s.Shaped(g.threads.Keys) && Turn(g, s, n, cs, s')
    requires IsSchedule(g, kids) && (g.At(n).Epoch? ==> kids[n] == cs)
    ensures s' == NodeStep(g, s, n, kids) && s'.Shaped(g.threads.Keys)
  {
  }

  /** One more turn of the loop makes a run longer. */
  lemma OneMoreTurn(g: Graph, order: seq<Loc>, kids: Schedule, run: seq<State>, cs: seq<Loc>, s: State)
    returns (kids': Schedule)
    requires IsRun(g, order, kids, run) && |run| <= |order| && g.Has(order[|run| - 1])
    requires Turn(g, run[|run| - 1], order[|run| - 1], cs, s)
    ensures IsRun(g, order, kids', run + [s])
  {
    var i := |run| - 1;
    var n := order[i];
    kids' := if g.At(n).Epoch? then kids[n := cs] else kids;
    TurnIsStep(g, run[i], n, cs, s, kids');
    forall j | 0 <= j < i ensures Moves(g, run[j], order[j], kids', run[j + 1]) {
      assert Moves(g, run[j], order[j], kids, run[j + 1]);
      assert order[j] != order[i];
    }
    ExtendRun(g, order, kids', run, s);
  }

  lemma ExtendRun(g: Graph, order: seq<Loc>, kids: Schedule, run: seq<State>, s: State)
    requires IsRun(g, order, kids, run) && |run| <= |order| && s.Shaped(g.threads.Keys)
    requires Moves(g, run[|run| - 1], order[|run| - 1], kids, s)
    ensures IsRun(g, order, kids, run + [s])
  {
    var run' := run + [s];
    forall j | 0 <= j < |run'| - 1 ensures Moves(g, run'[j], order[j], kids, run'[j + 1]) {
      assert j < |run| - 1 ==> Moves(g, run[j], order[j], kids, run[j + 1]);
    }
  }

  lemma {:induction false} RunKeeps(g: Graph, order: seq<Loc>, kids: Schedule, run: seq<State>, i: nat)
    returns (done: Progress)
    requires IsRun(g, order, kids, run) && i < |run|
    ensures ProgressOk(g, done) && PrefixIs(g, order, i, done) && Keeps(g, done, run[i], {})
  {
    if i == 0 {
      done := map t | t in g.threads :: 0;
      InitialState(g, done);
    } else {
      var before := RunKeeps(g, order, kids, run, i - 1);
      RunMoves(g, order, kids, run, i);
      RunStepKeeps(g, order, i - 1, before, run[i - 1], kids);
      done := Advance(before, order[i - 1].tid);
    }
  }

  /** Edges to the first node reached are enough, for every order and every schedule. */
  lemma FilterLossless(g: Graph, order: seq<Loc>, kids: Schedule, run: seq<State>)
    requires IsRun(g, order, kids, run) && |run| == |order| + 1 && FirstReached(g)
    ensures ClocksComplete(g, order, run)
  {
    forall i: nat, line | i < |order| ensures CompleteAt(g, order, run, i, line) {
      var done := RunKeeps(g, order, kids, run, i);
      var n := order[i];
      RunStepKeeps(g, order, i, done, run[i], kids);
      assert Moves(g, run[i], order[i], kids, run[i + 1]);
      assert CompleteBefore(g, run[i + 1].P(n.tid, line), line, Loc(n.tid, Advance(done, n.tid)[n.tid]));
    }
  }

  /** Whatever is lost, nothing false is added. */
  lemma FilterSound(g: Graph, order: seq<Loc>, kids: Schedule, run: seq<State>, i: nat, line: nat)
    requires IsRun(g, order, kids, run) && |run| == |order| + 1 && i < |order|
    ensures Sound(g, run[i + 1].P(order[i].tid, line), line, order[i])
  {
    var done := RunKeeps(g, order, kids, run, i);
    RunStepKeeps(g, order, i, done, run[i], kids);
    assert Moves(g, run[i], order[i], kids, run[i + 1]);
    assert SoundBefore(g, run[i + 1].P(order[i].tid, line), line, Loc(order[i].tid, Advance(done, order[i].tid)[order[i].tid]));
  }

  /** The filtered pass decides happens-before and persisted-before exactly. */
  lemma FilterExact(g: Graph, order: seq<Loc>, kids: Schedule, run: seq<State>, i: nat, k: Kind, line: nat, x: Loc)
    requires IsRun(g, order, kids, run) && |run| == |order| + 1 && FirstReached(g)
    requires i < |order| && g.IsAccessOf(x, line)
    ensures Covers(run[i + 1].P(order[i].tid, line), k, x) <==> Holds(g, k, line, x, order[i])
  {
    FilterLossless(g, order, kids, run);
    assert CompleteAt(g, order, run, i, line);
    FilterSound(g, order, kids, run, i, line);
    ExactClock(g, run[i + 1].P(order[i].tid, line), k, line, x, order[i]);
  }

  // ----- lossy otherwise -----

  /** `x` is the only node that touches its line. */
  ghost predicate Alone(g: Graph, x: Loc) {
    && g.Has(x) && g.At(x).IsAccess()
    && forall y | g.Has(y) && !g.At(y).Epoch? && g.At(y).Line() == g.At(x).Line() :: y == x
  }

  /** The edge ends later than another node its source reaches in the same thread. */
  ghost predicate Crosses(g: Graph, m: Loc, c: Loc, e: Loc) {
    (m, c) in g.inter && HB(g, m, e) && e.tid == c.tid && e.tindex < c.tindex
  }

  /** It leaves right after an access to a line nobody else touches. */
  ghost predicate CrossesProbed(g: Graph, m: Loc, c: Loc, e: Loc) {
    Crosses(g, m, c, e) && m.tindex > 0 && Alone(g, Loc(m.tid, m.tindex - 1))
  }

  /** If edges cross, then one of them so. */
  ghost predicate Probed(g: Graph) {
    (exists m, c, e :: Crosses(g, m, c, e)) ==> exists m, c, e :: CrossesProbed(g, m, c, e)
  }

  /** Nobody but thread `t` knows of the line or owes it to anyone. */
  ghost predicate OnlyAt(s: State, line: nat, t: int) {
    && (forall v | v != t :: s.P(v, line) == EMPTY)
    && (forall d: Loc :: s.Q(d, line) == EMPTY)
    && (forall v, w | v != t :: line !in s.D(v, w))
    && (forall d, w :: line !in s.E(d, w))
  }

  ghost predicate Untouched(s: State, line: nat) {
    && (forall v :: s.P(v, line) == EMPTY)
    && (forall d: Loc :: s.Q(d, line) == EMPTY)
    && (forall v, w :: line !in s.D(v, w))
    && (forall d, w :: line !in s.E(d, w))
  }

  /** Thread `u` will hear of the line at node `c` only. */
  ghost predicate Starved(s: State, line: nat, u: int, c: Loc) {
    && s.P(u, line) == EMPTY
    && (forall d: Loc | d.tid == u && d != c :: s.Q(d, line) == EMPTY)
    && (forall v :: line !in s.D(v, u))
    && (forall d :: line !in s.E(d, u))
  }

  lemma {:induction false} TellAllStarves(s: State, tids: set<int>, t: int, cs: seq<Loc>, line: nat, u: int, c: Loc)
    requires s.Shaped(tids) && Tellable(tids, t, cs) && Starved(s, line, u, c)
    ensures Starved(TellAll(s, tids, t, cs), line, u, c)
    decreases |cs|
  {
    if cs != [] {
      SendEffect(s, tids, t, cs[0]);
      SendShaped(s, tids, t, cs[0]);
      TellAllStarves(s.SendStep(tids, t, cs[0]), tids, t, cs[1..], line, u, c);
    }
  }

  lemma {:induction false} TellAllUntouched(s: State, tids: set<int>, t: int, cs: seq<Loc>, line: nat)
    requires s.Shaped(tids) && Tellable(tids, t, cs) && Untouched(s, line)
    ensures Untouched(TellAll(s, tids, t, cs), line)
    decreases |cs|
  {
    if cs != [] {
      SendEffect(s, tids, t, cs[0]);
      SendShaped(s, tids, t, cs[0]);
      TellAllUntouched(s.SendStep(tids, t, cs[0]), tids, t, cs[1..], line);
    }
  }

  lemma {:induction false} TellAllOnlyAt(s: State, tids: set<int>, t: int, cs: seq<Loc>, line: nat, u: int)
    requires s.Shaped(tids) && Tellable(tids, t, cs) && OnlyAt(s, line, u) && u != t
    ensures OnlyAt(TellAll(s, tids, t, cs), line, u)
    decreases |cs|
  {
    if cs != [] {
      SendEffect(s, tids, t, cs[0]);
      SendShaped(s, tids, t, cs[0]);
      TellAllOnlyAt(s.SendStep(tids, t, cs[0]), tids, t, cs[1..], line, u);
    }
  }

  /** Merging an empty clock into an empty clock changes nothing. */
  lemma MergedProbe(s: State, s': State, tids: set<int>, n: Loc, line: nat, t: int, c: Loc)
    requires Merged(s, s', tids, n)
    ensures Untouched(s, line) ==> Untouched(s', line)
    ensures OnlyAt(s, line, t) ==> OnlyAt(s', line, t)
    ensures Starved(s, line, c.tid, c) && n != c ==> Starved(s', line, c.tid, c)
  {
    MergeEmpty(EMPTY);
  }

  /** The telling epoch node: what its thread alone knows of goes to `c` and, for `c`'s thread, nowhere else. */
  lemma TellFirst(s: State, tids: set<int>, t: int, cs: seq<Loc>, line: nat)
    requires s.Shaped(tids) && Tellable(tids, t, cs) && OnlyAt(s, line, t) && cs != []
    ensures Starved(TellAll(s, tids, t, cs), line, cs[0].tid, cs[0])
  {
    var c := cs[0];
    SendEffect(s, tids, t, c);
    SendShaped(s, tids, t, c);
    TellAllStarves(s.SendStep(tids, t, c), tids, t, cs[1..], line, c.tid, c);
  }

  /** Where the line of probe `x` can be while edge `m -> c` has it on its way. */
  ghost predicate Probe(s: State, line: nat, x: Loc, m: Loc, c: Loc, done: Progress) {
    if !Processed(done, x) then Untouched(s, line)
    else if !Processed(done, m) then OnlyAt(s, line, x.tid)
    else !Processed(done, c) ==> Starved(s, line, c.tid, c)
  }

  ghost predicate OnItsWay(g: Graph, kids: Schedule, x: Loc, m: Loc, c: Loc) {
    && (m, c) in g.inter && Alone(g, x) && m == Loc(x.tid, x.tindex + 1)
    && m in kids && kids[m] != [] && kids[m][0] == c
  }

  /** Which case of `Probe` applies after an epoch node. */
  lemma EpochAdvances(g: Graph, done: Progress, n: Loc, kids: Schedule, x: Loc, m: Loc, c: Loc)
    requires g.WellFormed() && OnItsWay(g, kids, x, m, c) && Ready(g, done, n) && g.At(n).Epoch?
    ensures forall y | g.Has(y) :: Processed(Advance(done, n.tid), y) <==> Processed(done, y) || y == n
    ensures n != x && m != c && m.tid == x.tid && c.tid != x.tid && g.Has(m) && g.Has(c)
    ensures n.tid == x.tid && Processed(done, x) && !Processed(done, m) ==> n == m
  {
    assert g.Has((m, c).0) && (m, c).0.tid != (m, c).1.tid;
  }

  lemma ProbeMovesAtEpoch(g: Graph, done: Progress, s: State, s': State, n: Loc, kids: Schedule, x: Loc, m: Loc, c: Loc)
    requires g.WellFormed() && OnItsWay(g, kids, x, m, c)
    requires Ready(g, done, n) && g.At(n).Epoch? && n in kids && Tellable(g.threads.Keys, n.tid, kids[n])
    requires s'.Shaped(g.threads.Keys) && Merged(s, s', g.threads.Keys, n)
    requires Processed(done, m) ==> Processed(done, x)
    requires Probe(s, g.At(x).Line(), x, m, c, done)
    ensures Probe(TellAll(s', g.threads.Keys, n.tid, kids[n]), g.At(x).Line(), x, m, c, Advance(done, n.tid))
  {
    var tids, line := g.threads.Keys, g.At(x).Line();
    MergedProbe(s, s', tids, n, line, x.tid, c);
    EpochAdvances(g, done, n, kids, x, m, c);
    if !Processed(done, x) {
      TellAllUntouched(s', tids, n.tid, kids[n], line);
    } else if !Processed(done, m) && n != m {
      TellAllOnlyAt(s', tids, n.tid, kids[n], line, x.tid);
    } else if n == m {
      TellFirst(s', tids, n.tid, kids[n], line);
    } else if !Processed(done, c) && n != c {
      TellAllStarves(s', tids, n.tid, kids[n], line, c.tid, c);
    }
  }

  /** Which case of `Probe` applies after an access or a flush. */
  lemma AccessAdvances(g: Graph, done: Progress, n: Loc, kids: Schedule, x: Loc, m: Loc, c: Loc)
    requires g.WellFormed() && OnItsWay(g, kids, x, m, c) && Ready(g, done, n) && !g.At(n).Epoch?
    ensures forall y | g.Has(y) :: Processed(Advance(done, n.tid), y) <==> Processed(done, y) || y == n
    ensures g.Has(m) && g.Has(c) && n != m && n != c && !Processed(done, n)
    ensures g.At(n).Line() == g.At(x).Line() <==> n == x
  {
    assert g.At((m, c).0).Epoch? && g.At((m, c).1).Epoch?;
  }

  /** Nobody else touches the line. */
  lemma OtherAccess(s: State, s': State, tids: set<int>, t: int, line: nat, p: Pvc, probe: nat, u: int, c: Loc)
    requires Accessed(s, s', tids, t, line, p) && line != probe
    ensures Untouched(s, probe) ==> Untouched(s', probe)
    ensures OnlyAt(s, probe, u) ==> OnlyAt(s', probe, u)
    ensures Starved(s, probe, c.tid, c) ==> Starved(s', probe, c.tid, c)
  {
  }

  lemma FirstAccess(s: State, s': State, tids: set<int>, t: int, line: nat, p: Pvc)
    requires Accessed(s, s', tids, t, line, p) && Untouched(s, line)
    ensures OnlyAt(s', line, t)
  {
  }

  lemma ProbeMovesAtAccess(g: Graph, done: Progress, s: State, s': State, n: Loc, kids: Schedule, x: Loc, m: Loc, c: Loc)
    requires g.WellFormed() && OnItsWay(g, kids, x, m, c) && Ready(g, done, n) && !g.At(n).Epoch?
    requires Accessed(s, s', g.threads.Keys, n.tid, g.At(n).Line(), Touched(g, s, n))
    requires Processed(done, m) ==> Processed(done, x)
    requires Probe(s, g.At(x).Line(), x, m, c, done)
    ensures Probe(s', g.At(x).Line(), x, m, c, Advance(done, n.tid))
  {
    AccessAdvances(g, done, n, kids, x, m, c);
    if n == x {
      FirstAccess(s, s', g.threads.Keys, n.tid, g.At(n).Line(), Touched(g, s, n));
    } else {
      OtherAccess(s, s', g.threads.Keys, n.tid, g.At(n).Line(), Touched(g, s, n), g.At(x).Line(), x.tid, c);
    }
  }

  lemma ProbeMoves(g: Graph, done: Progress, s: State, n: Loc, kids: Schedule, x: Loc, m: Loc, c: Loc)
    requires g.WellFormed() && IsSchedule(g, kids) && s.Shaped(g.threads.Keys)
    requires ProgressOk(g, done) && Ready(g, done, n) && OnItsWay(g, kids, x, m, c)
    requires Probe(s, g.At(x).Line(), x, m, c, done)
    ensures Probe(NodeStep(g, s, n, kids), g.At(x).Line(), x, m, c, Advance(done, n.tid))
  {
    var tids := g.threads.Keys;
    if g.At(n).Epoch? {
      MergeEffect(s, tids, n);
      MergeShaped(s, tids, n);
      ChildrenTellable(g, n, kids[n]);
      ProbeMovesAtEpoch(g, done, s, s.MergeStep(tids, n), n, kids, x, m, c);
    } else {
      AccessEffect(s, tids, n.tid, g.At(n).Line(), Touched(g, s, n));
      ProbeMovesAtAccess(g, done, s, NodeStep(g, s, n, kids), n, kids, x, m, c);
    }
  }

  lemma ProbeSteps(g: Graph, order: seq<Loc>, i: nat, done: Progress, s: State, kids: Schedule, x: Loc, m: Loc, c: Loc)
    requires g.WellFormed() && TopologicalOrder(g, order) && IsSchedule(g, kids) && i < |order| && s.Shaped(g.threads.Keys)
    requires ProgressOk(g, done) && PrefixIs(g, order, i, done) && OnItsWay(g, kids, x, m, c)
    requires Probe(s, g.At(x).Line(), x, m, c, done)
    ensures g.Has(order[i]) && Ready(g, done, order[i]) && ProgressOk(g, Advance(done, order[i].tid))
    ensures PrefixIs(g, order, i + 1, Advance(done, order[i].tid))
    ensures Probe(NodeStep(g, s, order[i], kids), g.At(x).Line(), x, m, c, Advance(done, order[i].tid))
  {
    AdvanceOk(g, order, i, done);
    ProbeMoves(g, done, s, order[i], kids, x, m, c);
  }

  lemma {:induction false} ProbeRuns(g: Graph, order: seq<Loc>, kids: Schedule, run: seq<State>, i: nat, x: Loc, m: Loc, c: Loc)
    returns (done: Progress)
    requires IsRun(g, order, kids, run) && i < |run| && OnItsWay(g, kids, x, m, c)
    ensures ProgressOk(g, done) && PrefixIs(g, order, i, done)
    ensures Probe(run[i], g.At(x).Line(), x, m, c, done)
  {
    if i == 0 {
      done := map t | t in g.threads :: 0;
    } else {
      var before := ProbeRuns(g, order, kids, run, i - 1, x, m, c);
      RunMoves(g, order, kids, run, i);
      ProbeSteps(g, order, i - 1, before, run[i - 1], kids, x, m, c);
      done := Advance(before, order[i - 1].tid);
    }
  }

  /** Once the edge has been used the thread it leads to knows nothing of the line until the edge's end. */
  lemma ProbeLeavesEmpty(s: State, line: nat, x: Loc, m: Loc, c: Loc, done: Progress)
    requires Probe(s, line, x, m, c, done) && Processed(done, x) && Processed(done, m) && !Processed(done, c)
    ensures s.P(c.tid, line) == EMPTY
  {
  }

  lemma EmptyMisses(g: Graph, line: nat, x: Loc, n: Loc)
    requires g.IsAccessOf(x, line) && HB(g, x, n)
    ensures !Complete(g, EMPTY, line, n)
  {
    assert Holds(g, Seen, line, x, n) && !Covers(EMPTY, Seen, x);
  }

  /** After node `e` everything before it has been processed and nothing behind it. */
  lemma ProcessedAround(g: Graph, order: seq<Loc>, i: nat, done: Progress, a: Loc, b: Loc)
    requires TopologicalOrder(g, order) && i < |order| && ProgressOk(g, done) && PrefixIs(g, order, i + 1, done)
    requires HB(g, a, order[i]) && HB(g, order[i], b) && b != order[i]
    ensures Processed(done, a) && !Processed(done, b)
  {
    assert order[..i + 1][i] == order[i];
    ProcessedClosed(g, done, a, order[i]);
    if b in order[..i + 1] {
      var j :| 0 <= j < i + 1 && order[j] == b;
      var p :| Joins(g, p, order[i], b);
      PathForwards(g, order, p, i, j);
    }
  }

  lemma ProbeArrives(g: Graph, order: seq<Loc>, kids: Schedule, run: seq<State>, i: nat, x: Loc, m: Loc, c: Loc)
    requires IsRun(g, order, kids, run) && i + 1 < |run| && OnItsWay(g, kids, x, m, c)
    requires HB(g, x, order[i]) && HB(g, m, order[i]) && HB(g, order[i], c) && c != order[i]
    ensures run[i + 1].P(c.tid, g.At(x).Line()) == EMPTY
  {
    var done := ProbeRuns(g, order, kids, run, i + 1, x, m, c);
    ProcessedAround(g, order, i, done, m, c);
    ProcessedAround(g, order, i, done, x, c);
    ProbeLeavesEmpty(run[i + 1], g.At(x).Line(), x, m, c, done);
  }

  /** An edge that ends later than another node its source reaches starves that node. */
  lemma CrossingStarves(g: Graph, order: seq<Loc>, kids: Schedule, run: seq<State>, m: Loc, c: Loc, e: Loc)
    requires IsRun(g, order, kids, run) && |run| == |order| + 1
    requires m.tindex > 0 && OnItsWay(g, kids, Loc(m.tid, m.tindex - 1), m, c)
    requires HB(g, m, e) && e.tid == c.tid && e.tindex < c.tindex
    ensures !ClocksComplete(g, order, run)
  {
    var x := Loc(m.tid, m.tindex - 1);
    var line := g.At(x).Line();
    assert g.Has((m, c).0) && g.Has((m, c).1) && e in order;
    HbThread(g, x, m);
    HbTrans(g, x, m, e);
    HbThread(g, e, c);
    var i :| 0 <= i < |order| && order[i] == e;
    ProbeArrives(g, order, kids, run, i, x, m, c);
    EmptyMisses(g, line, x, e);
    assert !CompleteAt(g, order, run, i, line);
  }

  ghost function Listing(s: set<Loc>): (q: seq<Loc>)
    ensures forall x :: x in q <==> x in s
    ensures forall i, j | 0 <= i < j < |q| :: q[i] != q[j]
  {
    if s == {} then []
    else
      var x :| x in s;
      [x] + Listing(s - {x})
  }

  ghost function Children(g: Graph, n: Loc): set<Loc> { set e | e in g.inter && e.0 == n :: e.1 }

  lemma AnySchedule(g: Graph) returns (kids: Schedule)
    ensures IsSchedule(g, kids)
  {
    kids := map n | n in g.Nodes() :: Listing(Children(g, n));
    forall n | g.Has(n) && g.At(n).Epoch? ensures n in kids && ListsChildren(g, n, kids[n]) {
      ChildrenAre(g, n);
    }
  }

  lemma ChildrenAre(g: Graph, n: Loc)
    ensures forall d :: d in Children(g, n) <==> (n, d) in g.inter
  {
    forall d ensures d in Children(g, n) <==> (n, d) in g.inter {
      if (n, d) in g.inter {
        assert (n, d).1 in Children(g, n);
      }
    }
  }

  /** A schedule that tells `c` first at `m`. */
  lemma SomeSchedule(g: Graph, m: Loc, c: Loc) returns (kids: Schedule)
    requires g.WellFormed() && (m, c) in g.inter
    ensures IsSchedule(g, kids) && m in kids && kids[m] != [] && kids[m][0] == c
  {
    kids := map n | n in g.Nodes() :: if n == m then [c] + Listing(Children(g, n) - {c}) else Listing(Children(g, n));
    assert g.Has((m, c).0);
    forall n | g.Has(n) && g.At(n).Epoch? ensures n in kids && ListsChildren(g, n, kids[n]) {
      ChildrenAre(g, n);
    }
  }

  /** Where some crossing edge, if there is any, leaves right after an access to a private line, the filter is lossless in
      every run if and only if every edge ends at the first node of its thread that its source reaches. */
  lemma FilterLosslessIff(g: Graph, order: seq<Loc>)
    requires g.WellFormed() && TopologicalOrder(g, order) && Probed(g)
    ensures FirstReached(g) <==> AlwaysLossless(g, order)
  {
    if FirstReached(g) {
      FirstReachedIsLossless(g, order);
    } else {
      var m, c, e := SomeCrossing(g);
      assert Crosses(g, m, c, e);
      m, c, e :| CrossesProbed(g, m, c, e);
      CrossingLosesKnowledge(g, order, m, c, e);
    }
  }

  ghost predicate AlwaysLossless(g: Graph, order: seq<Loc>) {
    forall kids, run | IsRun(g, order, kids, run) && |run| == |order| + 1 :: ClocksComplete(g, order, run)
  }

  lemma SomeCrossing(g: Graph) returns (m: Loc, c: Loc, e: Loc)
    requires !FirstReached(g)
    ensures (m, c) in g.inter && HB(g, m, e) && e.tid == c.tid && e.tindex < c.tindex
  {
    m, c, e :| (m, c) in g.inter && HB(g, m, e) && e.tid == c.tid && e.tindex < c.tindex;
  }

  lemma FirstReachedIsLossless(g: Graph, order: seq<Loc>)
    requires FirstReached(g)
    ensures AlwaysLossless(g, order)
  {
    forall kids, run | IsRun(g, order, kids, run) && |run| == |order| + 1 ensures ClocksComplete(g, order, run) {
      FilterLossless(g, order, kids, run);
    }
  }

  lemma CrossingLosesKnowledge(g: Graph, order: seq<Loc>, m: Loc, c: Loc, e: Loc)
    requires g.WellFormed() && TopologicalOrder(g, order)
    requires m.tindex > 0 && Alone(g, Loc(m.tid, m.tindex - 1))
    requires (m, c) in g.inter && HB(g, m, e) && e.tid == c.tid && e.tindex < c.tindex
    ensures !AlwaysLossless(g, order)
  {
    var kids := SomeSchedule(g, m, c);
    var run := SomeRun(g, order, kids, |order|);
    CrossingStarves(g, order, kids, run, m, c, e);
  }

  /** Two edges that cross: the first epoch of thread 0 to the second of thread 1, the second to the first. */
  const CROSSING := Graph(
    map[0 := [Write(0, 0, 8, false), Epoch(0), Epoch(1)], 1 := [Epoch(0), Epoch(1)]],
    {(Loc(0, 1), Loc(1, 1)), (Loc(0, 2), Loc(1, 0))})

  const CROSSING_ORDER := [Loc(0, 0), Loc(0, 1), Loc(0, 2), Loc(1, 0), Loc(1, 1)]

  /** There the filter does lose knowledge, in every run: it has no choice. */
  lemma CrossingEdgesLoseKnowledge(kids: Schedule, run: seq<State>)
    requires IsRun(CROSSING, CROSSING_ORDER, kids, run) && |run| == 6
    ensures !ClocksComplete(CROSSING, CROSSING_ORDER, run)
  {
    CrossingReaches();
    CrossingProbe(kids);
    CrossingStarves(CROSSING, CROSSING_ORDER, kids, run, Loc(0, 1), Loc(1, 1), Loc(1, 0));
  }

  lemma CrossingReaches()
    ensures HB(CROSSING, Loc(0, 1), Loc(1, 0))
  {
    HbThread(CROSSING, Loc(0, 1), Loc(0, 2));
    HbEdge(CROSSING, Loc(0, 2), Loc(1, 0));
    HbTrans(CROSSING, Loc(0, 1), Loc(0, 2), Loc(1, 0));
  }

  lemma CrossingProbe(kids: Schedule)
    requires IsSchedule(CROSSING, kids)
    ensures OnItsWay(CROSSING, kids, Loc(0, 0), Loc(0, 1), Loc(1, 1))
  {
    assert Loc(1, 1) in kids[Loc(0, 1)];
    assert kids[Loc(0, 1)][0] in kids[Loc(0, 1)];
    assert (Loc(0, 1), kids[Loc(0, 1)][0]) in CROSSING.inter;
  }

  lemma CrossingIsOrdered()
    ensures CROSSING.WellFormed() && TopologicalOrder(CROSSING, CROSSING_ORDER)
  {
    forall x ensures x in CROSSING_ORDER <==> CROSSING.Has(x) {
      CrossingHas(x);
    }
    CrossingRunsForwards();
  }

  lemma CrossingRunsForwards()
    ensures forall i, j | 0 <= i < 5 && 0 <= j < 5 && CROSSING.Edge(CROSSING_ORDER[i], CROSSING_ORDER[j]) :: i < j
  {
    var order := CROSSING_ORDER;
    assert order[0] == Loc(0, 0) && order[1] == Loc(0, 1) && order[2] == Loc(0, 2);
    assert order[3] == Loc(1, 0) && order[4] == Loc(1, 1);
  }

  lemma CrossingHas(x: Loc)
    ensures x in CROSSING_ORDER <==> CROSSING.Has(x)
  {
    assert CROSSING_ORDER == [Loc(0, 0), Loc(0, 1), Loc(0, 2), Loc(1, 0), Loc(1, 1)];
    if CROSSING.Has(x) {
      assert x == Loc(x.tid, x.tindex);
    }
  }

  /** There are such runs. */
  lemma SomeCrossingRun() returns (kids: Schedule, run: seq<State>)
    ensures IsRun(CROSSING, CROSSING_ORDER, kids, run) && |run| == 6
  {
    CrossingIsOrdered();
    kids := SomeSchedule(CROSSING, Loc(0, 1), Loc(1, 1));
    run := SomeRun(CROSSING, CROSSING_ORDER, kids, 5);
  }
}
