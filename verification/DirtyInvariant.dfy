/** Invariants of the fast second pass over any topological order. Soundness of the clocks needs nothing;
    that the dirty-line filter loses nothing needs `FirstReached`. */
module DirtyInvariant {
  import opened Hbg
  import opened VectorClocks
  import opened PersistedBeforeSpec
  import opened DirtyFilter

  /** Every inter-thread edge ends at the earliest node of that thread its source reaches. */
  ghost predicate FirstReached(g: Graph) {
    forall m, c, e | (m, c) in g.inter && HB(g, m, e) && e.tid == c.tid :: c.tindex <= e.tindex
  }

  ghost predicate Pending(g: Graph, done: Progress, e: Loc) { g.Has(e) && !Processed(done, e) }

  ghost predicate SoundThreads(g: Graph, done: Progress, s: State) {
    forall t, line | t in done :: SoundBefore(g, s.P(t, line), line, Loc(t, done[t]))
  }

  ghost predicate SoundBuffers(g: Graph, s: State) {
    forall d, line | g.Has(d) :: Sound(g, s.Q(d, line), line, d)
  }

  ghost predicate BuffersPending(g: Graph, done: Progress, s: State) {
    && (forall d | d in s.epochPvc || d in s.epochDirty :: Pending(g, done, d) && g.At(d).Epoch?)
    && (forall t | t in s.dirty :: t in done)
  }

  /** Thread clocks and waiting buffers only say what is true; buffers wait only at pending epoch nodes. */
  ghost predicate SoundState(g: Graph, done: Progress, s: State) {
    SoundThreads(g, done, s) && SoundBuffers(g, s) && BuffersPending(g, done, s)
  }

  /** Access `x` is known to the thread of `e` already, or waits in a buffer it reads no later than at `e`. */
  ghost predicate Due(g: Graph, done: Progress, s: State, e: Loc, line: nat, k: Kind, x: Loc) {
    || Covers(s.P(e.tid, line), k, x)
    || exists d: Loc :: d.tid == e.tid && d.tindex <= e.tindex && Pending(g, done, d) && Covers(s.Q(d, line), k, x)
  }

  ghost predicate AllDue(g: Graph, done: Progress, s: State, e: Loc, line: nat, p: Pvc) {
    forall k, x | g.IsAccessOf(x, line) && Covers(p, k, x) :: Due(g, done, s, e, line, k, x)
  }

  ghost predicate CompleteThreads(g: Graph, done: Progress, s: State) {
    forall t, line | t in done :: CompleteBefore(g, s.P(t, line), line, Loc(t, done[t]))
  }

  /** Over every edge that has been used, the child gets what holds at the parent. */
  ghost predicate EdgesDue(g: Graph, done: Progress, s: State, unused: set<(Loc, Loc)>) {
    forall m, c, line, k, x | (m, c) in g.inter - unused && Processed(done, m) && !Processed(done, c)
      && g.IsAccessOf(x, line) && Holds(g, k, line, x, m) :: Due(g, done, s, c, line, k, x)
  }

  /** A line that is clean for another thread is due at each node of that thread still reachable. */
  ghost predicate CleanIsDue(g: Graph, done: Progress, s: State) {
    forall t, line, e | t in done && done[t] > 0 && Pending(g, done, e) && e.tid != t
      && line !in s.D(t, e.tid) && HB(g, Loc(t, done[t] - 1), e) :: AllDue(g, done, s, e, line, s.P(t, line))
  }

  ghost predicate CleanBufferIsDue(g: Graph, done: Progress, s: State) {
    forall c, line, e | Pending(g, done, c) && Pending(g, done, e) && e.tid != c.tid
      && line !in s.E(c, e.tid) && HB(g, c, e) :: AllDue(g, done, s, e, line, s.Q(c, line))
  }

  ghost predicate LosslessState(g: Graph, done: Progress, s: State, unused: set<(Loc, Loc)>) {
    && CompleteThreads(g, done, s)
    && EdgesDue(g, done, s, unused)
    && CleanIsDue(g, done, s)
    && CleanBufferIsDue(g, done, s)
  }

  lemma InitialState(g: Graph, done: Progress)
    requires ProgressOk(g, done) && forall t | t in done :: done[t] == 0
    ensures SoundState(g, done, INITIAL) && LosslessState(g, done, INITIAL, {})
    ensures INITIAL.Shaped(g.threads.Keys)
  {
    assert forall k: Kind, x :: !Covers(EMPTY, k, x);
  }

  /** What was due stays due at every node that is still pending. */
  ghost predicate DueStays(g: Graph, done: Progress, s: State, done': Progress, s': State) {
    forall e, line, k, x | Pending(g, done', e) && g.IsAccessOf(x, line) && Due(g, done, s, e, line, k, x) ::
      Due(g, done', s', e, line, k, x)
  }

  lemma AllDueStays(g: Graph, done: Progress, s: State, done': Progress, s': State, e: Loc, line: nat, p: Pvc)
    requires DueStays(g, done, s, done', s') && Pending(g, done', e) && AllDue(g, done, s, e, line, p)
    ensures AllDue(g, done', s', e, line, p)
  {
  }

  lemma AllDueMerge(g: Graph, done: Progress, s: State, e: Loc, line: nat, p: Pvc, q: Pvc)
    requires AllDue(g, done, s, e, line, p) && AllDue(g, done, s, e, line, q)
    ensures AllDue(g, done, s, e, line, p.Merge(q))
  {
    forall k, x | g.IsAccessOf(x, line) && Covers(p.Merge(q), k, x) ensures Due(g, done, s, e, line, k, x) {
      CoversMerge(p, q, k, x);
    }
  }

  lemma EmptyAllDue(g: Graph, done: Progress, s: State, e: Loc, line: nat)
    ensures AllDue(g, done, s, e, line, EMPTY)
  {
  }

  // ----- a read, write or flush node -----

  /** The clock a read, write or flush node leaves behind. */
  function Touched(g: Graph, s: State, n: Loc): Pvc
    requires g.Has(n) && !g.At(n).Epoch?
  {
    var p := s.P(n.tid, g.At(n).Line());
    if g.At(n).Flush? then p.Flush() else p.AddEpoch(n.tid, n.tindex)
  }

  lemma TouchedExact(g: Graph, s: State, n: Loc)
    requires g.WellFormed() && Acyclic(g) && g.Has(n) && !g.At(n).Epoch?
    requires SoundBefore(g, s.P(n.tid, g.At(n).Line()), g.At(n).Line(), n)
    ensures Sound(g, Touched(g, s, n), g.At(n).Line(), n)
    ensures CompleteBefore(g, s.P(n.tid, g.At(n).Line()), g.At(n).Line(), n) ==>
              Complete(g, Touched(g, s, n), g.At(n).Line(), n)
  {
    if g.At(n).Flush? {
      FlushExact(g, s.P(n.tid, g.At(n).Line()), g.At(n).Line(), n);
    } else {
      AccessExact(g, s.P(n.tid, g.At(n).Line()), g.At(n).Line(), n);
    }
  }

  lemma TouchSoundAt(g: Graph, done: Progress, s: State, n: Loc, line: nat)
    requires g.WellFormed() && Acyclic(g) && SoundState(g, done, s)
    requires Ready(g, done, n) && !g.At(n).Epoch?
    ensures Sound(g, if line == g.At(n).Line() then Touched(g, s, n) else s.P(n.tid, line), line, n)
  {
    assert SoundBefore(g, s.P(n.tid, line), line, Loc(n.tid, done[n.tid]));
    if line == g.At(n).Line() {
      TouchedExact(g, s, n);
    } else {
      OtherLineExact(g, s.P(n.tid, line), line, n);
    }
  }

  lemma TouchKeepsSound(g: Graph, done: Progress, s: State, s': State, n: Loc)
    requires g.WellFormed() && Acyclic(g) && ProgressOk(g, done) && SoundState(g, done, s)
    requires Ready(g, done, n) && !g.At(n).Epoch?
    requires s' == s.AccessStep(g.threads.Keys, n.tid, g.At(n).Line(), Touched(g, s, n))
    requires Accessed(s, s', g.threads.Keys, n.tid, g.At(n).Line(), Touched(g, s, n))
    ensures SoundState(g, Advance(done, n.tid), s')
  {
    var done' := Advance(done, n.tid);
    forall t, line | t in done' ensures SoundBefore(g, s'.P(t, line), line, Loc(t, done'[t])) {
      if t == n.tid {
        TouchSoundAt(g, done, s, n, line);
      } else {
        assert SoundBefore(g, s.P(t, line), line, Loc(t, done[t]));
      }
    }
    forall d, line | g.Has(d) ensures Sound(g, s'.Q(d, line), line, d) {
    }
  }

  /** Seeing or flushing more never loses what a clock covered. */
  lemma TouchedCovers(g: Graph, s: State, n: Loc, k: Kind, x: Loc)
    requires g.WellFormed() && Acyclic(g) && g.Has(n) && !g.At(n).Epoch?
    requires SoundBefore(g, s.P(n.tid, g.At(n).Line()), g.At(n).Line(), n)
    requires CompleteBefore(g, s.P(n.tid, g.At(n).Line()), g.At(n).Line(), n)
    requires g.IsAccessOf(x, g.At(n).Line()) && Covers(s.P(n.tid, g.At(n).Line()), k, x)
    ensures Covers(Touched(g, s, n), k, x)
  {
    var line := g.At(n).Line();
    TouchedExact(g, s, n);
    SoundAtNode(g, s.P(n.tid, line), line, n);
    SoundCovers(g, s.P(n.tid, line), k, line, x, n);
  }

  lemma TouchKeepsKnown(g: Graph, done: Progress, s: State, s': State, n: Loc, t: int, line: nat, k: Kind, x: Loc)
    requires g.WellFormed() && Acyclic(g) && SoundThreads(g, done, s) && CompleteThreads(g, done, s)
    requires Ready(g, done, n) && !g.At(n).Epoch?
    requires Accessed(s, s', g.threads.Keys, n.tid, g.At(n).Line(), Touched(g, s, n))
    requires g.IsAccessOf(x, line) && Covers(s.P(t, line), k, x)
    ensures Covers(s'.P(t, line), k, x)
  {
    if t == n.tid && line == g.At(n).Line() {
      assert n == Loc(n.tid, done[n.tid]);
      assert SoundBefore(g, s.P(n.tid, line), line, n) && CompleteBefore(g, s.P(n.tid, line), line, n);
      TouchedCovers(g, s, n, k, x);
    }
  }

  /** What waits in a buffer of a node other than `n` goes on waiting. */
  lemma WaitingIsDue(g: Graph, done: Progress, s': State, n: Loc, d: Loc, e: Loc, line: nat, k: Kind, x: Loc)
    requires n.tid in done && n.tindex == done[n.tid] && d != n && Pending(g, done, d)
    requires d.tid == e.tid && d.tindex <= e.tindex && Covers(s'.Q(d, line), k, x)
    ensures Due(g, Advance(done, n.tid), s', e, line, k, x)
  {
    assert Pending(g, Advance(done, n.tid), d);
  }

  lemma TouchKeepsOneDue(g: Graph, done: Progress, s: State, s': State, n: Loc, e: Loc, line: nat, k: Kind, x: Loc)
    requires g.WellFormed() && Acyclic(g) && SoundState(g, done, s) && CompleteThreads(g, done, s)
    requires Ready(g, done, n) && !g.At(n).Epoch?
    requires Accessed(s, s', g.threads.Keys, n.tid, g.At(n).Line(), Touched(g, s, n))
    requires g.IsAccessOf(x, line) && Due(g, done, s, e, line, k, x)
    ensures Due(g, Advance(done, n.tid), s', e, line, k, x)
  {
    if Covers(s.P(e.tid, line), k, x) {
      TouchKeepsKnown(g, done, s, s', n, e.tid, line, k, x);
    } else {
      var d: Loc :| d.tid == e.tid && d.tindex <= e.tindex && Pending(g, done, d) && Covers(s.Q(d, line), k, x);
      assert d in s.epochPvc;
      WaitingIsDue(g, done, s', n, d, e, line, k, x);
    }
  }

  lemma TouchKeepsDue(g: Graph, done: Progress, s: State, s': State, n: Loc)
    requires g.WellFormed() && Acyclic(g) && SoundState(g, done, s) && CompleteThreads(g, done, s)
    requires Ready(g, done, n) && !g.At(n).Epoch?
    requires Accessed(s, s', g.threads.Keys, n.tid, g.At(n).Line(), Touched(g, s, n))
    ensures DueStays(g, done, s, Advance(done, n.tid), s')
  {
    forall e, line, k, x | Pending(g, Advance(done, n.tid), e) && g.IsAccessOf(x, line) && Due(g, done, s, e, line, k, x)
      ensures Due(g, Advance(done, n.tid), s', e, line, k, x)
    {
      TouchKeepsOneDue(g, done, s, s', n, e, line, k, x);
    }
  }

  lemma TouchKeepsLossless(g: Graph, done: Progress, s: State, s': State, n: Loc)
    requires g.WellFormed() && Acyclic(g) && ProgressOk(g, done) && SoundState(g, done, s)
    requires LosslessState(g, done, s, {})
    requires Ready(g, done, n) && !g.At(n).Epoch?
    requires Accessed(s, s', g.threads.Keys, n.tid, g.At(n).Line(), Touched(g, s, n))
    ensures LosslessState(g, Advance(done, n.tid), s', {})
  {
    var done', line0 := Advance(done, n.tid), g.At(n).Line();
    TouchKeepsDue(g, done, s, s', n);
    forall t, line | t in done' ensures CompleteBefore(g, s'.P(t, line), line, Loc(t, done'[t])) {
      assert SoundBefore(g, s.P(t, line), line, Loc(t, done[t]));
      assert CompleteBefore(g, s.P(t, line), line, Loc(t, done[t]));
      if t == n.tid {
        if line == line0 {
          TouchedExact(g, s, n);
        } else {
          OtherLineExact(g, s.P(t, line), line, n);
        }
      }
    }
    TouchKeepsEdges(g, done, s, s', n);
    TouchKeepsClean(g, done, s, s', n);
    TouchKeepsCleanBuffers(g, done, s, s', n);
  }

  lemma TouchKeepsEdges(g: Graph, done: Progress, s: State, s': State, n: Loc)
    requires g.WellFormed() && Ready(g, done, n) && !g.At(n).Epoch?
    requires DueStays(g, done, s, Advance(done, n.tid), s') && EdgesDue(g, done, s, {})
    ensures EdgesDue(g, Advance(done, n.tid), s', {})
  {
    var done' := Advance(done, n.tid);
    forall m, c, line, k, x | (m, c) in g.inter - {} && Processed(done', m) && !Processed(done', c)
      && g.IsAccessOf(x, line) && Holds(g, k, line, x, m) ensures Due(g, done', s', c, line, k, x)
    {
      assert m != n;
      assert Due(g, done, s, c, line, k, x);
    }
  }

  lemma TouchKeepsOneClean(g: Graph, done: Progress, s: State, s': State, n: Loc, t: int, line: nat, e: Loc)
    requires g.WellFormed() && ProgressOk(g, done) && SoundState(g, done, s)
    requires Ready(g, done, n) && !g.At(n).Epoch?
    requires DueStays(g, done, s, Advance(done, n.tid), s') && CleanIsDue(g, done, s)
    requires t in done && Advance(done, n.tid)[t] > 0 && Pending(g, Advance(done, n.tid), e) && e.tid != t
    requires line !in s.D(t, e.tid) && HB(g, Loc(t, Advance(done, n.tid)[t] - 1), e)
    ensures AllDue(g, Advance(done, n.tid), s', e, line, s.P(t, line))
  {
    if t == n.tid && done[t] == 0 {
      assert SoundBefore(g, s.P(t, line), line, Loc(t, done[t]));
    } else {
      if t == n.tid {
        HbThread(g, Loc(t, done[t] - 1), n);
        HbTrans(g, Loc(t, done[t] - 1), n, e);
      }
      assert Pending(g, done, e);
      AllDueStays(g, done, s, Advance(done, n.tid), s', e, line, s.P(t, line));
    }
  }

  lemma TouchKeepsClean(g: Graph, done: Progress, s: State, s': State, n: Loc)
    requires g.WellFormed() && ProgressOk(g, done) && SoundState(g, done, s)
    requires Ready(g, done, n) && !g.At(n).Epoch?
    requires Accessed(s, s', g.threads.Keys, n.tid, g.At(n).Line(), Touched(g, s, n))
    requires DueStays(g, done, s, Advance(done, n.tid), s') && CleanIsDue(g, done, s)
    ensures CleanIsDue(g, Advance(done, n.tid), s')
  {
    var done', line0 := Advance(done, n.tid), g.At(n).Line();
    forall t, line, e | t in done' && done'[t] > 0 && Pending(g, done', e) && e.tid != t
      && line !in s'.D(t, e.tid) && HB(g, Loc(t, done'[t] - 1), e)
      ensures AllDue(g, done', s', e, line, s'.P(t, line))
    {
      assert e.tid in g.threads.Keys;
      assert line !in s.D(t, e.tid) && (t == n.tid ==> line != line0);
      assert s'.P(t, line) == s.P(t, line);
      TouchKeepsOneClean(g, done, s, s', n, t, line, e);
    }
  }

  lemma TouchKeepsCleanBuffers(g: Graph, done: Progress, s: State, s': State, n: Loc)
    requires Ready(g, done, n) && !g.At(n).Epoch?
    requires Accessed(s, s', g.threads.Keys, n.tid, g.At(n).Line(), Touched(g, s, n))
    requires DueStays(g, done, s, Advance(done, n.tid), s') && CleanBufferIsDue(g, done, s)
    ensures CleanBufferIsDue(g, Advance(done, n.tid), s')
  {
    var done' := Advance(done, n.tid);
    forall c, line, e | Pending(g, done', c) && Pending(g, done', e) && e.tid != c.tid
      && line !in s'.E(c, e.tid) && HB(g, c, e)
      ensures AllDue(g, done', s', e, line, s'.Q(c, line))
    {
      assert AllDue(g, done, s, e, line, s.Q(c, line));
      AllDueStays(g, done, s, done', s', e, line, s.Q(c, line));
    }
  }

  // ----- an epoch node takes in its own buffers -----

  function OutEdges(g: Graph, n: Loc): set<(Loc, Loc)> { set e | e in g.inter && e.0 == n }

  lemma MergeSoundAt(g: Graph, done: Progress, s: State, n: Loc, line: nat)
    requires SoundState(g, done, s) && Ready(g, done, n)
    ensures Sound(g, s.P(n.tid, line).Merge(s.Q(n, line)), line, n)
  {
    assert SoundBefore(g, s.P(n.tid, line), line, Loc(n.tid, done[n.tid]));
    SoundAtNode(g, s.P(n.tid, line), line, n);
    SoundMerge(g, s.P(n.tid, line), s.Q(n, line), line, n);
  }

  lemma MergeKeepsSoundThreads(g: Graph, done: Progress, s: State, s': State, n: Loc)
    requires SoundState(g, done, s) && Ready(g, done, n) && Merged(s, s', g.threads.Keys, n)
    ensures SoundThreads(g, Advance(done, n.tid), s')
  {
    var done' := Advance(done, n.tid);
    forall t, line | t in done' ensures SoundBefore(g, s'.P(t, line), line, Loc(t, done'[t])) {
      if t == n.tid {
        MergeSoundAt(g, done, s, n, line);
      } else {
        assert SoundBefore(g, s.P(t, line), line, Loc(t, done[t]));
      }
    }
  }

  lemma MergeKeepsSound(g: Graph, done: Progress, s: State, s': State, n: Loc)
    requires SoundState(g, done, s) && Ready(g, done, n)
    requires s' == s.MergeStep(g.threads.Keys, n) && Merged(s, s', g.threads.Keys, n)
    ensures SoundState(g, Advance(done, n.tid), s')
  {
    MergeKeepsSoundThreads(g, done, s, s', n);
    assert SoundBuffers(g, s') by {
      forall d, line | g.Has(d) ensures Sound(g, s'.Q(d, line), line, d) {
      }
    }
  }

  lemma MergeKeepsOneDue(g: Graph, done: Progress, s: State, s': State, n: Loc, e: Loc, line: nat, k: Kind, x: Loc)
    requires Ready(g, done, n) && Merged(s, s', g.threads.Keys, n)
    requires Due(g, done, s, e, line, k, x)
    ensures Due(g, Advance(done, n.tid), s', e, line, k, x)
  {
    CoversMerge(s.P(n.tid, line), s.Q(n, line), k, x);
    if !Covers(s.P(e.tid, line), k, x) {
      var d: Loc :| d.tid == e.tid && d.tindex <= e.tindex && Pending(g, done, d) && Covers(s.Q(d, line), k, x);
      if d != n {
        WaitingIsDue(g, done, s', n, d, e, line, k, x);
      }
    }
  }

  lemma MergeKeepsDue(g: Graph, done: Progress, s: State, s': State, n: Loc)
    requires Ready(g, done, n) && Merged(s, s', g.threads.Keys, n)
    ensures DueStays(g, done, s, Advance(done, n.tid), s')
  {
    forall e, line, k, x | Pending(g, Advance(done, n.tid), e) && g.IsAccessOf(x, line) && Due(g, done, s, e, line, k, x)
      ensures Due(g, Advance(done, n.tid), s', e, line, k, x)
    {
      MergeKeepsOneDue(g, done, s, s', n, e, line, k, x);
    }
  }

  /** Everything known at a parent of `n` is known to the thread of `n` or waits at `n` itself. */
  lemma MergeCompleteAt(g: Graph, done: Progress, s: State, n: Loc, line: nat)
    requires g.WellFormed() && Ready(g, done, n) && g.At(n).Epoch?
    requires CompleteBefore(g, s.P(n.tid, line), line, n) && EdgesDue(g, done, s, {})
    ensures Complete(g, s.P(n.tid, line).Merge(s.Q(n, line)), line, n)
  {
    var p := s.P(n.tid, line).Merge(s.Q(n, line));
    forall k, x | g.IsAccessOf(x, line) && Holds(g, k, line, x, n) ensures Covers(p, k, x) {
      CoversMerge(s.P(n.tid, line), s.Q(n, line), k, x);
      var c := HoldsStep(g, k, line, x, n);
      if (c, n) in g.inter {
        assert (c, n) in g.inter - {} && Processed(done, (c, n).0);
        assert Due(g, done, s, n, line, k, x);
      }
    }
  }

  lemma MergeKeepsLossless(g: Graph, done: Progress, s: State, s': State, n: Loc)
    requires g.WellFormed() && ProgressOk(g, done) && SoundState(g, done, s)
    requires LosslessState(g, done, s, {})
    requires Ready(g, done, n) && g.At(n).Epoch? && Merged(s, s', g.threads.Keys, n)
    ensures LosslessState(g, Advance(done, n.tid), s', OutEdges(g, n))
  {
    var done' := Advance(done, n.tid);
    MergeKeepsDue(g, done, s, s', n);
    forall t, line | t in done' ensures CompleteBefore(g, s'.P(t, line), line, Loc(t, done'[t])) {
      assert CompleteBefore(g, s.P(t, line), line, Loc(t, done[t]));
      if t == n.tid {
        MergeCompleteAt(g, done, s, n, line);
      }
    }
    MergeKeepsEdges(g, done, s, s', n);
    MergeKeepsClean(g, done, s, s', n);
    MergeKeepsCleanBuffers(g, done, s, s', n);
  }

  lemma MergeKeepsEdges(g: Graph, done: Progress, s: State, s': State, n: Loc)
    requires g.WellFormed() && Ready(g, done, n)
    requires DueStays(g, done, s, Advance(done, n.tid), s') && EdgesDue(g, done, s, {})
    ensures EdgesDue(g, Advance(done, n.tid), s', OutEdges(g, n))
  {
    var done' := Advance(done, n.tid);
    forall m, c, line, k, x | (m, c) in g.inter - OutEdges(g, n) && Processed(done', m) && !Processed(done', c)
      && g.IsAccessOf(x, line) && Holds(g, k, line, x, m) ensures Due(g, done', s', c, line, k, x)
    {
      assert (m, c) in g.inter - {} && m != n;
      assert Due(g, done, s, c, line, k, x);
    }
  }

  lemma MergeKeepsOneClean(g: Graph, done: Progress, s: State, s': State, n: Loc, line: nat, e: Loc)
    requires g.WellFormed() && ProgressOk(g, done) && SoundState(g, done, s)
    requires Ready(g, done, n)
    requires DueStays(g, done, s, Advance(done, n.tid), s') && CleanIsDue(g, done, s) && CleanBufferIsDue(g, done, s)
    requires Pending(g, Advance(done, n.tid), e) && e.tid != n.tid && HB(g, n, e)
    requires line !in s.D(n.tid, e.tid) && line !in s.E(n, e.tid)
    ensures AllDue(g, Advance(done, n.tid), s', e, line, s.P(n.tid, line).Merge(s.Q(n, line)))
  {
    assert Pending(g, done, e) && Pending(g, done, n);
    assert AllDue(g, done, s, e, line, s.Q(n, line));
    assert AllDue(g, done, s, e, line, s.P(n.tid, line)) by {
      if n.tindex == 0 {
        assert SoundBefore(g, s.P(n.tid, line), line, Loc(n.tid, done[n.tid]));
        EmptyAllDue(g, done, s, e, line);
      } else {
        HbThread(g, Loc(n.tid, n.tindex - 1), n);
        HbTrans(g, Loc(n.tid, n.tindex - 1), n, e);
      }
    }
    AllDueMerge(g, done, s, e, line, s.P(n.tid, line), s.Q(n, line));
    AllDueStays(g, done, s, Advance(done, n.tid), s', e, line, s.P(n.tid, line).Merge(s.Q(n, line)));
  }

  lemma MergeKeepsClean(g: Graph, done: Progress, s: State, s': State, n: Loc)
    requires g.WellFormed() && ProgressOk(g, done) && SoundState(g, done, s)
    requires Ready(g, done, n) && Merged(s, s', g.threads.Keys, n)
    requires DueStays(g, done, s, Advance(done, n.tid), s') && CleanIsDue(g, done, s) && CleanBufferIsDue(g, done, s)
    ensures CleanIsDue(g, Advance(done, n.tid), s')
  {
    var done' := Advance(done, n.tid);
    forall t, line, e | t in done' && done'[t] > 0 && Pending(g, done', e) && e.tid != t
      && line !in s'.D(t, e.tid) && HB(g, Loc(t, done'[t] - 1), e)
      ensures AllDue(g, done', s', e, line, s'.P(t, line))
    {
      assert e.tid in g.threads.Keys;
      if t == n.tid {
        assert s'.D(t, e.tid) == s.D(t, e.tid) + s.E(n, e.tid);
        MergeKeepsOneClean(g, done, s, s', n, line, e);
      } else {
        assert AllDue(g, done, s, e, line, s.P(t, line));
        AllDueStays(g, done, s, done', s', e, line, s.P(t, line));
      }
    }
  }

  lemma MergeKeepsCleanBuffers(g: Graph, done: Progress, s: State, s': State, n: Loc)
    requires Ready(g, done, n) && Merged(s, s', g.threads.Keys, n)
    requires DueStays(g, done, s, Advance(done, n.tid), s') && CleanBufferIsDue(g, done, s)
    ensures CleanBufferIsDue(g, Advance(done, n.tid), s')
  {
    var done' := Advance(done, n.tid);
    forall c, line, e | Pending(g, done', c) && Pending(g, done', e) && e.tid != c.tid
      && line !in s'.E(c, e.tid) && HB(g, c, e)
      ensures AllDue(g, done', s', e, line, s'.Q(c, line))
    {
      assert c != n;
      assert AllDue(g, done, s, e, line, s.Q(c, line));
      AllDueStays(g, done, s, done', s', e, line, s.Q(c, line));
    }
  }

  // ----- an epoch node tells one child -----

  lemma SendKeepsSound(g: Graph, done: Progress, s: State, s': State, n: Loc, c: Loc)
    requires g.WellFormed() && SoundState(g, done, s) && s.Shaped(g.threads.Keys)
    requires n.tid in done && n.tindex + 1 == done[n.tid] && (n, c) in g.inter && Pending(g, done, c)
    requires s' == s.SendStep(g.threads.Keys, n.tid, c) && Sent(s, s', g.threads.Keys, n.tid, c)
    ensures SoundState(g, done, s')
  {
    assert g.Edge(n, c) && g.At((n, c).1).Epoch?;
    HbEdge(g, n, c);
    forall d, line | g.Has(d) ensures Sound(g, s'.Q(d, line), line, d) {
      if d == c && line in s.D(n.tid, c.tid) {
        assert SoundBefore(g, s.P(n.tid, line), line, Loc(n.tid, done[n.tid]));
        SoundLater(g, s.P(n.tid, line), line, n, c);
        SoundMerge(g, s.Q(c, line), s.P(n.tid, line), line, c);
      }
    }
  }

  lemma SendKeepsDue(g: Graph, done: Progress, s: State, s': State, n: Loc, c: Loc)
    requires Sent(s, s', g.threads.Keys, n.tid, c)
    ensures DueStays(g, done, s, done, s')
  {
    forall e, line, k, x | Pending(g, done, e) && g.IsAccessOf(x, line) && Due(g, done, s, e, line, k, x)
      ensures Due(g, done, s', e, line, k, x)
    {
      if !Covers(s.P(e.tid, line), k, x) {
        var d: Loc :| d.tid == e.tid && d.tindex <= e.tindex && Pending(g, done, d) && Covers(s.Q(d, line), k, x);
        CoversMerge(s.Q(d, line), s.P(n.tid, line), k, x);
        assert Covers(s'.Q(d, line), k, x);
      }
    }
  }

  /** After sending, everything the sender knows is due at every reachable node of the child's thread:
      sent lines wait at `c`, which is the first such node, and clean lines were due before. */
  lemma SendDelivers(g: Graph, done: Progress, s: State, s': State, n: Loc, c: Loc, line: nat, e: Loc)
    requires FirstReached(g) && Sent(s, s', g.threads.Keys, n.tid, c)
    requires n.tid in done && n.tindex + 1 == done[n.tid] && (n, c) in g.inter && Pending(g, done, c) && c.tid != n.tid
    requires CleanIsDue(g, done, s) && DueStays(g, done, s, done, s')
    requires Pending(g, done, e) && e.tid == c.tid && HB(g, n, e)
    ensures AllDue(g, done, s', e, line, s.P(n.tid, line))
  {
    if line in s.D(n.tid, c.tid) {
      forall k, x | g.IsAccessOf(x, line) && Covers(s.P(n.tid, line), k, x) ensures Due(g, done, s', e, line, k, x) {
        CoversMerge(s.Q(c, line), s.P(n.tid, line), k, x);
        assert Covers(s'.Q(c, line), k, x);
      }
    } else {
      assert n == Loc(n.tid, done[n.tid] - 1);
      AllDueStays(g, done, s, done, s', e, line, s.P(n.tid, line));
    }
  }

  lemma SendKeepsLossless(g: Graph, done: Progress, s: State, s': State, n: Loc, c: Loc, unused: set<(Loc, Loc)>)
    requires g.WellFormed() && FirstReached(g) && Sent(s, s', g.threads.Keys, n.tid, c)
    requires n.tid in done && n.tindex + 1 == done[n.tid] && (n, c) in g.inter && Pending(g, done, c)
    requires LosslessState(g, done, s, unused)
    ensures LosslessState(g, done, s', unused - {(n, c)})
  {
    assert n.tid != c.tid by {
      assert (n, c).0.tid != (n, c).1.tid;
    }
    SendKeepsDue(g, done, s, s', n, c);
    forall t, line | t in done ensures CompleteBefore(g, s'.P(t, line), line, Loc(t, done[t])) {
      assert CompleteBefore(g, s.P(t, line), line, Loc(t, done[t]));
    }
    SendKeepsEdges(g, done, s, s', n, c, unused);
    SendKeepsClean(g, done, s, s', n, c);
    SendKeepsCleanBuffers(g, done, s, s', n, c);
  }

  lemma SendKeepsEdges(g: Graph, done: Progress, s: State, s': State, n: Loc, c: Loc, unused: set<(Loc, Loc)>)
    requires g.WellFormed() && FirstReached(g) && Sent(s, s', g.threads.Keys, n.tid, c)
    requires n.tid in done && n.tindex + 1 == done[n.tid] && (n, c) in g.inter && Pending(g, done, c) && n.tid != c.tid
    requires CompleteThreads(g, done, s) && EdgesDue(g, done, s, unused) && CleanIsDue(g, done, s)
    requires DueStays(g, done, s, done, s')
    ensures EdgesDue(g, done, s', unused - {(n, c)})
  {
    forall m, d, line, k, x | (m, d) in g.inter - (unused - {(n, c)}) && Processed(done, m) && !Processed(done, d)
      && g.IsAccessOf(x, line) && Holds(g, k, line, x, m) ensures Due(g, done, s', d, line, k, x)
    {
      assert g.Has((m, d).1);
      if (m, d) == (n, c) {
        assert CompleteBefore(g, s.P(n.tid, line), line, Loc(n.tid, done[n.tid]));
        assert g.Edge(n, c) by {
          assert g.Has((n, c).0);
        }
        HbEdge(g, n, c);
        SendDelivers(g, done, s, s', n, c, line, c);
      } else {
        assert (m, d) in g.inter - unused;
        assert Due(g, done, s, d, line, k, x);
      }
    }
  }

  lemma SendKeepsClean(g: Graph, done: Progress, s: State, s': State, n: Loc, c: Loc)
    requires g.WellFormed() && FirstReached(g) && Sent(s, s', g.threads.Keys, n.tid, c)
    requires n.tid in done && n.tindex + 1 == done[n.tid] && (n, c) in g.inter && Pending(g, done, c) && n.tid != c.tid
    requires CleanIsDue(g, done, s) && DueStays(g, done, s, done, s')
    ensures CleanIsDue(g, done, s')
  {
    forall t, line, e | t in done && done[t] > 0 && Pending(g, done, e) && e.tid != t
      && line !in s'.D(t, e.tid) && HB(g, Loc(t, done[t] - 1), e)
      ensures AllDue(g, done, s', e, line, s'.P(t, line))
    {
      if t == n.tid && e.tid == c.tid {
        SendDelivers(g, done, s, s', n, c, line, e);
      } else {
        assert AllDue(g, done, s, e, line, s.P(t, line));
        AllDueStays(g, done, s, done, s', e, line, s.P(t, line));
      }
    }
  }

  /** What the child has been told is due wherever the child does not owe it to. */
  lemma SendKeepsChildBuffer(g: Graph, done: Progress, s: State, s': State, n: Loc, c: Loc, line: nat, e: Loc)
    requires g.WellFormed() && Sent(s, s', g.threads.Keys, n.tid, c)
    requires n.tid in done && n.tindex + 1 == done[n.tid] && (n, c) in g.inter && Pending(g, done, c) && n.tid != c.tid
    requires CleanIsDue(g, done, s) && CleanBufferIsDue(g, done, s) && DueStays(g, done, s, done, s')
    requires Pending(g, done, e) && e.tid != c.tid && HB(g, c, e) && line !in s'.E(c, e.tid)
    ensures AllDue(g, done, s', e, line, s.Q(c, line)) && AllDue(g, done, s', e, line, s.P(n.tid, line))
  {
    assert line !in s.E(c, e.tid);
    AllDueStays(g, done, s, done, s', e, line, s.Q(c, line));
    if e.tid != n.tid {
      assert g.Edge(n, c) by {
        assert g.Has((n, c).0);
      }
      HbEdge(g, n, c);
      HbTrans(g, n, c, e);
      assert n == Loc(n.tid, done[n.tid] - 1) && line !in s.D(n.tid, e.tid);
      AllDueStays(g, done, s, done, s', e, line, s.P(n.tid, line));
    }
  }

  lemma SendKeepsCleanBuffers(g: Graph, done: Progress, s: State, s': State, n: Loc, c: Loc)
    requires g.WellFormed() && Sent(s, s', g.threads.Keys, n.tid, c)
    requires n.tid in done && n.tindex + 1 == done[n.tid] && (n, c) in g.inter && Pending(g, done, c) && n.tid != c.tid
    requires CleanIsDue(g, done, s) && CleanBufferIsDue(g, done, s) && DueStays(g, done, s, done, s')
    ensures CleanBufferIsDue(g, done, s')
  {
    forall d, line, e | Pending(g, done, d) && Pending(g, done, e) && e.tid != d.tid
      && line !in s'.E(d, e.tid) && HB(g, d, e)
      ensures AllDue(g, done, s', e, line, s'.Q(d, line))
    {
      if d == c {
        SendKeepsChildBuffer(g, done, s, s', n, c, line, e);
        AllDueMerge(g, done, s', e, line, s.Q(c, line), s.P(n.tid, line));
      } else {
        assert AllDue(g, done, s, e, line, s.Q(d, line));
        AllDueStays(g, done, s, done, s', e, line, s.Q(d, line));
      }
    }
  }
}
