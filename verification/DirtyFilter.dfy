/** The state of the fast second pass and the invariant that makes its dirty-line filter lossless. */
module DirtyFilter {
  import opened Hbg
  import opened VectorClocks
  import opened DirtyVectors

  type Row = map<nat, Pvc>

  /** Indexing a default dictionary of clocks. */
  function ClockOf(row: Row, line: nat): Pvc { if line in row then row[line] else EMPTY }

  function MergedClock(mine: Row, theirs: Row): nat -> Pvc {
    (line: nat) => ClockOf(mine, line).Merge(ClockOf(theirs, line))
  }

  /** The clocks of `lines` in `theirs` merged into `mine`. */
  function MergeRows(mine: Row, lines: set<nat>, theirs: Row): Row { Updated(mine, lines, MergedClock(mine, theirs)) }

  function Updated(mine: Row, lines: set<nat>, f: nat -> Pvc): Row { mine + map line | line in lines :: f(line) }

  lemma UpdatedOneMore(mine: Row, lines: set<nat>, f: nat -> Pvc, line: nat)
    ensures Updated(mine, lines, f)[line := f(line)] == Updated(mine, lines + {line}, f)
    ensures line !in lines ==> ClockOf(Updated(mine, lines, f), line) == ClockOf(mine, line)
  {
    var a, b := Updated(mine, lines, f)[line := f(line)], Updated(mine, lines + {line}, f);
    forall l | l in a ensures a[l] == b[l] {
    }
  }

  /** `pvc_per_thread`, `pvc_per_epoch_node`, `dirty_cachelines` and `dirty_cachelines_per_epoch`.
      A missing entry of these default dictionaries stands for a fresh one. */
  datatype State = State(pvc: map<int, Row>, epochPvc: map<Loc, Row>,
                         dirty: map<int, Dirty>, epochDirty: map<Loc, Dirty>)
  {
    function ThreadRow(t: int): Row { if t in pvc then pvc[t] else map[] }

    function EpochRow(d: Loc): Row { if d in epochPvc then epochPvc[d] else map[] }

    /** Clock of a line in a thread. */
    function P(t: int, line: nat): Pvc { ClockOf(ThreadRow(t), line) }

    /** Clock of a line waiting at an epoch node. */
    function Q(d: Loc, line: nat): Pvc { ClockOf(EpochRow(d), line) }

    function DirtyOf(t: int, tids: set<int>): Dirty { if t in dirty then dirty[t] else Clean(t, tids) }

    function EpochDirtyOf(d: Loc, tids: set<int>): Dirty { if d in epochDirty then epochDirty[d] else Clean(d.tid, tids) }

    /** Lines thread `t` still owes thread `v`. */
    function D(t: int, v: int): set<nat> { if t in dirty then dirty[t].Of(v) else {} }

    /** Lines that will be owed to `v` once epoch node `d` is processed. */
    function E(d: Loc, v: int): set<nat> { if d in epochDirty then epochDirty[d].Of(v) else {} }

    /** A read, write or flush gives the thread's clock of the line a new value and marks the line. */
    function AccessStep(tids: set<int>, t: int, line: nat, p: Pvc): State {
      this.(pvc := pvc[t := ThreadRow(t)[line := p]], dirty := dirty[t := DirtyOf(t, tids).Mark(line)])
    }

    /** An epoch node's own buffers are merged into its thread and deleted. */
    function MergeStep(tids: set<int>, n: Loc): State {
      State(pvc[n.tid := MergeRows(ThreadRow(n.tid), EpochRow(n).Keys, EpochRow(n))],
            epochPvc - {n},
            dirty[n.tid := DirtyOf(n.tid, tids).Merge(EpochDirtyOf(n, tids))],
            epochDirty - {n})
    }

    /** An epoch node of thread `t` tells its child `c` the lines that are dirty for the child's thread. */
    function SendStep(tids: set<int>, t: int, c: Loc): State
      requires c.tid in DirtyOf(t, tids).vector
    {
      State(pvc,
            epochPvc[c := MergeRows(EpochRow(c), DirtyOf(t, tids).Of(c.tid), ThreadRow(t))],
            dirty[t := DirtyOf(t, tids).Cleared(c.tid)],
            epochDirty[c := EpochDirtyOf(c, tids).Told(DirtyOf(t, tids))])
    }

    predicate Shaped(tids: set<int>) {
      && (forall t | t in dirty :: dirty[t].tid == t && dirty[t].IsFor(tids))
      && (forall d | d in epochDirty :: epochDirty[d].tid == d.tid && epochDirty[d].IsFor(tids) && epochDirty[d].pending == {})
    }
  }

  const INITIAL := State(map[], map[], map[], map[])

  // ----- what one step changes, in terms of P, Q, D and E -----

  ghost predicate Accessed(s: State, s': State, tids: set<int>, t: int, line: nat, p: Pvc) {
    && (forall u, l :: s'.P(u, l) == if u == t && l == line then p else s.P(u, l))
    && (forall d, l :: s'.Q(d, l) == s.Q(d, l))
    && (forall u, v :: s'.D(u, v) == if u == t && v in tids && v != t then s.D(u, v) + {line} else s.D(u, v))
    && (forall d, v :: s'.E(d, v) == s.E(d, v))
  }

  ghost predicate Merged(s: State, s': State, tids: set<int>, n: Loc) {
    && (forall u, l :: s'.P(u, l) == if u == n.tid then s.P(u, l).Merge(s.Q(n, l)) else s.P(u, l))
    && (forall d, l :: s'.Q(d, l) == if d == n then EMPTY else s.Q(d, l))
    && (forall u, v :: s'.D(u, v) == if u == n.tid && v in tids && v != u then s.D(u, v) + s.E(n, v) else s.D(u, v))
    && (forall d, v :: s'.E(d, v) == if d == n then {} else s.E(d, v))
  }

  ghost predicate Sent(s: State, s': State, tids: set<int>, t: int, c: Loc) {
    && (forall u, l :: s'.P(u, l) == s.P(u, l))
    && (forall d, l :: s'.Q(d, l) == if d == c && l in s.D(t, c.tid) then s.Q(d, l).Merge(s.P(t, l)) else s.Q(d, l))
    && (forall u, v :: s'.D(u, v) == if u == t && v == c.tid then {} else s.D(u, v))
    && (forall d, v :: s'.E(d, v) ==
                       if d == c && v in tids && v != c.tid && v != t then s.E(d, v) + s.D(t, v) else s.E(d, v))
  }

  lemma MarkOf(d: Dirty, line: nat, v: int)
    ensures d.Mark(line).Of(v) == if v in d.vector then d.Of(v) + {line} else {}
  {
  }

  lemma MergeOf(d: Dirty, e: Dirty, v: int)
    requires d.vector.Keys == e.vector.Keys && e.pending == {}
    ensures d.Merge(e).Of(v) == d.Of(v) + e.Of(v)
  {
  }

  lemma CleanOf(t: int, tids: set<int>, v: int)
    ensures Clean(t, tids).Of(v) == {}
  {
  }

  lemma AccessEffect(s: State, tids: set<int>, t: int, line: nat, p: Pvc)
    requires s.Shaped(tids)
    ensures Accessed(s, s.AccessStep(tids, t, line, p), tids, t, line, p)
    ensures s.AccessStep(tids, t, line, p).Shaped(tids)
  {
    var s' := s.AccessStep(tids, t, line, p);
    forall u, v ensures s'.D(u, v) == if u == t && v in tids && v != t then s.D(u, v) + {line} else s.D(u, v) {
      MarkOf(s.DirtyOf(t, tids), line, v);
      CleanOf(t, tids, v);
    }
  }

  lemma MergeEmpty(p: Pvc)
    ensures p.Merge(EMPTY) == p
  {
    SameClock(Join(false, p.seen, map[]), p.seen);
    SameClock(Join(false, p.persisted, map[]), p.persisted);
  }

  lemma MergeClocks(s: State, tids: set<int>, n: Loc, l: nat)
    ensures s.MergeStep(tids, n).P(n.tid, l) == s.P(n.tid, l).Merge(s.Q(n, l))
  {
    MergeEmpty(s.P(n.tid, l));
  }

  lemma MergeDirt(s: State, tids: set<int>, n: Loc, u: int, v: int)
    requires s.Shaped(tids)
    ensures s.MergeStep(tids, n).D(u, v) ==
            if u == n.tid && v in tids && v != u then s.D(u, v) + s.E(n, v) else s.D(u, v)
  {
    MergeOf(s.DirtyOf(n.tid, tids), s.EpochDirtyOf(n, tids), v);
    CleanOf(n.tid, tids, v);
  }

  lemma MergeEffect(s: State, tids: set<int>, n: Loc)
    requires s.Shaped(tids)
    ensures Merged(s, s.MergeStep(tids, n), tids, n)
  {
    var s' := s.MergeStep(tids, n);
    forall u, l ensures s'.P(u, l) == if u == n.tid then s.P(u, l).Merge(s.Q(n, l)) else s.P(u, l) {
      MergeClocks(s, tids, n, l);
    }
    forall d, l ensures s'.Q(d, l) == if d == n then EMPTY else s.Q(d, l) {
    }
    forall u, v ensures s'.D(u, v) == if u == n.tid && v in tids && v != u then s.D(u, v) + s.E(n, v) else s.D(u, v) {
      MergeDirt(s, tids, n, u, v);
    }
    forall d, v ensures s'.E(d, v) == if d == n then {} else s.E(d, v) {
    }
  }

  lemma MergeShaped(s: State, tids: set<int>, n: Loc)
    requires s.Shaped(tids)
    ensures s.MergeStep(tids, n).Shaped(tids)
  {
  }

  lemma SendClocks(s: State, tids: set<int>, t: int, c: Loc, d: Loc, l: nat)
    requires s.Shaped(tids) && t in tids && c.tid in tids && c.tid != t
    ensures s.SendStep(tids, t, c).Q(d, l) ==
            if d == c && l in s.D(t, c.tid) then s.Q(d, l).Merge(s.P(t, l)) else s.Q(d, l)
  {
    CleanOf(t, tids, c.tid);
  }

  lemma SendDirt(s: State, tids: set<int>, t: int, c: Loc, u: int, v: int)
    requires s.Shaped(tids) && t in tids && c.tid in tids && c.tid != t
    ensures s.SendStep(tids, t, c).D(u, v) == if u == t && v == c.tid then {} else s.D(u, v)
  {
    UpdateChildOf(s.DirtyOf(t, tids), s.EpochDirtyOf(c, tids), v);
    CleanOf(t, tids, v);
  }

  lemma SendEpochDirt(s: State, tids: set<int>, t: int, c: Loc, d: Loc, v: int)
    requires s.Shaped(tids) && t in tids && c.tid in tids && c.tid != t
    ensures s.SendStep(tids, t, c).E(d, v) ==
            if d == c && v in tids && v != c.tid && v != t then s.E(d, v) + s.D(t, v) else s.E(d, v)
  {
    UpdateChildOf(s.DirtyOf(t, tids), s.EpochDirtyOf(c, tids), v);
    CleanOf(t, tids, v);
    CleanOf(c.tid, tids, v);
  }

  lemma ShapedDirt(s: State, tids: set<int>, t: int, c: Loc)
    requires s.Shaped(tids)
    ensures s.DirtyOf(t, tids).IsFor(tids) && s.DirtyOf(t, tids).tid == t
    ensures s.EpochDirtyOf(c, tids).IsFor(tids) && s.EpochDirtyOf(c, tids).tid == c.tid
  {
  }

  lemma SendShaped(s: State, tids: set<int>, t: int, c: Loc)
    requires s.Shaped(tids) && t in tids && c.tid in tids && c.tid != t
    ensures s.SendStep(tids, t, c).Shaped(tids)
  {
    var me, you := s.DirtyOf(t, tids), s.EpochDirtyOf(c, tids);
    ShapedDirt(s, tids, t, c);
    assert me.Cleared(c.tid).IsFor(tids);
    assert you.Told(me).IsFor(tids);
  }

  lemma SendEffect(s: State, tids: set<int>, t: int, c: Loc)
    requires s.Shaped(tids) && t in tids && c.tid in tids && c.tid != t
    ensures Sent(s, s.SendStep(tids, t, c), tids, t, c)
  {
    var s' := s.SendStep(tids, t, c);
    forall u, l ensures s'.P(u, l) == s.P(u, l) {
    }
    forall d, l ensures s'.Q(d, l) == if d == c && l in s.D(t, c.tid) then s.Q(d, l).Merge(s.P(t, l)) else s.Q(d, l) {
      SendClocks(s, tids, t, c, d, l);
    }
    forall u, v ensures s'.D(u, v) == if u == t && v == c.tid then {} else s.D(u, v) {
      SendDirt(s, tids, t, c, u, v);
    }
    forall d, v ensures s'.E(d, v) ==
        if d == c && v in tids && v != c.tid && v != t then s.E(d, v) + s.D(t, v) else s.E(d, v)
    {
      SendEpochDirt(s, tids, t, c, d, v);
    }
  }
}
