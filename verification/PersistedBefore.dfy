/** What the second pass of the detector computes: for every thread and cache line, which accesses
    are seen and which are persisted at the thread's current node. */
module PersistedBeforeSpec {
  import opened Hbg
  import opened Epochs
  import opened VectorClocks

  datatype Kind = Seen | Persisted

  function Entry(p: Pvc, k: Kind): Clock { if k.Seen? then p.seen else p.persisted }

  /** `is_event_happened_before` and `is_event_persisted`. */
  predicate Covers(p: Pvc, k: Kind, x: Loc) { Reached(false, Entry(p, k), x.tid, x.tindex) }

  /** `x` happens before a flush of the line that happens before or at `n`. */
  ghost predicate PersistedBefore(g: Graph, line: nat, x: Loc, n: Loc) {
    exists f :: g.IsFlushOf(f, line) && HB(g, x, f) && HB(g, f, n)
  }

  /** What a clock of `line` at node `n` should know about access `x`. */
  ghost predicate Holds(g: Graph, k: Kind, line: nat, x: Loc, n: Loc) {
    match k
    case Seen => HB(g, x, n)
    case Persisted => PersistedBefore(g, line, x, n)
  }

  /** Every entry names an access of the line of which the clock may say what it says. */
  ghost predicate Sound(g: Graph, p: Pvc, line: nat, n: Loc) {
    forall k, t | t in Entry(p, k) ::
      g.IsAccessOf(Loc(t, Entry(p, k)[t]), line) && Holds(g, k, line, Loc(t, Entry(p, k)[t]), n)
  }

  ghost predicate Complete(g: Graph, p: Pvc, line: nat, n: Loc) {
    forall k, x | g.IsAccessOf(x, line) && Holds(g, k, line, x, n) :: Covers(p, k, x)
  }

  lemma HoldsLater(g: Graph, k: Kind, line: nat, x: Loc, n: Loc, m: Loc)
    requires Holds(g, k, line, x, n) && HB(g, n, m)
    ensures Holds(g, k, line, x, m)
  {
    if k.Seen? {
      HbTrans(g, x, n, m);
    } else {
      var f :| g.IsFlushOf(f, line) && HB(g, x, f) && HB(g, f, n);
      HbTrans(g, f, n, m);
    }
  }

  lemma HoldsEarlier(g: Graph, k: Kind, line: nat, x: Loc, y: Loc, n: Loc)
    requires HB(g, x, y) && Holds(g, k, line, y, n)
    ensures Holds(g, k, line, x, n)
  {
    if k.Seen? {
      HbTrans(g, x, y, n);
    } else {
      var f :| g.IsFlushOf(f, line) && HB(g, y, f) && HB(g, f, n);
      HbTrans(g, x, y, f);
    }
  }

  /** Knowledge that does not arise at `n` itself comes over one of its incoming edges. */
  lemma HoldsStep(g: Graph, k: Kind, line: nat, x: Loc, n: Loc) returns (c: Loc)
    requires Holds(g, k, line, x, n)
    requires if k.Seen? then x != n else !g.IsFlushOf(n, line)
    ensures g.Edge(c, n) && Holds(g, k, line, x, c)
  {
    if k.Seen? {
      c := HbLastStep(g, x, n);
    } else {
      var f :| g.IsFlushOf(f, line) && HB(g, x, f) && HB(g, f, n);
      c := HbLastStep(g, f, n);
    }
  }

  lemma SoundLater(g: Graph, p: Pvc, line: nat, n: Loc, m: Loc)
    requires Sound(g, p, line, n) && HB(g, n, m)
    ensures Sound(g, p, line, m)
  {
    forall k, t | t in Entry(p, k) ensures Holds(g, k, line, Loc(t, Entry(p, k)[t]), m) {
      HoldsLater(g, k, line, Loc(t, Entry(p, k)[t]), n, m);
    }
  }

  lemma SoundMerge(g: Graph, p: Pvc, q: Pvc, line: nat, n: Loc)
    requires Sound(g, p, line, n) && Sound(g, q, line, n)
    ensures Sound(g, p.Merge(q), line, n)
  {
    forall k, t | t in Entry(p.Merge(q), k)
      ensures (t in Entry(p, k) && Entry(p.Merge(q), k)[t] == Entry(p, k)[t])
           || (t in Entry(q, k) && Entry(p.Merge(q), k)[t] == Entry(q, k)[t])
    {
      assert Get(Entry(p.Merge(q), k), t) == Later(false, Get(Entry(p, k), t), Get(Entry(q, k), t));
    }
  }

  lemma CoversMerge(p: Pvc, q: Pvc, k: Kind, x: Loc)
    ensures Covers(p.Merge(q), k, x) <==> Covers(p, k, x) || Covers(q, k, x)
  {
  }

  /** A sound clock claims nothing false about any access of the line. */
  lemma SoundCovers(g: Graph, p: Pvc, k: Kind, line: nat, x: Loc, n: Loc)
    requires Sound(g, p, line, n) && g.IsAccessOf(x, line) && Covers(p, k, x)
    ensures Holds(g, k, line, x, n)
  {
    var y := Loc(x.tid, Entry(p, k)[x.tid]);
    HbThread(g, x, y);
    HoldsEarlier(g, k, line, x, y, n);
  }

  /** A clock that is sound and complete decides happens-before and persisted-before exactly. */
  lemma ExactClock(g: Graph, p: Pvc, k: Kind, line: nat, x: Loc, n: Loc)
    requires Sound(g, p, line, n) && Complete(g, p, line, n) && g.IsAccessOf(x, line)
    ensures Covers(p, k, x) <==> Holds(g, k, line, x, n)
  {
    if Covers(p, k, x) {
      SoundCovers(g, p, k, line, x, n);
    }
  }

  /** Two clocks that are both sound and complete for a node are the same clock. */
  lemma ExactClockUnique(g: Graph, p: Pvc, q: Pvc, line: nat, n: Loc)
    requires Sound(g, p, line, n) && Complete(g, p, line, n)
    requires Sound(g, q, line, n) && Complete(g, q, line, n)
    ensures p == q
  {
    forall k ensures Entry(p, k) == Entry(q, k) {
      forall t ensures Get(Entry(p, k), t) == Get(Entry(q, k), t) {
        if t in Entry(p, k) {
          assert Covers(q, k, Loc(t, Entry(p, k)[t]));
        }
        if t in Entry(q, k) {
          assert Covers(p, k, Loc(t, Entry(q, k)[t]));
        }
      }
      SameClock(Entry(p, k), Entry(q, k));
    }
    assert Entry(p, Seen) == Entry(q, Seen) && Entry(p, Persisted) == Entry(q, Persisted);
  }

  // ----- the three ways a thread's clock moves on -----

  /** The clock of a line before node `n`: exact at the predecessor, empty at the start of a thread. */
  ghost predicate SoundBefore(g: Graph, p: Pvc, line: nat, n: Loc) {
    if n.tindex == 0 then p == EMPTY else Sound(g, p, line, Loc(n.tid, n.tindex - 1))
  }

  ghost predicate CompleteBefore(g: Graph, p: Pvc, line: nat, n: Loc) {
    n.tindex > 0 ==> Complete(g, p, line, Loc(n.tid, n.tindex - 1))
  }

  lemma SoundAtNode(g: Graph, p: Pvc, line: nat, n: Loc)
    requires g.Has(n) && SoundBefore(g, p, line, n)
    ensures Sound(g, p, line, n)
  {
    if n.tindex > 0 {
      HbThread(g, Loc(n.tid, n.tindex - 1), n);
      SoundLater(g, p, line, Loc(n.tid, n.tindex - 1), n);
    }
  }

  /** A node that is no epoch has only its thread predecessor as a source of knowledge. */
  lemma CompleteAtNode(g: Graph, p: Pvc, k: Kind, line: nat, x: Loc, n: Loc)
    requires g.WellFormed() && g.Has(n) && !g.At(n).Epoch?
    requires CompleteBefore(g, p, line, n)
    requires g.IsAccessOf(x, line) && Holds(g, k, line, x, n)
    requires if k.Seen? then x != n else !g.IsFlushOf(n, line)
    ensures Covers(p, k, x)
  {
    var c := HoldsStep(g, k, line, x, n);
    assert (c, n) !in g.inter;
  }

  /** `add_epoch` may be called: the thread's own entry is still behind `n`. */
  lemma AddEpochAllowed(g: Graph, p: Pvc, line: nat, n: Loc)
    requires Acyclic(g) && g.Has(n) && SoundBefore(g, p, line, n)
    ensures Below(false, Get(p.seen, n.tid), Index(n.tindex))
  {
    if n.tid in p.seen {
      var y := Loc(n.tid, Entry(p, Seen)[n.tid]);
      HbWithinThread(g, y, Loc(n.tid, n.tindex - 1));
    }
  }

  lemma AccessExact(g: Graph, p: Pvc, line: nat, n: Loc)
    requires g.WellFormed() && Acyclic(g) && g.IsAccessOf(n, line)
    requires SoundBefore(g, p, line, n)
    ensures Sound(g, p.AddEpoch(n.tid, n.tindex), line, n)
    ensures CompleteBefore(g, p, line, n) ==> Complete(g, p.AddEpoch(n.tid, n.tindex), line, n)
  {
    var q := p.AddEpoch(n.tid, n.tindex);
    SoundAtNode(g, p, line, n);
    HbRefl(g, n);
    AddEpochAllowed(g, p, line, n);
    forall k, t | t in Entry(q, k)
      ensures g.IsAccessOf(Loc(t, Entry(q, k)[t]), line) && Holds(g, k, line, Loc(t, Entry(q, k)[t]), n)
    {
      assert t in Entry(p, k) || Loc(t, Entry(q, k)[t]) == n;
    }
    if CompleteBefore(g, p, line, n) {
      forall k, x | g.IsAccessOf(x, line) && Holds(g, k, line, x, n) ensures Covers(q, k, x) {
        if k == Persisted || x != n {
          CompleteAtNode(g, p, k, line, x, n);
        }
      }
    }
  }

  lemma FlushSound(g: Graph, p: Pvc, line: nat, n: Loc)
    requires g.IsFlushOf(n, line) && Sound(g, p, line, n)
    ensures Sound(g, p.Flush(), line, n)
  {
    var q := p.Flush();
    HbRefl(g, n);
    forall k, t | t in Entry(q, k)
      ensures g.IsAccessOf(Loc(t, Entry(q, k)[t]), line) && Holds(g, k, line, Loc(t, Entry(q, k)[t]), n)
    {
      if t in p.seen {
        assert t in Entry(p, Seen);
      } else {
        assert t in Entry(p, Persisted);
      }
    }
  }

  lemma FlushExact(g: Graph, p: Pvc, line: nat, n: Loc)
    requires g.WellFormed() && g.IsFlushOf(n, line)
    requires SoundBefore(g, p, line, n)
    ensures Sound(g, p.Flush(), line, n)
    ensures CompleteBefore(g, p, line, n) ==> Complete(g, p.Flush(), line, n)
  {
    var q := p.Flush();
    SoundAtNode(g, p, line, n);
    FlushSound(g, p, line, n);
    if CompleteBefore(g, p, line, n) {
      forall k, x | g.IsAccessOf(x, line) && Holds(g, k, line, x, n) ensures Covers(q, k, x) {
        if k == Persisted {
          var f :| g.IsFlushOf(f, line) && HB(g, x, f) && HB(g, f, n);
          HbTrans(g, x, f, n);
        }
        CompleteAtNode(g, p, Seen, line, x, n);
      }
    }
  }

  /** Clocks of the other lines do not move at an access or a flush. */
  lemma OtherLineExact(g: Graph, p: Pvc, line: nat, n: Loc)
    requires g.WellFormed() && g.Has(n) && !g.At(n).Epoch? && g.At(n).Line() != line
    requires SoundBefore(g, p, line, n)
    ensures Sound(g, p, line, n)
    ensures CompleteBefore(g, p, line, n) ==> Complete(g, p, line, n)
  {
    SoundAtNode(g, p, line, n);
    if CompleteBefore(g, p, line, n) {
      forall k, x | g.IsAccessOf(x, line) && Holds(g, k, line, x, n) ensures Covers(p, k, x) {
        CompleteAtNode(g, p, k, line, x, n);
      }
    }
  }

  /** Persisted never exceeds seen, so `flush` only raises the persisted clock. */
  lemma PersistedNeverExceedsSeen(g: Graph, p: Pvc, line: nat, n: Loc)
    requires Sound(g, p, line, n) && Complete(g, p, line, n)
    ensures Leq(p.persisted, p.seen)
    ensures p.Flush() == Pvc(p.seen, p.seen)
  {
    forall t | t in p.persisted ensures t in p.seen && p.persisted[t] <= p.seen[t] {
      var x := Loc(t, Entry(p, Persisted)[t]);
      assert Holds(g, Persisted, line, x, n);
      var f :| g.IsFlushOf(f, line) && HB(g, x, f) && HB(g, f, n);
      HbTrans(g, x, f, n);
      assert Covers(p, Seen, x);
    }
    FlushCopiesSeen(p);
  }
}
