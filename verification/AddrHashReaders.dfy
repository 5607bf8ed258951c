/** Handles that read an embedded cell hold no lock. When does the check in `release` hold for them? */
module HashBucketReaders {
  import opened Wrappers
  import opened HashBucket
  import opened HashBucketRuns

  /** The address of embedded cell `i`. */
  predicate Holds(s: State, i: nat, a: nat) { i < |s.b.embed| && s.b.embed[i].addr == a }

  /** Thread `t` is about to remove `a` from embedded cell `i`. */
  predicate Evicts(s: State, t: nat, i: nat, a: nat) {
    t in s.actors && s.actors[t].h.addr == a && s.actors[t].at == Writing(Removing(Embed(i)))
  }

  /** Thread `t` is about to put `a` into embedded cell `i`: as a new element, or moving it there from an add cell. */
  predicate PutsBack(s: State, t: nat, c: Choice, i: nat, a: nat) {
    && t in s.actors && s.actors[t].at.Writing?
    && match s.actors[t].at.pc
       case Creating(r) => r == Embed(i) && !c.Set? && s.actors[t].h.addr == a
       case Valued(j, last) => j == i && s.b.Has(InAdd(last)) && s.b.At(InAdd(last)).addr == a
       case _ => false
  }

  lemma WriterMovesAddress(h: Handle, w: Work, cell: nat, i: nat, a: nat)
    requires WorkOk(h, w) && Owns(h, w) && 0 < cell <= 48 && i < BUCKET_SIZE && a != 0 && |w.b.embed| == BUCKET_SIZE
    ensures var b := WriterStep(h, w, cell).b;
            |b.embed| == BUCKET_SIZE && (b.embed[i].addr == a <==>
              (w.b.embed[i].addr == a && w.pc != Removing(Embed(i)))
              || (w.pc == Creating(Embed(i)) && h.addr == a)
              || (w.pc.Valued? && w.pc.i == i && w.b.At(InAdd(w.pc.last)).addr == a))
  {
  }

  /** One step: an address leaves an embedded cell by being removed and comes there by being put there. */
  lemma StepMovesAddress(s: State, t: nat, c: Choice, cell: nat, i: nat, a: nat)
    requires Inv(s) && t in s.actors && 0 < cell <= 48 && Enabled(s, t) && i < BUCKET_SIZE && a != 0
    ensures Holds(Step(s, t, c, cell), i, a) <==> (Holds(s, i, a) && !Evicts(s, t, i, a)) || PutsBack(s, t, c, i, a)
  {
    assert ActorOk(s, t, s.actors[t]);
    if s.actors[t].at.Writing? {
      WriterMovesAddress(s.actors[t].h, WorkOf(s, s.actors[t].at.pc), cell, i, a);
    } else {
      OthersKeepCells(s, t, c);
    }
  }

  // ----- whole runs -----

  /** Who moves, and with which choice. */
  type Moves = seq<(nat, Choice)>

  ghost predicate Follows(run: seq<State>, moves: Moves, cell: nat)
    requires 0 < cell <= 48
  {
    |run| == |moves| + 1 && forall i | 0 <= i < |moves| :: StepBy(run[i], moves[i].0, moves[i].1, cell, run[i + 1])
  }

  lemma {:induction false} FollowsKeepsInv(run: seq<State>, moves: Moves, cell: nat, k: nat)
    requires 0 < cell <= 48 && Follows(run, moves, cell) && Inv(run[0]) && k < |run|
    ensures Inv(run[k])
  {
    if k > 0 {
      FollowsKeepsInv(run, moves, cell, k - 1);
      assert StepBy(run[k - 1], moves[k - 1].0, moves[k - 1].1, cell, run[k - 1 + 1]);
      StepKeepsInv(run[k - 1], moves[k - 1].0, moves[k - 1].1, cell);
    }
  }

  predicate EvictsAt(run: seq<State>, moves: Moves, i: nat, a: nat, e: nat) {
    e < |run| && e < |moves| && Evicts(run[e], moves[e].0, i, a)
  }

  predicate PutsBackAt(run: seq<State>, moves: Moves, i: nat, a: nat, e: nat) {
    e < |run| && e < |moves| && PutsBack(run[e], moves[e].0, moves[e].1, i, a)
  }

  /** Between `j` and `k` every removal of the address was made good. */
  ghost predicate MadeGood(run: seq<State>, moves: Moves, i: nat, a: nat, j: nat, k: nat) {
    forall e | j <= e < k && EvictsAt(run, moves, i, a, e) :: exists p :: e < p < k && PutsBackAt(run, moves, i, a, p)
  }

  lemma {:induction false} AddressStays(run: seq<State>, moves: Moves, cell: nat, i: nat, a: nat, j: nat, k: nat)
    requires 0 < cell <= 48 && Follows(run, moves, cell) && Inv(run[0]) && i < BUCKET_SIZE && a != 0
    requires j <= k < |run| && Holds(run[j], i, a)
    ensures Holds(run[k], i, a) <==> MadeGood(run, moves, i, a, j, k)
    decreases k
  {
    if j < k {
      var n := k - 1;
      AddressStays(run, moves, cell, i, a, j, n);
      FollowsKeepsInv(run, moves, cell, n);
      assert StepBy(run[n], moves[n].0, moves[n].1, cell, run[n + 1]);
      StepMovesAddress(run[n], moves[n].0, moves[n].1, cell, i, a);
      MadeGoodStep(run, moves, i, a, j, n);
    }
  }

  lemma MadeGoodStep(run: seq<State>, moves: Moves, i: nat, a: nat, j: nat, n: nat)
    requires j <= n
    requires !(EvictsAt(run, moves, i, a, n) && PutsBackAt(run, moves, i, a, n))
    ensures MadeGood(run, moves, i, a, j, n + 1) <==>
            (MadeGood(run, moves, i, a, j, n) && !EvictsAt(run, moves, i, a, n)) || PutsBackAt(run, moves, i, a, n)
  {
    if PutsBackAt(run, moves, i, a, n) {
      assert forall e | j <= e < n + 1 && EvictsAt(run, moves, i, a, e) :: e < n;
    } else if MadeGood(run, moves, i, a, j, n) {
    } else {
      var e :| j <= e < n && EvictsAt(run, moves, i, a, e) && forall p | e < p < n :: !PutsBackAt(run, moves, i, a, p);
      assert forall p | e < p < n + 1 :: !PutsBackAt(run, moves, i, a, p);
    }
  }

  /** Thread `t` finds its address in embedded cell `i` in step `j` and has not released the handle after step `k`. */
  ghost predicate Reads(run: seq<State>, t: nat, i: nat, j: nat, k: nat) {
    && 0 < j <= k < |run|
    && t in run[j - 1].actors && run[j - 1].actors[t].at == Scan(i)
    && forall q | j <= q <= k :: t in run[q].actors && run[q].actors[t].at == ReadingEmbed(i)
  }

  lemma WriterMovesAlone(s: State, u: nat, pc: Pc, c: Choice, cell: nat)
    requires u in s.actors && 0 < cell <= 48 && Owns(s.actors[u].h, WorkOf(s, pc))
    ensures var s' := StepWriter(s, u, pc, c, cell); u in s'.actors && s'.actors == s.actors[u := s'.actors[u]]
  {
    var s' := StepWriter(s, u, pc, c, cell);
    if pc.Unlocking? {
      assert s'.actors == s.actors[u := s'.actors[u]];
    } else if pc.Creating? && c.Set? {
      assert s'.actors == s.actors[u := s.actors[u]];
    } else {
      assert s'.actors == s.actors[u := s'.actors[u]];
    }
  }

  /** A step moves one thread only. */
  lemma OthersStay(s: State, u: nat, c: Choice, cell: nat, t: nat)
    requires Enabled(s, u) && 0 < cell <= 48 && t in s.actors
    ensures t in Step(s, u, c, cell).actors && (u != t ==> Step(s, u, c, cell).actors[t] == s.actors[t])
  {
    if s.actors[u].at.Writing? {
      WriterMovesAlone(s, u, s.actors[u].at.pc, c, cell);
    } else {
      OthersKeepCells(s, u, c);
    }
  }

  lemma ReaderStays(s: State, u: nat, c: Choice, cell: nat, s': State, t: nat, i: nat)
    requires 0 < cell <= 48 && StepBy(s, u, c, cell, s') && t in s.actors && t in s'.actors
    requires s.actors[t].at == s'.actors[t].at == ReadingEmbed(i)
    ensures s'.actors[t].h == s.actors[t].h
  {
    OthersStay(s, u, c, cell, t);
  }

  lemma ReaderFinds(s: State, u: nat, c: Choice, cell: nat, t: nat, i: nat)
    requires Inv(s) && u in s.actors && 0 < cell <= 48 && Enabled(s, u) && t in s.actors && s.actors[t].at == Scan(i)
    requires t in Step(s, u, c, cell).actors && Step(s, u, c, cell).actors[t].at == ReadingEmbed(i)
    ensures i < BUCKET_SIZE && s.actors[t].h.addr != 0
    ensures var s' := Step(s, u, c, cell); s'.actors[t].h == s.actors[t].h && Holds(s', i, s.actors[t].h.addr)
  {
    assert ActorOk(s, t, s.actors[t]);
    OthersStay(s, u, c, cell, t);
    OthersKeepCells(s, t, c);
  }

  lemma {:induction false} ReaderKeepsHandle(run: seq<State>, moves: Moves, cell: nat, t: nat, i: nat, j: nat, k: nat)
    requires 0 < cell <= 48 && Follows(run, moves, cell) && Inv(run[0]) && Reads(run, t, i, j, k)
    ensures run[k].actors[t].h == run[j].actors[t].h
    decreases k
  {
    if j < k {
      var n := k - 1;
      assert StepBy(run[n], moves[n].0, moves[n].1, cell, run[n + 1]);
      ReaderStays(run[n], moves[n].0, moves[n].1, cell, run[n + 1], t, i);
      ReaderKeepsHandle(run, moves, cell, t, i, j, k - 1);
    }
  }

  /** Exactly when the check holds for a handle that reads an embedded cell, in every interleaving: whenever somebody
      removed the element since it was found, somebody has put its address back into the cell. */
  lemma ReaderCheckIff(run: seq<State>, moves: Moves, cell: nat, t: nat, i: nat, j: nat, k: nat)
    requires 0 < cell <= 48 && Follows(run, moves, cell) && Initial(run[0]) && Reads(run, t, i, j, k)
    ensures i < BUCKET_SIZE
    ensures Holds(run[k], i, run[k].actors[t].h.addr) <==> MadeGood(run, moves, i, run[k].actors[t].h.addr, j, k)
  {
    InitialInv(run[0]);
    FollowsKeepsInv(run, moves, cell, j - 1);
    assert StepBy(run[j - 1], moves[j - 1].0, moves[j - 1].1, cell, run[j - 1 + 1]);
    ReaderFinds(run[j - 1], moves[j - 1].0, moves[j - 1].1, cell, t, i);
    ReaderKeepsHandle(run, moves, cell, t, i, j, k);
    AddressStays(run, moves, cell, i, run[k].actors[t].h.addr, j, k);
  }

  // ----- a run in which the check fails -----

  /** The states of a run that goes on from `s0`. */
  ghost predicate Reaches(s0: State, s: State, cell: nat)
    requires 0 < cell <= 48
  {
    exists run, moves :: Follows(run, moves, cell) && run[0] == s0 && run[|run| - 1] == s
  }

  lemma ReachesItself(s: State, cell: nat)
    requires 0 < cell <= 48
    ensures Reaches(s, s, cell)
  {
    assert Follows([s], [], cell);
  }

  /** One more step. */
  lemma Then(s0: State, s: State, t: nat, c: Choice, cell: nat) returns (s': State)
    requires 0 < cell <= 48 && Reaches(s0, s, cell) && Inv(s) && t in s.actors
    ensures Enabled(s, t) && s' == Step(s, t, c, cell) && Inv(s') && Reaches(s0, s', cell)
  {
    StepKeepsInv(s, t, c, cell);
    s' := Step(s, t, c, cell);
    var run, moves :| Follows(run, moves, cell) && run[0] == s0 && run[|run| - 1] == s;
    assert Follows(run + [s'], moves + [(t, c)], cell);
  }

  /** `s` with thread `t` at `p`. */
  function Put(s: State, t: nat, h: Handle, p: Place): State { s.(actors := s.actors[t := Actor(h, p)]) }

  lemma PutTwice(s: State, t: nat, h: Handle, p: Place, q: Place)
    ensures Put(s, t, h, p).To(t, q) == Put(s, t, h, q)
  {
    assert s.actors[t := Actor(h, p)][t := Actor(h, q)] == s.actors[t := Actor(h, q)];
  }

  /** A bucket nobody has used yet. */
  predicate Unused(s: State) {
    && s.b == Bucket([EMPTY_CELL, EMPTY_CELL, EMPTY_CELL], None) && s.m == map[] && s.writer == None && s.readers == {}
  }

  /** Thread `t`, which is at `p`, goes on to `q` and changes nothing else. */
  lemma Goes(s0: State, s: State, t: nat, h: Handle, p: Place, q: Place, cell: nat)
    requires 0 < cell <= 48 && Reaches(s0, Put(s, t, h, p), cell) && Inv(Put(s, t, h, p))
    requires Enabled(Put(s, t, h, p), t) && Step(Put(s, t, h, p), t, Go, cell) == Put(s, t, h, p).To(t, q)
    ensures Reaches(s0, Put(s, t, h, q), cell) && Inv(Put(s, t, h, q))
  {
    var s' := Then(s0, Put(s, t, h, p), t, Go, cell);
    PutTwice(s, t, h, p, q);
  }

  lemma Begins(s0: State, s: State, t: nat, h: Handle, p: Place, cell: nat)
    requires 0 < cell <= 48 && Reaches(s0, s, cell) && Inv(s) && t in s.actors && s.actors[t].at.Idle? && h.addr != 0
    requires p == if h.remove then WantWrite else Scan(0)
    ensures Reaches(s0, Put(s, t, h, p), cell) && Inv(Put(s, t, h, p))
  {
    var s' := Then(s0, s, t, Acquire(h), cell);
  }

  /** A handle to create an element finds nothing without the lock. */
  lemma LooksInVain(s: State, t: nat, h: Handle, cell: nat)
    requires 0 < cell <= 48 && Inv(s) && Unused(s) && t in s.actors && s.actors[t].at.Idle? && h.addr != 0 && !h.remove
    ensures Reaches(s, Put(s, t, h, WantWrite), cell) && Inv(Put(s, t, h, WantWrite))
  {
    ReachesItself(s, cell);
    Begins(s, s, t, h, Scan(0), cell);
    Goes(s, s, t, h, Scan(0), Scan(1), cell);
    Goes(s, s, t, h, Scan(1), Scan(2), cell);
    Goes(s, s, t, h, Scan(2), Scan(3), cell);
    Goes(s, s, t, h, Scan(3), CheckAdd, cell);
    Goes(s, s, t, h, CheckAdd, WantWrite, cell);
  }

  /** The same under the write lock. */
  lemma Works(s0: State, s: State, t: nat, h: Handle, p: Pc, q: Pc, cell: nat)
    requires 0 < cell <= 48 && Reaches(s0, Put(s, t, h, Writing(p)), cell) && Inv(Put(s, t, h, Writing(p)))
    requires !p.Creating? && !p.Unlocking? && Owns(h, WorkOf(s, p)) && WriterStep(h, WorkOf(s, p), cell) == WorkOf(s, q)
    ensures Reaches(s0, Put(s, t, h, Writing(q)), cell) && Inv(Put(s, t, h, Writing(q)))
  {
    Goes(s0, s, t, h, Writing(p), Writing(q), cell);
  }

  /** It takes the lock, looks again, and finds the first cell free. */
  lemma FindsRoom(s0: State, s: State, t: nat, h: Handle, cell: nat)
    requires 0 < cell <= 48 && Unused(s) && h.addr != 0 && !h.remove && h.create
    requires Reaches(s0, Put(s, t, h, WantWrite), cell) && Inv(Put(s, t, h, WantWrite))
    ensures var l := s.(writer := Some(t));
            && Reaches(s0, Put(l, t, h, Writing(Creating(Embed(0)))), cell)
            && Inv(Put(l, t, h, Writing(Creating(Embed(0)))))
  {
    var l := Locks(s0, s, t, h, cell);
    Works(s0, l, t, h, ScanEmbed(0), ScanEmbed(1), cell);
    Works(s0, l, t, h, ScanEmbed(1), ScanEmbed(2), cell);
    Works(s0, l, t, h, ScanEmbed(2), ScanEmbed(3), cell);
    Works(s0, l, t, h, ScanEmbed(3), ScanAdd(0), cell);
    Works(s0, l, t, h, ScanAdd(0), Missing, cell);
    Works(s0, l, t, h, Missing, FindFree(0), cell);
    Works(s0, l, t, h, FindFree(0), Creating(Embed(0)), cell);
  }

  lemma Locks(s0: State, s: State, t: nat, h: Handle, cell: nat) returns (l: State)
    requires 0 < cell <= 48 && s.writer.None? && s.readers == {}
    requires Reaches(s0, Put(s, t, h, WantWrite), cell) && Inv(Put(s, t, h, WantWrite))
    ensures l == s.(writer := Some(t))
    ensures Reaches(s0, Put(l, t, h, Writing(ScanEmbed(0))), cell) && Inv(Put(l, t, h, Writing(ScanEmbed(0))))
  {
    l := s.(writer := Some(t));
    var s' := Then(s0, Put(s, t, h, WantWrite), t, Go, cell);
    PutTwice(s, t, h, WantWrite, Writing(ScanEmbed(0)));
    assert s' == Put(l, t, h, Writing(ScanEmbed(0)));
  }

  /** The bucket with `a` as its only element. */
  function WithElement(s: State, a: nat): State {
    s.(b := Bucket([Cell(a, 0), EMPTY_CELL, EMPTY_CELL], None), m := map[a := 0])
  }

  lemma Creates(s0: State, s: State, t: nat, h: Handle, cell: nat)
    requires 0 < cell <= 48 && Unused(s) && h.addr != 0
    requires Reaches(s0, Put(s.(writer := Some(t)), t, h, Writing(Creating(Embed(0)))), cell)
    requires Inv(Put(s.(writer := Some(t)), t, h, Writing(Creating(Embed(0)))))
    ensures Reaches(s0, Put(WithElement(s, h.addr), t, h, Idle), cell) && Inv(Put(WithElement(s, h.addr), t, h, Idle))
  {
    var l := s.(writer := Some(t));
    var s1 := Then(s0, Put(l, t, h, Writing(Creating(Embed(0)))), t, Go, cell);
    PutTwice(l, t, h, Writing(Creating(Embed(0))), Writing(Unlocking(Released)));
    assert s.b.embed[0 := Cell(h.addr, 0)] == [Cell(h.addr, 0), EMPTY_CELL, EMPTY_CELL];
    assert s1 == Put(WithElement(l, h.addr), t, h, Writing(Unlocking(Released)));
    var s2 := Then(s0, s1, t, Go, cell);
    PutTwice(WithElement(l, h.addr), t, h, Writing(Unlocking(Released)), Idle);
  }

  /** One thread creates an element and gets another handle to read it; another thread wants to remove it. */
  lemma ReaderMeetsRemover(s: State, t: nat, u: nat, a: nat, cell: nat) returns (s': State)
    requires 0 < cell <= 48 && Initial(s) && t in s.actors && u in s.actors && t != u && a != 0
    ensures Reaches(s, s', cell) && Inv(s') && t in s'.actors && u in s'.actors && s'.writer.None? && s'.readers == {}
    ensures s'.actors[t] == Actor(Handle(a, false, true), ReadingEmbed(0)) && Holds(s', 0, a)
    ensures s'.actors[u] == Actor(Handle(a, true, true), WantWrite)
  {
    var h, r := Handle(a, false, true), Handle(a, true, true);
    InitialInv(s);
    LooksInVain(s, t, h, cell);
    FindsRoom(s, s, t, h, cell);
    Creates(s, s, t, h, cell);
    var s1 := WithElement(s, a);
    Begins(s, Put(s1, t, h, Idle), t, h, Scan(0), cell);
    PutAgain(s1, t, h, Idle, Scan(0));
    Goes(s, s1, t, h, Scan(0), ReadingEmbed(0), cell);
    var s2 := Put(s1, t, h, ReadingEmbed(0));
    Begins(s, s2, u, r, WantWrite, cell);
    s' := Put(s2, u, r, WantWrite);
  }

  lemma PutAgain(s: State, t: nat, h: Handle, p: Place, q: Place)
    ensures Put(Put(s, t, h, p), t, h, q) == Put(s, t, h, q)
  {
    assert s.actors[t := Actor(h, p)][t := Actor(h, q)] == s.actors[t := Actor(h, q)];
  }

  /** The remover takes the lock, finds the element and removes it. */
  lemma RemoverEvicts(s0: State, s: State, t: nat, u: nat, cell: nat) returns (s': State)
    requires 0 < cell <= 48 && Reaches(s0, s, cell) && Inv(s) && s.writer.None? && s.readers == {}
    requires t in s.actors && u in s.actors && t != u
    requires s.actors[t].at == ReadingEmbed(0) && Holds(s, 0, s.actors[t].h.addr)
    requires s.actors[u].at.WantWrite? && s.actors[u].h.remove && s.actors[u].h.addr == s.actors[t].h.addr
    ensures Reaches(s0, s', cell) && t in s'.actors && s'.actors[t] == s.actors[t] && !Holds(s', 0, s'.actors[t].h.addr)
  {
    var h := s.actors[u].h;
    assert ActorOk(s, t, s.actors[t]);
    assert s == Put(s, u, h, WantWrite);
    var l := Locks(s0, s, u, h, cell);
    Works(s0, l, u, h, ScanEmbed(0), Removing(Embed(0)), cell);
    s' := Then(s0, Put(l, u, h, Writing(Removing(Embed(0)))), u, Go, cell);
  }

  /** From the first state on: a reader of an embedded cell can have the element removed under it, and then its check
      fails. */
  lemma RemoverEvictsReader(s: State, t: nat, u: nat, a: nat, cell: nat) returns (s': State)
    requires 0 < cell <= 48 && Initial(s) && t in s.actors && u in s.actors && t != u && a != 0
    ensures Reaches(s, s', cell)
    ensures t in s'.actors && s'.actors[t] == Actor(Handle(a, false, true), ReadingEmbed(0)) && !Holds(s', 0, a)
  {
    var s1 := ReaderMeetsRemover(s, t, u, a, cell);
    s' := RemoverEvicts(s, s1, t, u, cell);
  }
}
