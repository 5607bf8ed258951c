/** What a whole call of `acquire` or `release` means: among other threads, and when nobody else moves. */
module HashBucketCalls {
  import opened Wrappers
  import opened HashBucket
  import opened HashBucketRuns
  import opened HashBucketReaders

  /** The caller has a handle with a cell. */
  predicate HasHandle(p: Place) { p.ReadingEmbed? || p.ReadingAdd? || (p.Writing? && (p.pc.Creating? || p.pc.Removing?)) }

  /** In `acquire`, with no answer yet. */
  predicate Searching(p: Place) {
    match p
    case Idle => false
    case ReadingEmbed(_) => false
    case ReadingAdd(_) => false
    case Writing(pc) =>
      pc.ScanEmbed? || pc.ScanAdd? || pc.Missing? || pc.FindFree? || pc.Allocate? || pc.Grow? || pc.Append?
      || pc == Unlocking(Retry)
    case _ => true
  }

  // ----- no handle means no element -----

  lemma SearchStep(s: State, t: nat, c: Choice, cell: nat)
    requires Inv(s) && t in s.actors && 0 < cell <= 48 && Enabled(s, t) && Searching(s.actors[t].at)
    ensures var (h, s') := (s.actors[t].h, Step(s, t, c, cell));
            && t in s'.actors && s'.actors[t].h == h
            && (Searching(s'.actors[t].at) || HasHandle(s'.actors[t].at)
                || (s'.actors[t].at == Writing(Unlocking(Nothing)) && h.addr !in s.m && (h.remove || !h.create)))
  {
    assert ActorOk(s, t, s.actors[t]);
  }

  /** At some moment after step `j` and up to step `k` the address was absent. */
  ghost predicate WasAbsent(run: seq<State>, a: nat, j: nat, k: nat) { exists q :: j < q <= k && q < |run| && a !in run[q].m }

  /** Thread `t` has no handle between steps `j` and `k`. */
  ghost predicate NoHandle(run: seq<State>, t: nat, j: nat, k: nat) {
    forall q | j < q < k && q < |run| :: t in run[q].actors && !run[q].actors[t].at.Idle? && !HasHandle(run[q].actors[t].at)
  }

  /** Where the call is. */
  ghost predicate Seeks(run: seq<State>, t: nat, h: Handle, j: nat, q: nat)
    requires q < |run|
  {
    && t in run[q].actors && run[q].actors[t].h == h
    && (Searching(run[q].actors[t].at)
        || (run[q].actors[t].at == Writing(Unlocking(Nothing)) && (h.remove || !h.create) && WasAbsent(run, h.addr, j, q)))
  }

  lemma SeekStep(run: seq<State>, moves: Moves, cell: nat, t: nat, h: Handle, j: nat, q: nat)
    requires 0 < cell <= 48 && Follows(run, moves, cell) && Inv(run[0]) && j < q < |moves| && Seeks(run, t, h, j, q)
    ensures t in run[q + 1].actors && (Seeks(run, t, h, j, q + 1) || HasHandle(run[q + 1].actors[t].at)
              || (run[q + 1].actors[t].at.Idle? && (h.remove || !h.create) && WasAbsent(run, h.addr, j, q)))
  {
    var s, u, c, s' := run[q], moves[q].0, moves[q].1, run[q + 1];
    FollowsKeepsInv(run, moves, cell, q);
    assert StepBy(run[q], moves[q].0, moves[q].1, cell, run[q + 1]);
    if u != t {
      OthersStay(s, u, c, cell, t);
      assert WasAbsent(run, h.addr, j, q) ==> WasAbsent(run, h.addr, j, q + 1);
    } else if Searching(s.actors[t].at) {
      SearchStep(s, t, c, cell);
      assert h.addr !in run[q].m ==> WasAbsent(run, h.addr, j, q + 1);
    }
  }

  lemma SeekEnds(run: seq<State>, moves: Moves, cell: nat, t: nat, h: Handle, j: nat, k: nat)
    requires 0 < cell <= 48 && Follows(run, moves, cell) && Inv(run[0]) && j + 1 < k < |run| && Seeks(run, t, h, j, k - 1)
    requires t in run[k].actors && run[k].actors[t].at.Idle?
    ensures (h.remove || !h.create) && WasAbsent(run, h.addr, j, k)
  {
    SeekStep(run, moves, cell, t, h, j, k - 1);
    assert WasAbsent(run, h.addr, j, k - 1) ==> WasAbsent(run, h.addr, j, k);
  }

  lemma Begun(run: seq<State>, moves: Moves, cell: nat, t: nat, h: Handle, j: nat)
    requires 0 < cell <= 48 && Follows(run, moves, cell) && j < |moves|
    requires t in run[j].actors && run[j].actors[t].at.Idle? && moves[j] == (t, Acquire(h)) && h.addr != 0
    ensures Seeks(run, t, h, j, j + 1)
  {
    assert StepBy(run[j], moves[j].0, moves[j].1, cell, run[j + 1]);
  }

  lemma {:induction false} SeeksOn(run: seq<State>, moves: Moves, cell: nat, t: nat, h: Handle, j: nat, k: nat, q: nat)
    requires 0 < cell <= 48 && Follows(run, moves, cell) && Inv(run[0]) && j < q < k < |run|
    requires t in run[j].actors && run[j].actors[t].at.Idle? && moves[j] == (t, Acquire(h)) && h.addr != 0
    requires NoHandle(run, t, j, k)
    ensures Seeks(run, t, h, j, q)
    decreases q
  {
    if q == j + 1 {
      Begun(run, moves, cell, t, h, j);
    } else {
      SeeksOn(run, moves, cell, t, h, j, k, q - 1);
      SeekStep(run, moves, cell, t, h, j, q - 1);
    }
  }

  /** In every interleaving: a call that ends without a handle was not to create an element, and at some moment during the
      call there was none. */
  lemma NothingMeansAbsent(run: seq<State>, moves: Moves, cell: nat, t: nat, h: Handle, j: nat, k: nat)
    requires 0 < cell <= 48 && Follows(run, moves, cell) && Initial(run[0]) && j < k < |run|
    requires t in run[j].actors && run[j].actors[t].at.Idle? && moves[j] == (t, Acquire(h)) && h.addr != 0
    requires NoHandle(run, t, j, k) && t in run[k].actors && run[k].actors[t].at.Idle?
    ensures (h.remove || !h.create) && WasAbsent(run, h.addr, j, k)
  {
    InitialInv(run[0]);
    Begun(run, moves, cell, t, h, j);
    if k > j + 1 {
      SeeksOn(run, moves, cell, t, h, j, k, k - 1);
      SeekEnds(run, moves, cell, t, h, j, k);
    }
  }

  // ----- a thread that moves alone -----

  ghost predicate AloneRun(run: seq<State>, t: nat, cell: nat)
    requires 0 < cell <= 48
  {
    |run| > 0 && forall i | 0 <= i < |run| - 1 :: StepBy(run[i], t, Go, cell, run[i + 1])
  }

  /** Thread `t` gets from `s` to `s'` while nobody else moves. */
  ghost predicate Alone(s: State, t: nat, cell: nat, s': State)
    requires 0 < cell <= 48
  {
    exists run :: AloneRun(run, t, cell) && run[0] == s && run[|run| - 1] == s'
  }

  lemma Stays(s: State, t: nat, cell: nat)
    requires 0 < cell <= 48
    ensures Alone(s, t, cell, s)
  {
    assert AloneRun([s], t, cell);
  }

  lemma First(s: State, t: nat, cell: nat, s1: State, s': State)
    requires 0 < cell <= 48 && StepBy(s, t, Go, cell, s1) && Alone(s1, t, cell, s')
    ensures Alone(s, t, cell, s')
  {
    var run :| AloneRun(run, t, cell) && run[0] == s1 && run[|run| - 1] == s';
    var longer := [s] + run;
    forall i | 0 <= i < |longer| - 1 ensures StepBy(longer[i], t, Go, cell, longer[i + 1]) {
      if i > 0 {
        assert StepBy(run[i - 1], t, Go, cell, run[i - 1 + 1]);
      }
    }
    assert AloneRun(longer, t, cell);
  }

  lemma Both(s: State, t: nat, cell: nat, s1: State, s': State)
    requires 0 < cell <= 48 && Alone(s, t, cell, s1) && Alone(s1, t, cell, s')
    ensures Alone(s, t, cell, s')
  {
    var p :| AloneRun(p, t, cell) && p[0] == s && p[|p| - 1] == s1;
    var q :| AloneRun(q, t, cell) && q[0] == s1 && q[|q| - 1] == s';
    var r := p + q[1..];
    forall i | 0 <= i < |r| - 1 ensures StepBy(r[i], t, Go, cell, r[i + 1]) {
      if i < |p| - 1 {
        assert StepBy(p[i], t, Go, cell, p[i + 1]);
      } else {
        assert StepBy(q[i - |p| + 1], t, Go, cell, q[i - |p| + 1 + 1]);
      }
    }
    assert AloneRun(r, t, cell);
  }

  /** Nobody else holds a lock. */
  ghost predicate Free(s: State, t: nat) {
    Inv(s) && t in s.actors && (s.writer == None || s.writer == Some(t)) && forall u | u in s.readers :: u == t
  }

  /** The same elements, and the same call. */
  ghost predicate SameCall(s: State, s': State, t: nat) {
    t in s.actors && t in s'.actors && s'.m == s.m && s'.actors[t].h == s.actors[t].h
  }

  /** One step. */
  lemma One(s: State, t: nat, cell: nat) returns (s': State)
    requires Free(s, t) && 0 < cell <= 48 && !s.actors[t].at.Idle?
    ensures StepBy(s, t, Go, cell, s') && Inv(s') && t in s'.actors && s'.actors[t].h == s.actors[t].h
  {
    StepKeepsInv(s, t, Go, cell);
    assert ActorOk(s, t, s.actors[t]);
    s' := Step(s, t, Go, cell);
  }

  /** A step changes no lock but the thread's own. */
  lemma StaysFree(s: State, t: nat, cell: nat, s': State)
    requires 0 < cell <= 48 && StepBy(s, t, Go, cell, s') && t in s'.actors
    requires (s.writer == None || s.writer == Some(t)) && forall u | u in s.readers :: u == t
    ensures (s'.writer == None || s'.writer == Some(t)) && forall u | u in s'.readers :: u == t
  {
  }

  lemma OneOnly(s: State, t: nat, cell: nat) returns (s': State)
    requires Free(s, t) && 0 < cell <= 48 && !s.actors[t].at.Idle?
    ensures StepBy(s, t, Go, cell, s') && Free(s', t) && s'.actors[t].h == s.actors[t].h && Alone(s, t, cell, s')
  {
    s' := One(s, t, cell);
    StaysFree(s, t, cell, s');
    Stays(s', t, cell);
    First(s, t, cell, s', s');
  }

  /** One step without the write lock, from place `p` on. */
  lemma OneAt(s: State, t: nat, p: Place, cell: nat) returns (s': State)
    requires Free(s, t) && 0 < cell <= 48 && s.actors[t].at == p && !p.Idle? && !p.Writing?
    ensures Alone(s, t, cell, s') && Free(s', t) && SameCall(s, s', t) && s'.b == s.b && ActorOk(s, t, s.actors[t])
    ensures s.b.Size() <= s.b.Cap() && |s.b.embed| == BUCKET_SIZE && s'.actors[t].at == PlaceAfter(s, t, p)
  {
    s' := OneOnly(s, t, cell);
    PlaceIsAfter(s, t, p);
    OthersKeepCells(s, t, Go);
  }

  ghost function PlaceAfter(s: State, t: nat, p: Place): Place
    requires t in s.actors && s.actors[t].at == p && !p.Writing? && |s.b.embed| == BUCKET_SIZE && s.b.Size() <= s.b.Cap()
  {
    var s' := StepOther(s, t, Go);
    if t in s'.actors then s'.actors[t].at else p
  }

  lemma PlaceIsAfter(s: State, t: nat, p: Place)
    requires t in s.actors && s.actors[t].at == p && !p.Writing? && |s.b.embed| == BUCKET_SIZE && s.b.Size() <= s.b.Cap()
    ensures t in StepOther(s, t, Go).actors
  {
  }

  /** No cell from `i` on has the address. */
  ghost predicate NotEmbeddedFrom(b: Bucket, i: nat, a: nat) { forall j | i <= j < |b.embed| :: b.embed[j].addr != a }

  ghost predicate NotAddedFrom(b: Bucket, i: nat, a: nat) {
    forall j: nat | i <= j < b.Size() && b.Has(InAdd(j)) :: b.At(InAdd(j)).addr != a
  }

  lemma NotAddedOne(b: Bucket, i: nat, a: nat)
    requires i < b.Size() <= b.Cap() && b.add.value.cells[i].addr != a && NotAddedFrom(b, i + 1, a)
    ensures NotAddedFrom(b, i, a)
  {
  }

  /** The cell found has the address. */
  ghost predicate FoundEmbedded(s: State, t: nat) {
    t in s.actors && s.actors[t].at.ReadingEmbed? && s.actors[t].h.addr != 0 && Holds(s, s.actors[t].at.i, s.actors[t].h.addr)
  }

  lemma {:induction false} ScanAlone(s: State, t: nat, i: nat, cell: nat) returns (s': State)
    requires Free(s, t) && 0 < cell <= 48 && s.actors[t].at == Scan(i)
    ensures Alone(s, t, cell, s') && Free(s', t) && SameCall(s, s', t) && s'.b == s.b
    ensures FoundEmbedded(s', t) || (s'.actors[t].at.CheckAdd? && NotEmbeddedFrom(s.b, i, s.actors[t].h.addr))
    decreases if i < BUCKET_SIZE then BUCKET_SIZE - i else 0
  {
    var s1 := OneAt(s, t, Scan(i), cell);
    s' := s1;
    if i < BUCKET_SIZE && s.b.embed[i].addr != s.actors[t].h.addr {
      s' := ScanAlone(s1, t, i + 1, cell);
      Both(s, t, cell, s1, s');
    }
  }

  lemma {:induction false} AddScanAlone(s: State, t: nat, i: nat, cell: nat) returns (s': State)
    requires Free(s, t) && 0 < cell <= 48 && s.actors[t].at == AddScan(i)
    ensures Alone(s, t, cell, s') && Free(s', t) && SameCall(s, s', t) && s'.b == s.b
    ensures s'.actors[t].at.ReadingAdd? || (s'.actors[t].at.DropRead? && NotAddedFrom(s.b, i, s.actors[t].h.addr))
    decreases if i < s.b.Size() then s.b.Size() - i else 0
  {
    var s1 := OneAt(s, t, AddScan(i), cell);
    s' := s1;
    if i < s.b.Size() && s.b.add.value.cells[i].addr != s.actors[t].h.addr {
      s' := AddScanAlone(s1, t, i + 1, cell);
      Both(s, t, cell, s1, s');
      if s'.actors[t].at.DropRead? {
        NotAddedOne(s.b, i, s.actors[t].h.addr);
      }
    }
  }

  lemma AddAlone(s: State, t: nat, i: nat, cell: nat) returns (s': State)
    requires Free(s, t) && 0 < cell <= 48 && s.actors[t].at == AddScan(i)
    ensures Alone(s, t, cell, s') && Free(s', t) && SameCall(s, s', t) && s'.b == s.b
    ensures s'.actors[t].at.ReadingAdd? || (s'.actors[t].at.WantWrite? && NotAddedFrom(s.b, i, s.actors[t].h.addr))
  {
    s' := AddScanAlone(s, t, i, cell);
    if s'.actors[t].at.DropRead? {
      var s1 := s';
      s' := OneAt(s1, t, DropRead, cell);
      Both(s, t, cell, s1, s');
    }
  }

  lemma WantAlone(s: State, t: nat, cell: nat) returns (s': State)
    requires Free(s, t) && 0 < cell <= 48 && s.actors[t].at.WantRead?
    ensures Alone(s, t, cell, s') && Free(s', t) && SameCall(s, s', t) && s'.b == s.b
    ensures s'.actors[t].at.ReadingAdd? || (s'.actors[t].at.WantWrite? && NotAddedFrom(s.b, 0, s.actors[t].h.addr))
  {
    var s1 := OneAt(s, t, WantRead, cell);
    s' := AddAlone(s1, t, 0, cell);
    Both(s, t, cell, s1, s');
  }

  /** With the embedded cells scanned: the add cells, and then on to the write lock. */
  lemma CheckAddAlone(s: State, t: nat, cell: nat) returns (s': State)
    requires Free(s, t) && 0 < cell <= 48 && s.actors[t].at.CheckAdd?
    ensures Alone(s, t, cell, s') && Free(s', t) && SameCall(s, s', t) && s'.b == s.b
    ensures s'.actors[t].at.ReadingAdd? || (s'.actors[t].at.WantWrite? && NotAddedFrom(s.b, 0, s.actors[t].h.addr))
  {
    s' := OneAt(s, t, CheckAdd, cell);
    if s.b.add.Some? {
      var s1 := s';
      s' := WantAlone(s1, t, cell);
      Both(s, t, cell, s1, s');
    }
  }

  lemma NotThere(s: State, a: nat)
    requires Rest(s.b, s.m) && a != 0 && NotEmbeddedFrom(s.b, 0, a) && NotAddedFrom(s.b, 0, a)
    ensures a !in s.m
  {
    forall r | Live(s.b, None, r) ensures s.b.At(r).addr != a {
      assert r.InAdd? ==> r == InAdd(r.i);
    }
    Absent(s.b, s.m, a);
  }

  /** Looking from the start finds what is there. */
  lemma LookAlone(s: State, t: nat, cell: nat) returns (s': State)
    requires Free(s, t) && 0 < cell <= 48 && s.actors[t].at == Scan(0)
    ensures Alone(s, t, cell, s') && Free(s', t) && SameCall(s, s', t)
    ensures FoundEmbedded(s', t) || s'.actors[t].at.ReadingAdd? || s'.actors[t].at.WantWrite?
    ensures s.actors[t].h.addr in s.m ==> !s'.actors[t].at.WantWrite?
  {
    assert ActorOk(s, t, s.actors[t]);
    s' := ScanAlone(s, t, 0, cell);
    if s'.actors[t].at.CheckAdd? {
      var s1 := s';
      s' := CheckAddAlone(s1, t, cell);
      Both(s, t, cell, s1, s');
      if s'.actors[t].at.WantWrite? {
        NotThere(s, s.actors[t].h.addr);
      }
    }
  }

  // ----- under the write lock -----

  /** One step under the write lock that does not give it up. */
  lemma OneLocked(s: State, t: nat, pc: Pc, cell: nat) returns (s': State)
    requires Free(s, t) && 0 < cell <= 48 && s.actors[t].at == Writing(pc) && !pc.Unlocking?
    ensures Alone(s, t, cell, s') && Free(s', t) && s'.actors[t].h == s.actors[t].h
    ensures Owns(s.actors[t].h, WorkOf(s, pc)) && WorkOk(s.actors[t].h, WorkOf(s, pc))
    ensures var w := WriterStep(s.actors[t].h, WorkOf(s, pc), cell); s'.b == w.b && s'.m == w.m && s'.actors[t].at == Writing(w.pc)
  {
    assert ActorOk(s, t, s.actors[t]);
    OwnsWork(s.actors[t].h, WorkOf(s, pc), cell);
    s' := OneOnly(s, t, cell);
    assert s' == StepWriter(s, t, pc, Go, cell);
  }

  lemma {:induction false} ScanLocked(s: State, t: nat, i: nat, cell: nat) returns (s': State)
    requires Free(s, t) && 0 < cell <= 48 && s.actors[t].at == Writing(ScanEmbed(i))
    ensures Alone(s, t, cell, s') && Free(s', t) && SameCall(s, s', t) && s'.actors[t].at.Writing?
    ensures s'.actors[t].at.pc.Removing? || s'.actors[t].at.pc == Unlocking(Retry) || s'.actors[t].at.pc.Missing?
    decreases if i < BUCKET_SIZE then BUCKET_SIZE - i else 0
  {
    var s1 := OneLocked(s, t, ScanEmbed(i), cell);
    s' := s1;
    if i == BUCKET_SIZE {
      s' := AddScanLocked(s1, t, 0, cell);
      Both(s, t, cell, s1, s');
    } else if s.b.embed[i].addr != s.actors[t].h.addr {
      s' := ScanLocked(s1, t, i + 1, cell);
      Both(s, t, cell, s1, s');
    }
  }

  lemma {:induction false} AddScanLocked(s: State, t: nat, i: nat, cell: nat) returns (s': State)
    requires Free(s, t) && 0 < cell <= 48 && s.actors[t].at == Writing(ScanAdd(i))
    ensures Alone(s, t, cell, s') && Free(s', t) && SameCall(s, s', t) && s'.actors[t].at.Writing?
    ensures s'.actors[t].at.pc.Removing? || s'.actors[t].at.pc == Unlocking(Retry) || s'.actors[t].at.pc.Missing?
    decreases if i < s.b.Size() then s.b.Size() - i else 0
  {
    var s1 := OneLocked(s, t, ScanAdd(i), cell);
    s' := s1;
    if i < s.b.Size() && s.b.add.value.cells[i].addr != s.actors[t].h.addr {
      s' := AddScanLocked(s1, t, i + 1, cell);
      Both(s, t, cell, s1, s');
    }
  }

  lemma {:induction false} FindLocked(s: State, t: nat, i: nat, cell: nat) returns (s': State)
    requires Free(s, t) && 0 < cell <= 48 && s.actors[t].at == Writing(FindFree(i))
    ensures Alone(s, t, cell, s') && Free(s', t) && SameCall(s, s', t) && s'.actors[t].at.Writing? && s'.actors[t].at.pc.Creating?
    decreases if i < BUCKET_SIZE then BUCKET_SIZE - i else 0
  {
    var s1 := OneLocked(s, t, FindFree(i), cell);
    s' := s1;
    if i == BUCKET_SIZE {
      s' := AllocateLocked(s1, t, cell);
      Both(s, t, cell, s1, s');
    } else if s.b.embed[i].addr != 0 {
      s' := FindLocked(s1, t, i + 1, cell);
      Both(s, t, cell, s1, s');
    }
  }

  lemma AllocateLocked(s: State, t: nat, cell: nat) returns (s': State)
    requires Free(s, t) && 0 < cell <= 48 && s.actors[t].at == Writing(Allocate)
    ensures Alone(s, t, cell, s') && Free(s', t) && SameCall(s, s', t) && s'.actors[t].at.Writing? && s'.actors[t].at.pc.Creating?
  {
    var s1 := OneLocked(s, t, Allocate, cell);
    s' := GrowLocked(s1, t, cell);
    Both(s, t, cell, s1, s');
  }

  lemma GrowLocked(s: State, t: nat, cell: nat) returns (s': State)
    requires Free(s, t) && 0 < cell <= 48 && s.actors[t].at == Writing(Grow)
    ensures Alone(s, t, cell, s') && Free(s', t) && SameCall(s, s', t) && s'.actors[t].at.Writing? && s'.actors[t].at.pc.Creating?
  {
    var s1 := OneLocked(s, t, Grow, cell);
    s' := OneLocked(s1, t, Append, cell);
    Both(s, t, cell, s1, s');
  }

  /** An insertion from wherever it is. */
  lemma InsertLocked(s: State, t: nat, pc: Pc, cell: nat) returns (s': State)
    requires Free(s, t) && 0 < cell <= 48 && s.actors[t].at == Writing(pc)
    requires pc.FindFree? || pc.Allocate? || pc.Grow? || pc.Append?
    ensures Alone(s, t, cell, s') && Free(s', t) && SameCall(s, s', t) && s'.actors[t].at.Writing? && s'.actors[t].at.pc.Creating?
  {
    match pc
    case FindFree(i) => s' := FindLocked(s, t, i, cell);
    case Allocate => s' := AllocateLocked(s, t, cell);
    case Grow => s' := GrowLocked(s, t, cell);
    case Append => s' := OneLocked(s, t, Append, cell);
  }

  /** The answer a call gets alone: the cell of an element that is there, a cell for a new one, or nothing. */
  ghost predicate Answered(s: State, t: nat)
    requires t in s.actors
  {
    var (h, p) := (s.actors[t].h, s.actors[t].at);
    if h.addr in s.m then
      if h.remove then p.Writing? && p.pc.Removing? && s.b.Has(p.pc.r) && s.b.At(p.pc.r).addr == h.addr
      else (p.ReadingEmbed? && s.b.Has(Embed(p.i)) && s.b.At(Embed(p.i)).addr == h.addr)
           || (p.ReadingAdd? && s.b.Has(InAdd(p.i)) && s.b.At(InAdd(p.i)).addr == h.addr)
    else if h.create && !h.remove then p.Writing? && p.pc.Creating?
    else p.Idle?
  }

  lemma CreatingIsNot(s: State, t: nat)
    requires Inv(s) && t in s.actors && s.actors[t].at.Writing? && s.actors[t].at.pc.Creating?
    ensures Answered(s, t)
  {
    assert ActorOk(s, t, s.actors[t]);
  }

  /** The element is not there: a cell for a new one, or nothing. */
  lemma MissingLocked(s: State, t: nat, cell: nat) returns (s': State)
    requires Free(s, t) && 0 < cell <= 48 && s.actors[t].at == Writing(Missing)
    ensures Alone(s, t, cell, s') && Free(s', t) && SameCall(s, s', t) && Answered(s', t)
  {
    var s1 := OneLocked(s, t, Missing, cell);
    if s.actors[t].h.remove || !s.actors[t].h.create {
      s' := Unlocks(s1, t, Nothing, cell);
    } else {
      s' := FindLocked(s1, t, 0, cell);
      CreatingIsNot(s', t);
    }
    Both(s, t, cell, s1, s');
  }

  lemma Unlocks(s: State, t: nat, why: Why, cell: nat) returns (s': State)
    requires Free(s, t) && 0 < cell <= 48 && s.actors[t].at == Writing(Unlocking(why))
    ensures Alone(s, t, cell, s') && Free(s', t) && SameCall(s, s', t)
    ensures s'.actors[t].at == if why.Retry? then Scan(0) else Idle
    ensures why.Nothing? ==> Answered(s', t)
    ensures why.Retry? ==> s'.actors[t].h.addr in s'.m
  {
    assert ActorOk(s, t, s.actors[t]);
    s' := OneOnly(s, t, cell);
    assert s' == StepWriter(s, t, Unlocking(why), Go, cell);
  }

  /** From the write lock on: the answer, or the call starts again because the element is there and is to be read. */
  lemma Locked(s: State, t: nat, pc: Pc, cell: nat) returns (s': State)
    requires Free(s, t) && 0 < cell <= 48 && s.actors[t].at == Writing(pc) && Searching(Writing(pc))
    ensures Alone(s, t, cell, s') && Free(s', t) && SameCall(s, s', t)
    ensures Answered(s', t) || (s'.actors[t].at == Scan(0) && s'.actors[t].h.addr in s'.m)
  {
    match pc
    case ScanEmbed(i) =>
      var s1 := ScanLocked(s, t, i, cell);
      s' := Scanned(s1, t, cell);
      Both(s, t, cell, s1, s');
    case ScanAdd(i) =>
      var s1 := AddScanLocked(s, t, i, cell);
      s' := Scanned(s1, t, cell);
      Both(s, t, cell, s1, s');
    case Missing => s' := MissingLocked(s, t, cell);
    case Unlocking(_) => s' := Unlocks(s, t, Retry, cell);
    case _ =>
      s' := InsertLocked(s, t, pc, cell);
      CreatingIsNot(s', t);
  }

  lemma Scanned(s: State, t: nat, cell: nat) returns (s': State)
    requires Free(s, t) && 0 < cell <= 48 && s.actors[t].at.Writing?
    requires s.actors[t].at.pc.Removing? || s.actors[t].at.pc == Unlocking(Retry) || s.actors[t].at.pc.Missing?
    ensures Alone(s, t, cell, s') && Free(s', t) && SameCall(s, s', t)
    ensures Answered(s', t) || (s'.actors[t].at == Scan(0) && s'.actors[t].h.addr in s'.m)
  {
    if s.actors[t].at.pc.Removing? {
      s' := s;
      Stays(s, t, cell);
      RemovingIsThere(s, t);
    } else if s.actors[t].at.pc.Missing? {
      s' := MissingLocked(s, t, cell);
    } else {
      s' := Unlocks(s, t, Retry, cell);
    }
  }

  lemma RemovingIsThere(s: State, t: nat)
    requires Inv(s) && t in s.actors && s.actors[t].at.Writing? && s.actors[t].at.pc.Removing?
    ensures Answered(s, t)
  {
    assert ActorOk(s, t, s.actors[t]);
    LockedAnswers(s, t);
  }

  /** Before the write lock: a cell is found, or the lock is taken. */
  lemma Unlocked(s: State, t: nat, cell: nat) returns (s': State)
    requires Free(s, t) && 0 < cell <= 48 && !s.actors[t].at.Writing? && Searching(s.actors[t].at)
    ensures Alone(s, t, cell, s') && Free(s', t) && SameCall(s, s', t)
    ensures FoundEmbedded(s', t) || s'.actors[t].at.ReadingAdd? || s'.actors[t].at == Writing(ScanEmbed(0))
  {
    s' := Looked(s, t, cell);
    if s'.actors[t].at.WantWrite? {
      var s1 := s';
      assert ActorOk(s1, t, s1.actors[t]);
      s' := OneAt(s1, t, WantWrite, cell);
      Both(s, t, cell, s1, s');
    }
  }

  lemma Looked(s: State, t: nat, cell: nat) returns (s': State)
    requires Free(s, t) && 0 < cell <= 48 && !s.actors[t].at.Writing? && Searching(s.actors[t].at)
    ensures Alone(s, t, cell, s') && Free(s', t) && SameCall(s, s', t)
    ensures FoundEmbedded(s', t) || s'.actors[t].at.ReadingAdd? || s'.actors[t].at.WantWrite?
  {
    s' := s;
    Stays(s, t, cell);
    if s.actors[t].at.Scan? {
      s' := ScanAlone(s, t, s.actors[t].at.i, cell);
    }
    if s'.actors[t].at.CheckAdd? {
      var s1 := s';
      s' := CheckAddAlone(s1, t, cell);
      Both(s, t, cell, s1, s');
    } else {
      s' := UnlockedAdd(s, s', t, cell);
    }
  }

  lemma UnlockedAdd(s: State, s1: State, t: nat, cell: nat) returns (s': State)
    requires 0 < cell <= 48 && Alone(s, t, cell, s1) && Free(s1, t) && SameCall(s, s1, t)
    ensures Alone(s, t, cell, s') && Free(s', t) && SameCall(s, s', t)
    ensures if s1.actors[t].at.WantRead? || s1.actors[t].at.AddScan? || s1.actors[t].at.DropRead?
            then s'.actors[t].at.ReadingAdd? || s'.actors[t].at.WantWrite? else s' == s1
  {
    s' := s1;
    if s1.actors[t].at.WantRead? {
      s' := WantAlone(s1, t, cell);
      Both(s, t, cell, s1, s');
    } else if s1.actors[t].at.AddScan? {
      s' := AddAlone(s1, t, s1.actors[t].at.i, cell);
      Both(s, t, cell, s1, s');
    } else if s1.actors[t].at.DropRead? {
      s' := OneAt(s1, t, DropRead, cell);
      Both(s, t, cell, s1, s');
    }
  }

  /** What is read without the write lock is there. */
  lemma ReadingIsThere(s: State, t: nat)
    requires Inv(s) && t in s.actors && (s.actors[t].at.ReadingAdd? || FoundEmbedded(s, t))
    ensures Answered(s, t)
  {
    assert ActorOk(s, t, s.actors[t]);
    if s.actors[t].at.ReadingAdd? {
      assert t in s.readers;
      assert Represents(s.b, None, s.m) && Live(s.b, None, InAdd(s.actors[t].at.i));
    } else {
      EmbeddedIsElement(s, s.actors[t].at.i);
    }
  }

  /** In every state that can be reached, whoever is looking for an address gets the right answer if the others hold no lock
      and do not move: no call waits for a thread that is not under a lock. */
  lemma AcquireAlone(s: State, t: nat, cell: nat) returns (s': State)
    requires Free(s, t) && 0 < cell <= 48 && Searching(s.actors[t].at)
    ensures Alone(s, t, cell, s') && Free(s', t) && SameCall(s, s', t) && Answered(s', t)
  {
    s' := s;
    Stays(s, t, cell);
    if !s.actors[t].at.Writing? {
      s' := Unlocked(s, t, cell);
    }
    if s'.actors[t].at.Writing? {
      var s1 := s';
      s' := FromLock(s1, t, cell);
      Both(s, t, cell, s1, s');
    } else {
      ReadingIsThere(s', t);
    }
  }

  lemma FromLock(s: State, t: nat, cell: nat) returns (s': State)
    requires Free(s, t) && 0 < cell <= 48 && s.actors[t].at.Writing? && Searching(s.actors[t].at)
    ensures Alone(s, t, cell, s') && Free(s', t) && SameCall(s, s', t) && Answered(s', t)
  {
    s' := Locked(s, t, s.actors[t].at.pc, cell);
    if !Answered(s', t) {
      var s1 := s';
      s' := LookAlone(s1, t, cell);
      Both(s, t, cell, s1, s');
      ReadingIsThere(s', t);
    }
  }

  /** A call from its beginning. */
  lemma CallAlone(s: State, t: nat, h: Handle, cell: nat) returns (s1: State, s': State)
    requires Free(s, t) && 0 < cell <= 48 && s.actors[t].at.Idle? && h.addr != 0
    ensures StepBy(s, t, Acquire(h), cell, s1) && Alone(s1, t, cell, s') && Free(s', t)
    ensures s'.m == s.m && s'.actors[t].h == h && Answered(s', t)
  {
    StepKeepsInv(s, t, Acquire(h), cell);
    s1 := Step(s, t, Acquire(h), cell);
    s' := AcquireAlone(s1, t, cell);
  }

  // ----- release -----

  predicate Finishing(p: Place) {
    p.Writing? && (p.pc.Cleared? || p.pc.Shrunk? || p.pc.Taken? || p.pc.Valued? || p.pc.Moved? || p.pc == Unlocking(Released))
  }

  function LeftToDo(pc: Pc): nat {
    match pc
    case Cleared(_) => 5
    case Shrunk(_, _) => 4
    case Taken(_, _) => 4
    case Valued(_, _) => 3
    case Moved(_) => 2
    case _ => 1
  }

  lemma {:induction false} FinishAlone(s: State, t: nat, pc: Pc, cell: nat) returns (s': State)
    requires Free(s, t) && 0 < cell <= 48 && s.actors[t].at == Writing(pc) && Finishing(Writing(pc))
    ensures Alone(s, t, cell, s') && Free(s', t) && SameCall(s, s', t) && s'.actors[t].at.Idle?
    decreases LeftToDo(pc)
  {
    if pc.Unlocking? {
      s' := Unlocks(s, t, Released, cell);
    } else {
      var s1 := OneLocked(s, t, pc, cell);
      s' := FinishAlone(s1, t, s1.actors[t].at.pc, cell);
      Both(s, t, cell, s1, s');
    }
  }

  /** The elements once a handle has been released. */
  function AfterRelease(s: State, t: nat): map<nat, int>
    requires t in s.actors && (s.actors[t].at.Writing? && s.actors[t].at.pc.Creating? ==> s.b.Has(s.actors[t].at.pc.r))
  {
    var a := s.actors[t];
    if a.at.Writing? && a.at.pc.Creating? then s.m[a.h.addr := s.b.At(a.at.pc.r).val]
    else if a.at.Writing? && a.at.pc.Removing? then s.m - {a.h.addr}
    else s.m
  }

  lemma ReleaseWriting(s: State, t: nat, cell: nat, pc: Pc) returns (s': State)
    requires Free(s, t) && 0 < cell <= 48 && s.actors[t].at == Writing(pc) && (pc.Creating? || pc.Removing?)
    ensures pc.Creating? ==> s.b.Has(pc.r)
    ensures Alone(s, t, cell, s') && Free(s', t) && Finishing(s'.actors[t].at) && s'.m == AfterRelease(s, t)
  {
    s' := OneLocked(s, t, pc, cell);
  }

  lemma ReleaseReading(s: State, t: nat, cell: nat) returns (s': State)
    requires Free(s, t) && 0 < cell <= 48 && (s.actors[t].at.ReadingEmbed? || s.actors[t].at.ReadingAdd?)
    ensures Alone(s, t, cell, s') && Free(s', t) && s'.actors[t].at.Idle? && s'.m == s.m
  {
    s' := OneAt(s, t, s.actors[t].at, cell);
  }

  /** Releasing a handle: a new element is there with the value its cell was given, one to remove is gone, and all others
      are what they were. */
  lemma ReleaseAlone(s: State, t: nat, cell: nat) returns (s': State)
    requires Free(s, t) && 0 < cell <= 48 && HasHandle(s.actors[t].at)
    ensures s.actors[t].at.Writing? && s.actors[t].at.pc.Creating? ==> s.b.Has(s.actors[t].at.pc.r)
    ensures Alone(s, t, cell, s') && Free(s', t) && s'.actors[t].at.Idle? && s'.m == AfterRelease(s, t)
  {
    if s.actors[t].at.Writing? {
      var s1 := ReleaseWriting(s, t, cell, s.actors[t].at.pc);
      s' := FinishAlone(s1, t, s1.actors[t].at.pc, cell);
      Both(s, t, cell, s1, s');
    } else {
      s' := ReleaseReading(s, t, cell);
    }
  }
}
