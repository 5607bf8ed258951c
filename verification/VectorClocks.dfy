/** Python iterates over a set or dictionary in an order nobody can rely on: any next element. */
module Picking {

  method Pick<T(==)>(s: set<T>) returns (x: T)
    requires s != {}
    ensures x in s
  {
    x :| x in s;
  }
}

/** `Epoch` and `ReversedEpoch` of `epoch.py`: integers with a bottom that is below everything.
    The reversed order turns the integers round and keeps the bottom where it is. */
module Epochs {

  datatype Epoch = Bottom | Index(tindex: nat)

  predicate Below(reversed: bool, a: Epoch, b: Epoch) {
    match (a, b)
    case (_, Bottom) => false
    case (Bottom, Index(_)) => true
    case (Index(i), Index(j)) => if reversed then j < i else i < j
  }

  /** Written out as `>=` in the source; it is the negation of `<` because the order is total. */
  predicate AtLeast(reversed: bool, a: Epoch, b: Epoch) {
    match (a, b)
    case (_, Bottom) => true
    case (Bottom, Index(_)) => false
    case (Index(i), Index(j)) => if reversed then i <= j else i >= j
  }

  function Later(reversed: bool, a: Epoch, b: Epoch): Epoch {
    if Below(reversed, a, b) then b else a
  }
}

/** `vector_clock.py`. Clock values are maps that leave out the threads still at the bottom;
    the classes update a dictionary in place and are proved against those values. */
module VectorClocks {
  import opened Epochs
  import opened Picking

  type Clock = map<int, nat>

  function Get(c: Clock, t: int): Epoch { if t in c then Index(c[t]) else Bottom }

  /** The value of `merge`: thread by thread the later of the two entries. */
  function Join(reversed: bool, a: Clock, b: Clock): (c: Clock)
    ensures forall t :: Get(c, t) == Later(reversed, Get(a, t), Get(b, t))
  {
    map t | t in a.Keys + b.Keys :: Later(reversed, Get(a, t), Get(b, t)).tindex
  }

  /** The value of `copy_from`: entries of `b` replace those of `a`. */
  function Overwrite(a: Clock, b: Clock): (c: Clock)
    ensures forall t :: Get(c, t) == if t in b then Get(b, t) else Get(a, t)
  {
    a + b
  }

  /** `is_happens_before` and `is_happens_after`, one per order. */
  predicate Reached(reversed: bool, c: Clock, t: int, i: nat) {
    AtLeast(reversed, Get(c, t), Index(i))
  }

  /** A merged clock has reached exactly what one of the two had reached. */
  lemma JoinReaches(reversed: bool, a: Clock, b: Clock, t: int, i: nat)
    ensures Reached(reversed, Join(reversed, a, b), t, i) <==> Reached(reversed, a, t, i) || Reached(reversed, b, t, i)
  {
  }

  function Lookup(epochs: map<int, Epoch>, t: int): Epoch { if t in epochs then epochs[t] else Bottom }

  function Known(epochs: map<int, Epoch>): (c: Clock)
    ensures forall t :: Get(c, t) == Lookup(epochs, t)
  {
    map t | t in epochs && epochs[t].Index? :: epochs[t].tindex
  }

  lemma SameClock(a: Clock, b: Clock)
    requires forall t :: Get(a, t) == Get(b, t)
    ensures a == b
  {
    forall t ensures t in a <==> t in b {
      assert Get(a, t) == Get(b, t);
    }
    forall t | t in a ensures a[t] == b[t] {
      assert Get(a, t) == Get(b, t);
    }
  }

  ghost predicate Agree(a: map<int, Epoch>, b: map<int, Epoch>) {
    forall t :: Lookup(a, t) == Lookup(b, t)
  }

  /** The loop of `merge` with the threads `todo` still to be visited. */
  ghost predicate MergedExcept(reversed: bool, epochs: map<int, Epoch>, mine: map<int, Epoch>, theirs: map<int, Epoch>,
                               todo: set<int>)
  {
    forall t :: Lookup(epochs, t) == if t in todo then Lookup(mine, t) else Later(reversed, Lookup(mine, t), Lookup(theirs, t))
  }

  /** The loop of `copy_from` with the threads `todo` still to be visited. */
  ghost predicate CopiedExcept(epochs: map<int, Epoch>, mine: map<int, Epoch>, theirs: map<int, Epoch>, todo: set<int>) {
    forall t :: Lookup(epochs, t) == if t in theirs && t !in todo then Lookup(theirs, t) else Lookup(mine, t)
  }

  /** `VectorClock` (not reversed) and `ReversedVectorClock` (reversed). */
  class AbstractVectorClock {
    const tid: int
    const reversed: bool
    var epochs: map<int, Epoch>

    constructor (tid: int, reversed: bool)
      ensures this.tid == tid && this.reversed == reversed && Value() == map[]
    {
      this.tid, this.reversed := tid, reversed;
      epochs := map[];
    }

    ghost function Value(): Clock
      reads this
    {
      Known(epochs)
    }

    /** The source asserts that a thread's own epoch only moves on. */
    method AddEpoch(i: nat)
      requires Below(reversed, Get(Value(), tid), Index(i))
      modifies this
      ensures Value() == old(Value())[tid := i]
    {
      epochs := epochs[tid := Index(i)];
      SameClock(Value(), old(Value())[tid := i]);
    }

    method Merge(other: AbstractVectorClock)
      requires other.reversed == reversed
      modifies this
      ensures Value() == Join(reversed, old(Value()), old(other.Value()))
    {
      ghost var mine, theirs := epochs, other.epochs;
      var todo: set<int> := other.epochs.Keys;
      while todo != {}
        invariant todo <= theirs.Keys
        invariant Agree(other.epochs, theirs)
        invariant MergedExcept(reversed, epochs, mine, theirs, todo)
      {
        var t := Pick(todo);
        var entry := Lookup(other.epochs, t);
        if Below(reversed, Lookup(epochs, t), entry) {
          epochs := epochs[t := entry];
        }
        todo := todo - {t};
      }
      SameClock(Value(), Join(reversed, Known(mine), Known(theirs)));
    }

    method CopyFrom(other: AbstractVectorClock)
      modifies this
      ensures forall t :: Get(Value(), t) ==
                (if t in old(other.epochs) then Get(old(other.Value()), t) else Get(old(Value()), t))
    {
      ghost var mine, theirs := epochs, other.epochs;
      var todo: set<int> := other.epochs.Keys;
      while todo != {}
        invariant todo <= theirs.Keys
        invariant Agree(other.epochs, theirs)
        invariant CopiedExcept(epochs, mine, theirs, todo)
      {
        var t := Pick(todo);
        epochs := epochs[t := Lookup(other.epochs, t)];
        todo := todo - {t};
      }
    }

    /** Indexing the default dictionary may add a bottom entry; the value does not change. */
    method IsReached(t: int, i: nat) returns (r: bool)
      modifies this
      ensures r == Reached(reversed, Value(), t, i)
      ensures Value() == old(Value())
    {
      if t !in epochs {
        epochs := epochs[t := Bottom];
      }
      r := AtLeast(reversed, epochs[t], Index(i));
      SameClock(Value(), old(Value()));
    }
  }

  /** The value of a `PersistencyVectorClock`. */
  datatype Pvc = Pvc(seen: Clock, persisted: Clock)
  {
    function AddEpoch(t: int, i: nat): Pvc { Pvc(seen[t := i], persisted) }

    function Flush(): Pvc { Pvc(seen, Overwrite(persisted, seen)) }

    function Merge(other: Pvc): Pvc {
      Pvc(Join(false, seen, other.seen), Join(false, persisted, other.persisted))
    }
  }

  const EMPTY := Pvc(map[], map[])

  predicate Leq(a: Clock, b: Clock) { forall t | t in a :: t in b && a[t] <= b[t] }

  class PersistencyVectorClock {
    const lastSeen: AbstractVectorClock
    const lastPersisted: AbstractVectorClock

    ghost predicate Valid()
      reads this, lastSeen, lastPersisted
    {
      lastSeen != lastPersisted && !lastSeen.reversed && !lastPersisted.reversed
    }

    ghost function Value(): Pvc
      reads this, lastSeen, lastPersisted
    {
      Pvc(lastSeen.Value(), lastPersisted.Value())
    }

    constructor (tid: int)
      ensures Valid() && fresh(lastSeen) && fresh(lastPersisted)
      ensures lastSeen.tid == tid && Value() == EMPTY
    {
      lastSeen := new AbstractVectorClock(tid, false);
      lastPersisted := new AbstractVectorClock(tid, false);
    }

    method AddEpoch(i: nat)
      requires Valid() && Below(false, Get(Value().seen, lastSeen.tid), Index(i))
      modifies lastSeen
      ensures Valid() && Value() == old(Value()).AddEpoch(lastSeen.tid, i)
    {
      lastSeen.AddEpoch(i);
    }

    /** `flush` copies the seen clock over the persisted one. As long as nothing is persisted that
        was not seen, this is the assignment `persisted := seen`. */
    method Flush()
      requires Valid() && Leq(Value().persisted, Value().seen)
      modifies lastPersisted
      ensures Valid() && Value() == old(Value()).Flush() == Pvc(old(Value()).seen, old(Value()).seen)
    {
      lastPersisted.CopyFrom(lastSeen);
      FlushCopiesSeen(old(Value()));
      SameClock(lastPersisted.Value(), old(lastSeen.Value()));
    }

    method Merge(other: PersistencyVectorClock)
      requires Valid() && other.Valid() && {lastSeen, lastPersisted} !! {other.lastSeen, other.lastPersisted}
      modifies lastSeen, lastPersisted
      ensures Valid() && Value() == old(Value()).Merge(old(other.Value()))
    {
      lastSeen.Merge(other.lastSeen);
      lastPersisted.Merge(other.lastPersisted);
    }
  }

  /** Overwriting cannot lower an entry while the persisted clock is below the seen clock. */
  lemma FlushCopiesSeen(p: Pvc)
    requires Leq(p.persisted, p.seen)
    ensures p.Flush().persisted == p.seen
  {
    SameClock(p.Flush().persisted, p.seen);
  }
}
