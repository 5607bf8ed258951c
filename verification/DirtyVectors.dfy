/** `dirty_vector.py`: which cache lines a thread still has to tell to each other thread. */
module DirtyVectors {
  import opened Cachelines
  import opened Picking

  /** The value of a `DirtyCachelinesVector`. Lines in `pending` count as dirty for every other thread. */
  datatype Dirty = Dirty(tid: int, vector: map<int, set<nat>>, pending: set<nat>)
  {
    predicate IsFor(tids: set<int>) { vector.Keys == tids - {tid} }

    function Of(t: int): set<nat> { if t in vector then vector[t] + pending else {} }

    function Flushed(): Dirty { Dirty(tid, map t | t in vector :: vector[t] + pending, {}) }

    function Mark(line: nat): Dirty { this.(pending := pending + {line}) }

    /** The sender after `update_child`: nothing is dirty for the child's thread any more. */
    function Cleared(t: int): Dirty
      requires t in vector
    {
      Dirty(tid, Flushed().vector[t := {}], {})
    }

    /** A child of thread `tid` after `update_child` from `sender`. It owes the sender's thread nothing new. */
    function Told(sender: Dirty): Dirty {
      Dirty(tid, map t | t in vector :: if t == sender.tid then Of(t) else Of(t) + sender.Of(t), {})
    }

    function Merge(other: Dirty): Dirty {
      this.(vector := map t | t in vector :: vector[t] + if t in other.vector then other.vector[t] else {})
    }
  }

  function Clean(tid: int, tids: set<int>): Dirty {
    Dirty(tid, map t | t in tids && t != tid :: {}, {})
  }

  lemma SameMap(a: map<int, set<nat>>, b: map<int, set<nat>>)
    requires a.Keys == b.Keys && forall t | t in a :: a[t] == b[t]
    ensures a == b
  {
    forall t | t in a ensures a[t] == b[t] {
    }
  }

  lemma FlushedNothing(d: Dirty)
    requires d.pending == {}
    ensures d.Flushed() == d
  {
    SameMap(d.Flushed().vector, d.vector);
  }

  lemma MergedSelf(d: Dirty)
    ensures d.Merge(d) == d
  {
    SameMap(d.Merge(d).vector, d.vector);
  }

  /** How much of the dictionary a loop over its keys has already changed. */
  ghost predicate UpdatedExcept(vector: map<int, set<nat>>, before: map<int, set<nat>>, after: map<int, set<nat>>, todo: set<int>)
    requires before.Keys == after.Keys
  {
    && vector.Keys == before.Keys
    && forall t | t in before :: vector[t] == if t in todo then before[t] else after[t]
  }

  /** Each set of the child's grows by mine, but for the one that is for my thread. */
  ghost function AfterTold(before: map<int, set<nat>>, tid: int, flushed: map<int, set<nat>>): (after: map<int, set<nat>>)
    requires forall t | t in before && t != tid :: t in flushed
    ensures after.Keys == before.Keys
    ensures forall t | t in before :: after[t] == if t == tid then before[t] else before[t] + flushed[t]
  {
    map t | t in before :: if t == tid then before[t] else before[t] + flushed[t]
  }

  class DirtyCachelinesVector {
    const tid: int
    var vector: map<int, set<nat>>
    var pending: set<nat>

    constructor (tid: int, tids: set<int>)
      ensures this.tid == tid && Value() == Clean(tid, tids) && Value().IsFor(tids)
    {
      this.tid := tid;
      vector := map t | t in tids && t != tid :: {};
      pending := {};
    }

    ghost function Value(): Dirty
      reads this
    {
      Dirty(tid, vector, pending)
    }

    /** Both dictionaries have a cell for every thread but their own. */
    ghost predicate Peers(child: DirtyCachelinesVector)
      reads this, child
    {
      && tid != child.tid && tid !in vector && child.tid !in child.vector
      && forall t | t != tid && t != child.tid :: t in vector <==> t in child.vector
    }

    method ClearPending()
      modifies this
      ensures Value() == old(Value()).Flushed()
    {
      if pending != {} {
        ghost var before, after := vector, Value().Flushed().vector;
        var todo := vector.Keys;
        while todo != {}
          invariant todo <= before.Keys && pending == old(pending)
          invariant UpdatedExcept(vector, before, after, todo)
        {
          var t := Pick(todo);
          vector := vector[t := vector[t] + pending];
          todo := todo - {t};
        }
        pending := {};
        SameMap(vector, after);
      } else {
        FlushedNothing(Value());
      }
    }

    method GetDirtyCachelines(t: int) returns (lines: set<nat>)
      requires t in vector
      modifies this
      ensures lines == old(Value()).Of(t)
      ensures Value() == old(Value()).Flushed()
    {
      ClearPending();
      lines := vector[t];
    }

    /** The source asserts that the access covers one line. */
    method SetCachelineDirty(address: nat, size: nat)
      requires InOneLine(address, size)
      modifies this
      ensures Value() == old(Value()).Mark(CachelineAddress(address))
    {
      OneLineIffContained(address, size);
      var lines := CachelineAddresses(address, size);
      pending := pending + set l | l in lines;
    }

    /** The requirements are the assertions of the source. The closing one, no pending lines, holds when
        nothing was pending on entry or when a third thread makes the loop read `self.vector`. */
    method UpdateChild(child: DirtyCachelinesVector)
      requires child.tid in vector && Peers(child)
      requires pending == {} || exists t :: t in vector && t != child.tid
      modifies this, child
      ensures child.Value() == old(child.Value()).Told(old(Value()))
      ensures Value() == old(Value()).Cleared(child.tid)
    {
      ghost var me, you := Value(), child.Value();
      child.ClearPending();
      TellChild(child, me.Flushed().vector);
      SameMap(child.vector, you.Told(me).vector);
      vector := vector[child.tid := {}];
    }

    /** The child's sets are told but for those of `todo`. */
    ghost predicate Telling(child: DirtyCachelinesVector, before: map<int, set<nat>>, after: map<int, set<nat>>,
                            todo: set<int>, flushed: map<int, set<nat>>)
      requires before.Keys == after.Keys
      reads this, child
    {
      && child.pending == {} && UpdatedExcept(child.vector, before, after, todo)
      && Value().Flushed().vector == flushed && Peers(child)
    }

    method TellNext(child: DirtyCachelinesVector, t: int, ghost before: map<int, set<nat>>, ghost after: map<int, set<nat>>,
                    ghost todo: set<int>, ghost flushed: map<int, set<nat>>)
      requires child != this && before.Keys == after.Keys && t in todo && todo <= before.Keys
      requires Telling(child, before, after, todo, flushed)
      requires after[t] == if t == tid then before[t] else before[t] + if t in flushed then flushed[t] else {}
      modifies this, child
      ensures Telling(child, before, after, todo - {t}, flushed)
      ensures if t == tid then pending == old(pending) else pending == {}
    {
      if t != tid {
        TellOne(child, t, flushed);
      }
    }

    /** The loop of `update_child` over the child's dictionary; `flushed` is my dictionary once nothing is pending. */
    method TellChild(child: DirtyCachelinesVector, ghost flushed: map<int, set<nat>>)
      requires child != this && child.pending == {} && flushed == Value().Flushed().vector
      requires Peers(child)
      requires pending == {} || exists t :: t in vector && t != child.tid
      modifies this, child
      ensures vector == flushed && pending == {} && child.pending == {}
      ensures child.vector.Keys == old(child.vector).Keys
      ensures forall t | t in child.vector ::
                child.vector[t] == if t == tid then old(child.vector)[t] else old(child.vector)[t] + flushed[t]
    {
      ghost var before := child.vector;
      ghost var after := AfterTold(before, tid, flushed);
      ghost var third := if pending == {} then tid else var t :| t in vector && t != child.tid; t;
      var todo := child.vector.Keys;
      while todo != {}
        invariant todo <= before.Keys && Telling(child, before, after, todo, flushed)
        invariant pending == {} || (third != tid && third in todo)
      {
        var t := Pick(todo);
        TellNext(child, t, before, after, todo, flushed);
        todo := todo - {t};
      }
      if pending == {} {
        FlushedNothing(Value());
      }
    }

    /** One turn of the loop: the child owes what is owed to one thread. */
    method TellOne(child: DirtyCachelinesVector, t: int, ghost flushed: map<int, set<nat>>)
      requires child != this && flushed == Value().Flushed().vector
      requires t in vector && t in child.vector
      modifies this, child
      ensures vector == flushed && pending == {} && Value().Flushed().vector == flushed
      ensures child.pending == old(child.pending)
      ensures child.vector == old(child.vector)[t := old(child.vector)[t] + flushed[t]]
    {
      ClearPending();
      FlushedNothing(Value());
      child.vector := child.vector[t := child.vector[t] + vector[t]];
    }

    method Merge(other: DirtyCachelinesVector)
      requires tid == other.tid && other.pending == {} && vector.Keys == other.vector.Keys
      modifies this
      ensures Value() == old(Value()).Merge(old(other.Value()))
    {
      ghost var before, theirs, after := vector, other.vector, Value().Merge(other.Value()).vector;
      if other == this {
        MergedSelf(Value());
      }
      var todo := other.vector.Keys;
      while todo != {}
        invariant todo <= before.Keys && pending == old(pending)
        invariant UpdatedExcept(vector, before, after, todo)
        invariant other != this ==> other.vector == theirs
      {
        var t := Pick(todo);
        vector := vector[t := vector[t] + other.vector[t]];
        todo := todo - {t};
      }
      SameMap(vector, after);
    }
  }

  /** What `update_child` does to the dirty sets the pass looks at. */
  lemma UpdateChildOf(sender: Dirty, child: Dirty, t: int)
    requires child.tid in sender.vector
    ensures sender.Cleared(child.tid).Of(t) == if t == child.tid then {} else sender.Of(t)
    ensures child.Told(sender).Of(t) ==
            if t in child.vector && t != sender.tid then child.Of(t) + sender.Of(t) else child.Of(t)
  {
  }
}
