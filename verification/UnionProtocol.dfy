/** Many threads in `__dfsan_union` and `dfsan_create_label`, one atomic access at a time. */
module UnionProtocol {
  import opened LabelSpec

  type Pair = (nat, nat)

  /** Where a thread is. The pair is ordered, and `l` is the label the thread has drawn or found. */
  datatype Pc =
    | Idle
    | Cas(pair: Pair)              // about to compare-and-exchange the entry
    | Waiting(pair: Pair)          // another thread initializes the entry
    | Owner(pair: Pair)            // won the exchange, about to look for subsumption
    | Drawing(pair: Pair)          // about to fetch-and-add
    | FillFirst(pair: Pair, l: nat)
    | FillSecond(pair: Pair, l: nat)
    | Storing(pair: Pair, l: nat)  // about to store the entry
    | CreateDrawing
    | CreateFill(l: nat)
    | CreateDone(l: nat)
    | Dying                        // drew the marker: out of labels
    | DyingOwner(pair: Pair)       // the same, with the entry of its pair marked
  {
    /** The thread that initializes the entry of its pair. */
    predicate Holds() { Owner? || Drawing? || FillFirst? || FillSecond? || Storing? || DyingOwner? }

    predicate HasPair() { Cas? || Waiting? || Holds() }

    predicate HasLabel() { FillFirst? || FillSecond? || Storing? || CreateFill? || CreateDone? }

    /** The label has been drawn by this thread and not been given out yet. */
    predicate Fresh() { HasLabel() && !(Storing? && l == pair.1) }
  }

  /** `draws` counts the fetch-and-adds, `known` has the labels that calls have returned: `returned` for which pairs,
      `created` for base labels, as often as they were. */
  datatype State = State(last: nat, info: seq<Info>, table: map<Pair, nat>, threads: map<nat, Pc>,
                         draws: nat, known: set<nat>, returned: set<(Pair, nat)>, created: multiset<nat>)
  {
    function Entry(k: Pair): nat { if k in table then table[k] else 0 }

    function To(t: nat, pc: Pc): State { this.(threads := threads[t := pc]) }

    function Return(t: nat, k: Pair, l: nat): State {
      To(t, Idle).(known := known + {l}, returned := returned + {(k, l)})
    }

    function ReturnNew(t: nat, l: nat): State {
      To(t, Idle).(known := known + {l}, created := created + multiset{l})
    }

    /** `atomic_fetch_add` on sixteen bits. */
    function Draw(): State { this.(last := (last + 1) % NUM_LABELS, draws := draws + 1) }

    function Write(l: nat, i: Info): State
      requires l < |info|
    {
      this.(info := info[l := i])
    }
  }

  datatype Call = Union(pair: Pair) | Create

  ghost predicate Initial(s: State) {
    && s.last == s.draws == 0 && |s.info| == NUM_LABELS && s.info[0].l1 == s.info[0].l2 == 0
    && s.table == map[] && s.known == {0} && s.returned == {} && s.created == multiset{}
    && forall t | t in s.threads :: s.threads[t].Idle?
  }

  /** A call for a label that is zero, or for two equal labels, does not get this far; callers only have labels
      that some call returned. Without any label the union is the bitwise one. */
  function Begin(s: State, t: nat, call: Call): State {
    match call
    case Create => s.To(t, CreateDrawing)
    case Union(k) =>
      if !(k.0 in s.known && k.1 in s.known && 0 < k.0 < k.1 < NUM_LABELS) then s
      else if s.last == 0 then s.Return(t, k, Or(k.0, k.1))
      else s.To(t, Cas(k))
  }

  /** One step of thread `t`. */
  function Step(s: State, t: nat, call: Call): State
    requires t in s.threads && |s.info| == NUM_LABELS
    requires s.threads[t].HasLabel() ==> s.threads[t].l < NUM_LABELS
    requires s.threads[t].HasPair() ==> s.threads[t].pair.1 < NUM_LABELS
  {
    match s.threads[t]
    case Idle => Begin(s, t, call)
    case Cas(k) =>
      if s.Entry(k) == 0 then s.To(t, Owner(k)).(table := s.table[k := INITIALIZING])
      else if s.Entry(k) == INITIALIZING then s.To(t, Waiting(k))
      else s.Return(t, k, s.Entry(k))
    case Waiting(k) => if s.Entry(k) == INITIALIZING then s else s.Return(t, k, s.Entry(k))
    case Owner(k) =>
      if s.info[k.1].l1 == k.0 || s.info[k.1].l2 == k.0 then s.To(t, Storing(k, k.1)) else s.To(t, Drawing(k))
    case Drawing(k) =>
      var s' := s.Draw();
      if s'.last == INITIALIZING then s'.To(t, DyingOwner(k)) else s'.To(t, FillFirst(k, s'.last))
    case FillFirst(k, l) => s.Write(l, s.info[l].(l1 := k.0)).To(t, FillSecond(k, l))
    case FillSecond(k, l) => s.Write(l, s.info[l].(l2 := k.1)).To(t, Storing(k, l))
    case Storing(k, l) => s.Return(t, k, l).(table := s.table[k := l])
    case CreateDrawing =>
      var s' := s.Draw();
      if s'.last == INITIALIZING then s'.To(t, Dying) else s'.To(t, CreateFill(s'.last))
    case CreateFill(l) => s.Write(l, s.info[l].(l1 := 0, l2 := 0)).To(t, CreateDone(l))
    case CreateDone(l) => s.ReturnNew(t, l)
    case Dying => s
    case DyingOwner(_) => s
  }

  // ----- what every step keeps -----

  /** Known labels are base labels or unions of two smaller known labels. */
  ghost predicate Closed(info: seq<Info>, known: set<nat>) {
    forall l | l in known :: l < |info| &&
      (info[l].l1 == info[l].l2 == 0 || (0 < info[l].l1 < info[l].l2 < l && info[l].l1 in known && info[l].l2 in known))
  }

  ghost predicate LabelsOk(s: State) {
    && |s.info| == NUM_LABELS && s.last == s.draws <= INITIALIZING
    && 0 in s.known && s.info[0].l1 == 0 && Closed(s.info, s.known)
    && (forall l | l in s.known :: l <= s.last && l != INITIALIZING)
  }

  ghost predicate PairOk(s: State, pc: Pc)
    requires pc.HasPair()
  {
    var k := pc.pair;
    && 0 < k.0 < k.1 && k.0 in s.known && k.1 in s.known
    && (pc.Holds() ==> s.Entry(k) == INITIALIZING)
    && (pc.Waiting? ==> s.Entry(k) != 0)
  }

  /** What a thread has written so far into the entry of the label it drew. */
  ghost predicate FillOk(s: State, pc: Pc)
    requires pc.Fresh() && |s.info| == NUM_LABELS
  {
    && 0 < pc.l <= s.last && pc.l !in s.known && pc.l < INITIALIZING
    && (pc.HasPair() ==> pc.pair.1 < pc.l)
    && (pc.FillSecond? ==> s.info[pc.l].l1 == pc.pair.0)
    && (pc.Storing? ==> s.info[pc.l].l1 == pc.pair.0 && s.info[pc.l].l2 == pc.pair.1)
    && (pc.CreateDone? ==> s.info[pc.l].l1 == s.info[pc.l].l2 == 0)
  }

  /** The thread found the larger label of its pair to be a union with the smaller one. */
  ghost predicate SubsumedOk(s: State, k: Pair)
    requires |s.info| == NUM_LABELS
  {
    k.1 < NUM_LABELS && (s.info[k.1].l1 == k.0 || s.info[k.1].l2 == k.0)
  }

  ghost predicate ThreadOk(s: State, pc: Pc)
    requires |s.info| == NUM_LABELS
  {
    && (pc.HasPair() ==> PairOk(s, pc))
    && (pc.Fresh() ==> FillOk(s, pc))
    && (pc.Storing? && !pc.Fresh() ==> SubsumedOk(s, pc.pair))
  }

  /** No two threads drew the same label, no two initialize the same entry. */
  ghost predicate Exclusive(s: State) {
    forall t, u | t in s.threads && u in s.threads && t != u ::
      && (s.threads[t].Fresh() && s.threads[u].Fresh() ==> s.threads[t].l != s.threads[u].l)
      && (s.threads[t].Holds() && s.threads[u].Holds() ==> s.threads[t].pair != s.threads[u].pair)
  }

  ghost predicate Initializes(s: State, t: nat, k: Pair) {
    t in s.threads && s.threads[t].Holds() && s.threads[t].pair == k
  }

  /** An entry is empty, being initialized by some thread, or the union of its pair. */
  ghost predicate EntryOk(s: State, k: Pair) {
    if s.Entry(k) == INITIALIZING then exists t :: Initializes(s, t, k)
    else s.Entry(k) != 0 ==> UnionIs(s, k, s.Entry(k))
  }

  ghost predicate UnionIs(s: State, k: Pair, l: nat) {
    && 0 < k.0 < k.1 && k.0 in s.known && k.1 in s.known
    && l in s.known && l != 0 && Base(s.info, l) == Base(s.info, k.0) + Base(s.info, k.1)
  }

  ghost predicate ReturnedOk(s: State) {
    forall r | r in s.returned :: s.Entry(r.0) == r.1 && r.1 != INITIALIZING && r.1 != 0
  }

  /** Every base label has been returned to one caller only, and stands for itself. */
  ghost predicate CreatedOk(s: State) {
    forall l | l in s.created :: s.created[l] == 1 && l in s.known && 0 < l < |s.info| && s.info[l].l1 == 0
  }

  ghost predicate Good(s: State) {
    && LabelsOk(s) && (forall t | t in s.threads :: ThreadOk(s, s.threads[t])) && Exclusive(s)
    && (forall k :: EntryOk(s, k)) && ReturnedOk(s) && CreatedOk(s)
  }

  /** What a known label stands for depends on known labels only. */
  lemma {:induction false} KnownFrame(info: seq<Info>, info': seq<Info>, known: set<nat>, l: nat)
    requires Closed(info, known) && l in known && |info'| == |info|
    requires forall i | i in known :: info'[i].l1 == info[i].l1 && info'[i].l2 == info[i].l2
    ensures Base(info', l) == Base(info, l)
    decreases l
  {
    if l != 0 && info[l].l1 != 0 {
      KnownFrame(info, info', known, info[l].l1);
      KnownFrame(info, info', known, info[l].l2);
    }
  }

  /** Entries stay as good as they were when known labels keep their meaning and nobody gives up an entry. */
  lemma EntriesStay(s: State, s': State)
    requires forall k :: EntryOk(s, k)
    requires s'.table == s.table && s.known <= s'.known && forall l | l in s.known :: Base(s'.info, l) == Base(s.info, l)
    requires forall u, k | Initializes(s, u, k) :: Initializes(s', u, k)
    ensures forall k :: EntryOk(s', k)
  {
    forall k ensures EntryOk(s', k) {
      assert EntryOk(s, k);
      if s.Entry(k) == INITIALIZING {
        var u :| Initializes(s, u, k);
        assert Initializes(s', u, k);
      } else if s.Entry(k) != 0 {
        assert UnionIs(s', k, s'.Entry(k));
      }
    }
  }

  /** A thread moves on and touches nothing shared. */
  lemma MoveKeepsGood(s: State, t: nat, pc: Pc)
    requires Good(s) && t in s.threads && ThreadOk(s, pc)
    requires if s.threads[t].Holds() then pc.Holds() && pc.pair == s.threads[t].pair else !pc.Holds()
    requires pc.Fresh() ==> forall u | u in s.threads && u != t && s.threads[u].Fresh() :: s.threads[u].l != pc.l
    ensures Good(s.To(t, pc))
  {
    MoveOnKeepsGood(s, t, pc);
  }

  lemma BeginKeepsGood(s: State, t: nat, call: Call)
    requires Good(s) && t in s.threads && s.threads[t].Idle?
    ensures Good(Begin(s, t, call))
  {
    match call
    case Create => MoveKeepsGood(s, t, CreateDrawing);
    case Union(k) =>
      if k.0 in s.known && k.1 in s.known && 0 < k.0 < k.1 < NUM_LABELS {
        MoveKeepsGood(s, t, Cas(k));
      }
  }

  lemma WinnerIsAlone(s: State, t: nat, k: Pair)
    requires Good(s) && t in s.threads && s.threads[t] == Cas(k) && s.Entry(k) == 0
    ensures Exclusive(s.To(t, Owner(k)))
  {
    forall u | u in s.threads && s.threads[u].Holds() ensures s.threads[u].pair != k {
      assert ThreadOk(s, s.threads[u]);
    }
  }

  /** The exchange succeeds: the entry was empty, so nobody else initializes it. */
  lemma WinKeepsGood(s: State, t: nat, k: Pair)
    requires Good(s) && t in s.threads && s.threads[t] == Cas(k) && s.Entry(k) == 0 && k.1 < NUM_LABELS
    ensures Good(Step(s, t, Create))
  {
    var s' := Step(s, t, Create);
    assert ThreadOk(s, s.threads[t]);
    WinnerIsAlone(s, t, k);
    forall u | u in s'.threads ensures ThreadOk(s', s'.threads[u]) {
      assert u != t ==> ThreadOk(s, s'.threads[u]);
    }
    forall j ensures EntryOk(s', j) {
      assert EntryOk(s, j);
      if j == k {
        assert Initializes(s', t, k);
      } else if s.Entry(j) == INITIALIZING {
        var u :| Initializes(s, u, j);
        assert Initializes(s', u, j);
      } else if s.Entry(j) != 0 {
        assert UnionIs(s', j, s'.Entry(j));
      }
    }
  }

  lemma ReturnKeepsGood(s: State, t: nat, k: Pair)
    requires Good(s) && t in s.threads && (s.threads[t] == Cas(k) || s.threads[t] == Waiting(k))
    requires s.Entry(k) != 0 && s.Entry(k) != INITIALIZING
    ensures Good(s.Return(t, k, s.Entry(k)))
  {
    assert EntryOk(s, k);
    MoveKeepsGood(s, t, Idle);
    var s1 := s.To(t, Idle);
    var s' := s.Return(t, k, s.Entry(k));
    assert s'.known == s1.known;
    EntriesStay(s1, s');
    forall u | u in s'.threads ensures ThreadOk(s', s'.threads[u]) {
      assert ThreadOk(s1, s'.threads[u]);
    }
  }

  lemma LookKeepsGood(s: State, t: nat)
    requires Good(s) && t in s.threads && s.threads[t].Owner?
    ensures s.threads[t].pair.1 < NUM_LABELS && Good(Step(s, t, Create))
  {
    var k := s.threads[t].pair;
    assert ThreadOk(s, s.threads[t]);
    if s.info[k.1].l1 == k.0 || s.info[k.1].l2 == k.0 {
      MoveKeepsGood(s, t, Storing(k, k.1));
    } else {
      MoveKeepsGood(s, t, Drawing(k));
    }
  }

  lemma FindKeepsGood(s: State, t: nat)
    requires Good(s) && t in s.threads && (s.threads[t].Cas? || s.threads[t].Waiting?)
    ensures s.threads[t].pair.1 < NUM_LABELS && Good(Step(s, t, Create))
  {
    var k := s.threads[t].pair;
    assert ThreadOk(s, s.threads[t]);
    if s.Entry(k) == 0 {
      WinKeepsGood(s, t, k);
    } else if s.Entry(k) == INITIALIZING {
      MoveKeepsGood(s, t, Waiting(k));
      assert s.threads[t].Waiting? ==> s.To(t, Waiting(k)) == s;
    } else {
      ReturnKeepsGood(s, t, k);
    }
  }

  lemma CounterKeepsGood(s: State)
    requires Good(s) && s.draws < INITIALIZING
    ensures Good(s.Draw()) && s.Draw().last == s.last + 1
  {
    var s' := s.Draw();
    EntriesStay(s, s');
    forall u | u in s'.threads ensures ThreadOk(s', s'.threads[u]) {
      assert ThreadOk(s, s'.threads[u]);
    }
  }

  /** As long as labels last, what is drawn is new; who draws the marker keeps the entry it has marked. */
  lemma DrawKeepsGood(s: State, t: nat)
    requires Good(s) && t in s.threads && (s.threads[t].Drawing? || s.threads[t].CreateDrawing?)
    requires s.draws < INITIALIZING
    ensures s.threads[t].Drawing? ==> s.threads[t].pair.1 < NUM_LABELS
    ensures Good(Step(s, t, Create))
  {
    var s' := s.Draw();
    CounterKeepsGood(s);
    assert ThreadOk(s, s.threads[t]);
    forall u | u in s.threads && s.threads[u].Fresh() ensures s.threads[u].l <= s.last {
      assert ThreadOk(s, s.threads[u]);
    }
    if s'.last == INITIALIZING {
      MoveKeepsGood(s', t, if s.threads[t].Drawing? then DyingOwner(s.threads[t].pair) else Dying);
    } else if s.threads[t].Drawing? {
      assert ThreadOk(s', FillFirst(s.threads[t].pair, s'.last));
      MoveKeepsGood(s', t, FillFirst(s.threads[t].pair, s'.last));
    } else {
      assert ThreadOk(s', CreateFill(s'.last));
      MoveKeepsGood(s', t, CreateFill(s'.last));
    }
  }

  /** Writing the entry of a label nobody knows changes the meaning of no known label. */
  lemma FillEntries(s: State, s': State, l: nat, i: Info)
    requires LabelsOk(s) && l < NUM_LABELS && l !in s.known && s'.info == s.info[l := i]
    ensures forall k | k in s.known :: s'.info[k] == s.info[k] && Base(s'.info, k) == Base(s.info, k)
  {
    forall k | k in s.known ensures s'.info[k] == s.info[k] && Base(s'.info, k) == Base(s.info, k) {
      KnownFrame(s.info, s'.info, s.known, k);
    }
  }

  lemma FillSparesOther(s: State, s': State, l: nat, pc: Pc)
    requires LabelsOk(s) && l < NUM_LABELS && l !in s.known && ThreadOk(s, pc) && (pc.Fresh() ==> pc.l != l)
    requires |s'.info| == NUM_LABELS && s'.info == s.info[l := s'.info[l]] && s'.table == s.table && s'.known == s.known && s'.last == s.last
    ensures ThreadOk(s', pc)
  {
  }

  ghost predicate Fills(pc: Pc) { pc.FillFirst? || pc.FillSecond? || pc.CreateFill? }

  /** The thread's next place, and what it writes into the entry of its label. */
  function AfterFill(pc: Pc): Pc
    requires Fills(pc)
  {
    match pc
    case FillFirst(k, l) => FillSecond(k, l)
    case FillSecond(k, l) => Storing(k, l)
    case CreateFill(l) => CreateDone(l)
  }

  function Filled(pc: Pc, i: Info): Info
    requires Fills(pc)
  {
    match pc
    case FillFirst(k, _) => i.(l1 := k.0)
    case FillSecond(k, _) => i.(l2 := k.1)
    case CreateFill(_) => i.(l1 := 0, l2 := 0)
  }

  lemma FillIs(s: State, t: nat)
    requires t in s.threads && Fills(s.threads[t]) && |s.info| == NUM_LABELS && ThreadOk(s, s.threads[t])
    ensures s.threads[t].l < NUM_LABELS && (s.threads[t].HasPair() ==> s.threads[t].pair.1 < NUM_LABELS)
    ensures var pc := s.threads[t];
            Step(s, t, Create) == s.Write(pc.l, Filled(pc, s.info[pc.l])).To(t, AfterFill(pc))
  {
  }

  lemma FilledThreadOk(s: State, pc: Pc)
    requires LabelsOk(s) && Fills(pc) && ThreadOk(s, pc) && pc.l < NUM_LABELS
    ensures ThreadOk(s.Write(pc.l, Filled(pc, s.info[pc.l])), AfterFill(pc)) && AfterFill(pc).Fresh()
  {
  }

  lemma FillKeepsGood(s: State, t: nat)
    requires Good(s) && t in s.threads && Fills(s.threads[t])
    ensures s.threads[t].l < NUM_LABELS && (s.threads[t].HasPair() ==> s.threads[t].pair.1 < NUM_LABELS)
    ensures Good(Step(s, t, Create))
  {
    var pc := s.threads[t];
    assert ThreadOk(s, pc);
    FillIs(s, t);
    WriteKeepsGood(s, t, pc.l, Filled(pc, s.info[pc.l]));
    FilledThreadOk(s, pc);
    MoveOnKeepsGood(s.Write(pc.l, Filled(pc, s.info[pc.l])), t, AfterFill(pc));
  }

  /** Good but for the thread that is about to move on. */
  ghost predicate GoodBut(s: State, t: nat) {
    && LabelsOk(s) && (forall u | u in s.threads && u != t :: ThreadOk(s, s.threads[u])) && Exclusive(s)
    && (forall k :: EntryOk(s, k)) && ReturnedOk(s) && CreatedOk(s)
  }

  lemma WriteKeepsGood(s: State, t: nat, l: nat, i: Info)
    requires Good(s) && t in s.threads && s.threads[t].Fresh() && s.threads[t].l == l && l < NUM_LABELS && l !in s.known
    ensures GoodBut(s.Write(l, i), t)
  {
    var s' := s.Write(l, i);
    FillEntries(s, s', l, i);
    EntriesStay(s, s');
    forall u | u in s'.threads && u != t ensures ThreadOk(s', s'.threads[u]) {
      FillSparesOther(s, s', l, s'.threads[u]);
    }
  }

  lemma MoveOnKeepsGood(s: State, t: nat, pc: Pc)
    requires GoodBut(s, t) && t in s.threads && ThreadOk(s, pc)
    requires if s.threads[t].Holds() then pc.Holds() && pc.pair == s.threads[t].pair else !pc.Holds()
    requires pc.Fresh() ==> forall u | u in s.threads && u != t && s.threads[u].Fresh() :: s.threads[u].l != pc.l
    ensures Good(s.To(t, pc))
  {
    var s' := s.To(t, pc);
    EntriesStay(s, s');
    forall u | u in s'.threads ensures ThreadOk(s', s'.threads[u]) {
      assert ThreadOk(s, s'.threads[u]);
    }
  }

  lemma CreateDoneKeepsGood(s: State, t: nat)
    requires Good(s) && t in s.threads && s.threads[t].CreateDone?
    ensures s.threads[t].l < NUM_LABELS && Good(Step(s, t, Create))
  {
    var s' := Step(s, t, Create);
    assert ThreadOk(s, s.threads[t]);
    EntriesStay(s, s');
    RestKeepsExclusive(s, s', t);
    forall u | u in s'.threads ensures ThreadOk(s', s'.threads[u]) {
      assert u != t ==> ThreadOk(s, s'.threads[u]);
    }
  }

  lemma StoreKeepsEntries(s: State, t: nat, k: Pair, l: nat)
    requires Good(s) && t in s.threads && s.threads[t] == Storing(k, l) && l < NUM_LABELS && k.1 < NUM_LABELS
    ensures forall j :: EntryOk(Step(s, t, Create), j)
    ensures l != 0 && l != INITIALIZING && LabelsOk(Step(s, t, Create))
  {
    var s' := Step(s, t, Create);
    assert ThreadOk(s, s.threads[t]);
    forall j ensures EntryOk(s', j) {
      assert EntryOk(s, j);
      if j == k {
        assert UnionIs(s', k, l);
      } else if s.Entry(j) == INITIALIZING {
        var u :| Initializes(s, u, j);
        assert Initializes(s', u, j);
      } else if s.Entry(j) != 0 {
        assert UnionIs(s', j, s'.Entry(j));
      }
    }
  }

  /** Who gives up an entry or a label, or had none, leaves the others' apart. */
  lemma RestKeepsExclusive(s: State, s': State, t: nat)
    requires Exclusive(s) && t in s.threads && s'.threads == s.threads[t := Idle]
    ensures Exclusive(s')
  {
  }

  lemma StoreSparesOther(s: State, s': State, t: nat, u: nat)
    requires Good(s) && t in s.threads && u in s.threads && u != t && s.threads[t].Storing?
    requires s' == s.Return(t, s.threads[t].pair, s.threads[t].l).(table := s.table[s.threads[t].pair := s.threads[t].l])
    ensures ThreadOk(s', s.threads[u])
  {
    assert ThreadOk(s, s.threads[u]) && ThreadOk(s, s.threads[t]);
  }

  lemma StoreKeepsGood(s: State, t: nat)
    requires Good(s) && t in s.threads && s.threads[t].Storing?
    ensures s.threads[t].l < NUM_LABELS && s.threads[t].pair.1 < NUM_LABELS && Good(Step(s, t, Create))
  {
    assert ThreadOk(s, s.threads[t]);
    var k, l, s' := s.threads[t].pair, s.threads[t].l, Step(s, t, Create);
    StoreKeepsEntries(s, t, k, l);
    RestKeepsExclusive(s, s', t);
    forall u | u in s'.threads ensures ThreadOk(s', s'.threads[u]) {
      if u != t {
        StoreSparesOther(s, s', t, u);
      }
    }
  }

  // ----- runs -----

  ghost predicate Next(s: State, s': State) {
    exists t, call :: StepBy(s, t, call, s')
  }

  ghost predicate StepBy(s: State, t: nat, call: Call, s': State) {
    && t in s.threads && |s.info| == NUM_LABELS
    && (s.threads[t].HasLabel() ==> s.threads[t].l < NUM_LABELS)
    && (s.threads[t].HasPair() ==> s.threads[t].pair.1 < NUM_LABELS)
    && s' == Step(s, t, call)
  }

  ghost predicate IsRun(run: seq<State>) {
    |run| > 0 && Initial(run[0]) && forall i | 0 <= i < |run| - 1 :: Next(run[i], run[i + 1])
  }

  lemma StepKeepsGood(s: State, t: nat, call: Call, s': State)
    requires Good(s) && StepBy(s, t, call, s') && s'.draws <= INITIALIZING
    ensures Good(s')
  {
    assert ThreadOk(s, s.threads[t]);
    match s.threads[t]
    case Idle => BeginKeepsGood(s, t, call);
    case Cas(_) => FindKeepsGood(s, t);
    case Waiting(_) => FindKeepsGood(s, t);
    case Owner(_) => LookKeepsGood(s, t);
    case Drawing(_) => DrawKeepsGood(s, t);
    case CreateDrawing => DrawKeepsGood(s, t);
    case FillFirst(_, _) => FillKeepsGood(s, t);
    case FillSecond(_, _) => FillKeepsGood(s, t);
    case CreateFill(_) => FillKeepsGood(s, t);
    case CreateDone(_) => CreateDoneKeepsGood(s, t);
    case Storing(_, _) => StoreKeepsGood(s, t);
    case Dying =>
    case DyingOwner(_) =>
  }

  /** Exactly which steps are bad: drawing once more after the marker has been drawn. */
  lemma StepGoodIff(s: State, t: nat, call: Call, s': State)
    requires Good(s) && StepBy(s, t, call, s')
    ensures Good(s') <==> !(s.draws == INITIALIZING && (s.threads[t].Drawing? || s.threads[t].CreateDrawing?))
  {
    if s'.draws <= INITIALIZING {
      StepKeepsGood(s, t, call, s');
    } else {
      assert ThreadOk(s, s.threads[t]);
    }
  }

  lemma InitiallyGood(s: State)
    requires Initial(s)
    ensures Good(s)
  {
    forall k ensures EntryOk(s, k) {
    }
  }

  lemma StepKeepsHistory(s: State, t: nat, call: Call, s': State)
    requires StepBy(s, t, call, s')
    ensures s.returned <= s'.returned && s.known <= s'.known && s.created <= s'.created && s.draws <= s'.draws
  {
  }

  lemma NextKeepsHistory(s: State, s': State)
    requires Next(s, s')
    ensures s.returned <= s'.returned && s.draws <= s'.draws
  {
    var t, call :| StepBy(s, t, call, s');
    StepKeepsHistory(s, t, call, s');
  }

  lemma NextKeepsGood(s: State, s': State)
    requires Good(s) && Next(s, s') && s'.draws <= INITIALIZING
    ensures Good(s')
  {
    var t, call :| StepBy(s, t, call, s');
    StepKeepsGood(s, t, call, s');
  }

  /** Every state of every run is good until somebody draws again after the marker has been drawn. */
  lemma {:induction false} RunsAreGood(run: seq<State>, i: nat)
    requires IsRun(run) && i < |run| && run[i].draws <= INITIALIZING
    ensures Good(run[i])
  {
    if i == 0 {
      InitiallyGood(run[0]);
    } else {
      assert Next(run[i - 1], run[i - 1 + 1]);
      NextKeepsHistory(run[i - 1], run[i]);
      RunsAreGood(run, i - 1);
      NextKeepsGood(run[i - 1], run[i]);
    }
  }

  /** An entry goes from empty to the marker, from there to a label, and stays. */
  ghost predicate EntryMoves(s: State, s': State, k: Pair) {
    || s'.Entry(k) == s.Entry(k)
    || (s.Entry(k) == 0 && s'.Entry(k) == INITIALIZING)
    || (s.Entry(k) == INITIALIZING && s'.Entry(k) != 0)
  }

  lemma StepMovesEntries(s: State, t: nat, call: Call, s': State, k: Pair)
    requires Good(s) && StepBy(s, t, call, s')
    ensures EntryMoves(s, s', k) && s.returned <= s'.returned && s.known <= s'.known && s.draws <= s'.draws
  {
    StepKeepsHistory(s, t, call, s');
    assert ThreadOk(s, s.threads[t]);
    match s.threads[t]
    case Cas(j) => assert s'.table == s.table || s'.table == s.table[j := INITIALIZING];
    case Storing(j, l) => assert s'.table == s.table[j := l] && l != 0;
    case _ => assert s'.table == s.table;
  }

  lemma {:induction false} HistoryGrows(run: seq<State>, i: nat, j: nat)
    requires IsRun(run) && i <= j < |run|
    ensures run[i].returned <= run[j].returned && run[i].draws <= run[j].draws
    decreases j
  {
    if i < j {
      assert Next(run[j - 1], run[j - 1 + 1]);
      NextKeepsHistory(run[j - 1], run[j]);
      HistoryGrows(run, i, j - 1);
    }
  }

  /** All calls for a pair, at any two moments of a run, return the same label. It is never the marker, and it
      stands for the union of what the pair stands for. */
  lemma SamePairSameLabel(run: seq<State>, i: nat, j: nat, k: Pair, l: nat, m: nat)
    requires IsRun(run) && i <= j < |run| && run[j].draws <= INITIALIZING
    requires (k, l) in run[i].returned && (k, m) in run[j].returned
    ensures l == m && m != INITIALIZING && m != 0
    ensures Base(run[j].info, m) == Base(run[j].info, k.0) + Base(run[j].info, k.1)
  {
    HistoryGrows(run, i, j);
    RunsAreGood(run, j);
    assert run[j].Entry((k, l).0) == (k, l).1 && run[j].Entry((k, m).0) == (k, m).1;
    assert EntryOk(run[j], k);
  }

  /** Only one thread at a time initializes an entry, and whenever a thread waits there is one. */
  lemma WaitingIsForSomeone(s: State, t: nat)
    requires Good(s) && t in s.threads && s.threads[t].Waiting? && s.Entry(s.threads[t].pair) == INITIALIZING
    ensures exists u :: Initializes(s, u, s.threads[t].pair) && u != t
    ensures forall u, v | Initializes(s, u, s.threads[t].pair) && Initializes(s, v, s.threads[t].pair) :: u == v
  {
    assert EntryOk(s, s.threads[t].pair);
  }

  lemma StepWrites(s: State, t: nat, call: Call, s': State)
    requires Good(s) && StepBy(s, t, call, s')
    ensures |s'.info| == |s.info| && s.known <= s'.known && forall i | i in s.known :: s'.info[i] == s.info[i]
  {
    var pc := s.threads[t];
    assert ThreadOk(s, pc);
    match pc
    case FillFirst(_, l) => assert pc.Fresh() && l !in s.known;
    case FillSecond(_, l) => assert pc.Fresh() && l !in s.known;
    case CreateFill(l) => assert pc.Fresh() && l !in s.known;
    case _ =>
  }

  /** What a known label stands for never changes. */
  lemma KnownKeepMeaning(s: State, t: nat, call: Call, s': State, l: nat)
    requires Good(s) && StepBy(s, t, call, s') && l in s.known
    ensures l in s'.known && Base(s'.info, l) == Base(s.info, l)
  {
    StepWrites(s, t, call, s');
    KnownFrame(s.info, s'.info, s.known, l);
  }

  // ----- a call whose thread moves alone -----

  /** Thread `t` gets from `s` to `s'` while nobody else moves. */
  ghost predicate Alone(s: State, t: nat, s': State) {
    exists run: seq<State> :: |run| > 0 && run[0] == s && run[|run| - 1] == s' && StepsOf(run, t)
  }

  ghost predicate StepsOf(run: seq<State>, t: nat) { forall i | 0 <= i < |run| - 1 :: StepBy(run[i], t, Create, run[i + 1]) }

  lemma First(s: State, t: nat, s1: State, s': State)
    requires StepBy(s, t, Create, s1) && Alone(s1, t, s')
    ensures Alone(s, t, s')
  {
    var run: seq<State> :| |run| > 0 && run[0] == s1 && run[|run| - 1] == s' && StepsOf(run, t);
    var longer := [s] + run;
    forall i | 0 <= i < |longer| - 1 ensures StepBy(longer[i], t, Create, longer[i + 1]) {
      assert i > 0 ==> StepBy(run[i - 1], t, Create, run[i - 1 + 1]);
    }
    assert StepsOf(longer, t);
  }

  /** One step of a thread at `pc`, while labels last. */
  lemma OneAt(s: State, t: nat, pc: Pc) returns (s': State)
    requires Good(s) && t in s.threads && s.threads[t] == pc && !pc.Idle?
    requires pc.Drawing? || pc.CreateDrawing? ==> s.draws < INITIALIZING
    ensures StepBy(s, t, Create, s') && Good(s') && Alone(s, t, s')
  {
    assert ThreadOk(s, pc);
    s' := Step(s, t, Create);
    StepKeepsGood(s, t, Create, s');
    assert StepsOf([s, s'], t) by {
      assert [s, s'][0] == s && [s, s'][1] == s';
    }
    assert [s, s'][0] == s && [s, s'][1] == s';
  }

  /** The call for the pair has returned a label, which stands for the union. */
  ghost predicate HasReturned(s: State, t: nat, k: Pair) {
    Good(s) && t in s.threads && s.threads[t].Idle? && exists l :: (k, l) in s.returned && UnionIs(s, k, l)
  }

  lemma ReturnedIsUnion(s: State, t: nat, k: Pair, l: nat)
    requires Good(s) && t in s.threads && s.threads[t].Idle? && (k, l) in s.returned
    ensures HasReturned(s, t, k)
  {
    assert EntryOk(s, (k, l).0) && s.Entry((k, l).0) == (k, l).1;
  }

  lemma StoreAlone(s: State, t: nat, k: Pair, l: nat) returns (s': State)
    requires Good(s) && t in s.threads && s.threads[t] == Storing(k, l)
    ensures Alone(s, t, s') && HasReturned(s', t, k)
  {
    s' := OneAt(s, t, Storing(k, l));
    ReturnedIsUnion(s', t, k, l);
  }

  lemma FillAlone(s: State, t: nat, k: Pair, l: nat) returns (s': State)
    requires Good(s) && t in s.threads && (s.threads[t] == FillFirst(k, l) || s.threads[t] == FillSecond(k, l))
    ensures Alone(s, t, s') && HasReturned(s', t, k)
    decreases s.threads[t].FillFirst?
  {
    var s1 := OneAt(s, t, s.threads[t]);
    if s.threads[t].FillFirst? {
      s' := FillAlone(s1, t, k, l);
    } else {
      s' := StoreAlone(s1, t, k, l);
    }
    First(s, t, s1, s');
  }

  lemma DrawAlone(s: State, t: nat, k: Pair) returns (s': State)
    requires Good(s) && t in s.threads && s.threads[t] == Drawing(k) && s.draws + 1 < INITIALIZING
    ensures Alone(s, t, s') && HasReturned(s', t, k)
  {
    var s1 := OneAt(s, t, Drawing(k));
    s' := FillAlone(s1, t, k, s1.last);
    First(s, t, s1, s');
  }

  lemma OwnAlone(s: State, t: nat, k: Pair) returns (s': State)
    requires Good(s) && t in s.threads && s.threads[t] == Owner(k) && s.draws + 1 < INITIALIZING
    ensures Alone(s, t, s') && HasReturned(s', t, k)
  {
    var s1 := OneAt(s, t, Owner(k));
    if s1.threads[t].Drawing? {
      s' := DrawAlone(s1, t, k);
    } else {
      s' := StoreAlone(s1, t, k, k.1);
    }
    First(s, t, s1, s');
  }

  /** The exchange, or the wait for another thread's label, which is there. */
  lemma EnterAlone(s: State, t: nat, k: Pair) returns (s': State)
    requires Good(s) && t in s.threads && (s.threads[t] == Cas(k) || s.threads[t] == Waiting(k))
    requires s.Entry(k) != INITIALIZING && s.draws + 1 < INITIALIZING
    ensures Alone(s, t, s') && HasReturned(s', t, k)
  {
    assert ThreadOk(s, s.threads[t]);
    var s1 := OneAt(s, t, s.threads[t]);
    if s.Entry(k) == 0 {
      s' := OwnAlone(s1, t, k);
      First(s, t, s1, s');
    } else {
      ReturnedIsUnion(s1, t, k, s.Entry(k));
      s' := s1;
    }
  }

  /** In every state that can be reached, wherever a call for a union is: if it need not wait for another thread, and labels
      last, it returns the union while the others stand still. */
  lemma UnionAlone(s: State, t: nat, k: Pair) returns (s': State)
    requires Good(s) && t in s.threads && s.threads[t].HasPair() && s.threads[t].pair == k && !s.threads[t].DyingOwner?
    requires s.threads[t].Holds() || s.Entry(k) != INITIALIZING
    requires s.draws + 1 < INITIALIZING
    ensures Alone(s, t, s') && HasReturned(s', t, k)
  {
    match s.threads[t]
    case Cas(_) => s' := EnterAlone(s, t, k);
    case Waiting(_) => s' := EnterAlone(s, t, k);
    case Owner(_) => s' := OwnAlone(s, t, k);
    case Drawing(_) => s' := DrawAlone(s, t, k);
    case FillFirst(_, l) => s' := FillAlone(s, t, k, l);
    case FillSecond(_, l) => s' := FillAlone(s, t, k, l);
    case Storing(_, l) => s' := StoreAlone(s, t, k, l);
  }

  /** A call for two known labels begins. */
  lemma UnionBegins(s: State, t: nat, k: Pair) returns (s': State)
    requires Good(s) && t in s.threads && s.threads[t].Idle? && 0 < k.0 < k.1 && k.0 in s.known && k.1 in s.known
    ensures StepBy(s, t, Union(k), s') && Good(s') && s' == s.To(t, Cas(k))
  {
    s' := Step(s, t, Union(k));
    BeginKeepsGood(s, t, Union(k));
  }

  /** A whole call. */
  lemma UnionCallAlone(s: State, t: nat, k: Pair) returns (s1: State, s': State)
    requires Good(s) && t in s.threads && s.threads[t].Idle? && 0 < k.0 < k.1 && k.0 in s.known && k.1 in s.known
    requires s.Entry(k) != INITIALIZING && s.draws + 1 < INITIALIZING
    ensures StepBy(s, t, Union(k), s1) && Alone(s1, t, s') && HasReturned(s', t, k)
  {
    s1 := UnionBegins(s, t, k);
    s' := UnionAlone(s1, t, k);
  }

  /** A label has been created that no caller had. */
  ghost predicate HasCreated(s: State, s': State, t: nat) {
    && Good(s') && t in s'.threads && s'.threads[t].Idle?
    && exists l :: l !in s.known && l in s'.known && s'.created == s.created + multiset{l} && Base(s'.info, l) == {l}
  }

  lemma CreateDoneAlone(s0: State, s: State, t: nat, l: nat) returns (s': State)
    requires Good(s) && t in s.threads && s.threads[t] == CreateDone(l) && s.known == s0.known && s.created == s0.created
    ensures Alone(s, t, s') && HasCreated(s0, s', t)
  {
    assert ThreadOk(s, s.threads[t]);
    s' := OneAt(s, t, CreateDone(l));
  }

  lemma CreateFillAlone(s0: State, s: State, t: nat, l: nat) returns (s': State)
    requires Good(s) && t in s.threads && s.threads[t] == CreateFill(l) && s.known == s0.known && s.created == s0.created
    ensures Alone(s, t, s') && HasCreated(s0, s', t)
  {
    var s1 := OneAt(s, t, CreateFill(l));
    s' := CreateDoneAlone(s0, s1, t, l);
    First(s, t, s1, s');
  }

  /** The same for the creation of a label. */
  lemma CreateAlone(s: State, t: nat) returns (s': State)
    requires Good(s) && t in s.threads && (s.threads[t].CreateDrawing? || s.threads[t].CreateFill? || s.threads[t].CreateDone?)
    requires s.draws + 1 < INITIALIZING
    ensures Alone(s, t, s') && HasCreated(s, s', t)
  {
    match s.threads[t]
    case CreateDrawing =>
      var s1 := OneAt(s, t, CreateDrawing);
      s' := CreateFillAlone(s, s1, t, s1.last);
      First(s, t, s1, s');
    case CreateFill(l) => s' := CreateFillAlone(s, s, t, l);
    case CreateDone(l) => s' := CreateDoneAlone(s, s, t, l);
  }

  // ----- past the last label -----

  lemma {:induction false} KnownStandsForSomething(info: seq<Info>, known: set<nat>, l: nat)
    requires Closed(info, known) && l in known && l != 0
    ensures Base(info, l) != {}
    decreases l
  {
    if info[l].l1 != 0 {
      KnownStandsForSomething(info, known, info[l].l1);
    } else {
      assert l in Base(info, l);
    }
  }

  /** The states of a run that goes on from `s0`. */
  ghost predicate Reaches(s0: State, s: State) {
    exists run: seq<State> :: |run| > 0 && run[0] == s0 && run[|run| - 1] == s && Steps(run)
  }

  ghost predicate Steps(run: seq<State>) { forall i | 0 <= i < |run| - 1 :: Next(run[i], run[i + 1]) }

  lemma ReachesItself(s: State)
    ensures Reaches(s, s)
  {
    assert Steps([s]);
  }

  /** One more step. */
  lemma Then(s0: State, s: State, t: nat, call: Call, s': State)
    requires Reaches(s0, s) && StepBy(s, t, call, s')
    ensures Reaches(s0, s')
  {
    var run: seq<State> :| |run| > 0 && run[0] == s0 && run[|run| - 1] == s && Steps(run);
    assert Next(s, s');
    assert Steps(run + [s']);
  }

  lemma ReachedIsGood(s0: State, s: State)
    requires Initial(s0) && Reaches(s0, s) && s.draws <= INITIALIZING
    ensures Good(s)
  {
    var run: seq<State> :| |run| > 0 && run[0] == s0 && run[|run| - 1] == s && Steps(run);
    RunsAreGood(run, |run| - 1);
  }

  /** What callers rely on: a union stands for what its pair does, and a new label is nobody else's. */
  ghost predicate Right(s: State) {
    && (forall r | r in s.returned :: r.1 != 0 && Base(s.info, r.1) == Base(s.info, r.0.0) + Base(s.info, r.0.1))
    && (forall l | l in s.created :: s.created[l] == 1 && Base(s.info, l) == {l})
  }

  lemma GoodIsRight(s: State)
    requires Good(s)
    ensures Right(s)
  {
    forall r | r in s.returned ensures Base(s.info, r.1) == Base(s.info, r.0.0) + Base(s.info, r.0.1) {
      assert EntryOk(s, r.0);
    }
  }

  /** Past the marker the sixteen-bit counter wraps. A thread that draws while the one that drew the marker is still on
      its way to die gets label 0, and returns it for a union that stands for something. */
  lemma WrapReturnsZero(s0: State, s: State, u: nat, j: Pair) returns (s': State)
    requires Reaches(s0, s) && Good(s) && s.draws == INITIALIZING && u in s.threads && s.threads[u] == Drawing(j)
    ensures Reaches(s0, s') && (j, 0) in s'.returned
    ensures Base(s.info, j.0) + Base(s.info, j.1) != {} && Base(s'.info, 0) == {}
  {
    assert ThreadOk(s, s.threads[u]);
    KnownStandsForSomething(s.info, s.known, j.0);
    var s1 := Step(s, u, Create);
    Then(s0, s, u, Create, s1);
    assert s1.threads[u] == FillFirst(j, 0);
    s' := FillAndStore(s0, s1, u, j, 0);
  }

  /** A thread that has drawn a label for a pair returns it. */
  lemma FillAndStore(s0: State, s: State, u: nat, k: Pair, l: nat) returns (s': State)
    requires Reaches(s0, s) && |s.info| == NUM_LABELS && u in s.threads && s.threads[u] == FillFirst(k, l)
    requires l < NUM_LABELS && k.1 < NUM_LABELS
    ensures Reaches(s0, s') && (k, l) in s'.returned
  {
    var s1 := Step(s, u, Create);
    Then(s0, s, u, Create, s1);
    var s2 := Step(s1, u, Create);
    Then(s0, s1, u, Create, s2);
    s' := Step(s2, u, Create);
    Then(s0, s2, u, Create, s');
  }

  /** Thread `u` has created label `l`, and nothing else has happened. */
  ghost predicate JustCreated(s: State, s': State, u: nat, l: nat) {
    && |s.info| == |s'.info| == NUM_LABELS && l < NUM_LABELS && s'.info[l].l1 == s'.info[l].l2 == 0
    && s' == s.(last := l, draws := s.draws + 1, threads := s.threads[u := Idle], info := s.info[l := s'.info[l]],
                known := s.known + {l}, created := s.created + multiset{l})
  }

  /** A creation, whichever label it draws. */
  lemma CreateNext(s0: State, s: State, u: nat) returns (s': State)
    requires Reaches(s0, s) && |s.info| == NUM_LABELS && u in s.threads && s.threads[u].CreateDrawing?
    requires (s.last + 1) % NUM_LABELS != INITIALIZING
    ensures Reaches(s0, s') && JustCreated(s, s', u, (s.last + 1) % NUM_LABELS)
  {
    var s1 := Step(s, u, Create);
    Then(s0, s, u, Create, s1);
    assert s1.threads[u] == CreateFill((s.last + 1) % NUM_LABELS);
    var s2 := Step(s1, u, Create);
    Then(s0, s1, u, Create, s2);
    s' := Step(s2, u, Create);
    Then(s0, s2, u, Create, s');
    assert s'.threads == s.threads[u := Idle];
  }

  lemma CreateFromIdle(s0: State, s: State, u: nat) returns (s': State)
    requires Reaches(s0, s) && |s.info| == NUM_LABELS && u in s.threads && s.threads[u].Idle?
    requires (s.last + 1) % NUM_LABELS != INITIALIZING
    ensures Reaches(s0, s') && JustCreated(s, s', u, (s.last + 1) % NUM_LABELS)
  {
    var s1 := Step(s, u, Create);
    Then(s0, s, u, Create, s1);
    s' := CreateNext(s0, s1, u);
    assert s'.threads == s.threads[u := Idle];
  }

  /** A thread that creates a label then gets label 0, after that label 1, and so on: every label comes again, whatever it
      stood for, and stands for itself from then on. */
  lemma {:induction false} LabelsComeAgain(s0: State, s: State, u: nat, l: nat) returns (s': State)
    requires Reaches(s0, s) && Good(s) && s.draws == INITIALIZING && u in s.threads && s.threads[u].CreateDrawing?
    requires l < INITIALIZING
    ensures Reaches(s0, s') && s'.last == l && |s'.info| == NUM_LABELS && u in s'.threads && s'.threads[u].Idle?
    ensures s.created + multiset{l} <= s'.created && s.known <= s'.known && Base(s'.info, l) == if l == 0 then {} else {l}
  {
    if l == 0 {
      s' := CreateNext(s0, s, u);
    } else {
      var before := LabelsComeAgain(s0, s, u, l - 1);
      s' := CreateFromIdle(s0, before, u);
    }
  }

  /** Drawing after the marker has been drawn is not just about to break an invariant: callers get wrong labels. */
  lemma DrawingAgainGoesWrong(s0: State, s: State, u: nat) returns (s': State)
    requires Reaches(s0, s) && Good(s) && s.draws == INITIALIZING && u in s.threads
    requires s.threads[u].Drawing? || s.threads[u].CreateDrawing?
    ensures Right(s) && Reaches(s0, s') && !Right(s')
  {
    GoodIsRight(s);
    if s.threads[u].Drawing? {
      var j := s.threads[u].pair;
      s' := WrapReturnsZero(s0, s, u, j);
      assert (j, 0).1 == 0;
    } else {
      s' := LabelsComeAgain(s0, s, u, 0);
      assert 0 in s'.created;
    }
  }

  /** `n` base labels and nothing else. */
  ghost predicate Created(s0: State, s: State, n: nat) {
    && s.last == s.draws == n < INITIALIZING && |s.info| == NUM_LABELS && s.table == map[] && s.returned == {}
    && (forall l | 0 <= l <= n :: s.info[l].l1 == s.info[l].l2 == 0)
    && (forall l: nat :: l in s.known <==> l <= n) && (forall l: nat | 0 < l <= n :: l in s.created)
    && s.threads == s0.threads
  }

  lemma CreateOne(s0: State, s: State, n: nat, t: nat) returns (s': State)
    requires Reaches(s0, s) && Created(s0, s, n) && n + 1 < INITIALIZING && t in s0.threads && s0.threads[t].Idle?
    ensures Reaches(s0, s') && Created(s0, s', n + 1)
  {
    s' := CreateFromIdle(s0, s, t);
    assert s'.threads == s0.threads;
  }

  lemma {:induction false} CreateMany(s0: State, n: nat, t: nat) returns (s: State)
    requires Initial(s0) && n < INITIALIZING && t in s0.threads
    ensures Reaches(s0, s) && Created(s0, s, n)
  {
    if n == 0 {
      ReachesItself(s0);
      s := s0;
    } else {
      s := CreateMany(s0, n - 1, t);
      s := CreateOne(s0, s, n - 1, t);
    }
  }

  /** A thread gets as far as drawing a label for the union of two base labels. */
  lemma AboutToDraw(s0: State, s: State, t: nat, k: Pair) returns (s': State)
    requires Reaches(s0, s) && |s.info| == NUM_LABELS && s.last != 0 && t in s.threads && s.threads[t].Idle?
    requires 0 < k.0 < k.1 < NUM_LABELS && k.0 in s.known && k.1 in s.known && s.Entry(k) == 0
    requires s.info[k.1].l1 == s.info[k.1].l2 == 0
    ensures Reaches(s0, s')
    ensures s' == s.(table := s.table[k := INITIALIZING], threads := s.threads[t := Drawing(k)])
  {
    var s1 := Step(s, t, Union(k));
    Then(s0, s, t, Union(k), s1);
    var s2 := Step(s1, t, Create);
    Then(s0, s1, t, Create, s2);
    s' := Step(s2, t, Create);
    Then(s0, s2, t, Create, s');
    assert s'.threads == s.threads[t := Drawing(k)];
  }

  /** From the first state on: with two threads, a union comes back as label 0. */
  lemma SomeRunReturnsZero(s0: State, t: nat, u: nat) returns (s: State, j: Pair)
    requires Initial(s0) && t in s0.threads && u in s0.threads && t != u
    ensures Reaches(s0, s) && (j, 0) in s.returned && 0 < j.0 < j.1
  {
    var k := (1, 2);
    j := (1, 3);
    var s1 := CreateMany(s0, INITIALIZING - 1, t);
    var s2 := AboutToDraw(s0, s1, t, k);
    var s3 := AboutToDraw(s0, s2, u, j);
    var s4 := Step(s3, t, Create);
    Then(s0, s3, t, Create, s4);
    ReachedIsGood(s0, s4);
    s := WrapReturnsZero(s0, s4, u, j);
  }

  /** One thread draws the marker while another one is about to draw. */
  lemma MarkerDrawn(s0: State, t: nat, u: nat) returns (s: State)
    requires Initial(s0) && t in s0.threads && u in s0.threads && t != u
    ensures Reaches(s0, s) && s.draws == INITIALIZING && u in s.threads && s.threads[u].CreateDrawing?
    ensures forall l: nat | 0 < l < INITIALIZING :: l in s.created
  {
    var s1 := CreateMany(s0, INITIALIZING - 1, t);
    var s2 := Step(s1, t, Create);
    Then(s0, s1, t, Create, s2);
    var s3 := Step(s2, u, Create);
    Then(s0, s2, u, Create, s3);
    s := Step(s3, t, Create);
    Then(s0, s3, t, Create, s);
  }

  /** From the first state on: with two threads, any label is given to two callers as a new one. */
  lemma SomeRunCreatesTwice(s0: State, t: nat, u: nat, l: nat) returns (s: State)
    requires Initial(s0) && t in s0.threads && u in s0.threads && t != u && 0 < l < INITIALIZING
    ensures Reaches(s0, s) && s.created[l] >= 2 && Base(s.info, l) == {l}
  {
    var before := MarkerDrawn(s0, t, u);
    ReachedIsGood(s0, before);
    assert l in before.created;
    s := LabelsComeAgain(s0, before, u, l);
  }
}
