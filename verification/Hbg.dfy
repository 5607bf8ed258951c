/** Cache-line arithmetic of `utils.py`, with the 64-byte line of `config.py`. */
module Cachelines {

  const CACHELINE_SIZE: nat := 64

  /** `address & mask`: the mask clears the six low bits. Lines begin at multiples of their size. */
  function CachelineAddress(address: nat): (line: nat)
    ensures line % CACHELINE_SIZE == 0 && line <= address < line + CACHELINE_SIZE
  {
    address - address % CACHELINE_SIZE
  }

  function CachelineInterval(address: nat, size: nat): (nat, nat) {
    (CachelineAddress(address), CachelineAddress(address + size + CACHELINE_SIZE - 1))
  }

  /** `range(start, end, 64)` */
  function LineRange(start: nat, end: nat): (lines: seq<nat>)
    decreases end - start
  {
    if start < end then [start] + LineRange(start + CACHELINE_SIZE, end) else []
  }

  function CachelineAddresses(address: nat, size: nat): seq<nat> {
    var (start, end) := CachelineInterval(address, size);
    LineRange(start, end)
  }

  /** The bytes of an access. */
  predicate Touches(address: nat, size: nat, byte: nat) { address <= byte < address + size }

  ghost predicate ShareByte(address0: nat, size0: nat, address1: nat, size1: nat) {
    exists byte: nat :: Touches(address0, size0, byte) && Touches(address1, size1, byte)
  }

  /** The bytes `[address, address + size)` all lie in one line. */
  predicate InOneLine(address: nat, size: nat) {
    0 < size && CachelineAddress(address) == CachelineAddress(address + size - 1)
  }

  /** `get_cacheline_addresses` asserts that it finds exactly one line. It does exactly when
      all bytes of the access are in one line, and that line is the one the access starts in. */
  lemma OneLineIffContained(address: nat, size: nat)
    requires 0 < size
    ensures InOneLine(address, size) <==>
              forall byte: nat | Touches(address, size, byte) :: CachelineAddress(byte) == CachelineAddress(address)
    ensures |CachelineAddresses(address, size)| == 1 <==> InOneLine(address, size)
    ensures InOneLine(address, size) ==> CachelineAddresses(address, size) == [CachelineAddress(address)]
  {
    var start, end := CachelineAddress(address), CachelineAddress(address + size + CACHELINE_SIZE - 1);
    assert end == CachelineAddress(address + size - 1) + CACHELINE_SIZE;
    assert start < end;
    assert LineRange(start, end) == [start] + LineRange(start + CACHELINE_SIZE, end);
    if start + CACHELINE_SIZE < end {
      assert |LineRange(start + CACHELINE_SIZE, end)| >= 1;
    }
    assert Touches(address, size, address + size - 1);
    if InOneLine(address, size) {
      forall byte: nat | Touches(address, size, byte) ensures CachelineAddress(byte) == CachelineAddress(address) {
        LineOfInner(address, size, byte);
      }
    }
  }

  /** `is_interval_overlap` on half-open intervals. */
  predicate Overlap(address0: nat, size0: nat, address1: nat, size1: nat): (overlap: bool)
    ensures overlap <==> ShareByte(address0, size0, address1, size1)
  {
    var low := if address0 < address1 then address1 else address0;
    var high := if address0 + size0 < address1 + size1 then address0 + size0 else address1 + size1;
    assert low < high ==> Touches(address0, size0, low) && Touches(address1, size1, low);
    low < high
  }

  /** `is_interval_contains`: the second access is not empty and all its bytes are bytes of the first. */
  predicate Contains(address0: nat, size0: nat, address1: nat, size1: nat): (contains: bool)
    ensures contains <==> 0 < size1 && forall byte: nat | Touches(address1, size1, byte) :: Touches(address0, size0, byte)
  {
    assert 0 < size1 ==> Touches(address1, size1, address1) && Touches(address1, size1, address1 + size1 - 1);
    address0 <= address1 < address1 + size1 <= address0 + size0
  }

  lemma OverlapSharesLine(address0: nat, size0: nat, address1: nat, size1: nat)
    requires InOneLine(address0, size0) && InOneLine(address1, size1)
    ensures Overlap(address0, size0, address1, size1) ==> CachelineAddress(address0) == CachelineAddress(address1)
  {
    if Overlap(address0, size0, address1, size1) {
      var low := if address0 < address1 then address1 else address0;
      LineOfInner(address0, size0, low);
      LineOfInner(address1, size1, low);
    }
  }

  lemma LineOfInner(address: nat, size: nat, byte: nat)
    requires InOneLine(address, size) && address <= byte < address + size
    ensures CachelineAddress(byte) == CachelineAddress(address)
  {
    var line := CachelineAddress(address);
    assert line <= address && address + size - 1 < line + CACHELINE_SIZE;
    assert line % CACHELINE_SIZE == 0;
    assert byte == (line / CACHELINE_SIZE) * CACHELINE_SIZE + (byte - line);
  }
}

/** The happens-before graph of `hbg.py`: one node sequence per thread plus inter-thread edges
    between epoch nodes. A node is named by its location. */
module Hbg {
  import opened Cachelines

  datatype Node =
    | Read(pc: int, address: nat, size: nat)
    | Write(pc: int, address: nat, size: nat, nonTemporal: bool)
    | Flush(address: nat, size: nat)
    | Epoch(epoch: int)
  {
    predicate IsAccess() { Read? || Write? }

    function Line(): nat
      requires !Epoch?
    {
      CachelineAddress(address)
    }
  }

  /** `NodeLocation` */
  datatype Loc = Loc(tid: int, tindex: nat)

  datatype Graph = Graph(threads: map<int, seq<Node>>, inter: set<(Loc, Loc)>)
  {
    predicate Has(x: Loc) { x.tid in threads && x.tindex < |threads[x.tid]| }

    function At(x: Loc): Node
      requires Has(x)
    {
      threads[x.tid][x.tindex]
    }

    /** Inter-thread edges join existing epoch nodes of two different threads. */
    predicate WellFormed() {
      forall e | e in inter :: Has(e.0) && Has(e.1) && At(e.0).Epoch? && At(e.1).Epoch? && e.0.tid != e.1.tid
    }

    predicate IsAccessOf(x: Loc, line: nat) { Has(x) && At(x).IsAccess() && At(x).Line() == line }

    predicate IsFlushOf(x: Loc, line: nat) { Has(x) && At(x).Flush? && At(x).Line() == line }

    predicate IsWrite(x: Loc) { Has(x) && At(x).Write? }

    predicate IsRead(x: Loc) { Has(x) && At(x).Read? }

    predicate Edge(a: Loc, b: Loc) {
      Has(a) && Has(b) && ((a.tid == b.tid && b.tindex == a.tindex + 1) || (a, b) in inter)
    }

    /** Accesses stay inside one line; flushes are whole aligned lines. */
    predicate LineAligned() {
      forall t, i | t in threads && 0 <= i < |threads[t]| ::
        var n := threads[t][i];
        && (n.IsAccess() ==> InOneLine(n.address, n.size))
        && (n.Flush? ==> n.address % CACHELINE_SIZE == 0 && n.size == CACHELINE_SIZE)
    }

    function Nodes(): (all: set<Loc>)
      ensures forall x :: x in all <==> Has(x)
    {
      set t, i | t in threads && 0 <= i < |threads[t]| :: Loc(t, i)
    }
  }

  // ----- paths -----

  ghost predicate IsPath(g: Graph, p: seq<Loc>) {
    && |p| > 0
    && (forall i | 0 <= i < |p| :: g.Has(p[i]))
    && (forall i | 0 <= i < |p| - 1 :: g.Edge(p[i], p[i + 1]))
  }

  ghost predicate Joins(g: Graph, p: seq<Loc>, a: Loc, b: Loc) {
    IsPath(g, p) && p[0] == a && p[|p| - 1] == b
  }

  /** Happens before or equal. */
  ghost predicate HB(g: Graph, a: Loc, b: Loc) {
    exists p :: Joins(g, p, a, b)
  }

  /** `is_directed_acyclic_graph` */
  ghost predicate Acyclic(g: Graph) {
    forall a, b | g.Edge(a, b) :: !HB(g, b, a)
  }

  lemma HbRefl(g: Graph, a: Loc)
    requires g.Has(a)
    ensures HB(g, a, a)
  {
    assert Joins(g, [a], a, a);
  }

  lemma HbEdge(g: Graph, a: Loc, b: Loc)
    requires g.Edge(a, b)
    ensures HB(g, a, b)
  {
    assert Joins(g, [a, b], a, b);
  }

  lemma HbTrans(g: Graph, a: Loc, b: Loc, c: Loc)
    requires HB(g, a, b) && HB(g, b, c)
    ensures HB(g, a, c)
  {
    var p :| Joins(g, p, a, b);
    var q :| Joins(g, q, b, c);
    var r := p + q[1..];
    forall i | 0 <= i < |r| - 1 ensures g.Edge(r[i], r[i + 1]) {
      if i >= |p| - 1 {
        assert r[i] == q[i - |p| + 1] && r[i + 1] == q[i - |p| + 2];
      }
    }
    assert Joins(g, r, a, c);
  }

  lemma HbHas(g: Graph, a: Loc, b: Loc)
    requires HB(g, a, b)
    ensures g.Has(a) && g.Has(b)
  {
  }

  lemma HbLastStep(g: Graph, a: Loc, b: Loc) returns (c: Loc)
    requires HB(g, a, b) && a != b
    ensures HB(g, a, c) && g.Edge(c, b)
  {
    var p :| Joins(g, p, a, b);
    c := p[|p| - 2];
    assert Joins(g, p[..|p| - 1], a, c);
    assert g.Edge(p[|p| - 2], p[|p| - 2 + 1]);
  }

  lemma {:induction false} HbThread(g: Graph, a: Loc, b: Loc)
    requires g.Has(a) && g.Has(b) && a.tid == b.tid && a.tindex <= b.tindex
    ensures HB(g, a, b)
    decreases b.tindex - a.tindex
  {
    if a.tindex == b.tindex {
      HbRefl(g, a);
    } else {
      var c := Loc(a.tid, a.tindex + 1);
      HbEdge(g, a, c);
      HbThread(g, c, b);
      HbTrans(g, a, c, b);
    }
  }

  lemma HbAntisymmetric(g: Graph, a: Loc, b: Loc)
    requires Acyclic(g) && HB(g, a, b) && HB(g, b, a)
    ensures a == b
  {
    if a != b {
      var c := HbLastStep(g, a, b);
      HbTrans(g, b, a, c);
    }
  }

  /** Within one thread, happens-before is the order of the locations. */
  lemma HbWithinThread(g: Graph, a: Loc, b: Loc)
    requires Acyclic(g) && g.Has(a) && g.Has(b) && a.tid == b.tid
    ensures HB(g, a, b) <==> a.tindex <= b.tindex
  {
    if a.tindex <= b.tindex {
      HbThread(g, a, b);
    } else if HB(g, a, b) {
      HbThread(g, b, a);
      HbAntisymmetric(g, a, b);
    }
  }

  // ----- topological orders -----

  /** What `nx.topological_sort` promises: every node once, every edge forwards. */
  ghost predicate TopologicalOrder(g: Graph, order: seq<Loc>) {
    && (forall i, j | 0 <= i < j < |order| :: order[i] != order[j])
    && (forall x :: x in order <==> g.Has(x))
    && (forall i, j | 0 <= i < |order| && 0 <= j < |order| && g.Edge(order[i], order[j]) :: i < j)
  }

  lemma {:induction false} PathForwards(g: Graph, order: seq<Loc>, p: seq<Loc>, i: nat, j: nat)
    requires TopologicalOrder(g, order) && IsPath(g, p)
    requires i < |order| && j < |order| && order[i] == p[0] && order[j] == p[|p| - 1]
    ensures i <= j
  {
    if |p| > 1 {
      assert g.Edge(p[0], p[1]);
      assert p[1] in order;
      var k :| 0 <= k < |order| && order[k] == p[1];
      assert IsPath(g, p[1..]) by {
        forall i | 0 <= i < |p[1..]| - 1 ensures g.Edge(p[1..][i], p[1..][i + 1]) {
          assert g.Edge(p[i + 1], p[i + 2]);
        }
      }
      PathForwards(g, order, p[1..], k, j);
    }
  }

  /** A graph that has a topological order is a DAG. */
  lemma TopologicalImpliesAcyclic(g: Graph, order: seq<Loc>)
    requires TopologicalOrder(g, order)
    ensures Acyclic(g)
  {
    forall a, b | g.Edge(a, b) ensures !HB(g, b, a) {
      if HB(g, b, a) {
        var p :| Joins(g, p, b, a);
        assert a in order && b in order;
        var i :| 0 <= i < |order| && order[i] == a;
        var j :| 0 <= j < |order| && order[j] == b;
        PathForwards(g, order, p, j, i);
      }
    }
  }

  // ----- progress of a pass -----

  /** `done[t]` nodes of thread `t` have been processed. */
  type Progress = map<int, nat>

  predicate Processed(done: Progress, x: Loc) { x.tid in done && x.tindex < done[x.tid] }

  /** Only whole prefixes of threads have been processed, and no edge runs from an
      unprocessed node to a processed one. */
  ghost predicate ProgressOk(g: Graph, done: Progress) {
    && done.Keys == g.threads.Keys
    && (forall t | t in done :: done[t] <= |g.threads[t]|)
    && (forall e | e in g.inter && Processed(done, e.1) :: Processed(done, e.0))
  }

  /** All predecessors of `n` have been processed, `n` has not. */
  ghost predicate Ready(g: Graph, done: Progress, n: Loc) {
    && g.Has(n) && n.tid in done && n.tindex == done[n.tid]
    && (forall e | e in g.inter && e.1 == n :: Processed(done, e.0))
  }

  lemma ProcessedClosed(g: Graph, done: Progress, a: Loc, b: Loc)
    requires ProgressOk(g, done) && HB(g, a, b) && Processed(done, b)
    ensures Processed(done, a)
  {
    var p :| Joins(g, p, a, b);
    ProcessedClosedPath(g, done, p);
  }

  lemma {:induction false} ProcessedClosedPath(g: Graph, done: Progress, p: seq<Loc>)
    requires ProgressOk(g, done) && IsPath(g, p) && Processed(done, p[|p| - 1])
    ensures Processed(done, p[0])
    decreases |p|
  {
    if |p| > 1 {
      assert g.Edge(p[|p| - 2], p[|p| - 2 + 1]);
      assert (p[|p| - 2], p[|p| - 1]) in g.inter ==> Processed(done, (p[|p| - 2], p[|p| - 1]).0);
      ProcessedClosedPath(g, done, p[..|p| - 1]);
    }
  }

  /** The prefix of a topological order and the per-thread counts agree. */
  ghost predicate PrefixIs(g: Graph, order: seq<Loc>, i: nat, done: Progress)
    requires i <= |order|
  {
    forall x | g.Has(x) :: x in order[..i] <==> Processed(done, x)
  }

  /** The next node of a topological order is ready. */
  lemma NextIsReady(g: Graph, order: seq<Loc>, i: nat, done: Progress)
    requires g.WellFormed()
    requires TopologicalOrder(g, order) && i < |order| && ProgressOk(g, done) && PrefixIs(g, order, i, done)
    ensures Ready(g, done, order[i])
  {
    var n := order[i];
    assert n in order;
    assert n !in order[..i];
    forall m | g.Edge(m, n) ensures Processed(done, m) {
      assert m in order;
      var k :| 0 <= k < |order| && order[k] == m;
      assert g.Edge(order[k], order[i]);
      assert order[..i][k] == m;
    }
    if n.tindex > 0 {
      assert g.Edge(Loc(n.tid, n.tindex - 1), n);
    }
    forall e | e in g.inter && e.1 == n ensures Processed(done, e.0) {
      assert g.Edge(e.0, n);
    }
  }

  function Advance(done: Progress, t: int): Progress
    requires t in done
  {
    done[t := done[t] + 1]
  }

  lemma AdvanceOk(g: Graph, order: seq<Loc>, i: nat, done: Progress)
    requires g.WellFormed()
    requires TopologicalOrder(g, order) && i < |order| && ProgressOk(g, done) && PrefixIs(g, order, i, done)
    ensures Ready(g, done, order[i])
    ensures ProgressOk(g, Advance(done, order[i].tid))
    ensures PrefixIs(g, order, i + 1, Advance(done, order[i].tid))
  {
    NextIsReady(g, order, i, done);
    assert order[..i + 1] == order[..i] + [order[i]];
  }
}
