/** The shape of a graph is what its threads and edges are, whatever is read and written in between. For which shapes is
    the dirty-line filter lossless? Accesses are put in one at a time. */
module FilterShapes {
  import opened Hbg
  import opened Cachelines
  import opened DirtyInvariant
  import opened FilterRuns

  /** Where a node is once another one has been put in at `m`, and back. What is put in goes back to what it precedes. */
  function Up(m: Loc, x: Loc): Loc { if x.tid == m.tid && x.tindex >= m.tindex then Loc(x.tid, x.tindex + 1) else x }

  function Down(m: Loc, x: Loc): Loc { if x.tid == m.tid && x.tindex > m.tindex then Loc(x.tid, x.tindex - 1) else x }

  function InsertInto(nodes: seq<Node>, i: nat, node: Node): seq<Node>
    requires i <= |nodes|
  {
    nodes[..i] + [node] + nodes[i..]
  }

  /** The graph with `node` in front of the node at `m`. */
  function Insert(g: Graph, m: Loc, node: Node): Graph
    requires g.Has(m)
  {
    Graph(g.threads[m.tid := InsertInto(g.threads[m.tid], m.tindex, node)], set e | e in g.inter :: (Up(m, e.0), Up(m, e.1)))
  }

  /** An access to a line nobody touches. */
  ghost predicate Private(g: Graph, node: Node) {
    node.IsAccess() && forall y | g.Has(y) && !g.At(y).Epoch? :: g.At(y).Line() != node.Line()
  }

  lemma InsertNodes(g: Graph, m: Loc, node: Node)
    requires g.Has(m)
    ensures forall x :: Insert(g, m, node).Has(x) <==> g.Has(Down(m, x))
    ensures forall x | g.Has(Down(m, x)) :: Insert(g, m, node).At(x) == if x == m then node else g.At(Down(m, x))
  {
  }

  lemma InsertEdges(g: Graph, m: Loc, node: Node)
    requires g.Has(m)
    ensures forall a, b | (a, b) in g.inter :: (Up(m, a), Up(m, b)) in Insert(g, m, node).inter
    ensures forall a, b | (a, b) in Insert(g, m, node).inter ::
              a != m && b != m && (Down(m, a), Down(m, b)) in g.inter && a == Up(m, Down(m, a)) && b == Up(m, Down(m, b))
  {
    forall a, b | (a, b) in g.inter ensures (Up(m, a), Up(m, b)) in Insert(g, m, node).inter {
      assert (Up(m, (a, b).0), Up(m, (a, b).1)) in Insert(g, m, node).inter;
    }
    forall a, b | (a, b) in Insert(g, m, node).inter
      ensures a != m && b != m && (Down(m, a), Down(m, b)) in g.inter && a == Up(m, Down(m, a)) && b == Up(m, Down(m, b))
    {
      var e :| e in g.inter && (a, b) == (Up(m, e.0), Up(m, e.1));
      DownUp(m, e.0);
      DownUp(m, e.1);
      assert e == (e.0, e.1);
    }
  }

  lemma DownUp(m: Loc, x: Loc)
    ensures Down(m, Up(m, x)) == x && Up(m, x) != m
  {
  }

  lemma InsertIsFine(g: Graph, m: Loc, node: Node)
    requires g.WellFormed() && g.Has(m) && Private(g, node)
    ensures Insert(g, m, node).WellFormed() && Alone(Insert(g, m, node), m)
  {
    var g' := Insert(g, m, node);
    InsertNodes(g, m, node);
    InsertEdges(g, m, node);
    forall e | e in g'.inter ensures g'.Has(e.0) && g'.Has(e.1) && g'.At(e.0).Epoch? && g'.At(e.1).Epoch? && e.0.tid != e.1.tid {
      assert e == (e.0, e.1);
      var d := (Down(m, e.0), Down(m, e.1));
      assert g.Has(d.0) && g.Has(d.1) && d.0.tid != d.1.tid;
    }
    assert Down(m, m) == m;
  }

  // ----- paths -----

  lemma EdgeDown(g: Graph, m: Loc, node: Node, a: Loc, b: Loc)
    requires g.Has(m) && Insert(g, m, node).Edge(a, b)
    ensures g.Has(Down(m, a)) && g.Has(Down(m, b))
    ensures (a == m && b == Up(m, m)) || g.Edge(Down(m, a), Down(m, b))
  {
    InsertNodes(g, m, node);
    InsertEdges(g, m, node);
  }

  lemma EdgeUp(g: Graph, m: Loc, node: Node, a: Loc, b: Loc)
    requires g.Has(m) && g.Edge(a, b)
    ensures HB(Insert(g, m, node), Up(m, a), Up(m, b))
  {
    InsertNodes(g, m, node);
    InsertEdges(g, m, node);
    assert Down(m, Up(m, a)) == a && Down(m, Up(m, b)) == b;
    if (a, b) in g.inter {
      HbEdge(Insert(g, m, node), Up(m, a), Up(m, b));
    } else {
      HbThread(Insert(g, m, node), Up(m, a), Up(m, b));
    }
  }

  lemma {:induction false} PathDown(g: Graph, m: Loc, node: Node, p: seq<Loc>)
    requires g.Has(m) && IsPath(Insert(g, m, node), p)
    ensures HB(g, Down(m, p[0]), Down(m, p[|p| - 1]))
    decreases |p|
  {
    InsertNodes(g, m, node);
    HbRefl(g, Down(m, p[|p| - 1]));
    if |p| > 1 {
      var a, b := p[|p| - 2], p[|p| - 2 + 1];
      PathDown(g, m, node, p[..|p| - 1]);
      EdgeDown(g, m, node, a, b);
      if g.Edge(Down(m, a), Down(m, b)) {
        HbEdge(g, Down(m, a), Down(m, b));
        HbTrans(g, Down(m, p[0]), Down(m, a), Down(m, b));
      }
    }
  }

  lemma {:induction false} PathUp(g: Graph, m: Loc, node: Node, p: seq<Loc>)
    requires g.Has(m) && IsPath(g, p)
    ensures HB(Insert(g, m, node), Up(m, p[0]), Up(m, p[|p| - 1]))
    decreases |p|
  {
    InsertNodes(g, m, node);
    assert Down(m, Up(m, p[0])) == p[0];
    HbRefl(Insert(g, m, node), Up(m, p[0]));
    if |p| > 1 {
      var a, b := p[|p| - 2], p[|p| - 2 + 1];
      PathUp(g, m, node, p[..|p| - 1]);
      EdgeUp(g, m, node, a, b);
      HbTrans(Insert(g, m, node), Up(m, p[0]), Up(m, a), Up(m, b));
    }
  }

  /** What is put in is reached through its thread only. */
  lemma ReachedInThread(g: Graph, m: Loc, node: Node, n: Loc) returns (c: Loc)
    requires g.WellFormed() && g.Has(m) && Private(g, node) && HB(Insert(g, m, node), n, m) && n != m
    ensures m.tindex > 0 && c == Loc(m.tid, m.tindex - 1) && HB(Insert(g, m, node), n, c)
  {
    InsertEdges(g, m, node);
    c := HbLastStep(Insert(g, m, node), n, m);
    assert (c, m) !in Insert(g, m, node).inter;
  }

  lemma InsertKeepsFirstReached(g: Graph, m: Loc, node: Node)
    requires g.WellFormed() && g.Has(m) && Private(g, node) && FirstReached(g)
    ensures FirstReached(Insert(g, m, node))
  {
    var g' := Insert(g, m, node);
    InsertEdges(g, m, node);
    forall a, c, e | (a, c) in g'.inter && HB(g', a, e) && e.tid == c.tid ensures c.tindex <= e.tindex {
      var d := e;
      if e == m {
        d := ReachedInThread(g, m, node, a);
      }
      var p :| Joins(g', p, a, d);
      PathDown(g, m, node, p);
      assert Down(m, c).tindex <= Down(m, d).tindex;
    }
  }

  // ----- orders -----

  function Ups(m: Loc, q: seq<Loc>): (q': seq<Loc>)
    ensures |q'| == |q| && forall i | 0 <= i < |q| :: q'[i] == Up(m, q[i])
  {
    seq(|q|, i requires 0 <= i < |q| => Up(m, q[i]))
  }

  /** What is put in goes right in front of what it precedes, which is at `k`. */
  function InsertOrder(m: Loc, order: seq<Loc>, k: nat): (order': seq<Loc>)
    requires k < |order|
    ensures |order'| == |order| + 1
    ensures forall i | 0 <= i < |order'| :: order'[i] == if i == k then m else Up(m, order[Place(k, i)])
  {
    Ups(m, order[..k]) + [m] + Ups(m, order[k..])
  }

  function Place(k: nat, i: nat): nat { if i <= k then i else i - 1 }

  lemma InsertOrderIn(m: Loc, order: seq<Loc>, k: nat, x: Loc)
    requires k < |order| && order[k] == m
    ensures x in InsertOrder(m, order, k) ==> Down(m, x) in order
    ensures Down(m, x) in order ==> x in InsertOrder(m, order, k)
  {
    var order' := InsertOrder(m, order, k);
    if x in order' {
      var i :| 0 <= i < |order'| && order'[i] == x;
      assert order[Place(k, i)] == Down(m, x);
    }
    if Down(m, x) in order {
      var j :| 0 <= j < |order| && order[j] == Down(m, x);
      assert order'[if x == m then k else if j < k then j else j + 1] == x;
    }
  }

  lemma InsertOrderForwards(g: Graph, m: Loc, node: Node, order: seq<Loc>, k: nat, i: nat, j: nat)
    requires TopologicalOrder(g, order) && k < |order| && order[k] == m && g.Has(m)
    requires i <= |order| && j <= |order|
    requires Insert(g, m, node).Edge(InsertOrder(m, order, k)[i], InsertOrder(m, order, k)[j])
    ensures i < j
  {
    var order' := InsertOrder(m, order, k);
    EdgeDown(g, m, node, order'[i], order'[j]);
    assert Down(m, order'[i]) == order[Place(k, i)] && Down(m, order'[j]) == order[Place(k, j)];
    if order'[i] == m && order'[j] == Up(m, m) {
      assert order[Place(k, j)] == order[k];
    }
  }

  lemma InsertOrderDistinct(g: Graph, m: Loc, order: seq<Loc>, k: nat, i: nat, j: nat)
    requires TopologicalOrder(g, order) && k < |order| && order[k] == m && i < j <= |order|
    ensures InsertOrder(m, order, k)[i] != InsertOrder(m, order, k)[j]
  {
    assert Down(m, InsertOrder(m, order, k)[i]) == order[Place(k, i)];
    assert Down(m, InsertOrder(m, order, k)[j]) == order[Place(k, j)];
  }

  lemma InsertIsOrdered(g: Graph, m: Loc, node: Node, order: seq<Loc>) returns (order': seq<Loc>)
    requires TopologicalOrder(g, order) && g.Has(m)
    ensures TopologicalOrder(Insert(g, m, node), order')
  {
    assert m in order;
    var k :| 0 <= k < |order| && order[k] == m;
    order' := InsertOrder(m, order, k);
    forall x ensures x in order' <==> Insert(g, m, node).Has(x) {
      InsertOrderIn(m, order, k, x);
      InsertNodes(g, m, node);
    }
    forall i, j | 0 <= i < |order'| && 0 <= j < |order'| && Insert(g, m, node).Edge(order'[i], order'[j]) ensures i < j {
      InsertOrderForwards(g, m, node, order, k, i, j);
    }
    forall i, j | 0 <= i < j < |order'| ensures order'[i] != order'[j] {
      InsertOrderDistinct(g, m, order, k, i, j);
    }
  }

  // ----- the shapes for which the filter is lossless -----

  lemma {:induction false} LinesBelow(g: Graph, nodes: set<Loc>) returns (bound: nat)
    requires forall y | y in nodes :: g.Has(y)
    ensures forall y | y in nodes && !g.At(y).Epoch? :: g.At(y).Line() < bound
    decreases |nodes|
  {
    bound := 0;
    if nodes != {} {
      var y :| y in nodes;
      bound := LinesBelow(g, nodes - {y});
      if !g.At(y).Epoch? && g.At(y).Line() >= bound {
        bound := g.At(y).Line() + 1;
      }
    }
  }

  lemma SomePrivate(g: Graph) returns (node: Node)
    ensures Private(g, node)
  {
    var bound := LinesBelow(g, g.Nodes());
    node := Read(0, CACHELINE_SIZE * bound, 8);
    assert node.Line() == CACHELINE_SIZE * bound;
    assert forall y | g.Has(y) && !g.At(y).Epoch? :: y in g.Nodes();
  }

  /** Wherever one more access is put in, to a line of its own, every run in every order is lossless. */
  ghost predicate LosslessWhateverIsAccessed(g: Graph) {
    forall m, node, order | g.Has(m) && Private(g, node) && TopologicalOrder(Insert(g, m, node), order) ::
      AlwaysLossless(Insert(g, m, node), order)
  }

  lemma CrossingShapeLosesKnowledge(g: Graph, order: seq<Loc>, m: Loc, c: Loc, e: Loc)
    requires g.WellFormed() && TopologicalOrder(g, order)
    requires (m, c) in g.inter && HB(g, m, e) && e.tid == c.tid && e.tindex < c.tindex
    ensures !LosslessWhateverIsAccessed(g)
  {
    assert g.Has((m, c).0);
    var node := SomePrivate(g);
    var order' := InsertIsOrdered(g, m, node, order);
    InsertIsFine(g, m, node);
    InsertEdges(g, m, node);
    var p :| Joins(g, p, m, e);
    PathUp(g, m, node, p);
    CrossingLosesKnowledge(Insert(g, m, node), order', Up(m, m), Up(m, c), Up(m, e));
  }

  /** For every DAG: the filter is lossless whatever is accessed if and only if every inter-thread edge ends at the first
      node of its thread that its source reaches. */
  lemma LosslessIffFirstReached(g: Graph, order: seq<Loc>)
    requires g.WellFormed() && TopologicalOrder(g, order)
    ensures FirstReached(g) <==> LosslessWhateverIsAccessed(g)
  {
    if FirstReached(g) {
      forall m, node, order' | g.Has(m) && Private(g, node) && TopologicalOrder(Insert(g, m, node), order')
        ensures AlwaysLossless(Insert(g, m, node), order')
      {
        InsertKeepsFirstReached(g, m, node);
        FirstReachedIsLossless(Insert(g, m, node), order');
      }
    } else {
      var m, c, e := SomeCrossing(g);
      CrossingShapeLosesKnowledge(g, order, m, c, e);
    }
  }
}
