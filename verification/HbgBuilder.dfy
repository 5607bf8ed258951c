/** What the chains of a built graph contain. */
module ChainContents {
  import opened Hbg
  import opened DaisyChainSpec

  /** Reads and writes of `line` in a thread's nodes, in order. */
  ghost function AccessesOf(nodes: seq<Node>, t: int, line: nat): seq<Added> {
    if nodes == [] then []
    else
      var n := nodes[|nodes| - 1];
      AccessesOf(nodes[..|nodes| - 1], t, line)
      + if n.IsAccess() && n.Line() == line then [Added(Loc(t, |nodes| - 1), n.Write?)] else []
  }

  lemma {:induction false} AccessesAre(nodes: seq<Node>, t: int, line: nat, i: nat)
    requires i < |AccessesOf(nodes, t, line)|
    ensures var a := AccessesOf(nodes, t, line)[i];
            && a.node.tid == t && a.node.tindex < |nodes|
            && nodes[a.node.tindex].IsAccess() && nodes[a.node.tindex].Line() == line
            && a.isWrite == nodes[a.node.tindex].Write?
    decreases |nodes|
  {
    if i < |AccessesOf(nodes[..|nodes| - 1], t, line)| {
      AccessesAre(nodes[..|nodes| - 1], t, line, i);
    }
  }

  lemma {:induction false} AccessesAscend(nodes: seq<Node>, t: int, line: nat, i: nat, j: nat)
    requires i < j < |AccessesOf(nodes, t, line)|
    ensures AccessesOf(nodes, t, line)[i].node.tindex < AccessesOf(nodes, t, line)[j].node.tindex
    decreases |nodes|
  {
    var before := nodes[..|nodes| - 1];
    AccessesAre(before, t, line, i);
    if j < |AccessesOf(before, t, line)| {
      AccessesAscend(before, t, line, i, j);
    }
  }

  lemma {:induction false} AccessesHave(nodes: seq<Node>, t: int, line: nat, k: nat) returns (i: nat)
    requires k < |nodes| && nodes[k].IsAccess() && nodes[k].Line() == line
    ensures i < |AccessesOf(nodes, t, line)| && AccessesOf(nodes, t, line)[i] == Added(Loc(t, k), nodes[k].Write?)
    decreases |nodes|
  {
    if k == |nodes| - 1 {
      i := |AccessesOf(nodes, t, line)| - 1;
    } else {
      i := AccessesHave(nodes[..|nodes| - 1], t, line, k);
    }
  }

  ghost predicate Ascending(ws: seq<Loc>) { forall i, j | 0 <= i < j < |ws| :: ws[i].tindex < ws[j].tindex }

  ghost predicate AscendingNodes(a: seq<Added>) { forall i, j | 0 <= i < j < |a| :: a[i].node.tindex < a[j].node.tindex }

  /** `w` is a write at or after position `i`. */
  ghost predicate WriteAtOrAfter(a: seq<Added>, i: nat, w: Loc) {
    exists k :: i <= k < |a| && a[k].isWrite && a[k].node == w
  }

  lemma WriteHere(a: seq<Added>, i: nat, w: Loc)
    requires i < |a|
    ensures WriteAtOrAfter(a, i, w) <==> WriteAtOrAfter(a, i + 1, w) || (a[i].isWrite && a[i].node == w)
  {
  }

  lemma {:induction false} WritesFromAre(a: seq<Added>, i: nat)
    requires AscendingNodes(a) && i <= |a|
    ensures Ascending(WritesFrom(a, i))
    ensures forall w :: w in WritesFrom(a, i) <==> WriteAtOrAfter(a, i, w)
    decreases |a| - i
  {
    if i < |a| {
      WritesFromAre(a, i + 1);
      var rest := WritesFrom(a, i + 1);
      forall w ensures w in WritesFrom(a, i) <==> WriteAtOrAfter(a, i, w) {
        WriteHere(a, i, w);
        assert WritesFrom(a, i) == (if a[i].isWrite then [a[i].node] else []) + rest;
      }
      forall w | w in rest ensures a[i].node.tindex < w.tindex {
        assert WriteAtOrAfter(a, i + 1, w);
      }
    }
  }

  lemma PositionFromIndex(a: seq<Added>, i: nat, k: nat)
    requires AscendingNodes(a) && i < |a| && k < |a| && a[i].node.tindex <= a[k].node.tindex
    ensures i <= k
  {
  }

  /** The writes of `line` in thread `t` that are at or after `from`, listed in the order of the thread. */
  ghost predicate ListsWrites(g: Graph, ws: seq<Loc>, t: int, line: nat, from: nat) {
    && Ascending(ws)
    && forall w :: w in ws <==> g.IsWrite(w) && w.tid == t && g.At(w).Line() == line && from <= w.tindex
  }

  /** The start point of a chain loses no later write, and without one the chain has them all. */
  lemma ChainListsWrites(g: Graph, t: int, line: nat, i: nat, from: nat)
    requires t in g.threads
    requires var a := AccessesOf(g.threads[t], t, line);
             if i < |a| then (if i == 0 then from == 0 || a[i].node.tindex == from else a[i].node.tindex == from)
             else i == 0 && from == 0
    ensures ListsWrites(g, WritesFrom(AccessesOf(g.threads[t], t, line), i), t, line, from)
  {
    var a := AccessesOf(g.threads[t], t, line);
    forall j, k | 0 <= j < k < |a| ensures a[j].node.tindex < a[k].node.tindex {
      AccessesAscend(g.threads[t], t, line, j, k);
    }
    assert i <= |a|;
    WritesFromAre(a, i);
    var ws := WritesFrom(a, i);
    forall w ensures w in ws <==> g.IsWrite(w) && w.tid == t && g.At(w).Line() == line && from <= w.tindex {
      if w in ws {
        var k :| i <= k < |a| && a[k].isWrite && a[k].node == w;
        AccessesAre(g.threads[t], t, line, k);
      }
      if g.IsWrite(w) && w.tid == t && g.At(w).Line() == line && from <= w.tindex {
        var k := AccessesHave(g.threads[t], t, line, w.tindex);
        assert a[k].node == w;
        if i < |a| {
          PositionFromIndex(a, i, k);
        }
      }
    }
  }
}

/** `DaisyChains` and `HBGBuilder.build` of `hbg.py`. */
module HbgBuilding {
  import opened Hbg
  import opened DaisyChainSpec
  import opened Wrappers
  import opened ChainContents

  lemma AccessesAppend(before: seq<Node>, t: int, n: Node, line: nat)
    ensures AccessesOf(before + [n], t, line) == AccessesOf(before, t, line) + Mention(Loc(t, |before|), n, line)
  {
    assert (before + [n])[..|before|] == before;
  }

  /** What adding node `n` at `x` appends to the chain of `line`. */
  function Mention(x: Loc, n: Node, line: nat): seq<Added> {
    if n.IsAccess() && n.Line() == line then [Added(x, n.Write?)] else []
  }

  ghost function Recorded(contents: map<(nat, int), seq<Added>>, line: nat, t: int): seq<Added> {
    if (line, t) in contents then contents[(line, t)] else []
  }

  lemma RecordOne(contents: map<(nat, int), seq<Added>>, x: Loc, n: Node)
    requires n.IsAccess()
    ensures var contents' := contents[(n.Line(), x.tid) := Recorded(contents, n.Line(), x.tid) + [Added(x, n.Write?)]];
            forall l, u :: Recorded(contents', l, u) == Recorded(contents, l, u) + if u == x.tid then Mention(x, n, l) else []
  {
  }

  class DaisyChains {
    var chains: map<(nat, int), DaisyChain>
    ghost var contents: map<(nat, int), seq<Added>>

    ghost var Repr: set<DaisyChain>

    ghost predicate Valid()
      reads this, Repr
    {
      && contents.Keys == chains.Keys
      && (forall k | k in chains :: chains[k] in Repr && chains[k].Valid() && chains[k].added == contents[k])
      && (forall k, l | k in chains && l in chains && k != l :: chains[k] != chains[l])
    }

    /** What has been added for a line and thread; an absent chain is an empty one. */
    ghost function Contents(line: nat, t: int): seq<Added>
      reads this`contents
    {
      Recorded(contents, line, t)
    }

    constructor ()
      ensures Valid() && Repr == {} && forall line, t :: Contents(line, t) == []
    {
      chains, contents, Repr := map[], map[], {};
    }

    /** Indexing the nested default dictionaries creates an empty chain. */
    method Chain(line: nat, t: int) returns (c: DaisyChain)
      requires Valid()
      modifies this
      ensures Valid() && fresh(Repr - old(Repr))
      ensures (line, t) in chains && c == chains[(line, t)]
      ensures forall l, u :: Contents(l, u) == old(Contents(l, u))
    {
      if (line, t) !in chains {
        NewChain(line, t);
      }
      c := chains[(line, t)];
    }

    method NewChain(line: nat, t: int)
      requires Valid() && (line, t) !in chains
      modifies this
      ensures Valid() && fresh(Repr - old(Repr)) && (line, t) in chains
      ensures contents == old(contents)[(line, t) := []]
    {
      var empty := new DaisyChain();
      chains := chains[(line, t) := empty];
      contents := contents[(line, t) := []];
      Repr := Repr + {empty};
    }

    method AddNode(x: Loc, n: Node)
      requires Valid() && n.IsAccess()
      requires forall i | 0 <= i < |Contents(n.Line(), x.tid)| :: Contents(n.Line(), x.tid)[i].node != x
      modifies this, Repr
      ensures Valid() && fresh(Repr - old(Repr))
      ensures forall l, u :: Contents(l, u) == old(Contents(l, u)) + if u == x.tid then Mention(x, n, l) else []
    {
      var c := Chain(n.Line(), x.tid);
      assert forall i | 0 <= i < |c.added| :: c.added[i].node != x by {
        assert c.added == Contents(n.Line(), x.tid);
      }
      AddTo(c, x, n);
    }

    static method AddByType(c: DaisyChain, x: Loc, n: Node)
      requires c.Valid() && n.IsAccess() && forall i | 0 <= i < |c.added| :: c.added[i].node != x
      modifies c
      ensures c.Valid() && c.added == old(c.added) + [Added(x, n.Write?)]
    {
      LinksHas(c.added, x);
      if n.Write? {
        c.AddWriteNode(x);
      } else {
        c.AddReadNode(x);
      }
    }

    method AddTo(c: DaisyChain, x: Loc, n: Node)
      requires Valid() && n.IsAccess() && (n.Line(), x.tid) in chains && c == chains[(n.Line(), x.tid)]
      requires forall i | 0 <= i < |c.added| :: c.added[i].node != x
      modifies this`contents, c
      ensures Valid() && Repr == old(Repr)
      ensures forall l, u :: Contents(l, u) == old(Contents(l, u)) + if u == x.tid then Mention(x, n, l) else []
    {
      AddByType(c, x, n);
      forall k | k in chains && k != (n.Line(), x.tid) ensures chains[k].Valid() && chains[k].added == contents[k] {
        assert chains[k] != c;
      }
      RecordOne(contents, x, n);
      contents := contents[(n.Line(), x.tid) := c.added];
    }

    /** `get_chain_by_node`: from the given read or write on; `None` stands for `IndexError`. */
    method GetChainByNode(x: Loc, line: nat) returns (r: Option<seq<Loc>>)
      requires Valid()
      modifies this
      ensures Valid() && fresh(Repr - old(Repr))
      ensures forall l, u :: Contents(l, u) == old(Contents(l, u))
      ensures r.Some? <==> exists i :: 0 <= i < |Contents(line, x.tid)| && Contents(line, x.tid)[i].node == x
      ensures forall i | 0 <= i < |Contents(line, x.tid)| && Contents(line, x.tid)[i].node == x ::
                r == Some(WritesFrom(Contents(line, x.tid), i))
    {
      var c := Chain(line, x.tid);
      assert c.added == Contents(line, x.tid);
      r := c.GetChain(Some(x));
    }

    method GetChainByThread(t: int, line: nat) returns (r: seq<Loc>)
      requires Valid()
      modifies this
      ensures Valid() && fresh(Repr - old(Repr))
      ensures forall l, u :: Contents(l, u) == old(Contents(l, u))
      ensures r == WritesFrom(Contents(line, t), 0)
    {
      var c := Chain(line, t);
      var found := c.GetChain(None);
      r := found.value;
    }
  }

  /** The chains hold exactly the reads and writes of the graph. */
  ghost predicate ChainsMatch(threads: map<int, seq<Node>>, chains: DaisyChains)
    reads chains
  {
    forall line, t :: chains.Contents(line, t) == if t in threads then AccessesOf(threads[t], t, line) else []
  }

  /** One thread's part of a trace. */
  function ThreadOf(trace: seq<(int, Node)>, t: int): seq<Node> {
    if trace == [] then []
    else
      ThreadOf(trace[..|trace| - 1], t)
      + if trace[|trace| - 1].0 == t then [trace[|trace| - 1].1] else []
  }

  function Tids(trace: seq<(int, Node)>): set<int> { set i | 0 <= i < |trace| :: trace[i].0 }

  /** `nodes_location` of the `i`-th node of a trace. */
  function LocationOf(trace: seq<(int, Node)>, i: nat): Loc
    requires i < |trace|
  {
    Loc(trace[i].0, |ThreadOf(trace[..i], trace[i].0)|)
  }

  lemma {:induction false} ThreadOfPrefix(trace: seq<(int, Node)>, i: nat, t: int)
    requires i <= |trace|
    ensures ThreadOf(trace[..i], t) <= ThreadOf(trace, t)
    decreases |trace|
  {
    if i < |trace| {
      assert trace[..|trace| - 1][..i] == trace[..i];
      ThreadOfPrefix(trace[..|trace| - 1], i, t);
    } else {
      assert trace[..i] == trace;
    }
  }

  /** Looking a node up by its location gives the node back, and no two nodes share a location. */
  lemma LocationRoundTrip(trace: seq<(int, Node)>, i: nat)
    requires i < |trace|
    ensures var x := LocationOf(trace, i);
            x.tindex < |ThreadOf(trace, x.tid)| && ThreadOf(trace, x.tid)[x.tindex] == trace[i].1
    ensures forall j | i < j < |trace| :: LocationOf(trace, j) != LocationOf(trace, i)
  {
    var x := LocationOf(trace, i);
    assert trace[..i + 1][..i] == trace[..i];
    ThreadOfPrefix(trace, i + 1, x.tid);
    forall j | i < j < |trace| && trace[j].0 == x.tid ensures LocationOf(trace, j) != x {
      assert trace[..j][..i + 1] == trace[..i + 1];
      ThreadOfPrefix(trace[..j], i + 1, x.tid);
    }
  }

  /** Every recorded location is that of the epoch node it is recorded for. */
  ghost predicate EpochsOk(locations: map<(int, int), Loc>, nodes: map<int, seq<Node>>) {
    forall k | k in locations :: EpochAt(locations[k], k, nodes)
  }

  ghost predicate EpochAt(x: Loc, k: (int, int), nodes: map<int, seq<Node>>) {
    x.tid == k.0 && x.tid in nodes && x.tindex < |nodes[x.tid]| && nodes[x.tid][x.tindex] == Epoch(k.1)
  }

  lemma EpochsAppend(locations: map<(int, int), Loc>, nodes: map<int, seq<Node>>, t: int, before: seq<Node>, n: Node)
    requires EpochsOk(locations, nodes) && before == if t in nodes then nodes[t] else []
    ensures var nodes' := nodes[t := before + [n]];
            && EpochsOk(locations, nodes')
            && (n.Epoch? ==> EpochsOk(locations[(t, n.epoch) := Loc(t, |before|)], nodes'))
  {
    var nodes' := nodes[t := before + [n]];
    forall k | k in locations ensures EpochAt(locations[k], k, nodes') {
      assert EpochAt(locations[k], k, nodes);
    }
  }

  class HBGBuilder {
    var nodesByThread: map<int, seq<Node>>
    var epochLocation: map<(int, int), Loc>
    var daisyChains: DaisyChains

    ghost predicate Valid()
      reads this, daisyChains, daisyChains.Repr
    {
      && daisyChains.Valid()
      && ChainsMatch(nodesByThread, daisyChains)
      && EpochsOk(epochLocation, nodesByThread)
    }

    constructor ()
      ensures Valid() && fresh(daisyChains) && fresh(daisyChains.Repr) && nodesByThread == map[] && epochLocation == map[]
    {
      nodesByThread, epochLocation := map[], map[];
      daisyChains := new DaisyChains();
    }

    /** `_add_node` followed by `daisy_chains.add_node`. */
    method AddNode(t: int, n: Node)
      requires Valid()
      modifies this, daisyChains, daisyChains.Repr
      ensures Valid() && daisyChains == old(daisyChains) && fresh(daisyChains.Repr - old(daisyChains.Repr))
      ensures forall u :: NodesOf(u) == old(NodesOf(u)) + if u == t then [n] else []
      ensures nodesByThread.Keys == old(nodesByThread.Keys) + {t}
      ensures epochLocation.Keys == old(epochLocation.Keys) + if n.Epoch? then {(t, n.epoch)} else {}
    {
      var before := NodesOf(t);
      var x := Loc(t, |before|);
      EpochsAppend(epochLocation, nodesByThread, t, before, n);
      nodesByThread := nodesByThread[t := before + [n]];
      if n.Epoch? {
        epochLocation := epochLocation[(t, n.epoch) := x];
      }
      AddToChains(t, n, before);
    }

    function NodesOf(t: int): seq<Node>
      reads this`nodesByThread
    {
      if t in nodesByThread then nodesByThread[t] else []
    }

    method AddToChains(t: int, n: Node, ghost before: seq<Node>)
      requires daisyChains.Valid() && nodesByThread == nodesByThread[t := before + [n]]
      requires forall line, u :: daisyChains.Contents(line, u) == if u == t then AccessesOf(before, t, line) else
                 if u in nodesByThread then AccessesOf(nodesByThread[u], u, line) else []
      modifies daisyChains, daisyChains.Repr
      ensures daisyChains.Valid() && ChainsMatch(nodesByThread, daisyChains)
      ensures fresh(daisyChains.Repr - old(daisyChains.Repr))
    {
      forall line ensures AccessesOf(before + [n], t, line) ==
          AccessesOf(before, t, line) + Mention(Loc(t, |before|), n, line)
      {
        AccessesAppend(before, t, n, line);
      }
      if n.IsAccess() {
        forall i | 0 <= i < |daisyChains.Contents(n.Line(), t)|
          ensures daisyChains.Contents(n.Line(), t)[i].node != Loc(t, |before|)
        {
          AccessesAre(before, t, n.Line(), i);
        }
        daisyChains.AddNode(Loc(t, |nodesByThread[t]| - 1), n);
      }
    }
  }

  ghost predicate Names(g: Graph, epoch: (int, int), x: Loc) {
    g.Has(x) && x.tid == epoch.0 && g.At(x) == Epoch(epoch.1)
  }

  ghost predicate InTrace(trace: seq<(int, Node)>, epoch: (int, int)) {
    (epoch.0, Epoch(epoch.1)) in trace
  }

  ghost predicate NamesEdge(g: Graph, e: ((int, int), (int, int)), f: (Loc, Loc)) { Names(g, e.0, f.0) && Names(g, e.1, f.1) }

  ghost predicate IsJoined(g: Graph, e: ((int, int), (int, int))) { exists f :: f in g.inter && NamesEdge(g, e, f) }

  ghost predicate IsNamed(g: Graph, edges: set<((int, int), (int, int))>, f: (Loc, Loc)) {
    exists e :: e in edges && NamesEdge(g, e, f)
  }

  /** Every epoch occurs once, and edges join epochs of two different threads. */
  ghost predicate TraceOk(trace: seq<(int, Node)>, edges: set<((int, int), (int, int))>) {
    && (forall i, j | 0 <= i < j < |trace| && trace[i].1.Epoch? :: trace[i] != trace[j])
    && (forall e | e in edges :: e.0.0 != e.1.0 && InTrace(trace, e.0) && InTrace(trace, e.1))
  }

  /** The graph of a trace: the threads' nodes in the order of the trace, and the edges between the named epoch nodes. */
  ghost predicate IsGraphOf(trace: seq<(int, Node)>, edges: set<((int, int), (int, int))>, g: Graph) {
    && g.threads.Keys == Tids(trace) && (forall t | t in g.threads :: g.threads[t] == ThreadOf(trace, t))
    && (forall e | e in edges :: IsJoined(g, e))
    && (forall f | f in g.inter :: IsNamed(g, edges, f))
  }

  /** A node of a thread is somewhere in the trace, and later nodes are later there. */
  lemma {:induction false} NodeInTrace(trace: seq<(int, Node)>, t: int, k: nat) returns (i: nat)
    requires k < |ThreadOf(trace, t)|
    ensures i < |trace| && trace[i] == (t, ThreadOf(trace, t)[k]) && |ThreadOf(trace[..i], t)| == k
    decreases |trace|
  {
    var before := trace[..|trace| - 1];
    if k < |ThreadOf(before, t)| {
      i := NodeInTrace(before, t, k);
      assert before[..i] == trace[..i];
    } else {
      i := |trace| - 1;
    }
  }

  lemma EpochOnce(trace: seq<(int, Node)>, edges: set<((int, int), (int, int))>, g: Graph, epoch: (int, int), x: Loc, y: Loc)
    requires TraceOk(trace, edges) && IsGraphOf(trace, edges, g) && Names(g, epoch, x) && Names(g, epoch, y)
    ensures x == y
  {
    var i := NodeInTrace(trace, x.tid, x.tindex);
    var j := NodeInTrace(trace, y.tid, y.tindex);
  }

  lemma EdgeOnce(trace: seq<(int, Node)>, edges: set<((int, int), (int, int))>, g: Graph, e: ((int, int), (int, int)),
                 f: (Loc, Loc), f': (Loc, Loc))
    requires TraceOk(trace, edges) && IsGraphOf(trace, edges, g) && NamesEdge(g, e, f) && NamesEdge(g, e, f')
    ensures f == f'
  {
    EpochOnce(trace, edges, g, e.0, f.0, f'.0);
    EpochOnce(trace, edges, g, e.1, f.1, f'.1);
  }

  lemma SameThreads(trace: seq<(int, Node)>, edges: set<((int, int), (int, int))>, g: Graph, h: Graph)
    requires IsGraphOf(trace, edges, g) && IsGraphOf(trace, edges, h)
    ensures g.threads == h.threads
  {
    forall t | t in g.threads ensures g.threads[t] == h.threads[t] {
    }
  }

  lemma GraphHas(trace: seq<(int, Node)>, edges: set<((int, int), (int, int))>, g: Graph, h: Graph, f: (Loc, Loc))
    requires TraceOk(trace, edges) && IsGraphOf(trace, edges, g) && IsGraphOf(trace, edges, h) && f in g.inter
    ensures f in h.inter
  {
    SameThreads(trace, edges, g, h);
    assert IsNamed(g, edges, f);
    var e :| e in edges && NamesEdge(g, e, f);
    assert IsJoined(h, e);
    var f' :| f' in h.inter && NamesEdge(h, e, f');
    EdgeOnce(trace, edges, h, e, f, f');
  }

  /** A trace has one graph. */
  lemma GraphIsUnique(trace: seq<(int, Node)>, edges: set<((int, int), (int, int))>, g: Graph, h: Graph)
    requires TraceOk(trace, edges) && IsGraphOf(trace, edges, g) && IsGraphOf(trace, edges, h)
    ensures g == h
  {
    SameThreads(trace, edges, g, h);
    forall f ensures f in g.inter <==> f in h.inter {
      if f in g.inter {
        GraphHas(trace, edges, g, h, f);
      }
      if f in h.inter {
        GraphHas(trace, edges, h, g, f);
      }
    }
  }

  /** `HBGBuilder.build`: nodes in trace order, then the inter-thread edges. */
  method Build(trace: seq<(int, Node)>, edges: set<((int, int), (int, int))>) returns (g: Graph, chains: DaisyChains)
    requires TraceOk(trace, edges)
    ensures g.WellFormed() && IsGraphOf(trace, edges, g)
    ensures fresh(chains) && fresh(chains.Repr) && chains.Valid() && ChainsMatch(g.threads, chains)
  {
    var b := AddTrace(trace);
    chains := b.daisyChains;
    g := ResolveEdges(b.nodesByThread, b.epochLocation, edges);
    assert forall t | t in g.threads :: b.NodesOf(t) == g.threads[t];
  }

  /** The edges are given by the names of their epochs. */
  method ResolveEdges(nodes: map<int, seq<Node>>, locations: map<(int, int), Loc>, edges: set<((int, int), (int, int))>)
    returns (g: Graph)
    requires EpochsOk(locations, nodes)
    requires forall e | e in edges :: e.0.0 != e.1.0 && e.0 in locations && e.1 in locations
    ensures g.threads == nodes && g.WellFormed()
    ensures forall e | e in edges :: IsJoined(g, e)
    ensures forall f | f in g.inter :: IsNamed(g, edges, f)
  {
    g := Graph(nodes, set e | e in edges :: (locations[e.0], locations[e.1]));
    ResolvedEdges(g, locations, edges);
  }

  lemma TraceStep(trace: seq<(int, Node)>, i: nat)
    requires i < |trace|
    ensures forall t :: ThreadOf(trace[..i + 1], t) ==
              ThreadOf(trace[..i], t) + if trace[i].0 == t then [trace[i].1] else []
    ensures forall epoch :: InTrace(trace[..i + 1], epoch) <==>
              InTrace(trace[..i], epoch) || (epoch.0 == trace[i].0 && Epoch(epoch.1) == trace[i].1)
    ensures Tids(trace[..i + 1]) == Tids(trace[..i]) + {trace[i].0}
  {
    assert trace[..i + 1][..i] == trace[..i];
    assert trace[..i + 1] == trace[..i] + [trace[i]];
  }

  method AddTrace(trace: seq<(int, Node)>) returns (b: HBGBuilder)
    ensures b.Valid() && fresh(b) && fresh(b.daisyChains) && fresh(b.daisyChains.Repr)
    ensures forall t :: ThreadOf(trace, t) == b.NodesOf(t)
    ensures b.nodesByThread.Keys == Tids(trace)
    ensures forall epoch | InTrace(trace, epoch) :: epoch in b.epochLocation
  {
    b := new HBGBuilder();
    for i := 0 to |trace|
      invariant b.Valid() && fresh(b.daisyChains) && fresh(b.daisyChains.Repr)
      invariant forall t :: ThreadOf(trace[..i], t) == b.NodesOf(t)
      invariant b.nodesByThread.Keys == Tids(trace[..i])
      invariant forall epoch | InTrace(trace[..i], epoch) :: epoch in b.epochLocation
    {
      TraceStep(trace, i);
      b.AddNode(trace[i].0, trace[i].1);
    }
    assert trace[..|trace|] == trace;
  }

  lemma ResolvedEdges(g: Graph, locations: map<(int, int), Loc>, edges: set<((int, int), (int, int))>)
    requires forall e | e in edges :: e.0.0 != e.1.0 && e.0 in locations && e.1 in locations
    requires EpochsOk(locations, g.threads)
    requires g.inter == set e | e in edges :: (locations[e.0], locations[e.1])
    ensures g.WellFormed()
    ensures forall e | e in edges :: IsJoined(g, e)
    ensures forall f | f in g.inter :: IsNamed(g, edges, f)
  {
    forall epoch | epoch in locations ensures Names(g, epoch, locations[epoch]) {
      assert EpochAt(locations[epoch], epoch, g.threads);
    }
    forall e | e in edges ensures IsJoined(g, e) {
      assert (locations[e.0], locations[e.1]) in g.inter && NamesEdge(g, e, (locations[e.0], locations[e.1]));
    }
    forall f | f in g.inter ensures IsNamed(g, edges, f) {
      var e :| e in edges && f == (locations[e.0], locations[e.1]);
      assert NamesEdge(g, e, f);
    }
  }
}
