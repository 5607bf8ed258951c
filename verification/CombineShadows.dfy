/** The instrumentation pass: shadow values it emits, and the labels they denote when the program runs. */
module ShadowSpec {

  /** Shadows of scalars are primitive; with field tracking those of arrays and structs have one part per element. */
  datatype Shape = Primitive | Aggregate(parts: seq<Shape>)

  /** What a shadow denotes, part by part: sets of labels. */
  datatype Labels = Leaf(labels: set<nat>) | Parts(parts: seq<Labels>)

  predicate HasShape(d: Labels, s: Shape)
    decreases s
  {
    match s
    case Primitive => d.Leaf?
    case Aggregate(ss) => d.Parts? && |d.parts| == |ss| && forall i | 0 <= i < |ss| :: HasShape(d.parts[i], ss[i])
  }

  /** All labels of a shadow. */
  function Flatten(d: Labels): set<nat>
    decreases d
  {
    match d
    case Leaf(labels) => labels
    case Parts(ds) => FlattenFirst(ds, |ds|)
  }

  function FlattenFirst(ds: seq<Labels>, n: nat): set<nat>
    requires n <= |ds|
    decreases ds, n
  {
    if n == 0 then {} else FlattenFirst(ds, n - 1) + Flatten(ds[n - 1])
  }

  // ----- expansion -----

  /** The same labels in every part. */
  function Expanded(s: Shape, labels: set<nat>): Labels
    decreases s
  {
    match s
    case Primitive => Leaf(labels)
    case Aggregate(ss) => Parts(seq(|ss|, i requires 0 <= i < |ss| => Expanded(ss[i], labels)))
  }

  /** Somewhere a shadow of the shape has labels: empty structs and arrays do not. */
  predicate HasLeaf(s: Shape)
    decreases s
  {
    match s
    case Primitive => true
    case Aggregate(ss) => exists i | 0 <= i < |ss| :: HasLeaf(ss[i])
  }

  lemma {:induction false} ExpandedHasShape(s: Shape, labels: set<nat>)
    ensures HasShape(Expanded(s, labels), s)
    decreases s
  {
    if s.Aggregate? {
      forall i | 0 <= i < |s.parts| ensures HasShape(Expanded(s, labels).parts[i], s.parts[i]) {
        ExpandedHasShape(s.parts[i], labels);
      }
    }
  }

  ghost predicate HasLeafBefore(ss: seq<Shape>, n: nat)
    requires n <= |ss|
  {
    exists i | 0 <= i < n :: HasLeaf(ss[i])
  }

  /** Expanding and collapsing again gives the labels back, unless there is nowhere to keep them. */
  lemma {:induction false} ExpandedFlatten(s: Shape, labels: set<nat>)
    ensures Flatten(Expanded(s, labels)) == if HasLeaf(s) then labels else {}
    decreases s, if s.Aggregate? then |s.parts| + 1 else 0
  {
    if s.Aggregate? {
      ExpandedFlattenFirst(s, labels, |s.parts|);
      assert HasLeaf(s) <==> HasLeafBefore(s.parts, |s.parts|);
    }
  }

  lemma {:induction false} ExpandedFlattenFirst(s: Shape, labels: set<nat>, n: nat)
    requires s.Aggregate? && n <= |s.parts|
    ensures FlattenFirst(Expanded(s, labels).parts, n) == if HasLeafBefore(s.parts, n) then labels else {}
    decreases s, n
  {
    if n > 0 {
      ExpandedFlattenFirst(s, labels, n - 1);
      ExpandedFlatten(s.parts[n - 1], labels);
      assert HasLeafBefore(s.parts, n) <==> HasLeafBefore(s.parts, n - 1) || HasLeaf(s.parts[n - 1]);
    }
  }

  /** The part that some indices lead to. */
  predicate Leads(d: Labels, path: seq<nat>)
    decreases path
  {
    path == [] || (d.Parts? && path[0] < |d.parts| && Leads(d.parts[path[0]], path[1..]))
  }

  function PartAt(d: Labels, path: seq<nat>): Labels
    requires Leads(d, path)
    decreases path
  {
    if path == [] then d else PartAt(d.parts[path[0]], path[1..])
  }

  /** `insertvalue` */
  function Put(d: Labels, path: seq<nat>, e: Labels): Labels
    requires Leads(d, path)
    decreases path
  {
    if path == [] then e else Parts(d.parts[path[0] := Put(d.parts[path[0]], path[1..], e)])
  }

  lemma {:induction false} PutThere(d: Labels, path: seq<nat>, e: Labels)
    requires Leads(d, path)
    ensures Put(d, path, PartAt(d, path)) == d
    ensures Leads(Put(d, path, e), path) && PartAt(Put(d, path, e), path) == e
    decreases path
  {
    if path != [] {
      PutThere(d.parts[path[0]], path[1..], e);
    }
  }

  /** Putting something into a part that has been put in. */
  lemma {:induction false} PutInto(d: Labels, path: seq<nat>, e: Labels, k: nat, x: Labels)
    requires Leads(d, path) && e.Parts? && k < |e.parts|
    ensures Leads(Put(d, path, e), path + [k]) && PartAt(Put(d, path, e), path + [k]) == e.parts[k]
    ensures Put(Put(d, path, e), path + [k], x) == Put(d, path, Parts(e.parts[k := x]))
    decreases path
  {
    if path == [] {
      assert (path + [k])[1..] == [];
    } else {
      assert (path + [k])[1..] == path[1..] + [k];
      PutInto(d.parts[path[0]], path[1..], e, k, x);
    }
  }

  lemma {:induction false} PutKeepsShape(d: Labels, s: Shape, path: seq<nat>, sub: Shape, e: Labels)
    requires HasShape(d, s) && Leads(d, path) && HasShape(PartAt(d, path), sub) && HasShape(e, sub)
    ensures HasShape(Put(d, path, e), s)
    decreases path
  {
    if path == [] {
      SameShape(d, s, sub, e);
    } else {
      PutKeepsShape(d.parts[path[0]], s.parts[path[0]], path[1..], sub, e);
    }
  }

  /** A shadow determines its shape. */
  lemma {:induction false} SameShape(d: Labels, s: Shape, sub: Shape, e: Labels)
    requires HasShape(d, s) && HasShape(d, sub)
    ensures s == sub
    decreases s
  {
    if s.Aggregate? {
      forall i | 0 <= i < |s.parts| ensures s.parts[i] == sub.parts[i] {
        SameShape(d.parts[i], s.parts[i], sub.parts[i], e);
      }
    }
  }

  /** The first `n` elements expanded, the others as they are. */
  function Mixed(ss: seq<Shape>, ds: seq<Labels>, labels: set<nat>, n: nat): seq<Labels>
    requires n <= |ss| == |ds|
  {
    seq(|ds|, i requires 0 <= i < |ds| => if i < n then Expanded(ss[i], labels) else ds[i])
  }

  /** `d'` is `d` with the first `n` elements at `path` expanded. */
  ghost predicate ExpandedSoFar(d: Labels, path: seq<nat>, ss: seq<Shape>, labels: set<nat>, n: nat, d': Labels) {
    && n <= |ss| && Leads(d, path) && HasShape(PartAt(d, path), Aggregate(ss))
    && d' == Put(d, path, Parts(Mixed(ss, PartAt(d, path).parts, labels, n)))
  }

  lemma MixedStep(d: Labels, path: seq<nat>, ss: seq<Shape>, labels: set<nat>, n: nat, d': Labels)
    requires ExpandedSoFar(d, path, ss, labels, n, d') && n < |ss|
    ensures Leads(d', path + [n]) && HasShape(PartAt(d', path + [n]), ss[n])
    ensures ExpandedSoFar(d, path, ss, labels, n + 1, Put(d', path + [n], Expanded(ss[n], labels)))
  {
    var ds := PartAt(d, path).parts;
    PutInto(d, path, Parts(Mixed(ss, ds, labels, n)), n, Expanded(ss[n], labels));
    assert Mixed(ss, ds, labels, n + 1) == Mixed(ss, ds, labels, n)[n := Expanded(ss[n], labels)];
  }

  lemma NoneExpanded(d: Labels, path: seq<nat>, ss: seq<Shape>, labels: set<nat>)
    requires Leads(d, path) && HasShape(PartAt(d, path), Aggregate(ss))
    ensures ExpandedSoFar(d, path, ss, labels, 0, d)
  {
    PutThere(d, path, PartAt(d, path));
    assert Mixed(ss, PartAt(d, path).parts, labels, 0) == PartAt(d, path).parts;
  }

  lemma AllExpanded(d: Labels, path: seq<nat>, ss: seq<Shape>, labels: set<nat>, d': Labels)
    requires ExpandedSoFar(d, path, ss, labels, |ss|, d')
    ensures d' == Put(d, path, Expanded(Aggregate(ss), labels))
  {
    assert Parts(Mixed(ss, PartAt(d, path).parts, labels, |ss|)) == Expanded(Aggregate(ss), labels);
  }

  type Value = nat
  type Block = nat

  /** In front of the instruction at `index` of a block. */
  datatype Pos = Pos(block: Block, index: nat)

  /** The labels of a set of values. */
  ghost function UnionOf(den: map<Value, Labels>, vs: set<Value>): set<nat>
    requires vs <= den.Keys
  {
    set v, x | v in vs && x in Flatten(den[v]) :: x
  }

  /** New entries are added, old ones stay. */
  ghost predicate Extends<V>(m: map<Value, V>, m': map<Value, V>) {
    m.Keys <= m'.Keys && forall v | v in m :: m'[v] == m[v]
  }

  lemma ExtendsTrans<V>(a: map<Value, V>, b: map<Value, V>, c: map<Value, V>)
    requires Extends(a, b) && Extends(b, c)
    ensures Extends(a, c)
  {
  }

  lemma UnionExtends(den: map<Value, Labels>, den': map<Value, Labels>, vs: set<Value>)
    requires Extends(den, den') && vs <= den.Keys
    ensures UnionOf(den', vs) == UnionOf(den, vs)
  {
    forall x ensures x in UnionOf(den', vs) <==> x in UnionOf(den, vs) {
      if x in UnionOf(den', vs) {
        var v :| v in vs && x in Flatten(den'[v]);
        assert x in Flatten(den[v]);
      }
      if x in UnionOf(den, vs) {
        var v :| v in vs && x in Flatten(den[v]);
        assert x in Flatten(den'[v]);
      }
    }
  }

  lemma UnionAdds(den: map<Value, Labels>, vs: set<Value>, ws: set<Value>)
    requires vs <= den.Keys && ws <= den.Keys
    ensures UnionOf(den, vs + ws) == UnionOf(den, vs) + UnionOf(den, ws)
  {
    forall x | x in UnionOf(den, vs + ws) ensures x in UnionOf(den, vs) + UnionOf(den, ws) {
      var v :| v in vs + ws && x in Flatten(den[v]);
      assert v in vs || v in ws;
    }
  }

  lemma UnionOne(den: map<Value, Labels>, v: Value)
    requires v in den
    ensures UnionOf(den, {v}) == Flatten(den[v])
  {
    forall x | x in Flatten(den[v]) ensures x in UnionOf(den, {v}) {
      assert v in {v};
    }
  }

  lemma UnionMono(den: map<Value, Labels>, vs: set<Value>, ws: set<Value>)
    requires vs <= ws <= den.Keys
    ensures UnionOf(den, vs) <= UnionOf(den, ws)
  {
  }
}

/** Which blocks every way from the entry passes, and what splitting a block does to that. */
module Dominance {
  import opened ShadowSpec

  type Edges = set<(Block, Block)>

  ghost predicate IsWay(edges: Edges, way: seq<Block>, entry: Block, b: Block) {
    && way != [] && way[0] == entry && way[|way| - 1] == b
    && forall i | 0 <= i < |way| - 1 :: (way[i], way[i + 1]) in edges
  }

  ghost predicate CanReach(edges: Edges, entry: Block, b: Block) { exists way :: IsWay(edges, way, entry, b) }

  /** `b` can be reached, and only through `a`. */
  ghost predicate Dominates(edges: Edges, entry: Block, a: Block, b: Block) {
    CanReach(edges, entry, b) && forall way | IsWay(edges, way, entry, b) :: a in way
  }

  ghost predicate IsDominance(edges: Edges, entry: Block, dom: set<(Block, Block)>) {
    forall a: Block, b: Block :: (a, b) in dom <==> Dominates(edges, entry, a, b)
  }

  /** What leaves `b` leaves `tail`, and `b` goes there, directly or over the block `side`. */
  function SplitEdges(edges: Edges, b: Block, side: Block, tail: Block): Edges {
    (set e | e in edges :: (if e.0 == b then tail else e.0, e.1)) + {(b, side), (b, tail), (side, tail)}
  }

  /** Neither is part of the graph. */
  ghost predicate AreNew(edges: Edges, entry: Block, b: Block, side: Block, tail: Block) {
    && side != tail && entry != side && entry != tail && b != side && b != tail
    && forall e | e in edges :: e.0 != side && e.1 != side && e.0 != tail && e.1 != tail
  }

  lemma SplitHas(edges: Edges, b: Block, side: Block, tail: Block, x: Block, y: Block)
    requires (x, y) in edges
    ensures (if x == b then tail else x, y) in SplitEdges(edges, b, side, tail)
  {
    assert (if (x, y).0 == b then tail else (x, y).0, (x, y).1) in SplitEdges(edges, b, side, tail);
  }

  lemma WayPrefix(edges: Edges, way: seq<Block>, entry: Block, b: Block)
    requires IsWay(edges, way, entry, b) && |way| > 1
    ensures IsWay(edges, way[..|way| - 1], entry, way[|way| - 2]) && (way[|way| - 2], b) in edges
  {
    var n := |way| - 2;
    assert (way[n], way[n + 1]) in edges;
  }

  lemma WayMore(edges: Edges, way: seq<Block>, entry: Block, b: Block, c: Block)
    requires IsWay(edges, way, entry, b) && (b, c) in edges
    ensures IsWay(edges, way + [c], entry, c)
  {
  }

  /** The same way after the split. */
  lemma {:induction false} Longer(edges: Edges, entry: Block, b: Block, side: Block, tail: Block, way: seq<Block>, x: Block)
    returns (way': seq<Block>)
    requires AreNew(edges, entry, b, side, tail) && IsWay(edges, way, entry, x)
    ensures IsWay(SplitEdges(edges, b, side, tail), way', entry, x) && side !in way' && x != side && x != tail
    ensures forall y | y in way' && y != tail :: y in way
    ensures tail in way' ==> b in way[..|way| - 1]
    decreases |way|
  {
    var edges' := SplitEdges(edges, b, side, tail);
    if |way| == 1 {
      way' := way;
    } else {
      var before, y := way[..|way| - 1], way[|way| - 2];
      WayPrefix(edges, way, entry, x);
      assert (y, x).1 != side && (y, x).1 != tail;
      way' := Longer(edges, entry, b, side, tail, before, y);
      SplitHas(edges, b, side, tail, y, x);
      assert forall z | z in before[..|before| - 1] :: z in before;
      if y == b {
        WayMore(edges', way', entry, b, tail);
        way' := way' + [tail];
        WayMore(edges', way', entry, tail, x);
      } else {
        WayMore(edges', way', entry, y, x);
      }
      way' := way' + [x];
    }
  }

  /** The same way before the split. */
  lemma {:induction false} Shorter(edges: Edges, entry: Block, b: Block, side: Block, tail: Block, way': seq<Block>, x: Block)
    returns (way: seq<Block>)
    requires AreNew(edges, entry, b, side, tail) && IsWay(SplitEdges(edges, b, side, tail), way', entry, x)
    ensures IsWay(edges, way, entry, if x == side || x == tail then b else x)
    ensures forall y | y in way :: y in way'
    ensures x != side && x != tail && b in way[..|way| - 1] ==> tail in way'
    decreases |way'|
  {
    if |way'| == 1 {
      way := way';
    } else {
      var before, y := way'[..|way'| - 1], way'[|way'| - 2];
      WayPrefix(SplitEdges(edges, b, side, tail), way', entry, x);
      way := Shorter(edges, entry, b, side, tail, before, y);
      assert forall z | z in before :: z in way';
      if x != side && x != tail {
        var e :| e in edges && (y, x) == (if e.0 == b then tail else e.0, e.1);
        assert e == (e.0, e.1);
        WayMore(edges, way, entry, e.0, x);
        assert (way + [x])[..|way|] == way;
        assert y == tail ==> tail in way';
        assert y != tail && b in way ==> b in way[..|way| - 1];
        way := way + [x];
      }
    }
  }

  /** Some way to a block comes to it only once. */
  lemma {:induction false} OnceOnly(edges: Edges, entry: Block, b: Block, way: seq<Block>) returns (once: seq<Block>)
    requires IsWay(edges, way, entry, b)
    ensures IsWay(edges, once, entry, b) && b !in once[..|once| - 1]
    decreases |way|
  {
    if i :| 0 <= i < |way| - 1 && way[i] == b {
      once := OnceOnly(edges, entry, b, way[..i + 1]);
    } else {
      once := way;
    }
  }

  /** The dominators once what follows in `b` has moved to a new block `tail`. */
  function AfterSplit(dom: set<(Block, Block)>, b: Block, side: Block, tail: Block): (dom': set<(Block, Block)>)
    ensures dom <= dom' && (side, side) in dom' && (tail, tail) in dom'
    ensures forall a | (a, b) in dom :: (a, tail) in dom' && (a, side) in dom'
    ensures forall n | side < n && tail < n && AllBelow(dom, n) :: AllBelow(dom', n)
  {
    dom + {(side, side), (tail, tail)}
    + (set e | e in dom && e.1 == b :: (e.0, side))
    + (set e | e in dom && e.1 == b :: (e.0, tail))
    + (set e | e in dom && e.0 == b && e.1 != b :: (tail, e.1))
  }

  predicate AllBelow(dom: set<(Block, Block)>, n: Block) { forall e | e in dom :: e.0 < n && e.1 < n }

  lemma AfterSplitHas(dom: set<(Block, Block)>, b: Block, side: Block, tail: Block, x: Block, y: Block)
    ensures (x, y) in AfterSplit(dom, b, side, tail) <==>
            (x, y) in dom || (x == y && (x == side || x == tail)) || ((y == side || y == tail) && (x, b) in dom)
            || (x == tail && y != b && (b, y) in dom)
  {
    if (y == side || y == tail) && (x, b) in dom {
      assert ((x, b).0, y) in AfterSplit(dom, b, side, tail);
    }
    if x == tail && y != b && (b, y) in dom {
      assert (tail, (b, y).1) in AfterSplit(dom, b, side, tail);
    }
  }

  lemma NewAreNowhere(edges: Edges, entry: Block, b: Block, side: Block, tail: Block, way: seq<Block>, x: Block)
    requires AreNew(edges, entry, b, side, tail) && IsWay(edges, way, entry, x)
    ensures side !in way && tail !in way
  {
    forall i | 0 <= i < |way| ensures way[i] != side && way[i] != tail {
      if i > 0 {
        assert (way[i - 1], way[i - 1 + 1]) in edges;
      }
    }
  }

  /** Old blocks. */
  lemma OldDominates(edges: Edges, entry: Block, b: Block, side: Block, tail: Block, a: Block, x: Block)
    requires AreNew(edges, entry, b, side, tail) && x != side && x != tail
    ensures CanReach(SplitEdges(edges, b, side, tail), entry, x) <==> CanReach(edges, entry, x)
    ensures a != side && a != tail ==>
              (Dominates(SplitEdges(edges, b, side, tail), entry, a, x) <==> Dominates(edges, entry, a, x))
    ensures !Dominates(SplitEdges(edges, b, side, tail), entry, side, x) && !Dominates(edges, entry, side, x)
    ensures !Dominates(edges, entry, tail, x)
  {
    var edges' := SplitEdges(edges, b, side, tail);
    forall way | IsWay(edges, way, entry, x)
      ensures side !in way && tail !in way
      ensures exists way' :: IsWay(edges', way', entry, x) && side !in way' && (forall y | y in way' && y != tail :: y in way)
    {
      NewAreNowhere(edges, entry, b, side, tail, way, x);
      var way' := Longer(edges, entry, b, side, tail, way, x);
    }
    forall way' | IsWay(edges', way', entry, x) ensures exists way :: IsWay(edges, way, entry, x) && forall y | y in way :: y in way' {
      var way := Shorter(edges, entry, b, side, tail, way', x);
    }
  }

  /** The tail and the old blocks. */
  lemma TailDominates(edges: Edges, entry: Block, b: Block, side: Block, tail: Block, x: Block)
    requires AreNew(edges, entry, b, side, tail) && x != side && x != tail
    ensures Dominates(SplitEdges(edges, b, side, tail), entry, tail, x) <==> x != b && Dominates(edges, entry, b, x)
  {
    var edges' := SplitEdges(edges, b, side, tail);
    OldDominates(edges, entry, b, side, tail, b, x);
    if Dominates(edges', entry, tail, x) {
      var some :| IsWay(edges, some, entry, x);
      var once := OnceOnly(edges, entry, x, some);
      var way' := Longer(edges, entry, b, side, tail, once, x);
      assert b in once[..|once| - 1];
      forall way | IsWay(edges, way, entry, x) ensures b in way {
        var longer := Longer(edges, entry, b, side, tail, way, x);
        assert forall y | y in way[..|way| - 1] :: y in way;
      }
    }
    if x != b && Dominates(edges, entry, b, x) {
      forall way' | IsWay(edges', way', entry, x) ensures tail in way' {
        var way := Shorter(edges, entry, b, side, tail, way', x);
        assert b in way;
        assert way == way[..|way| - 1] + [x];
      }
    }
  }

  /** The new blocks come right behind `b`. */
  lemma NewDominates(edges: Edges, entry: Block, b: Block, side: Block, tail: Block, a: Block, x: Block)
    requires AreNew(edges, entry, b, side, tail) && CanReach(edges, entry, b) && (x == side || x == tail)
    ensures Dominates(SplitEdges(edges, b, side, tail), entry, a, x) <==>
            a == x || (a != side && a != tail && Dominates(edges, entry, a, b))
  {
    var edges' := SplitEdges(edges, b, side, tail);
    var some :| IsWay(edges, some, entry, b);
    var once := OnceOnly(edges, entry, b, some);
    var there := Longer(edges, entry, b, side, tail, once, b);
    WayMore(edges', there, entry, b, x);
    assert side !in there && tail !in there;
    if Dominates(edges', entry, a, x) && a != x {
      assert a in there + [x];
      forall way | IsWay(edges, way, entry, b) ensures a in way {
        var longer := Longer(edges, entry, b, side, tail, way, b);
        WayMore(edges', longer, entry, b, x);
        assert a in longer + [x];
      }
    }
    if a != side && a != tail && Dominates(edges, entry, a, b) {
      forall way' | IsWay(edges', way', entry, x) ensures a in way' {
        var way := Shorter(edges, entry, b, side, tail, way', x);
      }
    }
  }

  /** Updating the dominators is exact. */
  lemma SplitIsExact(edges: Edges, entry: Block, dom: set<(Block, Block)>, b: Block, side: Block, tail: Block)
    requires IsDominance(edges, entry, dom) && (b, b) in dom && AreNew(edges, entry, b, side, tail)
    ensures IsDominance(SplitEdges(edges, b, side, tail), entry, AfterSplit(dom, b, side, tail))
  {
    forall a: Block, x: Block ensures (a, x) in AfterSplit(dom, b, side, tail) <==> Dominates(SplitEdges(edges, b, side, tail), entry, a, x) {
      AfterSplitHas(dom, b, side, tail, a, x);
      assert Dominates(edges, entry, b, b);
      NotNew(edges, entry, b, side, tail, a, x);
      NotNew(edges, entry, b, side, tail, b, x);
      if x == side || x == tail {
        NotNew(edges, entry, b, side, tail, a, b);
        NewDominates(edges, entry, b, side, tail, a, x);
      } else {
        OldDominates(edges, entry, b, side, tail, a, x);
        TailDominates(edges, entry, b, side, tail, x);
      }
    }
  }

  lemma SplitBelow(edges: Edges, entry: Block, side: Block, b: Block, tail: Block)
    requires AllBelow(edges, side) && entry < side && b < side && tail == side + 1
    ensures AreNew(edges, entry, b, side, tail) && AllBelow(SplitEdges(edges, b, side, tail), tail + 1)
  {
  }

  ghost predicate AreBelow(edges: Edges, dom: set<(Block, Block)>, entry: Block, n: Block) {
    AllBelow(dom, n) && AllBelow(edges, n) && entry < n
  }

  lemma SplitAreBelow(edges: Edges, dom: set<(Block, Block)>, entry: Block, b: Block, side: Block, tail: Block, n: Block)
    requires AreBelow(edges, dom, entry, side) && b < side && tail == side + 1 && n == side + 2
    ensures AreBelow(SplitEdges(edges, b, side, tail), AfterSplit(dom, b, side, tail), entry, n)
  {
    SplitBelow(edges, entry, side, b, tail);
  }

  /** No dominance involves the block. */
  ghost predicate IsUnknown(dom: set<(Block, Block)>, b: Block) { forall e | e in dom :: e.0 != b && e.1 != b }

  lemma NotNew(edges: Edges, entry: Block, b: Block, side: Block, tail: Block, a: Block, x: Block)
    requires AreNew(edges, entry, b, side, tail)
    ensures Dominates(edges, entry, a, x) ==> a != side && a != tail && x != side && x != tail
  {
    if Dominates(edges, entry, a, x) {
      var way :| IsWay(edges, way, entry, x);
      NewAreNowhere(edges, entry, b, side, tail, way, x);
    }
  }
}

/** `DFSanFunction` */
module ShadowCombining {
  import opened ShadowSpec
  import opened Dominance
  import opened Wrappers

  datatype CachedShadow = CachedShadow(block: Block, shadow: Value)

  /** How a union is computed: by `or`, by a call that checks, or by a call on a branch of its own. */
  datatype Mode = Fast16Labels | AvoidNewBlocks | NewBlocks

  ghost predicate ElementsOk(den: map<Value, Labels>, v: Value, elements: set<Value>) {
    v in den && elements <= den.Keys && Flatten(den[v]) == UnionOf(den, elements)
  }

  ghost predicate CachedOk(den: map<Value, Labels>, shape: map<Value, Shape>, place: map<Value, Pos>,
                           k: (Value, Value), c: CachedShadow)
  {
    && k.0 in den && k.1 in den && c.shadow in den && c.shadow in place && c.shadow in shape
    && Flatten(den[c.shadow]) == Flatten(den[k.0]) + Flatten(den[k.1])
    && place[c.shadow].block == c.block && shape[c.shadow].Primitive?
  }

  ghost predicate CollapsedOk(den: map<Value, Labels>, shape: map<Value, Shape>, v: Value, r: Value) {
    v in den && r in den && r in shape && shape[r].Primitive? && Flatten(den[r]) == Flatten(den[v])
  }

  /** Every entry denotes the union of its elements, every cached shadow that of its pair, and every collapsed
      shadow what it was collapsed from. */
  ghost predicate CachesAre(den: map<Value, Labels>, shape: map<Value, Shape>, place: map<Value, Pos>,
                            elements: map<Value, set<Value>>, cached: map<(Value, Value), CachedShadow>,
                            collapsed: map<Value, Value>)
  {
    && (forall v | v in elements :: ElementsOk(den, v, elements[v]))
    && (forall k | k in cached :: CachedOk(den, shape, place, k, cached[k]))
    && (forall v | v in collapsed :: CollapsedOk(den, shape, v, collapsed[v]))
  }

  ghost predicate ShapeFits(den: map<Value, Labels>, shape: map<Value, Shape>, v: Value)
    requires v in den && v in shape
  {
    HasShape(den[v], shape[v])
  }

  ghost predicate IsEmpty(den: map<Value, Labels>, v: Value) { v in den && Flatten(den[v]) == {} }

  /** Every value has a shape and a place, and zero shadows denote nothing. */
  ghost predicate ValuesAre(den: map<Value, Labels>, shape: map<Value, Shape>, place: map<Value, Pos>,
                            constants: set<Value>, zeros: set<Value>, zero: Value, next: Value)
  {
    && shape.Keys == place.Keys == den.Keys && zeros <= constants <= den.Keys
    && AllFit(den, shape, next)
    && (forall v | v in zeros :: IsEmpty(den, v))
    && zero in zeros && shape[zero].Primitive?
  }

  lemma NewValue(den: map<Value, Labels>, shape: map<Value, Shape>, place: map<Value, Pos>,
                 constants: set<Value>, zeros: set<Value>, zero: Value, next: Value, d: Labels, s: Shape, pos: Pos)
    requires ValuesAre(den, shape, place, constants, zeros, zero, next) && HasShape(d, s)
    ensures next !in den
    ensures ValuesAre(den[next := d], shape[next := s], place[next := pos], constants, zeros, zero, next + 1)
    ensures Extends(den, den[next := d]) && Extends(shape, shape[next := s]) && Extends(place, place[next := pos])
  {
    FitsOneMore(den, shape, next, d, s);
    forall v | v in zeros ensures IsEmpty(den[next := d], v) {
      StillEmpty(den, den[next := d], v);
    }
  }

  ghost predicate AllFit(den: map<Value, Labels>, shape: map<Value, Shape>, next: Value) {
    forall v | v in den :: v < next && v in shape && ShapeFits(den, shape, v)
  }

  lemma FitsOneMore(den: map<Value, Labels>, shape: map<Value, Shape>, next: Value, d: Labels, s: Shape)
    requires AllFit(den, shape, next) && HasShape(d, s)
    ensures AllFit(den[next := d], shape[next := s], next + 1)
  {
    var den', shape' := den[next := d], shape[next := s];
    forall v | v in den' ensures v < next + 1 && v in shape' && ShapeFits(den', shape', v) {
      if v == next {
        assert den'[v] == d && shape'[v] == s;
      } else {
        StillFits(den, shape, den', shape', v);
      }
    }
  }

  lemma StillFits(den: map<Value, Labels>, shape: map<Value, Shape>, den': map<Value, Labels>, shape': map<Value, Shape>, v: Value)
    requires v in den && v in shape && ShapeFits(den, shape, v) && v in den' && v in shape'
    requires den'[v] == den[v] && shape'[v] == shape[v]
    ensures ShapeFits(den', shape', v)
  {
  }

  lemma StillEmpty(den: map<Value, Labels>, den': map<Value, Labels>, v: Value)
    requires IsEmpty(den, v) && v in den' && den'[v] == den[v]
    ensures IsEmpty(den', v)
  {
  }

  /** New values leave the caches right. */
  lemma CachesExtend(den: map<Value, Labels>, shape: map<Value, Shape>, place: map<Value, Pos>,
                     den': map<Value, Labels>, shape': map<Value, Shape>, place': map<Value, Pos>,
                     elements: map<Value, set<Value>>, cached: map<(Value, Value), CachedShadow>,
                     collapsed: map<Value, Value>)
    requires CachesAre(den, shape, place, elements, cached, collapsed)
    requires Extends(den, den') && Extends(shape, shape') && Extends(place, place')
    ensures CachesAre(den', shape', place', elements, cached, collapsed)
  {
    forall v | v in elements ensures ElementsOk(den', v, elements[v]) {
      assert ElementsOk(den, v, elements[v]);
      UnionExtends(den, den', elements[v]);
    }
    forall k | k in cached ensures CachedOk(den', shape', place', k, cached[k]) {
      assert CachedOk(den, shape, place, k, cached[k]);
    }
    forall v | v in collapsed ensures CollapsedOk(den', shape', v, collapsed[v]) {
      assert CollapsedOk(den, shape, v, collapsed[v]);
    }
  }

  /** The aggregate at `path` of `whole`, which has the given shape, is to get the labels in every part. */
  datatype Expansion = Expansion(whole: Labels, path: seq<nat>, ss: seq<Shape>, labels: set<nat>, shape: Shape)

  /** Unions are symmetric: pairs are kept in order. */
  function Key(v1: Value, v2: Value): (Value, Value) { if v1 > v2 then (v2, v1) else (v1, v2) }

  lemma KeyIsUnordered(a: Value, b: Value, c: Value, d: Value)
    ensures Key(a, b) == Key(c, d) <==> (a == c && b == d) || (a == d && b == c)
  {
  }

  class DFSanFunction {
    const mode: Mode
    const zero: Value
    var shape: map<Value, Shape>
    var place: map<Value, Pos>
    var constants: set<Value>
    var zeros: set<Value>
    var next: Value
    var nextBlock: Block
    var dominates: set<(Block, Block)>
    var shadowElements: map<Value, set<Value>>
    var cachedShadows: map<(Value, Value), CachedShadow>
    var cachedCollapsedShadows: map<Value, Value>

    /** What each value denotes. */
    ghost var den: map<Value, Labels>

    /** Where control goes. */
    ghost const entry: Block
    ghost var edges: Edges

    ghost predicate ValuesOk()
      reads this`shape, this`place, this`den, this`constants, this`zeros, this`next
    {
      ValuesAre(den, shape, place, constants, zeros, zero, next)
    }

    ghost predicate CachesOk()
      reads this`den, this`shape, this`place, this`shadowElements, this`cachedShadows, this`cachedCollapsedShadows
    {
      CachesAre(den, shape, place, shadowElements, cachedShadows, cachedCollapsedShadows)
    }

    /** Blocks have numbers below the next one. */
    ghost predicate BlocksOk()
      reads this`edges, this`dominates, this`nextBlock
    {
      AreBelow(edges, dominates, entry, nextBlock)
    }

    /** The blocks that dominate a block are those every way from the entry to it passes. */
    ghost predicate DominanceOk()
      reads this`edges, this`dominates
    {
      IsDominance(edges, entry, dominates)
    }

    ghost predicate Valid()
      reads this
    {
      ValuesOk() && CachesOk() && BlocksOk() && PlacedBelow(place, constants, nextBlock)
    }

    /** A constant can be used anywhere, an instruction behind it in its block and where its block dominates. */
    predicate Available(v: Value, pos: Pos)
      reads this`place, this`dominates, this`constants
    {
      v in constants || (v in place && if place[v].block == pos.block then place[v].index <= pos.index
                                  else (place[v].block, pos.block) in dominates)
    }

    /** The block can be reached, and nothing has been put behind `pos` in it: blocks are gone through in order. */
    ghost predicate Here(pos: Pos)
      reads this`place, this`dominates, this`constants
    {
      (pos.block, pos.block) in dominates && NothingBehind(place, constants, pos)
    }

    ghost predicate Usable(v: Value, pos: Pos)
      reads this`den, this`shape, this`place, this`dominates, this`constants
    {
      v in den && v in shape && Available(v, pos)
    }

    /** Before any shadow is computed: only blocks, and their dominators. */
    constructor (mode: Mode, zero: Value, nextBlock: Block, dominates: set<(Block, Block)>, ghost entry: Block, ghost edges: Edges)
      requires IsDominance(edges, entry, dominates) && AllBelow(dominates, nextBlock)
      requires AllBelow(edges, nextBlock) && entry < nextBlock
      ensures Valid() && DominanceOk() && this.mode == mode && this.zero == zero && this.dominates == dominates
      ensures forall b | (b, b) in dominates :: Here(Pos(b, 0))
    {
      this.mode, this.zero := mode, zero;
      shape, place, constants, zeros := map[zero := Primitive], map[zero := Pos(0, 0)], {zero}, {zero};
      next, this.nextBlock, this.dominates := zero + 1, nextBlock, dominates;
      this.entry, this.edges := entry, edges;
      shadowElements, cachedShadows, cachedCollapsedShadows := map[], map[], map[];
      den := map[zero := Leaf({})];
    }

    /** A new instruction in front of `pos`. */
    method Emit(pos: Pos, s: Shape, ghost d: Labels) returns (v: Value)
      requires Valid() && HasShape(d, s) && Here(pos)
      modifies this`shape, this`place, this`next, this`den
      ensures Valid() && Here(pos) && v !in old(den) && den == old(den)[v := d] && v in shape && shape[v] == s && v in place && place[v] == pos
      ensures shape == old(shape)[v := s] && place == old(place)[v := pos]
    {
      v := next;
      NewValue(den, shape, place, constants, zeros, zero, next, d, s, pos);
      next := next + 1;
      CachesExtend(den, shape, place, den[v := d], shape[v := s], place[v := pos],
                   shadowElements, cachedShadows, cachedCollapsedShadows);
      shape, place, den := shape[v := s], place[v := pos], den[v := d];
    }

    predicate IsZeroShadow(v: Value)
      reads this
    {
      v in zeros
    }

    ghost predicate OnlyNew(den0: map<Value, Labels>, shape0: map<Value, Shape>, place0: map<Value, Pos>)
      reads this`den, this`shape, this`place
    {
      Extends(den0, den) && Extends(shape0, shape) && Extends(place0, place)
    }

    /** There is nothing to compute. */
    predicate IsCollapsed(v: Value, pos: Pos)
      requires v in shape
      reads this`shape, this`place, this`dominates, this`constants, this`cachedCollapsedShadows
    {
      shape[v].Primitive? || (v in cachedCollapsedShadows && Available(cachedCollapsedShadows[v], pos))
    }

    /** `collapseToPrimitiveShadow`: what has been collapsed before is used again where it can be. */
    method CollapseToPrimitiveShadow(v: Value, pos: Pos) returns (r: Value)
      requires Valid() && Usable(v, pos) && Here(pos)
      modifies this`shape, this`place, this`next, this`den, this`cachedCollapsedShadows
      ensures Valid() && Here(pos) && Usable(r, pos) && shape[r].Primitive? && Flatten(den[r]) == Flatten(old(den)[v])
      ensures OnlyNew(old(den), old(shape), old(place))
      ensures old(IsCollapsed(v, pos)) ==> den == old(den) && cachedCollapsedShadows == old(cachedCollapsedShadows)
      ensures !old(IsCollapsed(v, pos)) ==> cachedCollapsedShadows == old(cachedCollapsedShadows)[v := r]
    {
      if shape[v].Primitive? {
        return v;
      }
      if v in cachedCollapsedShadows && Available(cachedCollapsedShadows[v], pos) {
        assert CollapsedOk(den, shape, v, cachedCollapsedShadows[v]);
        return cachedCollapsedShadows[v];
      }
      r := Collapse(v, pos);
      cachedCollapsedShadows := cachedCollapsedShadows[v := r];
    }

    /** The union of all parts, as `collapseAggregateShadow` computes it. */
    method Collapse(v: Value, pos: Pos) returns (r: Value)
      requires Valid() && Usable(v, pos) && Here(pos)
      modifies this`shape, this`place, this`next, this`den
      ensures Valid() && Here(pos) && Usable(r, pos) && shape[r].Primitive? && Flatten(den[r]) == Flatten(old(den)[v])
      ensures OnlyNew(old(den), old(shape), old(place))
      decreases shape[v], 1
    {
      if shape[v].Primitive? {
        return v;
      }
      if shape[v].parts == [] {
        return zero;
      }
      r := CollapseAggregate(shape[v].parts, pos, den[v].parts);
    }

    method CollapseAggregate(parts: seq<Shape>, pos: Pos, ghost ds: seq<Labels>) returns (r: Value)
      requires Valid() && Here(pos) && 0 < |parts| == |ds| && forall i | 0 <= i < |ds| :: HasShape(ds[i], parts[i])
      modifies this`shape, this`place, this`next, this`den
      ensures Valid() && Here(pos) && Usable(r, pos) && shape[r].Primitive? && Flatten(den[r]) == FlattenFirst(ds, |ds|)
      ensures OnlyNew(old(den), old(shape), old(place))
      decreases parts, 0
    {
      r := CollapsePart(parts[0], pos, ds[0]);
      var i := 1;
      while i < |parts|
        invariant 1 <= i <= |parts| && Valid() && Here(pos) && Usable(r, pos) && shape[r].Primitive?
        invariant OnlyNew(old(den), old(shape), old(place))
        invariant Flatten(den[r]) == FlattenFirst(ds, i)
      {
        ghost var den1, shape1, place1 := den, shape, place;
        r := AddPart(r, parts[i], pos, ds[i]);
        OnlyNewTrans(old(den), old(shape), old(place), den1, shape1, place1);
        i := i + 1;
      }
    }

    method AddPart(a: Value, part: Shape, pos: Pos, ghost d: Labels) returns (r: Value)
      requires Valid() && Usable(a, pos) && HasShape(d, part) && Here(pos)
      modifies this`shape, this`place, this`next, this`den
      ensures Valid() && Here(pos) && Usable(r, pos) && shape[r].Primitive? && Flatten(den[r]) == Flatten(old(den)[a]) + Flatten(d)
      ensures OnlyNew(old(den), old(shape), old(place))
      decreases part, 3
    {
      var inner := CollapsePart(part, pos, d);
      ghost var den1, shape1, place1 := den, shape, place;
      r := EmitOr(pos, a, inner);
      OnlyNewTrans(old(den), old(shape), old(place), den1, shape1, place1);
    }

    /** An element of an aggregate is extracted and collapsed. */
    method CollapsePart(part: Shape, pos: Pos, ghost d: Labels) returns (r: Value)
      requires Valid() && HasShape(d, part) && Here(pos)
      modifies this`shape, this`place, this`next, this`den
      ensures Valid() && Here(pos) && Usable(r, pos) && shape[r].Primitive? && Flatten(den[r]) == Flatten(d)
      ensures OnlyNew(old(den), old(shape), old(place))
      decreases part, 2
    {
      var item := Emit(pos, part, d);
      ghost var den1, shape1, place1 := den, shape, place;
      r := Collapse(item, pos);
      OnlyNewTrans(old(den), old(shape), old(place), den1, shape1, place1);
    }

    lemma OnlyNewTrans(den0: map<Value, Labels>, shape0: map<Value, Shape>, place0: map<Value, Pos>,
                       den1: map<Value, Labels>, shape1: map<Value, Shape>, place1: map<Value, Pos>)
      requires Extends(den0, den1) && Extends(shape0, shape1) && Extends(place0, place1) && OnlyNew(den1, shape1, place1)
      ensures OnlyNew(den0, shape0, place0)
    {
      ExtendsTrans(den0, den1, den);
      ExtendsTrans(shape0, shape1, shape);
      ExtendsTrans(place0, place1, place);
    }

    method EmitOr(pos: Pos, a: Value, b: Value) returns (r: Value)
      requires Valid() && a in den && b in den && Here(pos)
      modifies this`shape, this`place, this`next, this`den
      ensures Valid() && Here(pos) && Usable(r, pos) && place[r] == pos && shape[r].Primitive?
      ensures Flatten(den[r]) == Flatten(old(den)[a]) + Flatten(old(den)[b])
      ensures r !in old(den) && OnlyNew(old(den), old(shape), old(place)) && place == old(place)[r := pos]
    {
      r := Emit(pos, Primitive, Leaf(Flatten(den[a]) + Flatten(den[b])));
    }

    /** What could be used at `pos` can be used at `pos'`, which is the same or in a new block. */
    ghost predicate Moved(dominates0: set<(Block, Block)>, pos: Pos, pos': Pos)
      reads this`dominates
    {
      MovedTo(dominates0, dominates, pos, pos')
    }

    /** Splits the block at `pos`: what follows goes to a new tail, with a new block on the branch between. */
    method SplitBlockAndInsertIfThen(pos: Pos) returns (thenPos: Pos, tail: Pos)
      requires Valid() && DominanceOk() && Here(pos)
      modifies this`dominates, this`nextBlock, this`edges
      ensures Valid() && DominanceOk() && Here(tail) && Here(thenPos) && thenPos.block != tail.block
      ensures Moved(old(dominates), pos, tail)
      ensures edges == SplitEdges(old(edges), pos.block, thenPos.block, tail.block)
    {
      SplitBelow(edges, entry, nextBlock, pos.block, nextBlock + 1);
      SplitIsExact(edges, entry, dominates, pos.block, nextBlock, nextBlock + 1);
      thenPos, tail := SplitBlock(pos);
    }

    method SplitBlock(pos: Pos) returns (thenPos: Pos, tail: Pos)
      requires Valid() && Here(pos)
      modifies this`dominates, this`nextBlock, this`edges
      ensures Valid() && Here(tail) && Here(thenPos) && thenPos == Pos(old(nextBlock), 0) && tail == Pos(old(nextBlock) + 1, pos.index)
      ensures Moved(old(dominates), pos, tail)
      ensures edges == SplitEdges(old(edges), pos.block, thenPos.block, tail.block)
      ensures dominates == AfterSplit(old(dominates), pos.block, thenPos.block, tail.block)
    {
      thenPos, tail := Pos(nextBlock, 0), Pos(nextBlock + 1, pos.index);
      NothingInNewBlocks(place, constants, nextBlock, thenPos, tail);
      SplitAreBelow(edges, dominates, entry, pos.block, thenPos.block, tail.block, nextBlock + 2);
      SplitMoves(dominates, pos, thenPos.block, tail);
      SetBlocks(SplitEdges(edges, pos.block, thenPos.block, tail.block),
                AfterSplit(dominates, pos.block, thenPos.block, tail.block), nextBlock + 2);
    }

    method SetBlocks(ghost newEdges: Edges, newDominates: set<(Block, Block)>, newNextBlock: Block)
      requires Valid() && AreBelow(newEdges, newDominates, entry, newNextBlock) && PlacedBelow(place, constants, newNextBlock)
      modifies this`dominates, this`nextBlock, this`edges
      ensures Valid() && edges == newEdges && dominates == newDominates && nextBlock == newNextBlock
    {
      edges, dominates, nextBlock := newEdges, newDominates, newNextBlock;
    }

    /** The instructions that compute a union, and where they leave us. */
    method EmitUnion(a: Value, b: Value, pos: Pos) returns (r: Value, pos': Pos)
      requires Valid() && DominanceOk() && a in den && b in den && Here(pos)
      modifies this`shape, this`place, this`next, this`den, this`dominates, this`nextBlock, this`edges
      ensures Valid() && DominanceOk() && r in den && r !in old(den) && shape[r].Primitive? && place[r] == pos' && Here(pos')
      ensures Flatten(den[r]) == Flatten(old(den)[a]) + Flatten(old(den)[b])
      ensures OnlyNew(old(den), old(shape), old(place)) && Moved(old(dominates), pos, pos')
    {
      match mode
      case Fast16Labels =>
        pos' := pos;
        r := EmitOr(pos, a, b);
      case AvoidNewBlocks =>
        pos' := pos;
        r := EmitOr(pos, a, b);
      case NewBlocks =>
        var thenPos;
        thenPos, pos' := SplitBlockAndInsertIfThen(pos);
        r := EmitBranch(a, b, thenPos, pos');
    }

    /** Equal shadows skip the call, and a phi takes one of the two: the union either way. */
    method EmitBranch(a: Value, b: Value, thenPos: Pos, tail: Pos) returns (r: Value)
      requires Valid() && a in den && b in den && Here(thenPos) && Here(tail) && thenPos.block != tail.block
      modifies this`shape, this`place, this`next, this`den
      ensures Valid() && r in den && r !in old(den) && shape[r].Primitive? && place[r] == tail && Here(tail)
      ensures Flatten(den[r]) == Flatten(old(den)[a]) + Flatten(old(den)[b])
      ensures OnlyNew(old(den), old(shape), old(place))
    {
      var call := EmitOr(thenPos, a, b);
      r := Emit(tail, Primitive, Leaf(Flatten(den[call])));
    }

    function Elements(v: Value): set<Value>
      reads this`shadowElements
    {
      if v in shadowElements then shadowElements[v] else {v}
    }

    /** The elements of `v` are known and include those of `w`. */
    predicate Includes(v: Value, w: Value)
      reads this`shadowElements
    {
      v in shadowElements && Elements(w) <= shadowElements[v]
    }

    /** What the element sets already tell about one shadow containing the other. */
    method Subsumed(v1: Value, v2: Value) returns (r: Option<Value>)
      requires Valid() && v1 in den && v2 in den
      ensures r.Some? ==> (r.value == v1 || r.value == v2) && Flatten(den[r.value]) == Flatten(den[v1]) + Flatten(den[v2])
      ensures r == if Includes(v1, v2) then Some(v1) else if Includes(v2, v1) then Some(v2) else None
    {
      r := None;
      if v1 in shadowElements && v2 in shadowElements {
        if shadowElements[v2] <= shadowElements[v1] {
          UnionMono(den, shadowElements[v2], shadowElements[v1]);
          return Some(v1);
        } else if shadowElements[v1] <= shadowElements[v2] {
          UnionMono(den, shadowElements[v1], shadowElements[v2]);
          return Some(v2);
        }
      } else if v1 in shadowElements {
        if v2 in shadowElements[v1] {
          UnionOne(den, v2);
          UnionMono(den, {v2}, shadowElements[v1]);
          return Some(v1);
        }
      } else if v2 in shadowElements {
        if v1 in shadowElements[v2] {
          UnionOne(den, v1);
          UnionMono(den, {v1}, shadowElements[v2]);
          return Some(v2);
        }
      }
    }

    lemma ElementsAreUnion(v: Value)
      requires Valid() && v in den
      ensures Elements(v) <= den.Keys && UnionOf(den, Elements(v)) == Flatten(den[v])
    {
      UnionOne(den, v);
    }

    /** Some union of the two has been computed where it can be used. */
    predicate IsCached(v1: Value, v2: Value, pos: Pos)
      reads this`cachedShadows, this`dominates
    {
      Key(v1, v2) in cachedShadows && (cachedShadows[Key(v1, v2)].block, pos.block) in dominates
    }

    /** Nothing tells the union without computing it. */
    predicate NeedsUnion(v1: Value, v2: Value, pos: Pos)
      reads this`zeros, this`shadowElements, this`cachedShadows, this`dominates
    {
      v1 !in zeros && v2 !in zeros && v1 != v2 && !Includes(v1, v2) && !Includes(v2, v1) && !IsCached(v1, v2, pos)
    }

    /** Records a computed union. */
    method Record(v1: Value, v2: Value, r: Value, pos: Pos)
      requires Valid() && v1 in den && v2 in den && r in den && place[r].block == pos.block && shape[r].Primitive?
      requires Flatten(den[r]) == Flatten(den[v1]) + Flatten(den[v2])
      modifies this`shadowElements, this`cachedShadows
      ensures Valid() && shadowElements == old(shadowElements)[r := old(Elements(v1)) + old(Elements(v2))]
      ensures cachedShadows == old(cachedShadows)[Key(v1, v2) := CachedShadow(pos.block, r)]
    {
      ElementsAreUnion(v1);
      ElementsAreUnion(v2);
      UnionAdds(den, Elements(v1), Elements(v2));
      var key := if v1 > v2 then (v2, v1) else (v1, v2);
      var elements := Elements(v1) + Elements(v2);
      shadowElements := shadowElements[r := elements];
      cachedShadows := cachedShadows[key := CachedShadow(pos.block, r)];
    }

    /** `combineShadows`: whatever the caches say, the result can be used where it is needed and denotes the union. */
    method CombineShadows(v1: Value, v2: Value, pos: Pos) returns (r: Value, pos': Pos)
      requires Valid() && DominanceOk() && Usable(v1, pos) && Usable(v2, pos) && Here(pos)
      modifies this
      ensures Valid() && DominanceOk() && Usable(r, pos') && shape[r].Primitive? && Here(pos')
      ensures Flatten(den[r]) == Flatten(old(den)[v1]) + Flatten(old(den)[v2])
      ensures OnlyNew(old(den), old(shape), old(place)) && constants == old(constants)
      ensures Moved(old(dominates), pos, pos')
      ensures !old(NeedsUnion(v1, v2, pos)) ==>
                pos' == pos && dominates == old(dominates) && shadowElements == old(shadowElements) && cachedShadows == old(cachedShadows)
      ensures old(NeedsUnion(v1, v2, pos)) ==>
                && r !in old(den) && shadowElements == old(shadowElements)[r := old(Elements(v1) + Elements(v2))]
                && cachedShadows == old(cachedShadows)[Key(v1, v2) := CachedShadow(pos'.block, r)]
    {
      pos' := pos;
      if IsZeroShadow(v1) {
        r := CollapseToPrimitiveShadow(v2, pos);
        return;
      }
      if IsZeroShadow(v2) || v1 == v2 {
        r := CollapseToPrimitiveShadow(v1, pos);
        return;
      }
      var subsumed := Subsumed(v1, v2);
      if subsumed.Some? {
        r := CollapseToPrimitiveShadow(subsumed.value, pos);
        return;
      }
      var key := if v1 > v2 then (v2, v1) else (v1, v2);
      if key in cachedShadows && (cachedShadows[key].block, pos.block) in dominates {
        assert CachedOk(den, shape, place, key, cachedShadows[key]);
        r := cachedShadows[key].shadow;
        return;
      }
      r, pos' := CombineNew(v1, v2, pos);
    }

    ghost predicate WasUsable(den0: map<Value, Labels>, shape0: map<Value, Shape>, place0: map<Value, Pos>,
                              dominates0: set<(Block, Block)>, v: Value, pos: Pos)
      reads this`constants
    {
      && v in den0 && v in shape0
      && (v in constants || (v in place0 && if place0[v].block == pos.block then place0[v].index <= pos.index
                                            else (place0[v].block, pos.block) in dominates0))
    }

    /** What could be used before some instructions were added can be used where they leave us. */
    lemma AllStillUsable(den0: map<Value, Labels>, shape0: map<Value, Shape>, place0: map<Value, Pos>,
                         dominates0: set<(Block, Block)>, vs: seq<Value>, pos: Pos, pos': Pos)
      requires OnlyNew(den0, shape0, place0) && Moved(dominates0, pos, pos') && (pos.block, pos.block) in dominates0
      requires forall j | 0 <= j < |vs| :: WasUsable(den0, shape0, place0, dominates0, vs[j], pos)
      ensures forall j | 0 <= j < |vs| :: Usable(vs[j], pos')
    {
      forall j | 0 <= j < |vs| ensures Usable(vs[j], pos') {
        assert WasUsable(den0, shape0, place0, dominates0, vs[j], pos);
      }
    }

    /** A constant, which may be a zero shadow. It does not matter where it is. */
    method Constant(s: Shape, isZero: bool, ghost d: Labels, pos: Pos) returns (v: Value)
      requires Valid() && Here(pos) && HasShape(d, s) && Flatten(d) == {}
      modifies this`shape, this`place, this`next, this`den, this`constants, this`zeros
      ensures Valid() && Here(pos) && Usable(v, pos) && shape[v] == s && den[v] == d
      ensures OnlyNew(old(den), old(shape), old(place)) && constants == old(constants) + {v}
      ensures v !in old(den) && zeros == if isZero then old(zeros) + {v} else old(zeros)
    {
      v := Emit(pos, s, d);
      MakeConstant(v, isZero, pos);
    }

    method MakeConstant(v: Value, isZero: bool, ghost pos: Pos)
      requires Valid() && Here(pos) && v in den && Flatten(den[v]) == {}
      modifies this`constants, this`zeros
      ensures Valid() && Here(pos) && constants == old(constants) + {v}
      ensures zeros == if isZero then old(zeros) + {v} else old(zeros)
    {
      constants := constants + {v};
      if isZero {
        zeros := zeros + {v};
      }
    }

    /** `getZeroShadow` */
    method ZeroShadow(s: Shape, pos: Pos) returns (v: Value)
      requires Valid() && Here(pos)
      modifies this`shape, this`place, this`next, this`den, this`constants, this`zeros
      ensures Valid() && Here(pos) && Usable(v, pos) && shape[v] == s && den[v] == Expanded(s, {})
      ensures zeros == old(zeros) + {v}
    {
      ExpandedHasShape(s, {});
      ExpandedFlatten(s, {});
      v := Constant(s, true, Expanded(s, {}), pos);
    }

    /** `insertvalue` of the primitive shadow. */
    method EmitInsert(shadow: Value, path: seq<nat>, v: Value, pos: Pos) returns (r: Value)
      requires Valid() && Here(pos) && shadow in den && v in den && Leads(den[shadow], path) && PartAt(den[shadow], path).Leaf?
      modifies this`shape, this`place, this`next, this`den
      ensures Valid() && Here(pos) && Usable(r, pos) && shape[r] == old(shape[shadow])
      ensures den[r] == old(Put(den[shadow], path, Leaf(Flatten(den[v])))) && OnlyNew(old(den), old(shape), old(place))
    {
      assert ShapeFits(den, shape, shadow);
      PutKeepsShape(den[shadow], shape[shadow], path, Primitive, Leaf(Flatten(den[v])));
      r := Emit(pos, shape[shadow], Put(den[shadow], path, Leaf(Flatten(den[v]))));
    }

    /** What is to be expanded is at `path` of `shadow`, and of shape `sub`. */
    ghost predicate Expandable(shadow: Value, path: seq<nat>, sub: Shape, v: Value, pos: Pos)
      reads this`den, this`shape, this`place, this`dominates, this`constants
    {
      Usable(shadow, pos) && Usable(v, pos) && Leads(den[shadow], path) && HasShape(PartAt(den[shadow], path), sub)
    }

    /** `expandFromPrimitiveShadowRecursive` */
    method ExpandPart(shadow: Value, path: seq<nat>, sub: Shape, v: Value, pos: Pos) returns (r: Value)
      requires Valid() && Here(pos) && Expandable(shadow, path, sub, v, pos)
      modifies this`shape, this`place, this`next, this`den
      ensures Valid() && Here(pos) && Usable(r, pos) && shape[r] == old(shape[shadow])
      ensures den[r] == old(Put(den[shadow], path, Expanded(sub, Flatten(den[v])))) && OnlyNew(old(den), old(shape), old(place))
      decreases sub, 1
    {
      match sub
      case Primitive =>
        r := EmitInsert(shadow, path, v, pos);
      case Aggregate(ss) =>
        ghost var e := Expansion(den[shadow], path, ss, Flatten(den[v]), shape[shadow]);
        NoneExpanded(e.whole, path, ss, e.labels);
        r := ExpandElements(shadow, path, ss, v, pos, e);
        AllExpanded(e.whole, path, ss, e.labels, den[r]);
    }

    /** How far the expansion of an aggregate has come. */
    ghost predicate Expanding(e: Expansion, n: nat, r: Value, v: Value, pos: Pos)
      reads this`den, this`shape, this`place, this`dominates, this`constants
    {
      && Usable(r, pos) && Usable(v, pos) && Flatten(den[v]) == e.labels && shape[r] == e.shape
      && ExpandedSoFar(e.whole, e.path, e.ss, e.labels, n, den[r])
    }

    method ExpandElements(shadow: Value, path: seq<nat>, ss: seq<Shape>, v: Value, pos: Pos, ghost e: Expansion)
      returns (r: Value)
      requires Valid() && Here(pos) && Expanding(e, 0, shadow, v, pos) && e.ss == ss && e.path == path
      modifies this`shape, this`place, this`next, this`den
      ensures Valid() && Here(pos) && Expanding(e, |ss|, r, v, pos) && OnlyNew(old(den), old(shape), old(place))
      decreases ss, 0
    {
      r := shadow;
      for i := 0 to |ss|
        invariant Valid() && Here(pos) && Expanding(e, i, r, v, pos) && OnlyNew(old(den), old(shape), old(place))
      {
        ghost var den1, shape1, place1 := den, shape, place;
        r := ExpandElement(r, path + [i], ss[i], v, pos, e, i);
        OnlyNewTrans(old(den), old(shape), old(place), den1, shape1, place1);
      }
    }

    method ExpandElement(shadow: Value, path: seq<nat>, sub: Shape, v: Value, pos: Pos, ghost e: Expansion, ghost i: nat)
      returns (r: Value)
      requires Valid() && Here(pos) && Expanding(e, i, shadow, v, pos) && i < |e.ss| && sub == e.ss[i] && path == e.path + [i]
      modifies this`shape, this`place, this`next, this`den
      ensures Valid() && Here(pos) && Expanding(e, i + 1, r, v, pos) && OnlyNew(old(den), old(shape), old(place))
      decreases sub, 2
    {
      MixedStep(e.whole, e.path, e.ss, e.labels, i, den[shadow]);
      r := ExpandPart(shadow, path, sub, v, pos);
    }

    /** `expandFromPrimitiveShadow`: every part gets the labels of the primitive shadow. What is remembered for collapsing
        the result again is right exactly if it has a part, or there are no labels. */
    method ExpandFromPrimitiveShadow(s: Shape, v: Value, pos: Pos) returns (r: Value)
      requires Valid() && Usable(v, pos) && shape[v].Primitive? && Here(pos)
      modifies this`shape, this`place, this`next, this`den, this`constants, this`zeros, this`cachedCollapsedShadows
      ensures Usable(r, pos) && shape[r] == s && den[r] == Expanded(s, old(Flatten(den[v])))
      ensures Valid() <==> HasLeaf(s) || old(Flatten(den[v])) == {}
      ensures zeros == if v in old(zeros) then old(zeros) + {r} else old(zeros)
    {
      assert ShapeFits(den, shape, v);
      if s.Primitive? {
        r := v;
      } else if IsZeroShadow(v) {
        r := ZeroShadow(s, pos);
      } else {
        r := ExpandUndefined(s, v, pos);
        ExpandedFlatten(s, Flatten(den[v]));
        Remember(r, v);
      }
    }

    method ExpandUndefined(s: Shape, v: Value, pos: Pos) returns (r: Value)
      requires Valid() && Usable(v, pos) && Here(pos)
      modifies this`shape, this`place, this`next, this`den, this`constants, this`zeros
      ensures Valid() && Usable(r, pos) && shape[r] == s && den[r] == Expanded(s, Flatten(old(den)[v])) && zeros == old(zeros)
      ensures OnlyNew(old(den), old(shape), old(place))
    {
      ExpandedHasShape(s, {});
      ExpandedFlatten(s, {});
      r := Constant(s, false, Expanded(s, {}), pos);
      ghost var den1, shape1, place1 := den, shape, place;
      r := ExpandPart(r, [], s, v, pos);
      OnlyNewTrans(old(den), old(shape), old(place), den1, shape1, place1);
    }

    method Remember(shadow: Value, v: Value)
      requires Valid() && shadow in den && v in den && shape[v].Primitive?
      modifies this`cachedCollapsedShadows
      ensures Valid() <==> Flatten(den[shadow]) == Flatten(den[v])
    {
      cachedCollapsedShadows := cachedCollapsedShadows[shadow := v];
      assert CachesOk() ==> CollapsedOk(den, shape, shadow, cachedCollapsedShadows[shadow]);
    }

    /** `combineOperandShadows`: every part of the result has the labels of all operands. A lone operand has a primitive
        shadow, as expansion takes it for one. */
    method CombineOperandShadows(s: Shape, vs: seq<Value>, pos: Pos) returns (r: Value, pos': Pos)
      requires Valid() && DominanceOk() && Here(pos) && (forall i | 0 <= i < |vs| :: Usable(vs[i], pos))
      requires |vs| == 1 ==> vs[0] in shape && shape[vs[0]].Primitive?
      modifies this
      ensures DominanceOk() && Usable(r, pos') && shape[r] == s && den[r] == Expanded(s, FlattenAll(old(den), vs))
      ensures Valid() <==> HasLeaf(s) || FlattenAll(old(den), vs) == {}
    {
      if |vs| == 0 {
        pos' := pos;
        r := ZeroShadow(s, pos);
        return;
      }
      r, pos' := CombineAll(vs, pos);
      r := ExpandFromPrimitiveShadow(s, r, pos');
    }

    /** The values can still be used where combining two has led to. */
    method CombineNext(v1: Value, v2: Value, ghost vs: seq<Value>, pos: Pos) returns (r: Value, pos': Pos)
      requires Valid() && DominanceOk() && Usable(v1, pos) && Usable(v2, pos) && Here(pos)
      requires forall j | 0 <= j < |vs| :: Usable(vs[j], pos)
      modifies this
      ensures Valid() && DominanceOk() && Usable(r, pos') && shape[r].Primitive? && Here(pos')
      ensures Flatten(den[r]) == Flatten(old(den)[v1]) + Flatten(old(den)[v2])
      ensures OnlyNew(old(den), old(shape), old(place)) && constants == old(constants)
      ensures forall j | 0 <= j < |vs| :: Usable(vs[j], pos')
    {
      r, pos' := CombineShadows(v1, v2, pos);
      AllStillUsable(old(den), old(shape), old(place), old(dominates), vs, pos, pos');
    }

    method CombineAll(vs: seq<Value>, pos: Pos) returns (r: Value, pos': Pos)
      requires Valid() && DominanceOk() && Here(pos) && vs != [] && (forall i | 0 <= i < |vs| :: Usable(vs[i], pos))
      requires |vs| == 1 ==> vs[0] in shape && shape[vs[0]].Primitive?
      modifies this
      ensures Valid() && DominanceOk() && Usable(r, pos') && Here(pos') && shape[r].Primitive?
      ensures Flatten(den[r]) == FlattenAll(old(den), vs)
    {
      pos' := pos;
      r := vs[0];
      assert vs[..1] == [vs[0]] && vs[..1][..0] == [];
      var i := 1;
      while i < |vs|
        invariant 1 <= i <= |vs| && Valid() && DominanceOk() && Usable(r, pos') && Here(pos')
        invariant i == |vs| ==> shape[r].Primitive?
        invariant OnlyNew(old(den), old(shape), old(place)) && constants == old(constants)
        invariant forall j | 0 <= j < |vs| :: vs[j] in old(den) && Usable(vs[j], pos')
        invariant Flatten(den[r]) == FlattenAll(old(den), vs[..i])
      {
        assert vs[..i + 1][..i] == vs[..i];
        ghost var den1, shape1, place1 := den, shape, place;
        r, pos' := CombineNext(r, vs[i], vs, pos');
        OnlyNewTrans(old(den), old(shape), old(place), den1, shape1, place1);
        i := i + 1;
      }
      assert vs[..|vs|] == vs;
    }

    method CollapseBoth(v1: Value, v2: Value, pos: Pos) returns (r1: Value, r2: Value)
      requires Valid() && Usable(v1, pos) && Usable(v2, pos) && Here(pos)
      modifies this`shape, this`place, this`next, this`den, this`cachedCollapsedShadows
      ensures Valid() && Here(pos) && r1 in den && r2 in den
      ensures Flatten(den[r1]) == Flatten(old(den)[v1]) && Flatten(den[r2]) == Flatten(old(den)[v2])
      ensures OnlyNew(old(den), old(shape), old(place))
    {
      r1 := CollapseToPrimitiveShadow(v1, pos);
      ghost var den1, shape1, place1 := den, shape, place;
      r2 := CollapseToPrimitiveShadow(v2, pos);
      OnlyNewTrans(old(den), old(shape), old(place), den1, shape1, place1);
    }

    method CombineNew(v1: Value, v2: Value, pos: Pos) returns (r: Value, pos': Pos)
      requires Valid() && DominanceOk() && Usable(v1, pos) && Usable(v2, pos) && Here(pos)
      modifies this
      ensures Valid() && DominanceOk() && Usable(r, pos') && shape[r].Primitive? && Here(pos')
      ensures Flatten(den[r]) == Flatten(old(den)[v1]) + Flatten(old(den)[v2])
      ensures OnlyNew(old(den), old(shape), old(place)) && constants == old(constants)
      ensures Moved(old(dominates), pos, pos')
      ensures r !in old(den) && shadowElements == old(shadowElements)[r := old(Elements(v1) + Elements(v2))]
      ensures cachedShadows == old(cachedShadows)[Key(v1, v2) := CachedShadow(pos'.block, r)]
    {
      var pv1, pv2 := CollapseBoth(v1, v2, pos);
      ghost var den1, shape1, place1 := den, shape, place;
      r, pos' := EmitUnion(pv1, pv2, pos);
      OnlyNewTrans(old(den), old(shape), old(place), den1, shape1, place1);
      Record(v1, v2, r, pos');
    }
  }

  /** The labels of some operands. */
  ghost function FlattenAll(den: map<Value, Labels>, vs: seq<Value>): set<nat> {
    if vs == [] then {}
    else
      var v := vs[|vs| - 1];
      FlattenAll(den, vs[..|vs| - 1]) + if v in den then Flatten(den[v]) else {}
  }

  ghost predicate MovedTo(dom: set<(Block, Block)>, dom': set<(Block, Block)>, pos: Pos, pos': Pos) {
    && (pos' == pos || IsUnknown(dom, pos'.block))
    && (forall b | (b, pos.block) in dom :: (b, pos'.block) in dom')
  }

  lemma SplitMoves(dom: set<(Block, Block)>, pos: Pos, side: Block, tail: Pos)
    requires AllBelow(dom, side) && side < tail.block
    ensures MovedTo(dom, AfterSplit(dom, pos.block, side, tail.block), pos, tail)
  {
  }

  /** Instructions are in blocks that exist. */
  ghost predicate PlacedBelow(place: map<Value, Pos>, constants: set<Value>, n: Block) {
    forall v | v in place :: v in constants || place[v].block < n
  }

  lemma NothingInNewBlocks(place: map<Value, Pos>, constants: set<Value>, n: Block, thenPos: Pos, tail: Pos)
    requires PlacedBelow(place, constants, n) && n <= thenPos.block && n <= tail.block
    ensures NothingBehind(place, constants, thenPos) && NothingBehind(place, constants, tail)
    ensures PlacedBelow(place, constants, n + 2)
  {
  }

  ghost predicate NothingBehind(place: map<Value, Pos>, constants: set<Value>, pos: Pos) {
    forall v | v in place && v !in constants && place[v].block == pos.block :: place[v].index <= pos.index
  }
}
