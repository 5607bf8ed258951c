/** `DaisyChain` and `DaisyChains` of `hbg.py`: for each cache line and thread, links from every read and
    write to the thread's next write of the line. */
module DaisyChainSpec {
  import opened Wrappers
  import opened Hbg
  import opened Picking

  /** One call of `add_write_node` or `add_read_node`. */
  datatype Added = Added(node: Loc, isWrite: bool)

  ghost predicate Distinct(a: seq<Added>) { forall i, j | 0 <= i < j < |a| :: a[i].node != a[j].node }

  function Last(a: seq<Added>): Added
    requires a != []
  {
    a[|a| - 1]
  }

  function Init(a: seq<Added>): seq<Added>
    requires a != []
  {
    a[..|a| - 1]
  }

  /** The dictionary after the calls `a`: a new write takes every open link. */
  ghost function Links(a: seq<Added>): map<Loc, Option<Loc>> {
    if a == [] then map[]
    else
      var before, n := Links(Init(a)), Last(a).node;
      if Last(a).isWrite then
        map x | x in before.Keys + {n} :: if x == n then None else if before[x].None? then Some(n) else before[x]
      else before[n := None]
  }

  /** First write at or after position `i`. */
  function NextWrite(a: seq<Added>, i: nat): Option<Loc>
    decreases |a| - i
  {
    if i >= |a| then None else if a[i].isWrite then Some(a[i].node) else NextWrite(a, i + 1)
  }

  /** All writes at or after position `i`, in order. */
  function WritesFrom(a: seq<Added>, i: nat): seq<Loc>
    decreases |a| - i
  {
    if i >= |a| then [] else (if a[i].isWrite then [a[i].node] else []) + WritesFrom(a, i + 1)
  }

  function LastWrite(a: seq<Added>): Option<Loc> {
    if a == [] then None else if Last(a).isWrite then Some(Last(a).node) else LastWrite(Init(a))
  }

  function Writes(a: seq<Added>): set<Loc> { set i | 0 <= i < |a| && a[i].isWrite :: a[i].node }

  lemma {:induction false} NextWriteAppend(a: seq<Added>, n: Added, i: nat)
    requires i <= |a|
    ensures NextWrite(a + [n], i) == if n.isWrite && NextWrite(a, i).None? then Some(n.node) else NextWrite(a, i)
    decreases |a| - i
  {
    if i < |a| {
      NextWriteAppend(a, n, i + 1);
    } else {
      assert NextWrite(a + [n], i + 1) == None;
    }
  }

  lemma {:induction false} LinksHas(a: seq<Added>, x: Loc)
    ensures x in Links(a) <==> exists i :: 0 <= i < |a| && a[i].node == x
  {
    if a != [] {
      LinksHas(Init(a), x);
      if x in Links(a) && x != Last(a).node {
        var i :| 0 <= i < |Init(a)| && Init(a)[i].node == x;
        assert a[i].node == x;
      }
      if i :| 0 <= i < |a| && a[i].node == x {
        if i < |a| - 1 {
          assert Init(a)[i].node == x;
        }
      }
    }
  }

  /** Every link leads to the next write added after its node. */
  lemma {:induction false} LinkIsNextWrite(a: seq<Added>, i: nat)
    requires Distinct(a) && i < |a|
    ensures a[i].node in Links(a) && Links(a)[a[i].node] == NextWrite(a, i + 1)
  {
    var b := Init(a);
    assert a == b + [Last(a)];
    if i < |b| {
      assert Distinct(b);
      LinkIsNextWrite(b, i);
      NextWriteAppend(b, Last(a), i + 1);
    }
  }

  lemma {:induction false} FirstNone(a: seq<Added>, i: nat)
    ensures NextWrite(a, i).None? ==> WritesFrom(a, i) == []
    decreases |a| - i
  {
    if i < |a| && !a[i].isWrite {
      FirstNone(a, i + 1);
    }
  }

  lemma {:induction false} LastWriteNone(a: seq<Added>)
    ensures LastWrite(a).None? <==> NextWrite(a, 0).None?
  {
    if a != [] {
      LastWriteNone(Init(a));
      assert a == Init(a) + [Last(a)];
      NextWriteAppend(Init(a), Last(a), 0);
    }
  }

  /** Following one link skips no write. */
  lemma {:induction false} LinkSkipsNothing(a: seq<Added>, i: nat) returns (j: nat)
    requires NextWrite(a, i).Some?
    ensures i <= j < |a| && a[j].node == NextWrite(a, i).value && WritesFrom(a, i) == WritesFrom(a, j)
    decreases |a| - i
  {
    j := i;
    if !a[i].isWrite {
      j := LinkSkipsNothing(a, i + 1);
    }
  }

  class DaisyChain {
    var firstNode: Option<Loc>
    var lastNode: Option<Loc>
    var chain: map<Loc, Option<Loc>>
    var writeNodes: set<Loc>
    var danglingReads: set<Loc>
    ghost var added: seq<Added>

    ghost predicate Valid()
      reads this
    {
      && Distinct(added)
      && chain == Links(added)
      && writeNodes == Writes(added)
      && firstNode == NextWrite(added, 0)
      && lastNode == LastWrite(added)
      && danglingReads <= chain.Keys
      && (lastNode.Some? ==> lastNode.value in chain)
      && (forall x | x in chain :: chain[x].None? <==> x in danglingReads || lastNode == Some(x))
    }

    constructor ()
      ensures Valid() && added == []
    {
      firstNode, lastNode, chain, writeNodes, danglingReads := None, None, map[], {}, {};
      added := [];
    }

    method AddWriteNode(n: Loc)
      requires Valid() && n !in chain
      modifies this
      ensures Valid() && added == old(added) + [Added(n, true)]
    {
      ghost var before := added;
      LinkWrite(n);
      writeNodes := writeNodes + {n};
      added := added + [Added(n, true)];
      assert Init(added) == before;
      assert chain == Links(added);
      NextWriteAppend(before, Added(n, true), 0);
      LastWriteNone(before);
      DistinctAppend(before, Added(n, true));
      WritesAppend(before, Added(n, true));
    }

    /** The last write and the reads after it get their link to `n`. */
    method LinkWrite(n: Loc)
      requires danglingReads <= chain.Keys && (lastNode.Some? ==> lastNode.value in chain) && n !in chain
      requires forall x | x in chain :: chain[x].None? <==> x in danglingReads || lastNode == Some(x)
      modifies this`firstNode, this`lastNode, this`chain, this`danglingReads
      ensures danglingReads == {} && lastNode == Some(n) && chain.Keys == old(chain.Keys) + {n}
      ensures firstNode == if old(lastNode).Some? then old(firstNode) else Some(n)
      ensures forall x | x in chain ::
                chain[x] == if x == n then None else if old(chain)[x].None? then Some(n) else old(chain)[x]
    {
      if lastNode.Some? {
        chain := chain[lastNode.value := Some(n)];
      } else {
        firstNode := Some(n);
      }
      lastNode := Some(n);
      chain := chain[n := None];
      ResolveDangling(n);
    }

    method ResolveDangling(n: Loc)
      requires danglingReads <= chain.Keys
      modifies this`danglingReads, this`chain
      ensures danglingReads == {} && chain.Keys == old(chain.Keys)
      ensures forall x | x in chain :: chain[x] == if x in old(danglingReads) then Some(n) else old(chain)[x]
    {
      while danglingReads != {}
        invariant danglingReads <= old(danglingReads) && chain.Keys == old(chain.Keys)
        invariant forall x | x in chain ::
                    chain[x] == if x in old(danglingReads) && x !in danglingReads then Some(n) else old(chain)[x]
        decreases danglingReads
      {
        var r := Pick(danglingReads);
        danglingReads := danglingReads - {r};
        chain := chain[r := Some(n)];
      }
    }

    method AddReadNode(n: Loc)
      requires Valid() && n !in chain
      modifies this
      ensures Valid() && added == old(added) + [Added(n, false)]
    {
      ghost var before := added;
      danglingReads := danglingReads + {n};
      chain := chain[n := None];
      added := added + [Added(n, false)];
      assert Init(added) == before;
      NextWriteAppend(before, Added(n, false), 0);
      DistinctAppend(before, Added(n, false));
      WritesAppend(before, Added(n, false));
    }

    /** All writes from the start node on; no result where the source raises `IndexError`. */
    method GetChain(start: Option<Loc>) returns (r: Option<seq<Loc>>)
      requires Valid()
      ensures start.None? ==> r == Some(WritesFrom(added, 0))
      ensures start.Some? ==> (r.Some? <==> exists i :: 0 <= i < |added| && added[i].node == start.value)
      ensures forall i | 0 <= i < |added| && start == Some(added[i].node) :: r == Some(WritesFrom(added, i))
    {
      if start.None? {
        FirstNone(added, 0);
        if firstNode.None? {
          return Some([]);
        }
        ghost var j := LinkSkipsNothing(added, 0);
        var found := Walk(firstNode.value, j);
        return Some(found);
      }
      LinksHas(added, start.value);
      if start.value !in chain {
        return None;
      }
      ghost var i: nat :| i < |added| && added[i].node == start.value;
      var found := Walk(start.value, i);
      return Some(found);
    }

    method Walk(start: Loc, ghost from: nat) returns (found: seq<Loc>)
      requires Valid() && from < |added| && added[from].node == start
      ensures found == WritesFrom(added, from)
    {
      var nextNode := start;
      ghost var i, all := from, WritesFrom(added, from);
      found := [];
      while true
        invariant i < |added| && added[i].node == nextNode
        invariant found + WritesFrom(added, i) == all
        decreases |added| - i
      {
        WritesAre(added, i);
        if nextNode in writeNodes {
          found := found + [nextNode];
        }
        assert found + WritesFrom(added, i + 1) == all;
        var link := Link(nextNode, i);
        FirstNone(added, i + 1);
        if link.None? {
          return;
        }
        nextNode := link.value;
        i := LinkSkipsNothing(added, i + 1);
      }
    }

    method Link(x: Loc, ghost i: nat) returns (link: Option<Loc>)
      requires Valid() && i < |added| && added[i].node == x
      ensures link == NextWrite(added, i + 1)
    {
      LinkIsNextWrite(added, i);
      link := chain[x];
    }
  }

  lemma DistinctAppend(a: seq<Added>, n: Added)
    requires Distinct(a) && n.node !in Links(a)
    ensures Distinct(a + [n])
  {
    LinksHas(a, n.node);
  }

  lemma WritesAppend(a: seq<Added>, n: Added)
    ensures Writes(a + [n]) == if n.isWrite then Writes(a) + {n.node} else Writes(a)
  {
    var b := a + [n];
    forall x | x in Writes(a) ensures x in Writes(b) {
      var i :| 0 <= i < |a| && a[i].isWrite && a[i].node == x;
      assert b[i] == a[i];
    }
    if n.isWrite {
      assert b[|a|] == n;
    }
  }

  lemma WritesAre(a: seq<Added>, i: nat)
    requires Distinct(a) && i < |a|
    ensures a[i].node in Writes(a) <==> a[i].isWrite
  {
  }
}
