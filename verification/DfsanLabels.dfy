/** Taint labels of `dfsan.cpp`: what a label stands for. */
module LabelSpec {
  import opened Powers

  /** `dfsan_label_info`: the two labels a union was made of; a base label has none. */
  datatype Info = Info(l1: nat, l2: nat, desc: string)

  const NUM_LABELS: nat := 0x10000
  const INITIALIZING: nat := 0xFFFF

  /** Labels up to `n` are base labels or unions of two smaller ones. */
  predicate Descends(info: seq<Info>, n: nat) {
    n < |info| && info[0].l1 == 0 && forall l | 0 <= l <= n :: info[l].l1 == info[l].l2 == 0 || 0 < info[l].l1 < info[l].l2 < l
  }

  /** The base labels a label stands for; label 0 stands for none. */
  ghost function Base(info: seq<Info>, l: nat): set<nat>
    decreases l
  {
    if l == 0 || l >= |info| then {}
    else if info[l].l1 == 0 then {l}
    else if info[l].l1 < l && info[l].l2 < l then Base(info, info[l].l1) + Base(info, info[l].l2)
    else {}
  }

  /** `dfsan_has_label`. It ends because both parts of a union are smaller than the union. */
  predicate HasLabel(info: seq<Info>, whole: nat, elem: nat)
    requires Descends(info, whole)
    decreases whole
  {
    whole == elem
    || (info[whole].l1 != 0 && (HasLabel(info, info[whole].l1, elem) || HasLabel(info, info[whole].l2, elem)))
  }

  /** Every label of the chain is one of the two the label before it was made of. */
  ghost predicate LeadsTo(info: seq<Info>, chain: seq<nat>, whole: nat, elem: nat) {
    && chain != [] && chain[0] == whole && chain[|chain| - 1] == elem
    && forall i | 0 <= i < |chain| - 1 :: IsPart(info, chain[i], chain[i + 1])
  }

  predicate IsPart(info: seq<Info>, l: nat, part: nat) {
    l < |info| && info[l].l1 != 0 && (part == info[l].l1 || part == info[l].l2)
  }

  /** A label has itself, and what its parts have. */
  lemma {:induction false} HasLabelIff(info: seq<Info>, whole: nat, elem: nat)
    requires Descends(info, whole)
    ensures HasLabel(info, whole, elem) <==> exists chain :: LeadsTo(info, chain, whole, elem)
    decreases whole
  {
    if HasLabel(info, whole, elem) {
      if whole == elem {
        assert LeadsTo(info, [whole], whole, elem);
      } else {
        var part := if HasLabel(info, info[whole].l1, elem) then info[whole].l1 else info[whole].l2;
        HasLabelIff(info, part, elem);
        var chain :| LeadsTo(info, chain, part, elem);
        LeadsFrom(info, chain, whole, part, elem);
      }
    }
    if chain :| LeadsTo(info, chain, whole, elem) {
      if |chain| > 1 {
        assert IsPart(info, chain[0], chain[0 + 1]);
        LeadsOn(info, chain, whole, elem);
        HasLabelIff(info, chain[1], elem);
      }
    }
  }

  lemma LeadsFrom(info: seq<Info>, chain: seq<nat>, whole: nat, part: nat, elem: nat)
    requires LeadsTo(info, chain, part, elem) && IsPart(info, whole, part)
    ensures LeadsTo(info, [whole] + chain, whole, elem)
  {
    var longer := [whole] + chain;
    forall i | 0 <= i < |longer| - 1 ensures IsPart(info, longer[i], longer[i + 1]) {
      assert i > 0 ==> IsPart(info, chain[i - 1], chain[i - 1 + 1]);
    }
  }

  lemma LeadsOn(info: seq<Info>, chain: seq<nat>, whole: nat, elem: nat)
    requires LeadsTo(info, chain, whole, elem) && |chain| > 1
    ensures LeadsTo(info, chain[1..], chain[1], elem)
  {
    forall i | 0 <= i < |chain[1..]| - 1 ensures IsPart(info, chain[1..][i], chain[1..][i + 1]) {
      assert IsPart(info, chain[i + 1], chain[i + 1 + 1]);
    }
  }

  /** For base labels `dfsan_has_label` decides membership. */
  lemma {:induction false} HasLabelDecides(info: seq<Info>, whole: nat, elem: nat)
    requires Descends(info, whole) && 0 < elem < |info| && info[elem].l1 == 0
    ensures HasLabel(info, whole, elem) <==> elem in Base(info, whole)
    decreases whole
  {
    if whole != elem && info[whole].l1 != 0 {
      HasLabelDecides(info, info[whole].l1, elem);
      HasLabelDecides(info, info[whole].l2, elem);
    }
  }

  /** A union has every label it was made of, and with it all that label stands for. */
  lemma {:induction false} HasLabelIncludes(info: seq<Info>, whole: nat, elem: nat)
    requires Descends(info, whole) && HasLabel(info, whole, elem)
    ensures elem <= whole && Base(info, elem) <= Base(info, whole)
    decreases whole
  {
    if whole != elem {
      if HasLabel(info, info[whole].l1, elem) {
        HasLabelIncludes(info, info[whole].l1, elem);
      } else {
        HasLabelIncludes(info, info[whole].l2, elem);
      }
    }
  }

  predicate HasLabelWithDesc(info: seq<Info>, whole: nat, desc: string)
    requires Descends(info, whole)
    decreases whole
  {
    if info[whole].l1 != 0 then
      HasLabelWithDesc(info, info[whole].l1, desc) || HasLabelWithDesc(info, info[whole].l2, desc)
    else
      desc == info[whole].desc
  }

  lemma {:induction false} HasLabelWithDescDecides(info: seq<Info>, whole: nat, desc: string)
    requires Descends(info, whole) && 0 < whole
    ensures HasLabelWithDesc(info, whole, desc) <==> exists b :: b in Base(info, whole) && b < |info| && info[b].desc == desc
    decreases whole
  {
    if info[whole].l1 != 0 {
      HasLabelWithDescDecides(info, info[whole].l1, desc);
      HasLabelWithDescDecides(info, info[whole].l2, desc);
    } else {
      assert whole in Base(info, whole);
    }
  }

  /** What a label stands for depends on the entries up to it only. */
  lemma {:induction false} BaseFrame(info: seq<Info>, info': seq<Info>, l: nat)
    requires Descends(info, l) && l < |info'|
    requires forall i | 0 <= i <= l :: info'[i].l1 == info[i].l1 && info'[i].l2 == info[i].l2
    ensures Descends(info', l) && Base(info', l) == Base(info, l)
    decreases l
  {
    if l != 0 && info[l].l1 != 0 {
      BaseFrame(info, info', info[l].l1);
      BaseFrame(info, info', info[l].l2);
    }
  }

  /** Everything that existed still stands for the same base labels. */
  ghost predicate Extends(info: seq<Info>, last: nat, info': seq<Info>, last': nat)
    requires Descends(info, last) && Descends(info', last')
  {
    last <= last' && forall l | 0 <= l <= last :: Base(info', l) == Base(info, l)
  }

  lemma ExtendsFrame(info: seq<Info>, last: nat, info': seq<Info>, last': nat)
    requires Descends(info, last) && Descends(info', last') && last <= last'
    requires forall i | 0 <= i <= last :: info'[i].l1 == info[i].l1 && info'[i].l2 == info[i].l2
    ensures Extends(info, last, info', last')
  {
    forall l | 0 <= l <= last ensures Base(info', l) == Base(info, l) {
      BaseFrame(info, info', l);
    }
  }

  /** A table entry holds the union of its pair, no older than the newer of the two. */
  ghost predicate UnionOk(info: seq<Info>, last: nat, k: (nat, nat), l: nat)
    requires Descends(info, last)
  {
    0 < k.0 < k.1 <= l <= last && Base(info, l) == Base(info, k.0) + Base(info, k.1)
  }

  ghost predicate TableOk(info: seq<Info>, last: nat, unions: map<(nat, nat), nat>) {
    && |info| == NUM_LABELS && last < INITIALIZING && Descends(info, last)
    && forall k | k in unions :: UnionOk(info, last, k, unions[k])
  }

  /** Writing the entry of a label that did not exist leaves everything else as it was. */
  lemma NewEntry(info: seq<Info>, last: nat, unions: map<(nat, nat), nat>, entry: Info)
    requires TableOk(info, last, unions) && last + 1 < INITIALIZING
    requires entry.l1 == entry.l2 == 0 || 0 < entry.l1 < entry.l2 <= last
    ensures TableOk(info[last + 1 := entry], last + 1, unions)
    ensures Extends(info, last, info[last + 1 := entry], last + 1)
  {
    ExtendsFrame(info, last, info[last + 1 := entry], last + 1);
  }

  /** Recording the union of a pair. */
  lemma NewUnionEntry(info: seq<Info>, last: nat, unions: map<(nat, nat), nat>, l1: nat, l2: nat, l: nat)
    requires TableOk(info, last, unions) && 0 < l1 < l2 <= l <= last
    requires if l == l2 then info[l2].l1 == l1 || info[l2].l2 == l1 else info[l].l1 == l1 && info[l].l2 == l2
    ensures TableOk(info, last, unions[(l1, l2) := l]) && Base(info, l) == Base(info, l1) + Base(info, l2)
  {
  }

  type Label = l: nat | l < NUM_LABELS

  lemma Pow16()
    ensures Pow(2, 16) == NUM_LABELS
  {
    assert Pow(2, 4) == 16;
    assert Pow(2, 8) == 256;
    assert Pow(2, 12) == 4096;
  }

  /** `a | b` on numbers of `n` bits. */
  function OrBits(a: nat, b: nat, n: nat): (c: nat)
    ensures c < Pow(2, n)
  {
    if n == 0 then 0 else 2 * OrBits(a / 2, b / 2, n - 1) + if a % 2 == 1 || b % 2 == 1 then 1 else 0
  }

  /** A union of labels that are sets of sixteen bits. */
  function Or(a: Label, b: Label): Label {
    Pow16();
    OrBits(a, b, 16)
  }

  lemma {:induction false} OrBitsZero(a: nat, n: nat)
    requires a < Pow(2, n)
    ensures OrBits(a, 0, n) == a && OrBits(0, a, n) == a && OrBits(a, a, n) == a
  {
    if n > 0 {
      OrBitsZero(a / 2, n - 1);
    }
  }

  lemma OrZero(a: Label)
    ensures Or(a, 0) == a && Or(0, a) == a && Or(a, a) == a
  {
    Pow16();
    OrBitsZero(a, 16);
  }

  /** `__dfsan_union_load_fast16labels` */
  function OrAll(ls: seq<Label>): Label
    requires ls != []
  {
    if |ls| == 1 then ls[0] else Or(OrAll(ls[..|ls| - 1]), ls[|ls| - 1])
  }

  /** What a range of shadow cells stands for. */
  ghost function BaseOfAll(info: seq<Info>, ls: seq<Label>): set<nat> {
    if ls == [] then {} else BaseOfAll(info, ls[..|ls| - 1]) + Base(info, ls[|ls| - 1])
  }
}

/** One thread using the label table. */
module LabelTables {
  import opened LabelSpec
  import opened Wrappers

  class LabelTable {
    var lastLabel: nat
    const info: array<Info>
    var unions: map<(nat, nat), nat>

    ghost predicate Valid()
      reads this, info
    {
      info.Length == NUM_LABELS && TableOk(info[..], lastLabel, unions)
    }

    constructor ()
      ensures Valid() && fresh(info) && lastLabel == 0 && unions == map[]
    {
      lastLabel, unions := 0, map[];
      info := new Info[NUM_LABELS](_ => Info(0, 0, ""));
    }

    /** Labels are sixteen-bit sets until the first one is created, and from then on the ones created. */
    ghost predicate Exists(l: nat)
      reads this
    {
      l < NUM_LABELS && (lastLabel > 0 ==> l <= lastLabel)
    }

    twostate predicate Grows()
      requires old(Valid()) && Valid()
      reads this, info
    {
      Extends(old(info[..]), old(lastLabel), info[..], lastLabel)
    }

    /** `None`: the process dies because the labels are used up. */
    method CreateLabel(desc: string) returns (r: Option<Label>)
      requires Valid()
      modifies this, info
      ensures r.None? <==> old(lastLabel) == INITIALIZING - 1
      ensures r.Some? ==> Valid() && r.value == lastLabel == old(lastLabel) + 1 && info[r.value].desc == desc
      ensures r.Some? ==> Base(info[..], lastLabel) == {lastLabel} && Grows()
    {
      lastLabel := lastLabel + 1;
      var next := lastLabel;
      if next == INITIALIZING {
        return None;
      }
      info[next] := Info(0, 0, desc);
      NewEntry(old(info[..]), next - 1, unions, info[next]);
      assert info[..] == old(info[..])[next := info[next]];
      r := Some(next);
    }

    /** `__dfsan_union`: a pair gets one label for good, and a new one only if it has none and is no part of the other. */
    method Union(a: Label, b: Label) returns (r: Option<Label>)
      requires Valid() && a != b && Exists(a) && Exists(b)
      modifies this, info
      ensures r.Some? && old(lastLabel) > 0 && a != 0 && b != 0 ==>
                var k := if a > b then (b, a) else (a, b);
                && unions == old(unions)[k := r.value]
                && (k in old(unions) ==> r.value == old(unions)[k])
                && lastLabel == old(lastLabel) + if k in old(unions) || old(PartOf(k.0, k.1)) then 0 else 1
      ensures a == 0 || b == 0 ==> r == Some(if a == 0 then b else a) && unions == old(unions) && lastLabel == old(lastLabel)
      ensures old(lastLabel) == 0 ==> r == Some(Or(a, b)) && Valid() && lastLabel == 0
      ensures r.None? ==> old(lastLabel) == INITIALIZING - 1
      ensures r.Some? ==> Valid() && Grows() && Exists(r.value)
      ensures r.Some? && old(lastLabel) > 0 ==> Base(info[..], r.value) == Base(old(info[..]), a) + Base(old(info[..]), b)
    {
      if a == 0 || b == 0 {
        OrZero(if a == 0 then b else a);
        return Some(if a == 0 then b else a);
      }
      if lastLabel == 0 {
        return Some(Or(a, b));
      }
      var l1, l2 := a, b;
      if l1 > l2 {
        l1, l2 := l2, l1;
      }
      if (l1, l2) in unions {
        r := Some(unions[(l1, l2)]);
      } else {
        r := NewUnion(l1, l2);
      }
    }

    /** The larger label is itself a union with the smaller one. */
    predicate PartOf(l1: Label, l2: Label)
      requires info.Length == NUM_LABELS
      reads info
    {
      info[l2].l1 == l1 || info[l2].l2 == l1
    }

    /** The table has no entry yet. A label that is a part of the other needs no new one. */
    method NewUnion(l1: Label, l2: Label) returns (r: Option<Label>)
      requires Valid() && 0 < l1 < l2 <= lastLabel && (l1, l2) !in unions
      modifies this, info
      ensures r.None? ==> old(lastLabel) == INITIALIZING - 1
      ensures r.Some? ==> Valid() && Grows() && 0 < r.value <= lastLabel && unions == old(unions)[(l1, l2) := r.value]
      ensures r.Some? ==> lastLabel == old(lastLabel) + if old(PartOf(l1, l2)) then 0 else 1
      ensures r.Some? ==> Base(info[..], r.value) == Base(old(info[..]), l1) + Base(old(info[..]), l2)
    {
      if PartOf(l1, l2) {
        r := Some(l2);
      } else {
        r := NewPair(l1, l2);
      }
      if r.Some? {
        NewUnionEntry(info[..], lastLabel, unions, l1, l2, r.value);
        unions := unions[(l1, l2) := r.value];
      }
    }

    method NewPair(l1: Label, l2: Label) returns (r: Option<Label>)
      requires Valid() && 0 < l1 < l2 <= lastLabel
      modifies this`lastLabel, info
      ensures r.None? ==> old(lastLabel) == INITIALIZING - 1
      ensures r.Some? ==> Valid() && Grows() && r.value == lastLabel == old(lastLabel) + 1
      ensures r.Some? ==> info[r.value].l1 == l1 && info[r.value].l2 == l2
    {
      lastLabel := lastLabel + 1;
      var next := lastLabel;
      if next == INITIALIZING {
        return None;
      }
      info[next] := Info(l1, l2, info[next].desc);
      NewEntry(old(info[..]), next - 1, unions, info[next]);
      assert info[..] == old(info[..])[next := info[next]];
      r := Some(next);
    }

    /** `dfsan_union` */
    method DfsanUnion(a: Label, b: Label) returns (r: Option<Label>)
      requires Valid() && Exists(a) && Exists(b)
      modifies this, info
      ensures old(lastLabel) == 0 ==> r == Some(Or(a, b)) && Valid() && lastLabel == 0
      ensures r.None? ==> old(lastLabel) == INITIALIZING - 1
      ensures r.Some? ==> Valid() && Grows() && Exists(r.value)
      ensures r.Some? && old(lastLabel) > 0 ==> Base(info[..], r.value) == Base(old(info[..]), a) + Base(old(info[..]), b)
    {
      if a == b {
        OrZero(a);
        return Some(a);
      }
      r := Union(a, b);
    }

    /** The loop of `__dfsan_union_load` calls the union for different labels only. */
    method UnionNext(l: Label, next: Label) returns (r: Option<Label>)
      requires Valid() && Exists(l) && Exists(next)
      modifies this, info
      ensures old(lastLabel) == 0 ==> r == Some(Or(l, next)) && Valid() && lastLabel == 0
      ensures r.Some? ==> Valid() && Grows() && Exists(r.value)
      ensures r.Some? && old(lastLabel) > 0 ==> Base(info[..], r.value) == Base(old(info[..]), l) + Base(old(info[..]), next)
      ensures l == next ==> r == Some(l) && lastLabel == old(lastLabel) && info[..] == old(info[..])
    {
      if l == next {
        OrZero(l);
        return Some(l);
      }
      r := Union(l, next);
    }

    /** `__dfsan_union_load` */
    method UnionLoad(ls: seq<Label>) returns (r: Option<Label>)
      requires Valid() && ls != [] && forall i | 0 <= i < |ls| :: lastLabel > 0 ==> ls[i] <= lastLabel
      modifies this, info
      ensures old(lastLabel) == 0 ==> r == Some(OrAll(ls)) && Valid() && lastLabel == 0
      ensures r.Some? ==> Valid() && Grows() && Exists(r.value)
      ensures r.Some? && old(lastLabel) > 0 ==> Base(info[..], r.value) == BaseOfAll(old(info[..]), ls)
      ensures (forall i | 0 <= i < |ls| :: ls[i] == ls[0]) ==>
                r == Some(ls[0]) && lastLabel == old(lastLabel) && info[..] == old(info[..])
    {
      var l := ls[0];
      var i := 1;
      assert ls[..1] == [ls[0]];
      while i != |ls|
        invariant 1 <= i <= |ls|
        invariant Valid() && Grows() && Exists(l)
        invariant old(lastLabel) == 0 <==> lastLabel == 0
        invariant (forall j | 0 <= j < i :: ls[j] == ls[0]) ==>
                    l == ls[0] && lastLabel == old(lastLabel) && info[..] == old(info[..])
        invariant lastLabel == 0 ==> l == OrAll(ls[..i])
        invariant old(lastLabel) > 0 ==> Base(info[..], l) == BaseOfAll(old(info[..]), ls[..i])
      {
        assert ls[..i + 1][..i] == ls[..i];
        var u := UnionNext(l, ls[i]);
        if u.None? {
          return None;
        }
        l := u.value;
        i := i + 1;
      }
      assert ls[..|ls|] == ls;
      r := Some(l);
    }
  }
}
