/** Loading the shadow of several bytes: four labels at a time. */
module WideShadows {
  import opened Wrappers

  /** A 64-bit load of four labels, the first one lowest. */
  function Word(a: bv16, b: bv16, c: bv16, d: bv16): bv64 {
    (a as bv64) | ((b as bv64) << 16) | ((c as bv64) << 32) | ((d as bv64) << 48)
  }

  function WordAt(ls: seq<bv16>, i: nat): bv64
    requires i + 4 <= |ls|
  {
    Word(ls[i], ls[i + 1], ls[i + 2], ls[i + 3])
  }

  function Trunc(w: bv64): bv16 { (w & 0xFFFF) as bv16 }

  /** The two halvings: `w | w >> 32`, and then the same with 16. */
  function Fold(w: bv64): bv16 {
    var v := w | (w >> 32);
    Trunc(v | (v >> 16))
  }

  lemma FoldWord(a: bv16, b: bv16, c: bv16, d: bv16)
    ensures Fold(Word(a, b, c, d)) == a | b | c | d
  {
  }

  lemma FoldOr(v: bv64, w: bv64)
    ensures Fold(v | w) == Fold(v) | Fold(w)
  {
  }

  /** `__dfsan_union_load_fast16labels` on words; on numbers it is `LabelSpec.OrAll`, see `WordsAndNumbers.OrAllAgrees`. */
  function OrAll(ls: seq<bv16>): bv16 { if ls == [] then 0 else OrAll(ls[..|ls| - 1]) | ls[|ls| - 1] }

  lemma OrOne(ls: seq<bv16>, i: nat)
    requires i < |ls|
    ensures OrAll(ls[..i + 1]) == OrAll(ls[..i]) | ls[i]
  {
    assert ls[..i + 1][..i] == ls[..i];
  }

  lemma OrFour(ls: seq<bv16>, i: nat)
    requires i + 4 <= |ls|
    ensures OrAll(ls[..i + 4]) == OrAll(ls[..i]) | ls[i] | ls[i + 1] | ls[i + 2] | ls[i + 3]
  {
    OrOne(ls, i);
    OrOne(ls, i + 1);
    OrOne(ls, i + 2);
    OrOne(ls, i + 3);
  }

  lemma OrAssoc(x: bv16, a: bv16, b: bv16, c: bv16, d: bv16)
    ensures x | (a | b | c | d) == x | a | b | c | d
  {
  }

  /** The wide path for labels that are sets of bits: all words, then the labels within the combined word. */
  method LoadFast16(ls: seq<bv16>) returns (r: bv16)
    requires |ls| > 0 && |ls| % 4 == 0
    ensures r == OrAll(ls)
  {
    var combined := WordAt(ls, 0);
    OrFour(ls, 0);
    assert ls[..0] == [];
    FoldWord(ls[0], ls[1], ls[2], ls[3]);
    OrAssoc(0, ls[0], ls[1], ls[2], ls[3]);
    OrNothing(ls[0] | ls[1] | ls[2] | ls[3]);
    var ofs := 4;
    while ofs != |ls|
      invariant 4 <= ofs <= |ls| && ofs % 4 == 0
      invariant Fold(combined) == OrAll(ls[..ofs])
    {
      var next := WordAt(ls, ofs);
      FoldOr(combined, next);
      FoldWord(ls[ofs], ls[ofs + 1], ls[ofs + 2], ls[ofs + 3]);
      OrFour(ls, ofs);
      OrAssoc(OrAll(ls[..ofs]), ls[ofs], ls[ofs + 1], ls[ofs + 2], ls[ofs + 3]);
      combined := combined | next;
      ofs := ofs + 4;
    }
    assert ls[..|ls|] == ls;
    combined := combined | (combined >> 32);
    combined := combined | (combined >> 16);
    r := Trunc(combined);
  }

  lemma OrNothing(x: bv16)
    ensures 0 | x == x
  {
  }

  /** `(w << 16) | (w >> 48)` */
  function Rotated(w: bv64): bv64 { (w << 16) | (w >> 48) }

  /** Label `i` of a word. */
  function Label(w: bv64, i: nat): bv16
    requires i < 4
  {
    match i
    case 0 => Trunc(w)
    case 1 => Trunc(w >> 16)
    case 2 => Trunc(w >> 32)
    case 3 => Trunc(w >> 48)
  }

  lemma WordLabels(a: bv16, b: bv16, c: bv16, d: bv16)
    ensures Label(Word(a, b, c, d), 0) == a && Label(Word(a, b, c, d), 1) == b
    ensures Label(Word(a, b, c, d), 2) == c && Label(Word(a, b, c, d), 3) == d
  {
  }

  /** Words are equal exactly if their labels are. */
  lemma WordEqual(v: bv64, w: bv64)
    ensures v == w <==> Label(v, 0) == Label(w, 0) && Label(v, 1) == Label(w, 1) && Label(v, 2) == Label(w, 2) && Label(v, 3) == Label(w, 3)
  {
  }

  /** A word that is its own rotation has four equal labels. */
  lemma RotationTest(w: bv64)
    ensures w == Rotated(w) <==> Label(w, 0) == Label(w, 1) == Label(w, 2) == Label(w, 3)
  {
    RotatedLabels(w);
    EqualToShifted(w, Rotated(w));
  }

  lemma RotatedLabels(w: bv64)
    ensures Label(Rotated(w), 0) == Label(w, 3) && Label(Rotated(w), 1) == Label(w, 0)
    ensures Label(Rotated(w), 2) == Label(w, 1) && Label(Rotated(w), 3) == Label(w, 2)
  {
  }

  lemma EqualToShifted(w: bv64, r: bv64)
    requires Label(r, 0) == Label(w, 3) && Label(r, 1) == Label(w, 0) && Label(r, 2) == Label(w, 1) && Label(r, 3) == Label(w, 2)
    ensures w == r <==> Label(w, 0) == Label(w, 1) == Label(w, 2) == Label(w, 3)
  {
    WordEqual(w, r);
  }

  /** The wide path otherwise: the common label if the chain of tests succeeds, else the fallback call. */
  method LoadEqual(ls: seq<bv16>) returns (r: Option<bv16>)
    requires |ls| > 0 && |ls| % 4 == 0
    ensures r.Some? <==> forall i | 0 <= i < |ls| :: ls[i] == ls[0]
    ensures r.Some? ==> r.value == ls[0]
  {
    var wide := WordAt(ls, 0);
    RotationTest(wide);
    WordLabels(ls[0], ls[1], ls[2], ls[3]);
    if wide != Rotated(wide) {
      return None;
    }
    var ofs := 4;
    while ofs != |ls|
      invariant 4 <= ofs <= |ls| && ofs % 4 == 0
      invariant forall i | 0 <= i < ofs :: ls[i] == ls[0]
    {
      var next := WordAt(ls, ofs);
      WordLabels(ls[ofs], ls[ofs + 1], ls[ofs + 2], ls[ofs + 3]);
      WordEqual(wide, next);
      if wide != next {
        return None;
      }
      ofs := ofs + 4;
    }
    r := Some(Trunc(wide));
  }
}

/** Labels are words to the code that loads them and numbers to the label table. */
module WordsAndNumbers {
  import opened Powers
  import LabelSpec
  import WideShadows

  function Half(x: bv16): bv16 { x >> 1 }

  function Bit(x: bv16): (b: nat)
    ensures b < 2
  {
    if x & 1 == 1 then 1 else 0
  }

  /** The number that the lowest `n` bits of `x` are. */
  function Value(x: bv16, n: nat): (v: nat)
    ensures v < Pow(2, n)
  {
    if n == 0 then 0 else 2 * Value(Half(x), n - 1) + Bit(x)
  }

  function Number(x: bv16): LabelSpec.Label {
    LabelSpec.Pow16();
    Value(x, 16)
  }

  function Numbers(ls: seq<bv16>): seq<LabelSpec.Label> { seq(|ls|, i requires 0 <= i < |ls| => Number(ls[i])) }

  lemma Parity(a: nat, b: nat, c: nat, d: nat)
    requires 2 * a + b == 2 * c + d && b < 2 && d < 2
    ensures a == c && b == d
  {
  }

  lemma SameBits(x: bv16, y: bv16)
    requires Half(x) == Half(y) && Bit(x) == Bit(y)
    ensures x == y
  {
  }

  /** What is left of `x` after `n` bits. */
  function Shifted(x: bv16, n: nat): bv16 { if n == 0 then x else Shifted(Half(x), n - 1) }

  lemma {:induction false} ValueDecides(x: bv16, y: bv16, n: nat)
    requires Value(x, n) == Value(y, n) && Shifted(x, n) == Shifted(y, n)
    ensures x == y
  {
    if n > 0 {
      Parity(Value(Half(x), n - 1), Bit(x), Value(Half(y), n - 1), Bit(y));
      ValueDecides(Half(x), Half(y), n - 1);
      SameBits(x, y);
    }
  }

  lemma ShiftedBy4(x: bv16, n: nat)
    ensures Shifted(x, n + 4) == Shifted(x >> 4, n)
  {
    assert Shifted(x, n + 4) == Shifted(Half(x), n + 3) == Shifted(Half(Half(x)), n + 2);
    assert Shifted(Half(Half(x)), n + 2) == Shifted(Half(Half(Half(x))), n + 1) == Shifted(Half(Half(Half(Half(x)))), n);
  }

  lemma ShiftedOut(x: bv16)
    ensures Shifted(x, 16) == 0
  {
    ShiftedBy4(x, 12);
    ShiftedBy4(x >> 4, 8);
    ShiftedBy4((x >> 4) >> 4, 4);
    ShiftedBy4(((x >> 4) >> 4) >> 4, 0);
  }

  /** Different words are different numbers. */
  lemma NumberDecides(x: bv16, y: bv16)
    ensures Number(x) == Number(y) <==> x == y
  {
    if Number(x) == Number(y) {
      ShiftedOut(x);
      ShiftedOut(y);
      ValueDecides(x, y, 16);
    }
  }

  function OrWords(x: bv16, y: bv16): bv16 { x | y }

  lemma OrHalves(x: bv16, y: bv16)
    ensures Half(OrWords(x, y)) == OrWords(Half(x), Half(y))
    ensures Bit(OrWords(x, y)) == if Bit(x) == 1 || Bit(y) == 1 then 1 else 0
  {
  }

  lemma ValueStep(x: bv16, n: nat)
    requires n > 0
    ensures Value(x, n) == 2 * Value(Half(x), n - 1) + Bit(x)
  {
  }

  predicate IsOr(a: nat, b: nat, c: nat, n: nat) { c == LabelSpec.OrBits(a, b, n) }

  lemma OrStep(a: nat, b: nat, c: nat, a0: nat, b0: nat, c0: nat, n: nat)
    requires n > 0 && a0 < 2 && b0 < 2 && c0 == (if a0 == 1 || b0 == 1 then 1 else 0) && IsOr(a, b, c, n - 1)
    ensures IsOr(2 * a + a0, 2 * b + b0, 2 * c + c0, n)
  {
  }

  predicate AreOr(x: bv16, y: bv16, z: bv16, n: nat) { IsOr(Value(x, n), Value(y, n), Value(z, n), n) }

  lemma AreOrStep(x: bv16, y: bv16, z: bv16, n: nat)
    requires n > 0 && AreOr(Half(x), Half(y), Half(z), n - 1) && Bit(z) == if Bit(x) == 1 || Bit(y) == 1 then 1 else 0
    ensures AreOr(x, y, z, n)
  {
    ValueStep(x, n);
    ValueStep(y, n);
    ValueStep(z, n);
    OrStep(Value(Half(x), n - 1), Value(Half(y), n - 1), Value(Half(z), n - 1), Bit(x), Bit(y), Bit(z), n);
  }

  lemma {:induction false} ValueOr(x: bv16, y: bv16, n: nat)
    ensures AreOr(x, y, OrWords(x, y), n)
  {
    if n > 0 {
      OrHalves(x, y);
      ValueOr(Half(x), Half(y), n - 1);
      AreOrStep(x, y, OrWords(x, y), n);
    }
  }

  lemma {:induction false} OrAllIs(ls: seq<bv16>)
    requires ls != []
    ensures WideShadows.OrAll(ls) == if |ls| == 1 then ls[0] else OrWords(WideShadows.OrAll(ls[..|ls| - 1]), ls[|ls| - 1])
  {
    if |ls| == 1 {
      assert ls[..0] == [];
      WideShadows.OrNothing(ls[0]);
    }
  }

  /** Loading several labels gives the same whether they are taken for words or for numbers. */
  lemma {:induction false} OrAllAgrees(ls: seq<bv16>)
    requires ls != []
    ensures Number(WideShadows.OrAll(ls)) == LabelSpec.OrAll(Numbers(ls))
    decreases |ls|
  {
    var before := ls[..|ls| - 1];
    OrAllIs(ls);
    if |ls| > 1 {
      assert Numbers(ls)[..|ls| - 1] == Numbers(before);
      OrAllAgrees(before);
      ValueOr(WideShadows.OrAll(before), ls[|ls| - 1], 16);
    }
  }
}

/** Passing argument shadows through thread-local storage. */
module TlsArguments {
  import opened Wrappers

  const ARG_TLS_SIZE: nat := 800
  const SHADOW_TLS_ALIGNMENT: nat := 2
  const PRIMITIVE_SIZE: nat := 2

  /** A parameter, with the size of its shadow. The shadow type of an unsized parameter is the primitive one. */
  datatype Param = Sized(size: nat) | Unsized
  {
    function ShadowSize(): nat { if Sized? then size else PRIMITIVE_SIZE }
  }

  function AlignTo(size: nat): (aligned: nat)
    ensures size <= aligned < size + SHADOW_TLS_ALIGNMENT && aligned % SHADOW_TLS_ALIGNMENT == 0
  {
    (size + SHADOW_TLS_ALIGNMENT - 1) / SHADOW_TLS_ALIGNMENT * SHADOW_TLS_ALIGNMENT
  }

  /** Where the caller stores argument `k`, if it gets there. */
  function CallerOffset(ps: seq<Param>, k: nat): nat
    requires k <= |ps|
  {
    if k == 0 then 0 else CallerOffset(ps, k - 1) + AlignTo(ps[k - 1].ShadowSize())
  }

  /** Where the callee looks for it: it skips unsized parameters. */
  function CalleeOffset(ps: seq<Param>, k: nat): nat
    requires k <= |ps|
  {
    if k == 0 then 0 else CalleeOffset(ps, k - 1) + if ps[k - 1].Sized? then AlignTo(ps[k - 1].size) else 0
  }

  /** The caller stops at the first argument that does not fit. */
  predicate Stored(ps: seq<Param>, k: nat)
    requires k < |ps|
  {
    forall j | 0 <= j <= k :: Fits(ps, j)
  }

  predicate Fits(ps: seq<Param>, j: nat)
    requires j < |ps|
  {
    CallerOffset(ps, j) + ps[j].ShadowSize() <= ARG_TLS_SIZE
  }

  lemma {:induction false} PrimitiveOffset(ps: seq<Param>, k: nat)
    requires k <= |ps| && forall j | 0 <= j < k :: ps[j] == Sized(PRIMITIVE_SIZE)
    ensures CallerOffset(ps, k) == 2 * k
  {
    if k > 0 {
      PrimitiveOffset(ps, k - 1);
    }
  }

  /** Of arguments with primitive shadows the first four hundred have room. */
  lemma PrimitivesThatFit(ps: seq<Param>, k: nat)
    requires k < |ps| && forall j | 0 <= j <= k :: ps[j] == Sized(PRIMITIVE_SIZE)
    ensures Stored(ps, k) <==> k < 400
  {
    forall j | 0 <= j <= k ensures Fits(ps, j) <==> j < 400 {
      PrimitiveOffset(ps, j);
    }
    assert Fits(ps, k) <==> k < 400;
  }

  /** A byte of the thread-local array: which argument's shadow, and which byte of it. */
  datatype Byte = Byte(argument: nat, index: nat)

  lemma {:induction false} OffsetsGrow(ps: seq<Param>, j: nat, k: nat)
    requires j < k <= |ps|
    ensures CallerOffset(ps, j) + ps[j].ShadowSize() <= CallerOffset(ps, k)
    decreases k
  {
    if j < k - 1 {
      OffsetsGrow(ps, j, k - 1);
    }
  }

  /** The argument stores of `visitCallBase`: nothing a stored argument needs is overwritten. */
  method StoreArguments(ps: seq<Param>, argTls: array<Byte>)
    requires argTls.Length == ARG_TLS_SIZE
    modifies argTls
    ensures forall k | 0 <= k < |ps| && Stored(ps, k) :: Fits(ps, k) && Holds(argTls[..], ps, k)
    ensures forall x | 0 <= x < ARG_TLS_SIZE && IsBehind(ps, |ps|, x) :: argTls[x] == old(argTls[x])
  {
    var argOffset := 0;
    var i := 0;
    while i != |ps|
      invariant 0 <= i <= |ps| && argOffset == CallerOffset(ps, i)
      invariant forall j | 0 <= j < i :: Fits(ps, j)
      invariant forall k | 0 <= k < i :: Holds(argTls[..], ps, k)
      invariant forall x | 0 <= x < ARG_TLS_SIZE && IsBehind(ps, i, x) :: argTls[x] == old(argTls[x])
    {
      var size := ps[i].ShadowSize();
      if argOffset + size > ARG_TLS_SIZE {
        break;
      }
      ghost var before := argTls[..];
      StoreShadow(argTls, i, argOffset, size);
      assert Stored(ps, i);
      forall x | 0 <= x < ARG_TLS_SIZE && IsBehind(ps, i + 1, x) ensures argTls[x] == old(argTls[x]) {
        assert EndsBefore(ps, i, x);
        forall k | 0 <= k < i && Stored(ps, k) ensures EndsBefore(ps, k, x) {
        }
        assert IsBehind(ps, i, x);
      }
      forall k | 0 <= k < i ensures Holds(argTls[..], ps, k) {
        OffsetsGrow(ps, k, i);
        assert Holds(before, ps, k);
      }
      argOffset := argOffset + AlignTo(size);
      i := i + 1;
    }
    forall k | i <= k < |ps| ensures !Stored(ps, k) {
      assert !Fits(ps, i);
    }
    forall x | 0 <= x < ARG_TLS_SIZE && IsBehind(ps, |ps|, x) ensures IsBehind(ps, i, x) {
      assert forall k | 0 <= k < i && Stored(ps, k) :: EndsBefore(ps, k, x);
    }
  }

  /** Of the first `n` arguments all that are stored are stored before `x`. */
  ghost predicate IsBehind(ps: seq<Param>, n: nat, x: nat)
    requires n <= |ps|
  {
    forall k | 0 <= k < n && Stored(ps, k) :: EndsBefore(ps, k, x)
  }

  predicate EndsBefore(ps: seq<Param>, k: nat, x: nat)
    requires k < |ps|
  {
    CallerOffset(ps, k) + ps[k].ShadowSize() <= x
  }

  /** The shadow of argument `k` is where the caller puts it. */
  ghost predicate Holds(tls: seq<Byte>, ps: seq<Param>, k: nat)
    requires k < |ps| && Fits(ps, k) && |tls| == ARG_TLS_SIZE
  {
    forall b | 0 <= b < ps[k].ShadowSize() :: tls[CallerOffset(ps, k) + b] == Byte(k, b)
  }

  method StoreShadow(argTls: array<Byte>, argument: nat, offset: nat, size: nat)
    requires offset + size <= argTls.Length
    modifies argTls
    ensures forall b | 0 <= b < size :: argTls[offset + b] == Byte(argument, b)
    ensures forall x | 0 <= x < argTls.Length && !(offset <= x < offset + size) :: argTls[x] == old(argTls[x])
  {
    for b := 0 to size
      invariant forall c | 0 <= c < b :: argTls[offset + c] == Byte(argument, c)
      invariant forall x | 0 <= x < argTls.Length && !(offset <= x < offset + b) :: argTls[x] == old(argTls[x])
    {
      argTls[offset + b] := Byte(argument, b);
    }
  }

  /** `getShadowForTLSArgument`: the offset to load from; `None` is a zero shadow. */
  method GetShadowForTLSArgument(ps: seq<Param>, a: nat) returns (r: Option<nat>)
    requires a < |ps|
    ensures r == Reads(ps, a)
  {
    var argOffset := 0;
    var i := 0;
    while i < a
      invariant 0 <= i <= a && argOffset == CalleeOffset(ps, i) && argOffset <= ARG_TLS_SIZE
    {
      if ps[i].Sized? {
        argOffset := argOffset + AlignTo(ps[i].size);
        if argOffset > ARG_TLS_SIZE {
          CalleeOffsetsGrow(ps, i + 1, a);
          return None;
        }
      }
      i := i + 1;
    }
    if !ps[a].Sized? || argOffset + ps[a].size > ARG_TLS_SIZE {
      return None;
    }
    r := Some(argOffset);
  }

  /** What the loop of the callee comes down to. */
  function Reads(ps: seq<Param>, a: nat): Option<nat>
    requires a < |ps|
  {
    if ps[a].Sized? && CalleeOffset(ps, a) + ps[a].size <= ARG_TLS_SIZE then Some(CalleeOffset(ps, a)) else None
  }

  function StoresAt(ps: seq<Param>, k: nat): Option<nat>
    requires k < |ps|
  {
    if Stored(ps, k) then Some(CallerOffset(ps, k)) else None
  }

  lemma {:induction false} CalleeOffsetsGrow(ps: seq<Param>, j: nat, k: nat)
    requires j <= k <= |ps|
    ensures CalleeOffset(ps, j) <= CalleeOffset(ps, k)
    decreases k
  {
    if j < k {
      CalleeOffsetsGrow(ps, j, k - 1);
    }
  }

  function SizedOnly(ps: seq<Param>): (sized: seq<Param>)
    ensures forall p | p in sized :: p.Sized?
  {
    if ps == [] then [] else SizedOnly(ps[..|ps| - 1]) + if ps[|ps| - 1].Sized? then [ps[|ps| - 1]] else []
  }

  lemma {:induction false} CallerOffsetPrefix(ps: seq<Param>, p: Param, k: nat)
    requires k <= |ps|
    ensures CallerOffset(ps + [p], k) == CallerOffset(ps, k)
  {
    if k > 0 {
      CallerOffsetPrefix(ps, p, k - 1);
    }
  }

  /** The callee looks where a caller would store if there were no unsized parameters. */
  lemma {:induction false} CalleeSkipsUnsized(ps: seq<Param>, k: nat)
    requires k <= |ps|
    ensures CalleeOffset(ps, k) == CallerOffset(SizedOnly(ps[..k]), |SizedOnly(ps[..k])|)
  {
    if k > 0 {
      CalleeSkipsUnsized(ps, k - 1);
      assert ps[..k][..k - 1] == ps[..k - 1];
      var before := SizedOnly(ps[..k - 1]);
      assert SizedOnly(ps[..k]) == before + if ps[k - 1].Sized? then [ps[k - 1]] else [];
      if ps[k - 1].Sized? {
        CallerOffsetPrefix(before, ps[k - 1], |before|);
        assert |SizedOnly(ps[..k])| == |before| + 1;
      } else {
        assert SizedOnly(ps[..k]) == before;
      }
    }
  }

  /** The caller is ahead by one primitive shadow for every unsized parameter. */
  lemma {:induction false} OffsetsDiffer(ps: seq<Param>, k: nat)
    requires k <= |ps|
    ensures CallerOffset(ps, k) >= CalleeOffset(ps, k)
    ensures CallerOffset(ps, k) == CalleeOffset(ps, k) <==> forall j | 0 <= j < k :: ps[j].Sized?
  {
    if k > 0 {
      OffsetsDiffer(ps, k - 1);
    }
  }

  /** An argument is stored exactly if it fits itself: what overflows stays overflowed. */
  lemma StoredIffFits(ps: seq<Param>, k: nat)
    requires k < |ps|
    ensures Stored(ps, k) <==> Fits(ps, k)
  {
    forall j | 0 <= j < k ensures Fits(ps, k) ==> Fits(ps, j) {
      OffsetsGrow(ps, j, k);
    }
  }

  /** The callee reads a sized argument's shadow where the caller stored it, and uses zero if the caller did not,
      if and only if no parameter before it is unsized or the sized ones alone are already too many. */
  lemma CallerAndCalleeAgreeIff(ps: seq<Param>, k: nat)
    requires k < |ps| && ps[k].Sized?
    ensures Reads(ps, k) == StoresAt(ps, k) <==>
              (forall j | 0 <= j < k :: ps[j].Sized?) || CalleeOffset(ps, k) + ps[k].size > ARG_TLS_SIZE
  {
    StoredIffFits(ps, k);
    OffsetsDiffer(ps, k);
  }

  /** Only intrinsics have unsized parameters, and their calls store no arguments: wherever arguments are stored the
      callee reads every one of them where the caller put it, and uses zero exactly for those not stored. */
  lemma SizedArgumentsAgree(ps: seq<Param>)
    requires forall j | 0 <= j < |ps| :: ps[j].Sized?
    ensures forall k | 0 <= k < |ps| :: Reads(ps, k) == StoresAt(ps, k)
  {
    forall k | 0 <= k < |ps| ensures Reads(ps, k) == StoresAt(ps, k) {
      CallerAndCalleeAgreeIff(ps, k);
    }
  }
}
