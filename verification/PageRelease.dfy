/** Which pages hold nothing but free chunks, and how many chunks overlap a page. All sizes and offsets count units
    of 16 bytes (`kCompactPtrScale`), of which chunk and page sizes are multiples. */
module PageSpec {
  import opened Powers

  predicate Overlaps(c: nat, p: nat, k: nat, i: nat) { k * c < (i + 1) * p && i * p < (k + 1) * c }

  function FirstChunk(c: nat, p: nat, i: nat): nat
    requires c > 0
  {
    i * p / c
  }

  function LastChunk(c: nat, p: nat, i: nat): nat
    requires c > 0 && p > 0
  {
    (i * p + p - 1) / c
  }

  lemma DivBounds(w: nat, d: nat)
    requires d > 0
    ensures (w / d) * d <= w < (w / d + 1) * d
  {
    assert w == d * (w / d) + w % d;
    assert (w / d + 1) * d == d * (w / d) + d;
  }

  lemma {:induction false} BelowIff(w: nat, d: nat, k: nat)
    requires d > 0
    ensures k <= w / d <==> k * d <= w
  {
    DivBounds(w, d);
    if k <= w / d {
      MulMono(k, w / d, d);
    } else {
      MulMono(w / d + 1, k, d);
    }
  }

  /** The chunks that overlap a page are those from the one its first unit is in to the one its last unit is in. */
  lemma ChunksOfPage(c: nat, p: nat, k: nat, i: nat)
    requires c > 0 && p > 0
    ensures Overlaps(c, p, k, i) <==> FirstChunk(c, p, i) <= k <= LastChunk(c, p, i)
  {
    assert (i + 1) * p == i * p + p;
    BelowIff(i * p + p - 1, c, k);
    BelowIff(i * p, c, k + 1);
  }

  /** The pages a chunk overlaps, as the release scan computes them from the chunk's offset. */
  lemma PagesOfChunk(c: nat, p: nat, k: nat, i: nat)
    requires c > 0 && p > 0
    ensures Overlaps(c, p, k, i) <==> k * c / p <= i <= (k * c + c - 1) / p
  {
    assert (k + 1) * c == k * c + c;
    BelowIff(k * c + c - 1, p, i);
    BelowIff(k * c, p, i + 1);
  }

  function ChunkCount(c: nat, p: nat, i: nat): nat
    requires c > 0 && p > 0
  {
    LastChunk(c, p, i) + 1 - FirstChunk(c, p, i)
  }

  lemma FirstIsNotLater(c: nat, p: nat, i: nat)
    requires c > 0 && p > 0
    ensures FirstChunk(c, p, i) <= LastChunk(c, p, i)
  {
    DivBounds(i * p, c);
    BelowIff(i * p + p - 1, c, FirstChunk(c, p, i));
  }

  // ----- the expected number of chunks, page by page -----

  lemma MulAdd(a: nat, b: nat, c: nat)
    ensures a * (b + c) == a * b + a * c && (b + c) * a == b * a + c * a
  {
  }

  lemma MulAssoc(a: nat, b: nat, c: nat)
    ensures a * (b * c) == (a * b) * c
  {
  }

  lemma SpanIs(c: nat, p: nat, i: nat, first: nat, offset: nat, more: nat, rest: nat)
    requires c > 0 && p > 0 && i * p == c * first + offset && offset < c
    requires offset + p - 1 == c * more + rest && rest < c
    ensures FirstChunk(c, p, i) == first && LastChunk(c, p, i) == first + more
  {
    DivUnique(i * p, c, first, offset);
    MulAdd(c, first, more);
    DivUnique(i * p + p - 1, c, first + more, rest);
  }

  /** Whole chunks fill a page. */
  lemma CountDivides(c: nat, p: nat, i: nat)
    requires c > 0 && p > 0 && p % c == 0
    ensures ChunkCount(c, p, i) == p / c
  {
    var m := p / c;
    assert p == c * m;
    assert m > 0;
    MulAssoc(i, c, m);
    MulAssoc(c, i, m);
    assert i * p == c * (i * m);
    assert c * (m - 1) == c * m - c;
    SpanIs(c, p, i, i * m, 0, m - 1, c - 1);
  }

  lemma MulSplit(i: nat, m: nat, r: nat, c: nat)
    requires m > 0 && c == r * m
    ensures i * r == c * (i / m) + r * (i % m) && r * (i % m) + r <= c
  {
    var a, b := i / m, i % m;
    assert i == m * a + b;
    MulAdd(r, m * a, b);
    MulAssoc(r, m, a);
    assert i * r == r * i;
    MulMono(b + 1, m, r);
    MulAdd(r, b, 1);
  }

  /** A page is some whole chunks and a remainder, and the remainder divides a chunk: each page overlaps one more. */
  lemma CountRemainder(c: nat, p: nat, i: nat)
    requires 0 < c <= p && p % c != 0 && c % (p % c) == 0
    ensures ChunkCount(c, p, i) == p / c + 1
  {
    var q, r := p / c, p % c;
    var m := c / r;
    assert p == c * q + r && c == r * m;
    assert m > 0;
    MulSplit(i, m, r, c);
    var a, b := i / m, r * (i % m);
    MulAdd(i, c * q, r);
    MulAssoc(i, c, q);
    MulAssoc(c, i, q);
    assert i * p == c * (i * q) + c * a + b;
    MulAdd(c, i * q, a);
    SpanIs(c, p, i, i * q + a, b, q, b + r - 1);
  }

  /** A chunk is some whole pages: each page is inside one chunk. */
  lemma CountMultiple(c: nat, p: nat, i: nat)
    requires 0 < p && c > 0 && c % p == 0
    ensures ChunkCount(c, p, i) == 1
  {
    var m := c / p;
    assert c == p * m;
    assert m > 0;
    MulSplit(i, m, p, c);
    SpanIs(c, p, i, i / m, p * (i % m), 0, p * (i % m) + p - 1);
  }

  /** `boundary` is where the first chunk starts that starts at `start` or later. */
  predicate NextBoundary(c: nat, start: nat, boundary: nat)
    requires c > 0
  {
    boundary % c == 0 && start <= boundary < start + c
  }

  /** The body of the page loop: the number of chunks and the next boundary. */
  function PageStep(c: nat, p: nat, start: nat, boundary: nat): (nat, nat)
    requires c > 0 && p > 0
  {
    var pn := if c < p then p / c else 1;
    var pnc := pn * c;
    if boundary < start + p then
      var n := pn + if boundary > start then 1 else 0;
      if boundary + pnc < start + p then (n + 1, boundary + pnc + c) else (n, boundary + pnc)
    else (pn, boundary)
  }

  lemma BoundaryStep(c: nat, boundary: nat, n: nat)
    requires c > 0 && boundary % c == 0
    ensures (boundary + n * c) % c == 0 && (boundary + n * c) / c == boundary / c + n
  {
    AddMultiple(boundary, c, n);
    assert c * n == n * c;
  }

  /** The chunk the page's first unit is in. */
  lemma FirstIs(c: nat, p: nat, i: nat, boundary: nat)
    requires c > 0 && p > 0 && NextBoundary(c, i * p, boundary)
    ensures FirstChunk(c, p, i) + (if boundary > i * p then 1 else 0) == boundary / c
  {
    var a := boundary / c;
    assert boundary == c * a + 0;
    if boundary > i * p {
      assert a > 0;
      MulAdd(c, a - 1, 1);
      DivUnique(i * p, c, a - 1, i * p - c * (a - 1));
    }
  }

  /** The running boundary counts correctly and moves on to the next page. */
  lemma PageStepCounts(c: nat, p: nat, i: nat, boundary: nat)
    requires c > 0 && p > 0 && c != p && NextBoundary(c, i * p, boundary)
    ensures PageStep(c, p, i * p, boundary).0 == ChunkCount(c, p, i)
    ensures NextBoundary(c, (i + 1) * p, PageStep(c, p, i * p, boundary).1)
  {
    assert (i + 1) * p == i * p + p;
    FirstIs(c, p, i, boundary);
    if c < p {
      SmallStep(c, p, i, boundary);
    } else {
      BigStep(c, p, i, boundary);
    }
  }

  lemma SmallStep(c: nat, p: nat, i: nat, boundary: nat)
    requires 0 < c < p && NextBoundary(c, i * p, boundary)
    ensures var (n, next) := PageStep(c, p, i * p, boundary);
            && NextBoundary(c, i * p + p, next)
            && n == LastChunk(c, p, i) + 1 - boundary / c + (if boundary > i * p then 1 else 0)
  {
    var start, pn := i * p, p / c;
    LastStep(c, p, start, boundary, pn);
    var pnc := pn * c;
    if boundary + pnc < start + p {
      assert PageStep(c, p, start, boundary).1 == boundary + pnc + c;
    } else {
      assert PageStep(c, p, start, boundary).1 == boundary + pnc;
    }
  }

  lemma LastIs(c: nat, w: nat, boundary: nat, a: nat, n: nat, x: nat)
    requires c > 0 && boundary == c * a && x == c * n && boundary + x <= w < boundary + x + c
    ensures w / c == a + n
  {
    MulAdd(c, a, n);
    DivUnique(w, c, a + n, w - (boundary + x));
  }

  /** The last chunk of a page, counted from the boundary in it. */
  lemma LastStep(c: nat, p: nat, start: nat, boundary: nat, pn: nat)
    requires 0 < c < p && NextBoundary(c, start, boundary) && pn == p / c
    ensures if boundary + pn * c < start + p
            then (start + p - 1) / c == boundary / c + pn && NextBoundary(c, start + p, boundary + pn * c + c)
            else pn > 0 && (start + p - 1) / c == boundary / c + (pn - 1) && NextBoundary(c, start + p, boundary + pn * c)
  {
    DivBounds(p, c);
    assert pn > 0;
    MulAdd(c, pn - 1, 1);
    MulAdd(c, pn, 1);
    assert boundary == c * (boundary / c);
    BoundaryStep(c, boundary, pn);
    BoundaryStep(c, boundary, pn + 1);
    if boundary + pn * c < start + p {
      LastIs(c, start + p - 1, boundary, boundary / c, pn, c * pn);
    } else {
      LastIs(c, start + p - 1, boundary, boundary / c, pn - 1, c * (pn - 1));
    }
  }

  lemma BigStep(c: nat, p: nat, i: nat, boundary: nat)
    requires 0 < p < c && NextBoundary(c, i * p, boundary)
    ensures var (n, next) := PageStep(c, p, i * p, boundary);
            && NextBoundary(c, i * p + p, next)
            && n == LastChunk(c, p, i) + 1 - boundary / c + (if boundary > i * p then 1 else 0)
  {
    var a, start := boundary / c, i * p;
    assert boundary == c * a;
    BoundaryStep(c, boundary, 1);
    if boundary < start + p {
      DivUnique(start + p - 1, c, a, start + p - 1 - c * a);
    } else {
      assert a > 0;
      MulAdd(c, a - 1, 1);
      DivUnique(start + p - 1, c, a - 1, start + p - 1 - c * (a - 1));
    }
  }

  // ----- counting free chunks -----

  /** Offsets of distinct chunks. */
  ghost predicate FreeOk(free: seq<nat>, c: nat)
    requires c > 0
  {
    && (forall j | 0 <= j < |free| :: free[j] % c == 0)
    && (forall j, k | 0 <= j < k < |free| :: free[j] != free[k])
  }

  ghost function FreeOn(free: seq<nat>, c: nat, p: nat, i: nat): nat
    requires c > 0
  {
    if free == [] then 0
    else FreeOn(free[..|free| - 1], c, p, i) + if Overlaps(c, p, free[|free| - 1] / c, i) then 1 else 0
  }

  ghost function FreeSet(free: seq<nat>, c: nat, p: nat, i: nat): set<nat>
    requires c > 0 && p > 0
  {
    set k | k in Range(FirstChunk(c, p, i), LastChunk(c, p, i) + 1) && IsFree(free, c, k)
  }

  predicate IsFree(free: seq<nat>, c: nat, k: nat) { k * c in free }

  /** The last entry of the array is of chunk `k` and of no other. */
  lemma LastEntry(free: seq<nat>, c: nat, k: nat)
    requires c > 0 && free != [] && FreeOk(free, c) && k == free[|free| - 1] / c
    ensures !IsFree(free[..|free| - 1], c, k) && forall j: nat :: IsFree(free, c, j) <==> IsFree(free[..|free| - 1], c, j) || j == k
  {
    var n := |free| - 1;
    assert free == free[..n] + [free[n]];
    assert k * c == free[n];
    forall j: nat ensures IsFree(free, c, j) <==> IsFree(free[..n], c, j) || j == k {
      if j * c == free[n] {
        assert j * c / c == j by {
          DivUnique(j * c, c, j, 0);
        }
      }
    }
  }

  lemma {:induction false} FreeOnIsSize(free: seq<nat>, c: nat, p: nat, i: nat)
    requires c > 0 && p > 0 && FreeOk(free, c)
    ensures FreeOn(free, c, p, i) == |FreeSet(free, c, p, i)|
  {
    if free == [] {
      assert FreeSet(free, c, p, i) == {};
    } else {
      var n := |free| - 1;
      var k := free[n] / c;
      FreeOnIsSize(free[..n], c, p, i);
      ChunksOfPage(c, p, k, i);
      LastEntry(free, c, k);
      var before, after := FreeSet(free[..n], c, p, i), FreeSet(free, c, p, i);
      assert k !in before;
      assert after == if Overlaps(c, p, k, i) then before + {k} else before;
    }
  }

  function Range(a: nat, b: nat): (range: set<nat>)
    ensures forall k :: k in range <==> a <= k < b
    decreases b
  {
    if a >= b then {} else Range(a, b - 1) + {b - 1}
  }

  lemma {:induction false} RangeSize(a: nat, b: nat)
    requires a <= b
    ensures |Range(a, b)| == b - a
    decreases b
  {
    if a < b {
      RangeSize(a, b - 1);
    }
  }

  lemma SubsetSize(s: set<nat>, t: set<nat>)
    requires s <= t
    ensures |s| <= |t|
    ensures |s| == |t| <==> s == t
  {
    assert t == s + (t - s);
    assert |t| == |s| + |t - s|;
  }

  /** Every chunk that overlaps the page is free. */
  ghost predicate AllFree(free: seq<nat>, c: nat, p: nat, i: nat) {
    forall k: nat | Overlaps(c, p, k, i) :: IsFree(free, c, k)
  }

  /** Every unit of the page is in a free chunk. */
  lemma AllFreeIffUnits(free: seq<nat>, c: nat, p: nat, i: nat)
    requires c > 0 && p > 0
    ensures AllFree(free, c, p, i) <==> forall u: nat | i * p <= u < (i + 1) * p :: IsFree(free, c, u / c)
  {
    if AllFree(free, c, p, i) {
      forall u: nat | i * p <= u < (i + 1) * p ensures IsFree(free, c, u / c) {
        DivBounds(u, c);
        assert Overlaps(c, p, u / c, i);
      }
    }
    if forall u: nat | i * p <= u < (i + 1) * p :: IsFree(free, c, u / c) {
      forall k: nat | Overlaps(c, p, k, i) ensures IsFree(free, c, k) {
        var u := if k * c < i * p then i * p else k * c;
        MulMono(k, k + 1, c);
        MulAdd(i, 0, p);
        BelowIff(u, c, k);
        BelowIff(u, c, k + 1);
        assert (i + 1) * p == i * p + p && (k + 1) * c == k * c + c;
        assert IsFree(free, c, u / c);
      }
    }
  }

  /** Counting decides it: no more free chunks than chunks overlap the page, and as many exactly if all are free. */
  lemma CountDecides(free: seq<nat>, c: nat, p: nat, i: nat)
    requires c > 0 && p > 0 && FreeOk(free, c)
    ensures FreeOn(free, c, p, i) <= ChunkCount(c, p, i)
    ensures FreeOn(free, c, p, i) == ChunkCount(c, p, i) <==> AllFree(free, c, p, i)
  {
    var a, b := FirstChunk(c, p, i), LastChunk(c, p, i) + 1;
    FirstIsNotLater(c, p, i);
    FreeOnIsSize(free, c, p, i);
    RangeSize(a, b);
    var all := Range(a, b);
    SubsetSize(FreeSet(free, c, p, i), all);
    forall k: nat ensures Overlaps(c, p, k, i) <==> k in all {
      ChunksOfPage(c, p, k, i);
    }
  }

  /** Such a page lies wholly below the end of the chunks handed out so far. */
  lemma AllFreeIsAllocated(free: seq<nat>, c: nat, p: nat, i: nat, end: nat)
    requires c > 0 && p > 0 && AllFree(free, c, p, i) && forall f | f in free :: f + c <= end
    ensures (i + 1) * p <= end
  {
    var k := LastChunk(c, p, i);
    FirstIsNotLater(c, p, i);
    ChunksOfPage(c, p, k, i);
    assert IsFree(free, c, k);
    DivBounds(i * p + p - 1, c);
    assert (i + 1) * p == i * p + p && (k + 1) * c == k * c + c;
  }

  /** The largest count the counters are made for. */
  lemma CountMax(c: nat, p: nat, i: nat)
    requires c > 0 && p > 0
    ensures ChunkCount(c, p, i) <= p / c + 2 && (c > p ==> ChunkCount(c, p, i) <= 2)
  {
    var a := FirstChunk(c, p, i);
    DivBounds(i * p, c);
    DivBounds(p, c);
    assert (a + 1 + p / c + 1) * c == (a + 1) * c + (p / c + 1) * c;
    BelowIff(i * p + p - 1, c, a + 1 + p / c + 1);
    if c > p {
      assert (a + 2) * c == (a + 1) * c + c;
      BelowIff(i * p + p - 1, c, a + 2);
    }
  }
}

/** `FreePagesRangeTracker`: turning the verdicts on single pages into ranges. */
module PageRanges {
  import opened Wrappers

  /** Where the run that the last page belongs to starts. */
  function OpenRun(flags: seq<bool>): Option<nat> {
    if flags == [] || !flags[|flags| - 1] then None
    else if OpenRun(flags[..|flags| - 1]).Some? then OpenRun(flags[..|flags| - 1])
    else Some(|flags| - 1)
  }

  function Close(run: Option<nat>, end: nat): seq<(nat, nat)> { if run.Some? then [(run.value, end)] else [] }

  /** The runs that have ended. */
  function ClosedRuns(flags: seq<bool>): seq<(nat, nat)> {
    if flags == [] then []
    else if flags[|flags| - 1] then ClosedRuns(flags[..|flags| - 1])
    else ClosedRuns(flags[..|flags| - 1]) + Close(OpenRun(flags[..|flags| - 1]), |flags| - 1)
  }

  function Runs(flags: seq<bool>): seq<(nat, nat)> { ClosedRuns(flags) + Close(OpenRun(flags), |flags|) }

  /** A run: set pages between two clear ones or the ends. */
  ghost predicate IsMaximal(flags: seq<bool>, r: (nat, nat)) {
    && r.0 < r.1 <= |flags|
    && (forall i | r.0 <= i < r.1 :: flags[i])
    && (r.0 > 0 ==> !flags[r.0 - 1])
    && (r.1 < |flags| ==> !flags[r.1])
  }

  /** Every set page is in a run, and the runs are maximal, in order and apart. */
  ghost predicate AreMaximalRuns(flags: seq<bool>, rs: seq<(nat, nat)>) {
    && (forall j | 0 <= j < |rs| :: IsMaximal(flags, rs[j]))
    && (forall j | 0 <= j < |rs| - 1 :: rs[j].1 < rs[j + 1].0)
    && (forall i | 0 <= i < |flags| && flags[i] :: InRuns(rs, i))
  }

  ghost predicate InRuns(rs: seq<(nat, nat)>, i: nat) { exists j :: 0 <= j < |rs| && rs[j].0 <= i < rs[j].1 }

  /** The open run reaches to the end; all set pages before it are in closed runs, which end before it. */
  ghost predicate Split(flags: seq<bool>, rs: seq<(nat, nat)>, start: nat) {
    && start <= |flags| && AreMaximalRuns(flags[..start], rs)
    && (forall j | 0 <= j < |rs| :: rs[j].1 < start)
    && (forall i | start <= i < |flags| :: flags[i])
    && (start > 0 ==> !flags[start - 1])
  }

  function Start(flags: seq<bool>): nat { if OpenRun(flags).Some? then OpenRun(flags).value else |flags| }

  lemma {:induction false} RunsSplit(flags: seq<bool>)
    ensures Start(flags) < |flags| <==> OpenRun(flags).Some?
    ensures Split(flags, ClosedRuns(flags), Start(flags))
  {
    if flags != [] {
      var n := |flags| - 1;
      var before := flags[..n];
      RunsSplit(before);
      var rs, a := ClosedRuns(before), Start(before);
      if flags[n] {
        assert flags[..a] == before[..a];
      } else {
        CloseSplit(flags, rs, a);
      }
    }
  }

  /** A clear page ends the open run. */
  lemma CloseSplit(flags: seq<bool>, rs: seq<(nat, nat)>, a: nat)
    requires flags != [] && !flags[|flags| - 1] && Split(flags[..|flags| - 1], rs, a)
    ensures Split(flags, rs + (if a < |flags| - 1 then [(a, |flags| - 1)] else []), |flags|)
  {
    var n := |flags| - 1;
    var after := rs + (if a < n then [(a, n)] else []);
    assert flags[..|flags|] == flags && flags[..n][..a] == flags[..a];
    forall i | 0 <= i < |flags| && flags[i] ensures InRuns(after, i) {
      if i < a {
        assert flags[..a][i];
        assert InRuns(rs, i);
        var j :| 0 <= j < |rs| && rs[j].0 <= i < rs[j].1;
        assert after[j] == rs[j];
      } else {
        assert after[|rs|] == (a, n);
      }
    }
    forall j | 0 <= j < |after| ensures IsMaximal(flags, after[j]) {
      if j < |rs| {
        assert IsMaximal(flags[..a], rs[j]);
      }
    }
  }

  /** The runs of a sequence of verdicts are what they should be. */
  lemma RunsAreMaximal(flags: seq<bool>)
    ensures AreMaximalRuns(flags, Runs(flags))
  {
    var more := flags + [false];
    RunsSplit(flags);
    assert more[..|flags|] == flags;
    CloseSplit(more, ClosedRuns(flags), Start(flags));
    assert more[..|more|] == more;
    var rs := Runs(flags);
    forall j | 0 <= j < |rs| ensures IsMaximal(flags, rs[j]) {
      assert IsMaximal(more, rs[j]) && !more[|flags|];
    }
    forall i | 0 <= i < |flags| && flags[i] ensures InRuns(rs, i) {
      assert more[i];
    }
  }

  /** `MemoryMapper`: the ranges given back, in bytes divided by 16. */
  class MemoryMapper {
    var released: seq<(nat, nat)>

    constructor ()
      ensures released == []
    {
      released := [];
    }

    method ReleasePageRangeToOS(from: nat, to: nat)
      modifies this
      ensures released == old(released) + [(from, to)]
    {
      released := released + [(from, to)];
    }
  }

  function Scaled(rs: seq<(nat, nat)>, p: nat): seq<(nat, nat)> {
    seq(|rs|, j requires 0 <= j < |rs| => (rs[j].0 * p, rs[j].1 * p))
  }

  class FreePagesRangeTracker {
    const mapper: MemoryMapper
    const pageSize: nat
    var inTheRange: bool
    var currentPage: nat
    var currentRangeStartPage: nat

    /** The verdicts so far. */
    ghost var flags: seq<bool>

    ghost predicate Valid()
      reads this, mapper
    {
      && currentPage == |flags|
      && OpenRun(flags) == (if inTheRange then Some(currentRangeStartPage) else None)
      && mapper.released == Scaled(ClosedRuns(flags), pageSize)
    }

    constructor (mapper: MemoryMapper, pageSize: nat)
      requires mapper.released == []
      ensures Valid() && this.mapper == mapper && this.pageSize == pageSize && flags == []
    {
      this.mapper, this.pageSize := mapper, pageSize;
      inTheRange, currentPage, currentRangeStartPage := false, 0, 0;
      flags := [];
    }

    method NextPage(freed: bool)
      requires Valid()
      modifies this, mapper
      ensures Valid() && flags == old(flags) + [freed]
    {
      if freed {
        if !inTheRange {
          currentRangeStartPage := currentPage;
          inTheRange := true;
        }
      } else {
        CloseOpenedRange();
      }
      currentPage := currentPage + 1;
      flags := flags + [freed];
      assert flags[..|flags| - 1] == old(flags);
    }

    method CloseOpenedRange()
      requires currentPage == |flags| && OpenRun(flags) == (if inTheRange then Some(currentRangeStartPage) else None)
      requires mapper.released == Scaled(ClosedRuns(flags), pageSize)
      modifies this`inTheRange, mapper
      ensures !inTheRange
      ensures mapper.released == Scaled(ClosedRuns(flags) + Close(OpenRun(flags), |flags|), pageSize)
    {
      if inTheRange {
        mapper.ReleasePageRangeToOS(currentRangeStartPage * pageSize, currentPage * pageSize);
        inTheRange := false;
      }
    }

    method Done()
      requires Valid()
      modifies this, mapper
      ensures mapper.released == Scaled(Runs(old(flags)), pageSize)
    {
      CloseOpenedRange();
    }
  }
}

/** `ReleaseFreeMemoryToOS` */
module PageRelease {
  import opened Powers
  import opened PackedCounters
  import opened PageSpec
  import opened PageRanges

  /** The counters have room for the counts of all pages. */
  function FullPagesChunkCountMax(c: nat, p: nat): nat
    requires c > 0 && p > 0
  {
    if c <= p && p % c == 0 then p / c
    else if c <= p && p % c != 0 && c % (p % c) == 0 then p / c + 1
    else if c <= p then p / c + 2
    else if c > p && c % p == 0 then 1
    else 2
  }

  predicate SameChunkCountPerPage(c: nat, p: nat)
    requires c > 0 && p > 0
  {
    (c <= p && (p % c == 0 || c % (p % c) == 0)) || (c > p && c % p == 0)
  }

  /** Where the source takes the fast path, every page overlaps as many chunks as it says, and elsewhere no page
      overlaps more. */
  lemma ChunkCountMax(c: nat, p: nat, i: nat)
    requires c > 0 && p > 0
    ensures SameChunkCountPerPage(c, p) ==> ChunkCount(c, p, i) == FullPagesChunkCountMax(c, p)
    ensures 0 < ChunkCount(c, p, i) <= FullPagesChunkCountMax(c, p) <= p + 2
  {
    FirstIsNotLater(c, p, i);
    CountMax(c, p, i);
    BelowIff(p, c, p / c);
    MulMono(1, c, p / c);
    if c <= p && p % c == 0 {
      CountDivides(c, p, i);
    } else if c <= p && c % (p % c) == 0 {
      CountRemainder(c, p, i);
    } else if c > p && c % p == 0 {
      CountMultiple(c, p, i);
    }
  }

  /** All chunks lie in the pages there are counters for. */
  predicate InPages(free: seq<nat>, c: nat, p: nat, pages: nat)
    requires c > 0 && p > 0
  {
    forall j | 0 <= j < |free| :: (free[j] + c - 1) / p < pages
  }

  ghost function Verdicts(free: seq<nat>, c: nat, p: nat, pages: nat): seq<bool> {
    seq(pages, i requires 0 <= i < pages => AllFree(free, c, p, i))
  }

  /** The free chunks that overlap each page are counted. */
  method CountFree(free: seq<nat>, c: nat, p: nat, counters: PackedCounterArray)
    requires c > 0 && p > 0 && FreeOk(free, c) && InPages(free, c, p, counters.n)
    requires counters.Valid() && forall i | 0 <= i < counters.n :: counters.Count(i) == 0
    requires FullPagesChunkCountMax(c, p) < Pow(2, counters.bits)
    modifies counters.buffer
    ensures counters.Valid()
    ensures forall i | 0 <= i < counters.n :: counters.Count(i) == FreeOn(free, c, p, i)
  {
    for j := 0 to |free|
      invariant counters.Valid()
      invariant forall i | 0 <= i < counters.n :: counters.Count(i) == FreeOn(free[..j], c, p, i)
    {
      var first, last := Span(free, c, p, j);
      CountChunk(c, p, counters, first, last, FullPagesChunkCountMax(c, p), free, j);
    }
    assert free[..|free|] == free;
  }

  /** The pages of one chunk. */
  method Span(free: seq<nat>, c: nat, p: nat, j: nat) returns (first: nat, last: nat)
    requires c > 0 && p > 0 && FreeOk(free, c) && j < |free|
    ensures first <= last == (free[j] + c - 1) / p && (p % c == 0 ==> first == last)
    ensures forall i: nat :: Counted(free, c, p, j, first, last, FullPagesChunkCountMax(c, p), i)
  {
    first, last := free[j] / p, (free[j] + c - 1) / p;
    ChunkSpan(free[j], c, p);
    forall i: nat ensures Counted(free, c, p, j, first, last, FullPagesChunkCountMax(c, p), i) {
      CountOneMore(free, c, p, i, j);
      CountAtMost(free, c, p, i, j + 1);
    }
  }

  /** What one more chunk does to the count of page `i`. */
  ghost predicate Counted(free: seq<nat>, c: nat, p: nat, j: nat, first: nat, last: nat, limit: nat, i: nat)
    requires c > 0 && j < |free|
  {
    && FreeOn(free[..j + 1], c, p, i) == FreeOn(free[..j], c, p, i) + (if first <= i <= last then 1 else 0)
    && FreeOn(free[..j + 1], c, p, i) <= limit
  }

  method CountChunk(c: nat, p: nat, counters: PackedCounterArray, first: nat, last: nat, ghost limit: nat,
                    ghost free: seq<nat>, ghost j: nat)
    requires c > 0 && p > 0 && counters.Valid() && j < |free| && limit < Pow(2, counters.bits)
    requires first <= last < counters.n && (p % c == 0 ==> first == last)
    requires forall i | 0 <= i < counters.n :: counters.Count(i) == FreeOn(free[..j], c, p, i)
    requires forall i | 0 <= i < counters.n :: Counted(free, c, p, j, first, last, limit, i)
    modifies counters.buffer
    ensures counters.Valid()
    ensures forall i | 0 <= i < counters.n :: counters.Count(i) == FreeOn(free[..j + 1], c, p, i)
  {
    forall i | first <= i <= last ensures counters.Count(i) < Pow(2, counters.bits) - 1 {
      assert Counted(free, c, p, j, first, last, limit, i);
    }
    if c <= p && p % c == 0 {
      counters.Inc(first);
    } else {
      counters.IncRange(first, last);
    }
    forall i | 0 <= i < counters.n ensures counters.Count(i) == FreeOn(free[..j + 1], c, p, i) {
      assert Counted(free, c, p, j, first, last, limit, i);
    }
  }

  /** A chunk's pages run from its first to its last, which are the same when chunks divide pages. */
  lemma ChunkSpan(offset: nat, c: nat, p: nat)
    requires c > 0 && p > 0 && offset % c == 0
    ensures offset / p <= (offset + c - 1) / p
    ensures p % c == 0 ==> offset / p == (offset + c - 1) / p
  {
    DivMono(offset, offset + c - 1, p);
    if p % c == 0 {
      OnePage(c, p, offset);
    }
  }

  lemma CountAtMost(free: seq<nat>, c: nat, p: nat, i: nat, j: nat)
    requires c > 0 && p > 0 && FreeOk(free, c) && j <= |free|
    ensures FreeOn(free[..j], c, p, i) <= FullPagesChunkCountMax(c, p)
  {
    CountDecides(free[..j], c, p, i);
    ChunkCountMax(c, p, i);
  }

  lemma CountOneMore(free: seq<nat>, c: nat, p: nat, i: nat, j: nat)
    requires c > 0 && p > 0 && FreeOk(free, c) && j < |free|
    ensures FreeOn(free[..j + 1], c, p, i) ==
            FreeOn(free[..j], c, p, i) + if free[j] / p <= i <= (free[j] + c - 1) / p then 1 else 0
  {
    assert free[..j + 1][..j] == free[..j];
    PagesOfChunk(c, p, free[j] / c, i);
    assert free[j] / c * c == free[j];
  }

  /** A chunk that divides a page never crosses a page boundary. */
  lemma OnePage(c: nat, p: nat, offset: nat)
    requires c > 0 && p > 0 && p % c == 0 && offset % c == 0
    ensures (offset + c - 1) / p == offset / p
  {
    var k, m := offset / c, p / c;
    assert offset == c * k && p == c * m;
    assert m == 0 ==> c * m == 0;
    DivUnique(offset + c - 1, c, k, c - 1);
    DivDiv(offset, c, m);
    DivDiv(offset + c - 1, c, m);
  }

  // ----- what is released -----

  ghost predicate AreVerdicts(flags: seq<bool>, free: seq<nat>, c: nat, p: nat) {
    forall j | 0 <= j < |flags| :: flags[j] <==> AllFree(free, c, p, j)
  }

  lemma OneMoreVerdict(flags: seq<bool>, free: seq<nat>, c: nat, p: nat, freed: bool)
    requires AreVerdicts(flags, free, c, p) && (freed <==> AllFree(free, c, p, |flags|))
    ensures AreVerdicts(flags + [freed], free, c, p)
  {
  }

  lemma FirstPage(c: nat, p: nat)
    requires c > 0 && p > 0
    ensures AtPage(c, p, 0, 0, 0)
  {
  }

  ghost predicate IsReleasedUnit(released: seq<(nat, nat)>, u: nat) {
    exists j :: 0 <= j < |released| && released[j].0 <= u < released[j].1
  }

  /** Pages go back exactly if every chunk that overlaps them is free: whole pages, in order and with gaps between. */
  ghost predicate ReleasesExactly(released: seq<(nat, nat)>, free: seq<nat>, c: nat, p: nat)
    requires p > 0
  {
    && (forall u: nat :: UnitIsRight(released, free, c, p, u))
    && (forall j | 0 <= j < |released| :: WholePages(released[j], p))
    && (forall j | 0 <= j < |released| - 1 :: released[j].1 < released[j + 1].0)
  }

  ghost predicate UnitIsRight(released: seq<(nat, nat)>, free: seq<nat>, c: nat, p: nat, u: nat)
    requires p > 0
  {
    IsReleasedUnit(released, u) <==> AllFree(free, c, p, u / p)
  }

  ghost predicate WholePages(range: (nat, nat), p: nat)
    requires p > 0
  {
    range.0 % p == 0 && range.1 % p == 0 && range.0 < range.1
  }

  lemma ScaledUnit(rs: seq<(nat, nat)>, p: nat, u: nat)
    requires p > 0
    ensures IsReleasedUnit(Scaled(rs, p), u) <==> InRuns(rs, u / p)
  {
    forall j | 0 <= j < |rs| ensures Scaled(rs, p)[j].0 <= u < Scaled(rs, p)[j].1 <==> rs[j].0 <= u / p < rs[j].1 {
      BelowIff(u, p, rs[j].0);
      BelowIff(u, p, rs[j].1);
    }
    if InRuns(rs, u / p) {
      var j :| 0 <= j < |rs| && rs[j].0 <= u / p < rs[j].1;
      assert Scaled(rs, p)[j].0 <= u < Scaled(rs, p)[j].1;
    }
  }

  /** A page beyond those counted overlaps no free chunk. */
  lemma NotBeyond(free: seq<nat>, c: nat, p: nat, pages: nat, i: nat)
    requires c > 0 && p > 0 && InPages(free, c, p, pages) && AllFree(free, c, p, i)
    ensures i < pages
  {
    var k := FirstChunk(c, p, i);
    FirstIsNotLater(c, p, i);
    ChunksOfPage(c, p, k, i);
    PagesOfChunk(c, p, k, i);
    assert IsFree(free, c, k);
  }

  lemma RunsAreExact(free: seq<nat>, c: nat, p: nat, pages: nat)
    requires c > 0 && p > 0 && InPages(free, c, p, pages)
    ensures ReleasesExactly(Scaled(Runs(Verdicts(free, c, p, pages)), p), free, c, p)
  {
    var flags := Verdicts(free, c, p, pages);
    var rs := Runs(flags);
    RunsAreMaximal(flags);
    ScaledRuns(flags, rs, p);
    forall u: nat ensures UnitIsRight(Scaled(rs, p), free, c, p, u) {
      RunsUnit(free, c, p, pages, u);
    }
  }

  lemma RunsUnit(free: seq<nat>, c: nat, p: nat, pages: nat, u: nat)
    requires c > 0 && p > 0 && InPages(free, c, p, pages)
    ensures UnitIsRight(Scaled(Runs(Verdicts(free, c, p, pages)), p), free, c, p, u)
  {
    ScaledUnit(Runs(Verdicts(free, c, p, pages)), p, u);
    InRunsIff(free, c, p, pages, u / p);
  }

  lemma ScaledRuns(flags: seq<bool>, rs: seq<(nat, nat)>, p: nat)
    requires p > 0 && AreMaximalRuns(flags, rs)
    ensures forall j | 0 <= j < |rs| :: WholePages(Scaled(rs, p)[j], p)
    ensures forall j | 0 <= j < |rs| - 1 :: Scaled(rs, p)[j].1 < Scaled(rs, p)[j + 1].0
  {
    forall j | 0 <= j < |rs| ensures WholePages(Scaled(rs, p)[j], p) {
      assert IsMaximal(flags, rs[j]);
      ScaledPage(rs[j].0, rs[j].1, p);
    }
    forall j | 0 <= j < |rs| - 1 ensures Scaled(rs, p)[j].1 < Scaled(rs, p)[j + 1].0 {
      ScaledPage(rs[j].1, rs[j + 1].0, p);
    }
  }

  lemma ScaledPage(a: nat, b: nat, p: nat)
    requires p > 0 && a < b
    ensures a * p % p == 0 && b * p % p == 0 && a * p < b * p
  {
    DivUnique(a * p, p, a, 0);
    DivUnique(b * p, p, b, 0);
    MulMono(a + 1, b, p);
    assert (a + 1) * p == a * p + p;
  }

  lemma InRunsIff(free: seq<nat>, c: nat, p: nat, pages: nat, i: nat)
    requires c > 0 && p > 0 && InPages(free, c, p, pages)
    ensures InRuns(Runs(Verdicts(free, c, p, pages)), i) <==> AllFree(free, c, p, i)
  {
    var flags := Verdicts(free, c, p, pages);
    RunsAreMaximal(flags);
    if InRuns(Runs(flags), i) {
      var j :| 0 <= j < |Runs(flags)| && Runs(flags)[j].0 <= i < Runs(flags)[j].1;
      assert IsMaximal(flags, Runs(flags)[j]) && flags[i];
    }
    if AllFree(free, c, p, i) {
      NotBeyond(free, c, p, pages, i);
      assert flags[i];
    }
  }

  method ReleaseFreeMemoryToOS(free: seq<nat>, c: nat, p: nat, pages: nat, mapper: MemoryMapper)
    requires 0 < c && 0 < p && p + 2 < Pow(2, WORD_BITS) && pages > 0
    requires FreeOk(free, c) && InPages(free, c, p, pages) && mapper.released == []
    modifies mapper
    ensures ReleasesExactly(mapper.released, free, c, p)
  {
    RunsAreExact(free, c, p, pages);
    ChunkCountMax(c, p, 0);
    var fullPagesChunkCountMax := FullPagesChunkCountMax(c, p);
    var counters := new PackedCounterArray(pages, fullPagesChunkCountMax);
    CounterBitsFit(fullPagesChunkCountMax);
    CountFree(free, c, p, counters);
    var tracker := new FreePagesRangeTracker(mapper, p);
    if SameChunkCountPerPage(c, p) {
      FastScan(free, c, p, counters, tracker);
    } else {
      SlowScan(free, c, p, counters, tracker);
    }
    assert tracker.flags == Verdicts(free, c, p, pages);
    tracker.Done();
  }

  method FastScan(free: seq<nat>, c: nat, p: nat, counters: PackedCounterArray, tracker: FreePagesRangeTracker)
    requires 0 < c && 0 < p && FreeOk(free, c) && SameChunkCountPerPage(c, p)
    requires counters.Valid() && forall i | 0 <= i < counters.n :: counters.Count(i) == FreeOn(free, c, p, i)
    requires tracker.Valid() && tracker.flags == []
    modifies tracker, tracker.mapper
    ensures tracker.Valid() && |tracker.flags| == counters.n && AreVerdicts(tracker.flags, free, c, p)
  {
    for i := 0 to counters.n
      invariant counters.Valid() && forall i | 0 <= i < counters.n :: counters.Count(i) == FreeOn(free, c, p, i)
      invariant tracker.Valid() && |tracker.flags| == i && AreVerdicts(tracker.flags, free, c, p)
    {
      var count := counters.Get(i);
      ChunkCountMax(c, p, i);
      CountDecides(free, c, p, i);
      OneMoreVerdict(tracker.flags, free, c, p, count == FullPagesChunkCountMax(c, p));
      tracker.NextPage(count == FullPagesChunkCountMax(c, p));
    }
  }

  /** The loop is at page `i`, which starts at `start`. */
  predicate AtPage(c: nat, p: nat, i: nat, start: nat, boundary: nat)
    requires c > 0
  {
    start == i * p && NextBoundary(c, start, boundary)
  }

  /** The part of the page loop that keeps the running boundary. */
  method NextPageBoundary(c: nat, p: nat, ghost i: nat, prevPageBoundary: nat, boundary: nat)
    returns (chunksPerPage: nat, currentBoundary: nat)
    requires c > 0 && p > 0 && c != p && AtPage(c, p, i, prevPageBoundary, boundary)
    ensures chunksPerPage == ChunkCount(c, p, i) && AtPage(c, p, i + 1, prevPageBoundary + p, currentBoundary)
  {
    var pn := if c < p then p / c else 1;
    var pnc := pn * c;
    var pageBoundary := prevPageBoundary + p;
    chunksPerPage, currentBoundary := pn, boundary;
    if currentBoundary < pageBoundary {
      if currentBoundary > prevPageBoundary {
        chunksPerPage := chunksPerPage + 1;
      }
      currentBoundary := currentBoundary + pnc;
      if currentBoundary < pageBoundary {
        chunksPerPage := chunksPerPage + 1;
        currentBoundary := currentBoundary + c;
      }
    }
    assert (chunksPerPage, currentBoundary) == PageStep(c, p, prevPageBoundary, boundary);
    PageStepCounts(c, p, i, boundary);
    assert (i + 1) * p == prevPageBoundary + p;
  }

  ghost predicate CountsAre(counters: PackedCounterArray, free: seq<nat>, c: nat, p: nat)
    requires c > 0 && counters.Valid()
    reads counters, counters.buffer
  {
    forall i | 0 <= i < counters.n :: counters.Count(i) == FreeOn(free, c, p, i)
  }

  lemma NotTheSame(c: nat, p: nat)
    requires c > 0 && p > 0 && !SameChunkCountPerPage(c, p)
    ensures c != p
  {
  }

  method SlowScan(free: seq<nat>, c: nat, p: nat, counters: PackedCounterArray, tracker: FreePagesRangeTracker)
    requires 0 < c && 0 < p && FreeOk(free, c) && !SameChunkCountPerPage(c, p)
    requires counters.Valid() && CountsAre(counters, free, c, p)
    requires tracker.Valid() && tracker.flags == []
    modifies tracker, tracker.mapper
    ensures tracker.Valid() && |tracker.flags| == counters.n && AreVerdicts(tracker.flags, free, c, p)
  {
    NotTheSame(c, p);
    FirstPage(c, p);
    ScanPages(free, c, p, counters, tracker);
  }

  method ScanPages(ghost free: seq<nat>, c: nat, p: nat, counters: PackedCounterArray, tracker: FreePagesRangeTracker)
    requires 0 < c && 0 < p && FreeOk(free, c) && c != p && AtPage(c, p, 0, 0, 0)
    requires counters.Valid() && CountsAre(counters, free, c, p)
    requires tracker.Valid() && tracker.flags == []
    modifies tracker, tracker.mapper
    ensures tracker.Valid() && |tracker.flags| == counters.n && AreVerdicts(tracker.flags, free, c, p)
  {
    var prevPageBoundary: nat, currentBoundary: nat := 0, 0;
    for i := 0 to counters.n
      invariant counters.Valid() && CountsAre(counters, free, c, p)
      invariant tracker.Valid() && |tracker.flags| == i && AreVerdicts(tracker.flags, free, c, p)
      invariant AtPage(c, p, i, prevPageBoundary, currentBoundary)
    {
      currentBoundary := ScanPage(free, c, p, counters, tracker, i, prevPageBoundary, currentBoundary);
      prevPageBoundary := prevPageBoundary + p;
    }
  }

  method ScanPage(ghost free: seq<nat>, c: nat, p: nat, counters: PackedCounterArray, tracker: FreePagesRangeTracker, i: nat,
                  prevPageBoundary: nat, boundary: nat)
    returns (currentBoundary: nat)
    requires 0 < c && 0 < p && FreeOk(free, c) && c != p && AtPage(c, p, i, prevPageBoundary, boundary)
    requires counters.Valid() && CountsAre(counters, free, c, p) && i < counters.n
    requires tracker.Valid() && |tracker.flags| == i && AreVerdicts(tracker.flags, free, c, p)
    modifies tracker, tracker.mapper
    ensures tracker.Valid() && |tracker.flags| == i + 1 && AreVerdicts(tracker.flags, free, c, p)
    ensures AtPage(c, p, i + 1, prevPageBoundary + p, currentBoundary)
  {
    var freed;
    freed, currentBoundary := IsPageFree(free, c, p, counters, i, prevPageBoundary, boundary);
    OneMoreVerdict(tracker.flags, free, c, p, freed);
    tracker.NextPage(freed);
  }

  /** Are as many chunks free as overlap the page. */
  method IsPageFree(ghost free: seq<nat>, c: nat, p: nat, counters: PackedCounterArray, i: nat, prevPageBoundary: nat, boundary: nat)
    returns (freed: bool, currentBoundary: nat)
    requires 0 < c && 0 < p && FreeOk(free, c) && c != p && AtPage(c, p, i, prevPageBoundary, boundary)
    requires counters.Valid() && i < counters.n && counters.Count(i) == FreeOn(free, c, p, i)
    ensures (freed <==> AllFree(free, c, p, i)) && AtPage(c, p, i + 1, prevPageBoundary + p, currentBoundary)
  {
    var chunksPerPage;
    chunksPerPage, currentBoundary := NextPageBoundary(c, p, i, prevPageBoundary, boundary);
    var count := counters.Get(i);
    CountDecides(free, c, p, i);
    freed := count == chunksPerPage;
  }

  /** What is released lies below the end of the chunks handed out. */
  lemma ReleasedIsAllocated(released: seq<(nat, nat)>, free: seq<nat>, c: nat, p: nat, u: nat, end: nat)
    requires 0 < c && 0 < p && ReleasesExactly(released, free, c, p) && forall f | f in free :: f + c <= end
    requires IsReleasedUnit(released, u)
    ensures u < end
  {
    assert UnitIsRight(released, free, c, p, u);
    AllFreeIsAllocated(free, c, p, u / p, end);
    DivBounds(u, p);
  }

  lemma OneIsBefore(a: seq<(nat, nat)>, b: seq<(nat, nat)>, free: seq<nat>, c: nat, p: nat, j: nat)
    requires p > 0 && ReleasesExactly(a, free, c, p) && ReleasesExactly(b, free, c, p) && j < |a|
    requires j <= |b| && forall k | 0 <= k < j :: a[k] == b[k]
    ensures j < |b| && b[j].0 <= a[j].0
  {
    assert UnitIsRight(a, free, c, p, a[j].0) && UnitIsRight(b, free, c, p, a[j].0);
    assert WholePages(a[j], p) && IsReleasedUnit(a, a[j].0);
    var k :| 0 <= k < |b| && b[k].0 <= a[j].0 < b[k].1;
    if k < j {
      Ascending(a, p, k, j);
    } else {
      Ascending(b, p, j, k);
    }
  }

  lemma {:induction false} Ascending(a: seq<(nat, nat)>, p: nat, j: nat, k: nat)
    requires p > 0 && j <= k < |a|
    requires forall i | 0 <= i < |a| :: WholePages(a[i], p)
    requires forall i | 0 <= i < |a| - 1 :: a[i].1 < a[i + 1].0
    ensures a[j].0 <= a[k].0 && (j < k ==> a[j].1 < a[k].0)
    decreases k
  {
    if j < k {
      Ascending(a, p, j, k - 1);
      assert WholePages(a[k - 1], p) && a[k - 1].1 < a[k - 1 + 1].0;
    }
  }

  lemma EndsTogether(a: seq<(nat, nat)>, b: seq<(nat, nat)>, free: seq<nat>, c: nat, p: nat, j: nat)
    requires p > 0 && ReleasesExactly(a, free, c, p) && ReleasesExactly(b, free, c, p) && j < |a| && j < |b|
    requires a[j].0 == b[j].0
    ensures b[j].1 <= a[j].1
  {
    if a[j].1 < b[j].1 {
      var u := a[j].1;
      assert WholePages(a[j], p) && b[j].0 <= u < b[j].1;
      assert UnitIsRight(a, free, c, p, u) && UnitIsRight(b, free, c, p, u) && IsReleasedUnit(b, u);
      var k :| 0 <= k < |a| && a[k].0 <= u < a[k].1;
      if k < j {
        Ascending(a, p, k, j);
      } else if j < k {
        Ascending(a, p, j, k);
      }
    }
  }

  /** There is only one way to release exactly these pages. */
  lemma ReleasedOnlyOneWay(a: seq<(nat, nat)>, b: seq<(nat, nat)>, free: seq<nat>, c: nat, p: nat)
    requires p > 0 && ReleasesExactly(a, free, c, p) && ReleasesExactly(b, free, c, p)
    ensures a == b
  {
    SamePrefix(a, b, free, c, p, |a|);
    if |a| < |b| {
      OneIsBefore(b, a, free, c, p, |a|);
    }
  }

  lemma {:induction false} SamePrefix(a: seq<(nat, nat)>, b: seq<(nat, nat)>, free: seq<nat>, c: nat, p: nat, n: nat)
    requires p > 0 && ReleasesExactly(a, free, c, p) && ReleasesExactly(b, free, c, p) && n <= |a|
    ensures n <= |b| && forall k | 0 <= k < n :: a[k] == b[k]
  {
    if n > 0 {
      var j := n - 1;
      SamePrefix(a, b, free, c, p, j);
      OneIsBefore(a, b, free, c, p, j);
      OneIsBefore(b, a, free, c, p, j);
      EndsTogether(a, b, free, c, p, j);
      EndsTogether(b, a, free, c, p, j);
    }
  }
}
