/** What the release scan may assume of a region's free array, and what users of chunks may rely on. */
module RegionReleaseSpec {
  import opened Powers
  import opened ChunkSpec
  import opened PageSpec
  import opened PageRelease

  /** Every chunk is free or out, in one place only. */
  ghost predicate Placed(free: seq<nat>, out: multiset<nat>, c: nat, total: nat)
    requires c > 0
  {
    multiset(free) + out == multiset(Chunks(c, total))
  }

  lemma {:induction false} ChunkIs(c: nat, n: nat, x: nat) returns (k: nat)
    requires c > 0 && x in Chunks(c, n)
    ensures x == Times(k, c) && k < n
  {
    if x == Times(n - 1, c) {
      k := n - 1;
    } else {
      k := ChunkIs(c, n - 1, x);
    }
  }

  /** Chunk `k` begins at a multiple of the chunk size. */
  lemma ChunkOffset(c: nat, k: nat, n: nat, x: nat)
    requires c > 0 && x == Times(k, c) && k < n
    ensures x % c == 0 && x / c == k && x == k * c && x + c == (k + 1) * c && x + c <= n * c
  {
    TimesIs(k, c);
    TimesIs(k + 1, c);
    DivUnique(x, c, k, 0);
    MulMono(k + 1, n, c);
  }

  lemma PlacedOnce(free: seq<nat>, out: multiset<nat>, c: nat, total: nat, x: nat)
    requires c > 0 && Placed(free, out, c, total)
    ensures multiset(free)[x] + out[x] <= 1
    ensures x in free || x in out ==> x % c == 0 && x / c * c == x && x + c == (x / c + 1) * c && x + c <= total * c
  {
    assert (multiset(free) + out)[x] == multiset(Chunks(c, total))[x] <= 1;
    if x in free || x in out {
      assert x in multiset(free) || x in out;
      var k := ChunkIs(c, total, x);
      ChunkOffset(c, k, total, x);
    }
  }

  lemma OnceIn(free: seq<nat>, j: nat, k: nat)
    requires j < k < |free| && free[j] == free[k]
    ensures multiset(free)[free[j]] >= 2
  {
    assert free == free[..j + 1] + free[j + 1..];
    assert free[j] in free[..j + 1] && free[j + 1..][k - j - 1] == free[j];
    assert free[j] in multiset(free[..j + 1]) && free[j] in multiset(free[j + 1..]);
  }

  /** The free array is what the scan takes it for: offsets of distinct chunks in the pages it counts. */
  lemma FreeArrayIsScannable(free: seq<nat>, out: multiset<nat>, c: nat, total: nat, p: nat, pages: nat)
    requires c > 0 && p > 0 && Placed(free, out, c, total) && total * c <= pages * p
    ensures FreeOk(free, c) && InPages(free, c, p, pages)
  {
    forall j | 0 <= j < |free| ensures free[j] % c == 0 && (free[j] + c - 1) / p < pages {
      PlacedOnce(free, out, c, total, free[j]);
      BelowIff(free[j] + c - 1, p, pages);
    }
    forall j, k | 0 <= j < k < |free| ensures free[j] != free[k] {
      if free[j] == free[k] {
        OnceIn(free, j, k);
        PlacedOnce(free, out, c, total, free[j]);
      }
    }
  }

  /** No unit of a released range belongs to a chunk that is out. */
  ghost predicate Spares(released: seq<(nat, nat)>, out: multiset<nat>, c: nat) {
    forall u: nat, x | IsReleasedUnit(released, u) && x in out :: !(x <= u < x + c)
  }

  lemma ReleasedUnit(released: seq<(nat, nat)>, free: seq<nat>, c: nat, p: nat, u: nat) returns (i: nat)
    requires p > 0 && ReleasesExactly(released, free, c, p) && IsReleasedUnit(released, u)
    ensures AllFree(free, c, p, i) && i * p <= u < (i + 1) * p
  {
    assert UnitIsRight(released, free, c, p, u);
    i := u / p;
    DivBounds(u, p);
  }

  /** Pages that are released hold no chunk the program or a cache has. */
  lemma ReleaseSparesOut(released: seq<(nat, nat)>, free: seq<nat>, out: multiset<nat>, c: nat, total: nat, p: nat)
    requires c > 0 && p > 0 && Placed(free, out, c, total) && ReleasesExactly(released, free, c, p)
    ensures Spares(released, out, c)
  {
    forall u: nat, x | IsReleasedUnit(released, u) && x in out ensures !(x <= u < x + c) {
      var i := ReleasedUnit(released, free, c, p, u);
      if x <= u < x + c {
        OutIsNotFree(free, out, c, total, p, i, u, x);
      }
    }
  }

  lemma OutIsNotFree(free: seq<nat>, out: multiset<nat>, c: nat, total: nat, p: nat, i: nat, u: nat, x: nat)
    requires c > 0 && p > 0 && Placed(free, out, c, total) && x in out && x <= u < x + c
    requires i * p <= u < (i + 1) * p
    ensures !AllFree(free, c, p, i)
  {
    PlacedOnce(free, out, c, total, x);
    assert Overlaps(c, p, x / c, i);
    assert x !in multiset(free);
    assert !IsFree(free, c, x / c);
  }

  /** The pages of the chunks handed out so far: `bytes` rounded up to pages of `16 * p` bytes. */
  function PagesOf(bytes: nat, p: nat): nat
    requires p > 0
  {
    Quotient(RoundUpTo(bytes, 16 * p), 16 * p)
  }

  lemma RoundedIsMultiple(x: nat, boundary: nat)
    requires boundary > 0
    ensures x <= boundary * Quotient(RoundUpTo(x, boundary), boundary)
  {
    RoundUpBound(x, boundary);
    var q := (x + boundary - 1) / boundary;
    DivUnique(boundary * q, boundary, q, 0);
    assert q * boundary == boundary * q;
  }

  lemma PagesCover(total: nat, c: nat, p: nat)
    requires p > 0
    ensures total * c <= PagesOf(16 * Times(total, c), p) * p
  {
    var pages := PagesOf(16 * Times(total, c), p);
    TimesIs(total, c);
    RoundedIsMultiple(16 * Times(total, c), 16 * p);
    assert (16 * p) * pages == 16 * (pages * p);
  }

  lemma SomePage(u: nat, p: nat, pages: nat)
    requires p > 0 && u / p < pages
    ensures pages > 0
  {
    BelowIff(u, p, 0);
  }

  lemma CanRelease(free: seq<nat>, out: multiset<nat>, c: nat, total: nat, p: nat, pages: nat)
    requires c > 0 && p > 0 && Placed(free, out, c, total) && total * c <= pages * p
    ensures FreeOk(free, c) && InPages(free, c, p, pages) && (free != [] ==> pages > 0)
  {
    FreeArrayIsScannable(free, out, c, total, p, pages);
    if free != [] {
      SomePage(free[0] + c - 1, p, pages);
    }
  }

  /** A free array as it is in a region can be scanned. */
  lemma RegionCanRelease(free: seq<nat>, out: multiset<nat>, c: nat, total: nat, bytes: nat, p: nat)
    requires c > 0 && p > 0 && Placed(free, out, c, total) && bytes == 16 * Times(total, c)
    ensures FreeOk(free, c) && InPages(free, c, p, PagesOf(bytes, p)) && (free != [] ==> PagesOf(bytes, p) > 0)
  {
    PagesCover(total, c, p);
    CanRelease(free, out, c, total, p, PagesOf(bytes, p));
  }

  /** Enough is free, enough has been freed since the last time, and it is time or does not matter. */
  ghost predicate IsDue(free: nat, freedSince: nat, c: nat, p: nat, force: bool, due: bool) {
    Times(free, c) >= p && Times(freedSince, c) >= p && (force || due)
  }

  /** What is released, in units of 16 bytes: the pages that hold free chunks only, if it is due. */
  ghost predicate IsReleased(released: seq<(nat, nat)>, free: seq<nat>, c: nat, p: nat, freedSince: nat, force: bool, due: bool) {
    p > 0 && if IsDue(|free|, freedSince, c, p, force, due) then ReleasesExactly(released, free, c, p) else released == []
  }
}
