/** One size class of the 64-bit allocator, with a free array and thread caches. Every chunk is in exactly one place. */
module ChunkSpec {
  import opened Powers

  /** `n * d`, added up. */
  function Times(n: nat, d: nat): nat { if n == 0 then 0 else Times(n - 1, d) + d }

  /** Offsets, in units of 16 bytes, of the first `n` chunks of `c` units. */
  function Chunks(c: nat, n: nat): (chunks: set<nat>)
    requires c > 0
    ensures forall x | x in chunks :: x < Times(n, c)
    ensures |chunks| == n
  {
    if n == 0 then {} else Chunks(c, n - 1) + {Times(n - 1, c)}
  }

  lemma MoreChunks(c: nat, n: nat)
    requires c > 0
    ensures multiset(Chunks(c, n + 1)) == multiset(Chunks(c, n)) + Single(Times(n, c))
  {
  }

  ghost predicate NewChunks(chunks: seq<nat>, c: nat, total: nat, n: nat)
    requires c > 0
  {
    multiset(chunks) + multiset(Chunks(c, total)) == multiset(Chunks(c, total + n))
  }

  /** The free chunks together with new ones, in whatever order. */
  lemma AllChunks(free: seq<nat>, more: seq<nat>, all: seq<nat>, filled: seq<nat>, out: multiset<nat>, c: nat, total: nat, total': nat)
    requires c > 0 && Descending(filled, c, total) && multiset(more) == multiset(filled)
    requires multiset(free) + out == multiset(Chunks(c, total)) && all == free + more && total' == total + |filled|
    ensures multiset(all) + out == multiset(Chunks(c, total'))
  {
    DescendingIsNew(filled, c, total);
    assert multiset(free + more) == multiset(free) + multiset(more);
  }

  lemma NewChunksStep(chunks: seq<nat>, c: nat, total: nat, n: nat, offset: nat)
    requires c > 0 && NewChunks(chunks, c, total, n) && offset == Times(total + n, c)
    ensures NewChunks([offset] + chunks, c, total, n + 1)
  {
    MoreChunks(c, total + n);
  }

  /** Offsets of chunks from number `total` on, the lowest last. */
  ghost predicate Descending(s: seq<nat>, c: nat, total: nat) {
    forall k | 0 <= k < |s| :: IsNewChunk(s, c, total, k)
  }

  ghost predicate IsNewChunk(s: seq<nat>, c: nat, total: nat, k: nat)
    requires k < |s|
  {
    s[k] == Times(total + (|s| - 1 - k), c)
  }

  lemma DescendingMore(s: seq<nat>, c: nat, total: nat, chunk: nat)
    requires Descending(s, c, total) && chunk == Times(total + |s|, c)
    ensures Descending([chunk] + s, c, total)
  {
    forall k | 0 <= k < |s| + 1 ensures IsNewChunk([chunk] + s, c, total, k) {
      if k > 0 {
        assert IsNewChunk(s, c, total, k - 1);
      }
    }
  }

  lemma {:induction false} DescendingIsNew(s: seq<nat>, c: nat, total: nat)
    requires c > 0 && Descending(s, c, total)
    ensures NewChunks(s, c, total, |s|)
  {
    if s != [] {
      var rest := s[1..];
      forall k | 0 <= k < |rest| ensures IsNewChunk(rest, c, total, k) {
        assert IsNewChunk(s, c, total, k + 1);
      }
      DescendingIsNew(rest, c, total);
      assert IsNewChunk(s, c, total, 0);
      NewChunksStep(rest, c, total, |rest|, s[0]);
      assert s == [s[0]] + rest;
    }
  }

  method Product(n: nat, d: nat) returns (p: nat)
    ensures p == Times(n, d) && (d == 0 ==> p == 0)
  {
    TimesIs(n, d);
    p := n * d;
  }

  lemma {:induction false} BytesOf(n: nat, c: nat)
    ensures Times(n, 16 * c) == 16 * Times(n, c)
  {
    if n > 0 {
      BytesOf(n - 1, c);
    }
  }

  ghost function Single(x: nat): multiset<nat> { multiset{x} }

  lemma {:induction false} TimesIs(n: nat, d: nat)
    ensures Times(n, d) == n * d
  {
    if n > 0 {
      TimesIs(n - 1, d);
      assert n * d == (n - 1) * d + d;
    }
  }

  lemma {:induction false} TimesAdd(m: nat, n: nat, d: nat)
    ensures Times(m + n, d) == Times(m, d) + Times(n, d)
  {
    if n > 0 {
      TimesAdd(m, n - 1, d);
    }
  }

  function Quotient(x: nat, d: nat): nat
    requires d > 0
  {
    x / d
  }

  function RoundUpTo(x: nat, boundary: nat): (r: nat)
    requires boundary > 0
  {
    (x + boundary - 1) / boundary * boundary
  }

  /** The least multiple of the boundary that is not below `x`. */
  lemma RoundUpBound(x: nat, boundary: nat)
    requires boundary > 0
    ensures x <= RoundUpTo(x, boundary) < x + boundary && RoundUpTo(x, boundary) % boundary == 0
  {
    var w := x + boundary - 1;
    assert w == boundary * (w / boundary) + w % boundary;
    assert w / boundary * boundary == boundary * (w / boundary);
    DivUnique(boundary * (w / boundary), boundary, w / boundary, 0);
  }

  // ----- the invariant of a region, on values -----

  ghost predicate UserBytesAre(n: nat, c: nat, bytes: nat, mapped: nat) { bytes == 16 * Times(n, c) && bytes <= mapped }

  ghost predicate MetaBytesAre(n: nat, size: nat, bytes: nat, mapped: nat) { bytes == Times(n, size) && bytes <= mapped }

  ghost predicate FreeArrayFits(length: nat, bytes: nat, count: nat, mapped: nat) {
    length == bytes / 4 && count <= length && count * 4 <= mapped <= bytes
  }

  ghost predicate PlacesAre(free: multiset<nat>, out: multiset<nat>, all: multiset<nat>) { free + out == all }

  ghost predicate StatisticsAre(out: multiset<nat>, nAllocated: nat, nFreed: nat, nFreedAtLastRelease: nat) {
    nFreedAtLastRelease <= nFreed <= nAllocated && |out| == nAllocated - nFreed
  }

  /** What one place has more another has less. */
  ghost predicate Balanced(out': multiset<nat>, cached: multiset<nat>, out: multiset<nat>, cached': multiset<nat>) {
    out' + cached == out + cached'
  }

  /** Moving some chunks from one place to another. */
  lemma Moved(free: multiset<nat>, given: multiset<nat>, out: multiset<nat>, n: nat)
    requires given <= out && |given| == n
    ensures (free + given) + (out - given) == free + out && |out - given| == |out| - n
  {
    assert out == (out - given) + given;
  }

  /** The last of the free chunks go out. */
  lemma TakenOut(rest: seq<nat>, taken: seq<nat>, out: multiset<nat>, all: multiset<nat>,
                 nAllocated: nat, nFreed: nat, last: nat)
    requires PlacesAre(multiset(rest + taken), out, all) && StatisticsAre(out, nAllocated, nFreed, last)
    ensures PlacesAre(multiset(rest), out + multiset(taken), all)
    ensures StatisticsAre(out + multiset(taken), nAllocated + |taken|, nFreed, last)
  {
    assert multiset(rest + taken) == multiset(rest) + multiset(taken);
    assert |multiset(taken)| == |taken|;
  }

  /** Some chunks that are out become free. */
  lemma GivenBack(free: seq<nat>, given: seq<nat>, out: multiset<nat>, all: multiset<nat>,
                  nAllocated: nat, nFreed: nat, last: nat)
    requires PlacesAre(multiset(free), out, all) && StatisticsAre(out, nAllocated, nFreed, last) && multiset(given) <= out
    ensures PlacesAre(multiset(free + given), out - multiset(given), all)
    ensures StatisticsAre(out - multiset(given), nAllocated, nFreed + |given|, last)
  {
    Moved(multiset(free), multiset(given), out, |given|);
    assert multiset(free + given) == multiset(free) + multiset(given);
  }
}

/** Which memory a region maps for new chunks, and when it gets it. */
module MappingSpec {
  import opened Powers
  import opened ChunkSpec

  const MAP_SIZE: nat := 0x10000

  /** `Failed`: no more memory. `Died`: a check fails and ends the process. */
  datatype Outcome = Done | Failed | Died

  /** What the environment answers when user memory, metadata and the free array are mapped. */
  datatype Answers = Answers(user: bool, meta: bool, free: bool)

  /** Mapped memory grows by whole units, and by no more of them than needed. */
  function MapTo(mapped: nat, needed: nat): (m: nat)
    ensures mapped <= m && needed <= m && (m - mapped) % MAP_SIZE == 0
    ensures m == mapped || m - MAP_SIZE < needed
  {
    if needed <= mapped then mapped
    else
      RoundUpBound(needed - mapped, MAP_SIZE);
      mapped + RoundUpTo(needed - mapped, MAP_SIZE)
  }

  lemma MapToIs(mapped: nat, needed: nat)
    requires mapped < needed
    ensures MapTo(mapped, needed) == mapped + RoundUpTo(needed - mapped, MAP_SIZE) >= needed
  {
  }

  /** The memory is there, or together with the `other` it stays within the limit and mapping it succeeds. */
  predicate Room(mapped: nat, needed: nat, other: nat, limit: int, ok: bool) {
    needed <= mapped || (ok && MapTo(mapped, needed) + other <= limit)
  }

  /** The same for the free array, which is mapped from its beginning and has a size of its own. */
  predicate FreeRoom(mapped: nat, needed: nat, size: nat, ok: bool) {
    needed <= mapped || (ok && RoundUpTo(needed, MAP_SIZE) <= size)
  }

  /** Sizes in bytes: what is allocated and mapped, and the number of free chunks. Chunks have `16 * c` bytes. */
  datatype Memory = Memory(c: nat, metadataSize: nat, regionSize: nat, allocatedUser: nat, allocatedMeta: nat,
                           mappedUser: nat, mappedMeta: nat, mappedFreeArray: nat, free: nat)
  {
    predicate Ok() { c > 0 && allocatedUser <= mappedUser && allocatedMeta <= mappedMeta }

    function FreeArraySize(): nat { regionSize / 8 }

    /** User memory for `n` more chunks. */
    function User(n: nat): nat { allocatedUser + Times(n, 16 * c) }

    /** Asking for `n` chunks, as many new ones come as fit into the memory mapped then. */
    function NewChunks(n: nat): nat
      requires Ok()
    {
      Quotient(MapTo(mappedUser, User(n)) - allocatedUser, 16 * c)
    }

    function Meta(n: nat): nat
      requires Ok()
    {
      allocatedMeta + Times(NewChunks(n), metadataSize)
    }

    function FreeArray(n: nat): nat
      requires Ok()
    {
      4 * (free + NewChunks(n))
    }

    /** User memory and metadata stay below the free array. */
    function Limit(): int { regionSize - FreeArraySize() }

    predicate UserOk(n: nat, ok: bool) { Room(mappedUser, User(n), mappedMeta, Limit(), ok) }

    predicate MetaOk(n: nat, ok: bool)
      requires Ok()
    {
      Room(mappedMeta, Meta(n), MapTo(mappedUser, User(n)), Limit(), ok)
    }

    /** The free array has room for so many entries. */
    predicate Fits(bytes: nat) { FreeRoom(mappedFreeArray, bytes, FreeArraySize(), true) }

    predicate FreeOk(bytes: nat, ok: bool) { FreeRoom(mappedFreeArray, bytes, FreeArraySize(), ok) }

    /** `n` chunks can be given back. */
    predicate CanReturn(n: nat, ok: bool) { FreeOk(4 * (free + n), ok) }

    /** `k` chunks can be added in memory that is mapped. */
    predicate CanAdd(k: nat, a: Answers) {
      Room(mappedMeta, allocatedMeta + Times(k, metadataSize), mappedUser, Limit(), a.meta) && FreeOk(4 * (free + k), a.free)
    }

    predicate DiesAdding(k: nat, a: Answers) {
      Room(mappedMeta, allocatedMeta + Times(k, metadataSize), mappedUser, Limit(), a.meta) && !Fits(4 * (free + k))
    }

    /** New chunks can be had. */
    predicate CanPopulate(n: nat, a: Answers)
      requires Ok()
    {
      UserOk(n, a.user) && MetaOk(n, a.meta) && FreeOk(FreeArray(n), a.free)
    }

    /** The process dies trying: there is no room for entries of the new chunks. */
    predicate DiesPopulating(n: nat, a: Answers)
      requires Ok()
    {
      UserOk(n, a.user) && MetaOk(n, a.meta) && !Fits(FreeArray(n))
    }

    predicate CanGet(n: nat, a: Answers)
      requires Ok()
    {
      n <= free || CanPopulate(n - free, a)
    }

    predicate DiesGetting(n: nat, a: Answers)
      requires Ok()
    {
      n > free && DiesPopulating(n - free, a)
    }
  }

  lemma QuotientFills(bytes: nat, size: nat, n: nat)
    requires size > 0 && Times(n, size) <= bytes
    ensures n <= Quotient(bytes, size) && Times(Quotient(bytes, size), size) <= bytes < Times(Quotient(bytes, size) + 1, size)
  {
    var q := bytes / size;
    TimesIs(n, size);
    TimesIs(q, size);
    TimesIs(q + 1, size);
    assert bytes == size * q + bytes % size;
    assert q * size == size * q && (q + 1) * size == size * q + size;
    if n > q {
      MulMono(q + 1, n, size);
    }
  }

  /** At least as many chunks as asked for, and no more would fit. */
  lemma NewChunksFill(m: Memory, n: nat)
    requires m.Ok()
    ensures n <= m.NewChunks(n)
    ensures var bytes := MapTo(m.mappedUser, m.User(n)) - m.allocatedUser;
            Times(m.NewChunks(n), 16 * m.c) <= bytes < Times(m.NewChunks(n) + 1, 16 * m.c)
  {
    QuotientFills(MapTo(m.mappedUser, m.User(n)) - m.allocatedUser, 16 * m.c, n);
  }

  /** With user memory mapped, what remains to be asked for. */
  lemma UserIsMapped(m: Memory, n: nat, a: Answers)
    requires m.Ok() && m.UserOk(n, a.user)
    ensures var (k, m') := (m.NewChunks(n), m.(mappedUser := MapTo(m.mappedUser, m.User(n))));
            && (m.CanPopulate(n, a) <==> m'.CanAdd(k, a))
            && (m.DiesPopulating(n, a) <==> m'.DiesAdding(k, a))
  {
  }

  /** With enough mapped, or room for the units to map and an environment that agrees, chunks can be had; without its
      agreement only what is mapped can. */
  lemma GettingDependsOn(m: Memory, n: nat, a: Answers)
    requires m.Ok()
    ensures !a.user && m.User(n) > m.mappedUser ==> !m.CanPopulate(n, a) && !m.DiesPopulating(n, a)
    ensures a == Answers(true, true, true) ==>
              (m.CanPopulate(n, a) <==> m.UserOk(n, true) && m.MetaOk(n, true) && m.Fits(m.FreeArray(n)))
    ensures m.CanPopulate(n, a) ==> !m.DiesPopulating(n, a)
  {
  }
}

module Allocator {
  import opened Powers
  import opened ChunkSpec
  import opened MappingSpec
  import opened RegionReleaseSpec
  import PageRanges
  import PageRelease

  /** Page sizes are words. */
  const MAX_PAGE_SIZE: nat := 0xFFFF_FFFF_FFFF_FFFE

  /** `RegionInfo` with its free array. Sizes are in bytes, chunk offsets in units of 16. */
  class Region {
    const c: nat
    const metadataSize: nat
    const regionSize: nat
    const pageSize: nat
    const freeArray: array<nat>
    var numFreedChunks: nat
    var mappedFreeArray: nat
    var allocatedUser: nat
    var allocatedMeta: nat
    var mappedUser: nat
    var mappedMeta: nat
    var exhausted: bool
    var nAllocated: nat
    var nFreed: nat
    var nFreedAtLastRelease: nat

    /** The chunks in thread caches and user hands. */
    ghost var out: multiset<nat>

    /** The number of chunks below `allocated_user`, and all of them. */
    ghost var total: nat
    ghost var all: multiset<nat>

    function Size(): nat { 16 * c }

    function FreeArraySize(): nat { regionSize / 8 }

    ghost function Free(): multiset<nat>
      requires numFreedChunks <= freeArray.Length
      reads this`numFreedChunks, freeArray
    {
      multiset(freeArray[..numFreedChunks])
    }

    /** What is allocated is mapped, and what is mapped stays below the free array. */
    ghost predicate BytesOk()
      reads this`total, this`allocatedUser, this`allocatedMeta, this`mappedUser, this`mappedMeta
    {
      BytesFor(total)
    }

    ghost predicate BytesFor(n: nat)
      reads this`allocatedUser, this`allocatedMeta, this`mappedUser, this`mappedMeta
    {
      && UserBytesAre(n, c, allocatedUser, mappedUser) && MetaBytesAre(n, metadataSize, allocatedMeta, mappedMeta)
      && mappedUser + mappedMeta <= regionSize - FreeArraySize()
    }

    /** Every chunk is either free or out, and the statistics count those that are out. */
    ghost predicate ChunksOk()
      reads this`numFreedChunks, this`mappedFreeArray, this`all, this`out, freeArray
      reads this`nAllocated, this`nFreed, this`nFreedAtLastRelease
    {
      && FreeArrayFits(freeArray.Length, FreeArraySize(), numFreedChunks, mappedFreeArray)
      && PlacesAre(multiset(freeArray[..numFreedChunks]), out, all)
      && StatisticsAre(out, nAllocated, nFreed, nFreedAtLastRelease)
    }

    ghost predicate Valid()
      reads this, freeArray
    {
      BytesOk() && ChunksOk() && AllOk() && PageOk()
    }

    ghost predicate AllOk()
      reads this`total, this`all
    {
      c > 0 && all == multiset(Chunks(c, total))
    }

    /** Pages are given in units of 16 bytes, as chunks are. */
    predicate PageOk() { 0 < pageSize < MAX_PAGE_SIZE }

    constructor (c: nat, metadataSize: nat, regionSize: nat, pageSize: nat)
      requires c > 0 && 0 < pageSize < MAX_PAGE_SIZE
      ensures Valid() && fresh(freeArray) && this.c == c && out == multiset{} && numFreedChunks == 0
    {
      this.c, this.metadataSize, this.regionSize, this.pageSize := c, metadataSize, regionSize, pageSize;
      freeArray := new nat[regionSize / 8 / 4];
      numFreedChunks, mappedFreeArray, allocatedUser, allocatedMeta, mappedUser, mappedMeta := 0, 0, 0, 0, 0, 0;
      exhausted, nAllocated, nFreed, nFreedAtLastRelease := false, 0, 0, 0;
      out, total, all := multiset{}, 0, multiset{};
    }

    /** Nothing but bookkeeping of mapped memory has changed. */
    twostate predicate ChunksUnchanged()
      reads this, freeArray
    {
      && freeArray[..] == old(freeArray[..]) && numFreedChunks == old(numFreedChunks) && out == old(out)
      && total == old(total) && allocatedUser == old(allocatedUser) && allocatedMeta == old(allocatedMeta)
      && nAllocated == old(nAllocated) && nFreed == old(nFreed)
    }

    ghost function Mem(): Memory
      reads this`allocatedUser, this`allocatedMeta, this`mappedUser, this`mappedMeta, this`mappedFreeArray, this`numFreedChunks
    {
      Memory(c, metadataSize, regionSize, allocatedUser, allocatedMeta, mappedUser, mappedMeta, mappedFreeArray, numFreedChunks)
    }

    method EnsureFreeArraySpace(n: nat, mapOk: bool) returns (r: Outcome)
      requires Valid()
      modifies this`mappedFreeArray
      ensures Valid()
      ensures r.Done? ==> n * 4 <= mappedFreeArray
      ensures r.Died? <==> !old(Mem()).Fits(4 * n)
      ensures mappedFreeArray == if r.Done? && old(mappedFreeArray) < 4 * n then RoundUpTo(4 * n, MAP_SIZE) else old(mappedFreeArray)
      ensures r.Done? <==> old(Mem()).FreeOk(4 * n, mapOk)
    {
      var neededSpace := n * 4;
      if mappedFreeArray < neededSpace {
        RoundUpBound(neededSpace, MAP_SIZE);
        var newMappedFreeArray := RoundUpTo(neededSpace, MAP_SIZE);
        if newMappedFreeArray > FreeArraySize() {
          return Died;
        }
        if !mapOk {
          return Failed;
        }
        mappedFreeArray := newMappedFreeArray;
      }
      r := Done;
    }

    method IsRegionExhausted(additionalMapSize: nat) returns (r: bool)
      modifies this`exhausted
      ensures r <==> mappedUser + mappedMeta + additionalMapSize > regionSize - FreeArraySize()
      ensures exhausted == (old(exhausted) || r)
    {
      r := mappedUser + mappedMeta + additionalMapSize > regionSize - FreeArraySize();
      if r {
        exhausted := true;
      }
    }

    /** Maps memory for `requested` more chunks. */
    method MapUser(requested: nat, mapOk: bool) returns (r: Outcome)
      requires Valid()
      modifies this`mappedUser, this`exhausted
      ensures Valid() && !r.Died?
      ensures r.Done? <==> old(Mem()).UserOk(requested, mapOk)
      ensures mappedUser == if r.Done? then MapTo(old(mappedUser), old(Mem()).User(requested)) else old(mappedUser)
    {
      var requestedBytes := Product(requested, Size());
      r := MapUserBytes(allocatedUser + requestedBytes, mapOk);
    }

    method MapUserBytes(totalUserBytes: nat, mapOk: bool) returns (r: Outcome)
      requires Valid()
      modifies this`mappedUser, this`exhausted
      ensures Valid() && !r.Died?
      ensures r.Done? <==> Room(old(mappedUser), totalUserBytes, mappedMeta, regionSize - FreeArraySize(), mapOk)
      ensures mappedUser == if r.Done? then MapTo(old(mappedUser), totalUserBytes) else old(mappedUser)
    {
      if totalUserBytes > mappedUser {
        var userMapSize := RoundUpTo(totalUserBytes - mappedUser, MAP_SIZE);
        MapToIs(mappedUser, totalUserBytes);
        var full := IsRegionExhausted(userMapSize);
        if full || !mapOk {
          return Failed;
        }
        mappedUser := mappedUser + userMapSize;
      }
      r := Done;
    }

    /** Maps memory for the metadata of the new chunks. */
    method MapMeta(newChunksCount: nat, mapMetaOk: bool, ghost room: bool) returns (r: Outcome, metaBytes: nat)
      requires Valid() && MetaRoomIs(newChunksCount, mapMetaOk, room)
      modifies this`mappedMeta, this`exhausted
      ensures Valid() && !r.Died?
      ensures r.Done? <==> room
      ensures r.Done? ==> metaBytes == Times(newChunksCount, metadataSize) && allocatedMeta + metaBytes <= mappedMeta
    {
      metaBytes := Product(newChunksCount, metadataSize);
      r := MapMetaBytes(allocatedMeta + metaBytes, mapMetaOk);
    }

    method MapMetaBytes(totalMetaBytes: nat, mapMetaOk: bool) returns (r: Outcome)
      requires Valid() && (metadataSize == 0 ==> totalMetaBytes <= mappedMeta)
      modifies this`mappedMeta, this`exhausted
      ensures Valid() && !r.Died?
      ensures r.Done? <==> Room(old(mappedMeta), totalMetaBytes, mappedUser, regionSize - FreeArraySize(), mapMetaOk)
      ensures mappedMeta == if r.Done? then MapTo(old(mappedMeta), totalMetaBytes) else old(mappedMeta)
    {
      if metadataSize > 0 && totalMetaBytes > mappedMeta {
        var metaMapSize := RoundUpTo(totalMetaBytes - mappedMeta, MAP_SIZE);
        MapToIs(mappedMeta, totalMetaBytes);
        var full := IsRegionExhausted(metaMapSize);
        if full || !mapMetaOk {
          return Failed;
        }
        mappedMeta := mappedMeta + metaMapSize;
      }
      r := Done;
    }

    /** Puts the offsets of `n` new chunks, from the one at byte `begin` on, behind the free ones, the lowest last. */
    static method FillNew(freeArray: array<nat>, free: nat, n: nat, begin: nat, c: nat, ghost total: nat)
      requires free + n <= freeArray.Length && begin == 16 * Times(total, c)
      modifies freeArray
      ensures freeArray[..free] == old(freeArray[..free])
      ensures Descending(freeArray[free..free + n], c, total)
    {
      var end := free + n;
      var chunk := begin;
      var i := 0;
      while i < n
        invariant 0 <= i <= n && chunk == 16 * Times(total + i, c)
        invariant freeArray[..free] == old(freeArray[..free])
        invariant Descending(freeArray[end - i..end], c, total)
      {
        ghost var filled := freeArray[end - i..end];
        DescendingMore(filled, c, total, chunk / 16);
        freeArray[end - 1 - i] := chunk / 16;
        assert freeArray[end - (i + 1)..end] == [chunk / 16] + filled;
        i := i + 1;
        chunk := chunk + 16 * c;
      }
    }

    method RandomShuffle(from: nat, n: nat)
      requires from + n <= freeArray.Length
      modifies freeArray
      ensures freeArray[..from] == old(freeArray[..from])
      ensures multiset(freeArray[from..from + n]) == multiset(old(freeArray[from..from + n]))
    {
      var i := n;
      while i > 1
        invariant 0 <= i <= n
        invariant freeArray[..from] == old(freeArray[..from])
        invariant multiset(freeArray[from..from + n]) == multiset(old(freeArray[from..from + n]))
      {
        i := i - 1;
        var j := RandomIndex(i);
        ghost var before := freeArray[from..from + n];
        freeArray[from + i], freeArray[from + j] := freeArray[from + j], freeArray[from + i];
        assert freeArray[from..from + n] == before[i := before[j]][j := before[i]];
      }
    }

    method FillAndShuffle(n: nat, shuffle: bool) returns (ghost filled: seq<nat>)
      requires numFreedChunks + n <= freeArray.Length && allocatedUser == 16 * Times(total, c)
      modifies freeArray
      ensures freeArray[..numFreedChunks] == old(freeArray[..numFreedChunks])
      ensures Descending(filled, c, total) && |filled| == n
      ensures !shuffle ==> freeArray[numFreedChunks..numFreedChunks + n] == filled
      ensures multiset(freeArray[numFreedChunks..numFreedChunks + n]) == multiset(filled)
    {
      FillNew(freeArray, numFreedChunks, n, allocatedUser, c, total);
      filled := freeArray[numFreedChunks..numFreedChunks + n];
      if shuffle {
        RandomShuffle(numFreedChunks, n);
      }
    }

    /** Fills the free array with all chunks that fit into newly mapped memory. */
    method PopulateFreeArray(requested: nat, shuffle: bool, a: Answers) returns (r: Outcome)
      requires Valid()
      modifies this`mappedUser, this`mappedMeta, this`exhausted, this`mappedFreeArray
      modifies this`numFreedChunks, this`allocatedUser, this`allocatedMeta, this`total, this`all, freeArray
      ensures r.Done? <==> old(Mem()).CanPopulate(requested, a)
      ensures r.Died? <==> old(Mem()).DiesPopulating(requested, a)
      ensures r.Done? ==> Valid() && numFreedChunks == old(numFreedChunks) + old(Mem()).NewChunks(requested)
      ensures r.Done? ==> numFreedChunks >= old(numFreedChunks) + requested && !exhausted
      ensures r.Done? ==> freeArray[..old(numFreedChunks)] == old(freeArray[..numFreedChunks])
      ensures r.Done? && !shuffle ==> Descending(freeArray[old(numFreedChunks)..numFreedChunks], c, old(total))
      ensures r.Failed? ==> Valid() && ChunksUnchanged()
    {
      var newChunksCount, userBytes, metaBytes;
      r, newChunksCount, userBytes, metaBytes := MapAll(requested, a);
      if r.Done? {
        AddNewChunks(newChunksCount, userBytes, metaBytes, shuffle);
      }
    }

    /** Everything that can fail, before any chunk changes place. */
    method MapAll(requested: nat, a: Answers) returns (r: Outcome, newChunksCount: nat, userBytes: nat, metaBytes: nat)
      requires Valid()
      modifies this`mappedUser, this`mappedMeta, this`exhausted, this`mappedFreeArray
      ensures !r.Died? ==> Valid()
      ensures r.Done? <==> old(Mem()).CanPopulate(requested, a)
      ensures r.Died? <==> old(Mem()).DiesPopulating(requested, a)
      ensures r.Done? ==> newChunksCount == old(Mem()).NewChunks(requested)
      ensures r.Done? ==> requested <= newChunksCount && (numFreedChunks + newChunksCount) * 4 <= mappedFreeArray
      ensures r.Done? ==> userBytes == 16 * Times(newChunksCount, c) && metaBytes == Times(newChunksCount, metadataSize)
      ensures r.Done? ==> allocatedUser + userBytes <= mappedUser && allocatedMeta + metaBytes <= mappedMeta
    {
      ghost var m := Mem();
      newChunksCount, userBytes, metaBytes := 0, 0, 0;
      r := MapUser(requested, a.user);
      if r.Done? {
        newChunksCount, userBytes := CountNew(requested, m);
        UserIsMapped(m, requested, a);
        assert Mem() == m.(mappedUser := MapTo(m.mappedUser, m.User(requested)));
        r, metaBytes := MapRest(newChunksCount, a);
      }
    }

    method CountNew(ghost requested: nat, ghost m: Memory) returns (newChunksCount: nat, userBytes: nat)
      requires c > 0 && m.Ok() && m.c == c && allocatedUser == m.allocatedUser && mappedUser == MapTo(m.mappedUser, m.User(requested))
      ensures newChunksCount == m.NewChunks(requested) && requested <= newChunksCount
      ensures userBytes == 16 * Times(newChunksCount, c) && allocatedUser + userBytes <= mappedUser
    {
      NewChunksFill(m, requested);
      newChunksCount := Quotient(mappedUser - allocatedUser, Size());
      userBytes := Product(newChunksCount, Size());
      BytesOf(newChunksCount, c);
    }

    /** Is there room for the metadata, and for the entries of the free array. */
    ghost predicate RoomIs(newChunksCount: nat, a: Answers, room: bool, freeOk: bool, fits: bool)
      reads this`allocatedMeta, this`mappedUser, this`mappedMeta, this`mappedFreeArray, this`numFreedChunks
    {
      && MetaRoomIs(newChunksCount, a.meta, room) && FreeRoomIs(newChunksCount, a.free, freeOk) && FreeRoomIs(newChunksCount, true, fits)
    }

    ghost predicate MetaRoomIs(newChunksCount: nat, ok: bool, room: bool)
      reads this`allocatedMeta, this`mappedUser, this`mappedMeta
    {
      room == Room(mappedMeta, allocatedMeta + Times(newChunksCount, metadataSize), mappedUser, regionSize - FreeArraySize(), ok)
    }

    ghost predicate FreeRoomIs(newChunksCount: nat, ok: bool, room: bool)
      reads this`mappedFreeArray, this`numFreedChunks
    {
      room == FreeRoom(mappedFreeArray, 4 * (numFreedChunks + newChunksCount), FreeArraySize(), ok)
    }

    /** With user memory mapped already. */
    method MapRest(newChunksCount: nat, a: Answers) returns (r: Outcome, metaBytes: nat)
      requires Valid()
      modifies this`mappedMeta, this`exhausted, this`mappedFreeArray
      ensures !r.Died? ==> Valid()
      ensures (r.Done? <==> old(Mem()).CanAdd(newChunksCount, a)) && (r.Died? <==> old(Mem()).DiesAdding(newChunksCount, a))
      ensures r.Done? ==> (numFreedChunks + newChunksCount) * 4 <= mappedFreeArray
      ensures r.Done? ==> metaBytes == Times(newChunksCount, metadataSize) && allocatedMeta + metaBytes <= mappedMeta
    {
      ghost var room, freeOk, fits := RoomFor(newChunksCount, a);
      r, metaBytes := MapIfRoom(newChunksCount, a, room, freeOk, fits);
    }

    lemma RoomFor(newChunksCount: nat, a: Answers) returns (room: bool, freeOk: bool, fits: bool)
      ensures RoomIs(newChunksCount, a, room, freeOk, fits)
      ensures Mem().CanAdd(newChunksCount, a) == (room && freeOk) && Mem().DiesAdding(newChunksCount, a) == (room && !fits)
    {
      room := Room(mappedMeta, allocatedMeta + Times(newChunksCount, metadataSize), mappedUser, regionSize - FreeArraySize(), a.meta);
      freeOk := FreeRoom(mappedFreeArray, 4 * (numFreedChunks + newChunksCount), FreeArraySize(), a.free);
      fits := FreeRoom(mappedFreeArray, 4 * (numFreedChunks + newChunksCount), FreeArraySize(), true);
    }

    method MapIfRoom(newChunksCount: nat, a: Answers, ghost room: bool, ghost freeOk: bool, ghost fits: bool)
      returns (r: Outcome, metaBytes: nat)
      requires Valid() && RoomIs(newChunksCount, a, room, freeOk, fits)
      modifies this`mappedMeta, this`exhausted, this`mappedFreeArray
      ensures !r.Died? ==> Valid()
      ensures (r.Done? <==> room && freeOk) && (r.Died? <==> room && !fits)
      ensures r.Done? ==> (numFreedChunks + newChunksCount) * 4 <= mappedFreeArray
      ensures r.Done? ==> metaBytes == Times(newChunksCount, metadataSize) && allocatedMeta + metaBytes <= mappedMeta
    {
      r, metaBytes := MapMeta(newChunksCount, a.meta, room);
      if r.Done? {
        r := EnsureNewSpace(newChunksCount, a.free, freeOk, fits);
      }
    }

    /** What is behind the free chunks does not matter yet. */
    method FillBehindFree(n: nat, shuffle: bool) returns (ghost filled: seq<nat>)
      requires Valid() && numFreedChunks + n <= freeArray.Length
      modifies freeArray
      ensures ChunksOk() && freeArray[..numFreedChunks] == old(freeArray[..numFreedChunks])
      ensures Descending(filled, c, total) && |filled| == n
      ensures !shuffle ==> freeArray[numFreedChunks..numFreedChunks + n] == filled
      ensures multiset(freeArray[numFreedChunks..numFreedChunks + n]) == multiset(filled)
    {
      ghost var free := Free();
      filled := FillAndShuffle(n, shuffle);
      assert Free() == free;
    }

    method AddNewChunks(newChunksCount: nat, userBytes: nat, metaBytes: nat, shuffle: bool)
      requires Valid() && (numFreedChunks + newChunksCount) * 4 <= mappedFreeArray
      requires userBytes == 16 * Times(newChunksCount, c) && metaBytes == Times(newChunksCount, metadataSize)
      requires allocatedUser + userBytes <= mappedUser && allocatedMeta + metaBytes <= mappedMeta
      modifies this`numFreedChunks, this`allocatedUser, this`allocatedMeta, this`total, this`all, this`exhausted, freeArray
      ensures Valid() && numFreedChunks == old(numFreedChunks) + newChunksCount && !exhausted
      ensures freeArray[..old(numFreedChunks)] == old(freeArray[..numFreedChunks])
      ensures !shuffle ==> Descending(freeArray[old(numFreedChunks)..numFreedChunks], c, old(total))
    {
      ghost var from, before := numFreedChunks, total;
      ghost var filled := FillBehindFree(newChunksCount, shuffle);
      AdvanceBytes(newChunksCount, userBytes, metaBytes);
      AdvanceChunks(newChunksCount, filled);
      if !shuffle {
        assert freeArray[from..numFreedChunks] == filled && Descending(filled, c, before);
      }
    }

    /** Moves the two byte counts past the new chunks and their metadata. */
    method AdvanceBytes(newChunksCount: nat, userBytes: nat, metaBytes: nat)
      requires BytesOk() && allocatedUser + userBytes <= mappedUser && allocatedMeta + metaBytes <= mappedMeta
      requires userBytes == 16 * Times(newChunksCount, c) && metaBytes == Times(newChunksCount, metadataSize)
      modifies this`allocatedUser, this`allocatedMeta, this`exhausted
      ensures BytesFor(total + newChunksCount) && !exhausted
    {
      TimesAdd(total, newChunksCount, c);
      TimesAdd(total, newChunksCount, metadataSize);
      allocatedUser := allocatedUser + userBytes;
      allocatedMeta := allocatedMeta + metaBytes;
      exhausted := false;
    }

    method AdvanceChunks(newChunksCount: nat, ghost filled: seq<nat>)
      requires ChunksOk() && AllOk() && BytesFor(total + newChunksCount) && PageOk()
      requires (numFreedChunks + newChunksCount) * 4 <= mappedFreeArray
      requires Descending(filled, c, total) && |filled| == newChunksCount
      requires numFreedChunks + newChunksCount <= freeArray.Length
      requires multiset(freeArray[numFreedChunks..numFreedChunks + newChunksCount]) == multiset(filled)
      modifies this`numFreedChunks, this`total, this`all
      ensures Valid() && numFreedChunks == old(numFreedChunks) + newChunksCount && total == old(total) + newChunksCount
    {
      ghost var free, more := freeArray[..numFreedChunks], freeArray[numFreedChunks..numFreedChunks + newChunksCount];
      ghost var both, newTotal := freeArray[..numFreedChunks + newChunksCount], total + newChunksCount;
      AllChunks(free, more, both, filled, out, c, total, newTotal);
      numFreedChunks := numFreedChunks + newChunksCount;
      total, all := newTotal, multiset(Chunks(c, newTotal));
      assert freeArray[..numFreedChunks] == both;
    }

    /** Hands out the last `n` chunks of the free array. */
    method GetFromAllocator(chunks: array<nat>, n: nat, shuffle: bool, a: Answers) returns (r: Outcome)
      requires Valid() && chunks != freeArray && n <= chunks.Length
      modifies this, freeArray, chunks
      ensures r.Done? <==> old(Mem()).CanGet(n, a)
      ensures r.Died? <==> old(Mem()).DiesGetting(n, a)
      ensures r.Done? ==> Valid() && out == old(out) + multiset(chunks[..n]) && nAllocated == old(nAllocated) + n
      ensures r.Done? ==> chunks[n..] == old(chunks[n..]) && numFreedChunks + n <= freeArray.Length
      ensures r.Done? ==> chunks[..n] == freeArray[numFreedChunks..numFreedChunks + n]
      ensures r.Failed? ==> Valid() && ChunksUnchanged() && chunks[..] == old(chunks[..])
    {
      r := HaveFree(n, shuffle, a);
      if r.Done? {
        TakeLast(chunks, n);
      }
    }

    method HaveFree(n: nat, shuffle: bool, a: Answers) returns (r: Outcome)
      requires Valid()
      modifies this`mappedUser, this`mappedMeta, this`exhausted, this`mappedFreeArray
      modifies this`numFreedChunks, this`allocatedUser, this`allocatedMeta, this`total, this`all, freeArray
      ensures r.Done? <==> old(Mem()).CanGet(n, a)
      ensures r.Died? <==> old(Mem()).DiesGetting(n, a)
      ensures r.Done? ==> Valid() && n <= numFreedChunks
      ensures r.Failed? ==> Valid() && ChunksUnchanged()
    {
      r := Done;
      if numFreedChunks < n {
        r := PopulateFreeArray(n - numFreedChunks, shuffle, a);
      }
    }

    method TakeLast(chunks: array<nat>, n: nat)
      requires Valid() && chunks != freeArray && n <= chunks.Length && n <= numFreedChunks
      modifies this`numFreedChunks, this`nAllocated, this`out, chunks
      ensures Valid() && out == old(out) + multiset(chunks[..n]) && chunks[n..] == old(chunks[n..])
      ensures numFreedChunks == old(numFreedChunks) - n && chunks[..n] == freeArray[numFreedChunks..numFreedChunks + n]
      ensures nAllocated == old(nAllocated) + n
    {
      CountTaken(n, freeArray[numFreedChunks - n..numFreedChunks]);
      CopyOut(chunks, numFreedChunks, n);
    }

    method CountTaken(n: nat, ghost taken: seq<nat>)
      requires Valid() && n <= numFreedChunks && freeArray[numFreedChunks - n..numFreedChunks] == taken
      modifies this`numFreedChunks, this`nAllocated, this`out
      ensures Valid() && nAllocated == old(nAllocated) + n && out == old(out) + multiset(taken)
      ensures numFreedChunks == old(numFreedChunks) - n
    {
      ghost var rest := freeArray[..numFreedChunks - n];
      assert freeArray[..numFreedChunks] == rest + taken;
      TakenOut(rest, taken, out, all, nAllocated, nFreed, nFreedAtLastRelease);
      numFreedChunks := numFreedChunks - n;
      out := out + multiset(taken);
      nAllocated := nAllocated + n;
      assert freeArray[..numFreedChunks] == rest;
    }

    method CopyOut(chunks: array<nat>, baseIdx: nat, n: nat)
      requires chunks != freeArray && n <= chunks.Length && baseIdx + n <= freeArray.Length
      modifies chunks
      ensures chunks[..n] == freeArray[baseIdx..baseIdx + n] && chunks[n..] == old(chunks[n..])
    {
      for i := 0 to n
        invariant chunks[..i] == freeArray[baseIdx..baseIdx + i]
        invariant chunks[n..] == old(chunks[n..])
      {
        chunks[i] := freeArray[baseIdx + i];
      }
    }

    method CopyIn(chunks: array<nat>, first: nat, n: nat)
      requires chunks != freeArray && first + n <= chunks.Length && numFreedChunks + n <= freeArray.Length
      modifies freeArray
      ensures freeArray[..numFreedChunks] == old(freeArray[..numFreedChunks])
      ensures freeArray[numFreedChunks..numFreedChunks + n] == chunks[first..first + n]
    {
      for i := 0 to n
        invariant freeArray[..numFreedChunks] == old(freeArray[..numFreedChunks])
        invariant freeArray[numFreedChunks..numFreedChunks + i] == chunks[first..first + i]
      {
        freeArray[numFreedChunks + i] := chunks[first + i];
      }
    }

    method CountReturned(n: nat, ghost given: seq<nat>)
      requires Valid() && (numFreedChunks + n) * 4 <= mappedFreeArray && multiset(given) <= out
      requires numFreedChunks + n <= freeArray.Length && freeArray[numFreedChunks..numFreedChunks + n] == given
      modifies this`numFreedChunks, this`nFreed, this`out
      ensures Valid() && nFreed == old(nFreed) + n && out == old(out) - multiset(given)
      ensures numFreedChunks == old(numFreedChunks) + n
    {
      ghost var free := freeArray[..numFreedChunks + n];
      assert free == freeArray[..numFreedChunks] + given;
      GivenBack(freeArray[..numFreedChunks], given, out, all, nAllocated, nFreed, nFreedAtLastRelease);
      numFreedChunks := numFreedChunks + n;
      out := out - multiset(given);
      nFreed := nFreed + n;
      assert freeArray[..numFreedChunks] == free;
    }

    /** Takes chunks back, and gives pages back to the system. Running out of space for the free array is fatal. */
    method ReturnToAllocator(chunks: array<nat>, first: nat, n: nat, mapFreeOk: bool, due: bool)
      returns (r: Outcome, released: seq<(nat, nat)>, ghost free: seq<nat>, ghost freedSince: nat)
      requires Valid() && chunks != freeArray && first + n <= chunks.Length
      requires multiset(chunks[first..first + n]) <= out
      modifies this`mappedFreeArray, this`numFreedChunks, this`nFreed, this`nFreedAtLastRelease, this`out, freeArray
      ensures r.Done? || r.Died?
      ensures r.Done? <==> old(Mem()).CanReturn(n, mapFreeOk)
      ensures r.Done? ==> Valid() && out == old(out) - multiset(chunks[first..first + n]) && nFreed == old(nFreed) + n
      ensures r.Done? ==> free == freeArray[..numFreedChunks] == old(freeArray[..numFreedChunks]) + chunks[first..first + n]
      ensures r.Done? ==> freedSince == nFreed - old(nFreedAtLastRelease) && Spares(released, out, c)
      ensures r.Done? ==> IsReleased(released, free, c, pageSize, freedSince, false, due)
    {
      released, free, freedSince := [], [], 0;
      r := TakeBack(chunks, first, n, mapFreeOk);
      if r.Done? {
        free, freedSince := freeArray[..numFreedChunks], nFreed - nFreedAtLastRelease;
        released := MaybeReleaseToOS(false, due, free, freedSince);
      }
    }

    method TakeBack(chunks: array<nat>, first: nat, n: nat, mapFreeOk: bool) returns (r: Outcome)
      requires Valid() && chunks != freeArray && first + n <= chunks.Length
      requires multiset(chunks[first..first + n]) <= out
      modifies this`mappedFreeArray, this`numFreedChunks, this`nFreed, this`out, freeArray
      ensures r.Done? || r.Died?
      ensures r.Done? <==> old(Mem()).CanReturn(n, mapFreeOk)
      ensures r.Done? ==> Valid() && out == old(out) - multiset(chunks[first..first + n]) && nFreed == old(nFreed) + n
      ensures r.Done? ==> freeArray[..numFreedChunks] == old(freeArray[..numFreedChunks]) + chunks[first..first + n]
    {
      r := EnsureReturnSpace(n, mapFreeOk);
      if r.Done? {
        AppendReturned(chunks, first, n);
      }
    }

    method EnsureNewSpace(n: nat, mapFreeOk: bool, ghost freeOk: bool, ghost fits: bool) returns (r: Outcome)
      requires Valid() && FreeRoomIs(n, mapFreeOk, freeOk) && FreeRoomIs(n, true, fits)
      modifies this`mappedFreeArray
      ensures Valid() && (r.Done? <==> freeOk) && (r.Died? <==> !fits)
      ensures r.Done? ==> (numFreedChunks + n) * 4 <= mappedFreeArray
    {
      r := EnsureFreeArraySpace(numFreedChunks + n, mapFreeOk);
    }

    /** There is no way back for the chunks without it. */
    method EnsureReturnSpace(n: nat, mapFreeOk: bool) returns (r: Outcome)
      requires Valid()
      modifies this`mappedFreeArray
      ensures (r.Done? || r.Died?) && (r.Done? <==> old(Mem()).CanReturn(n, mapFreeOk))
      ensures r.Done? ==> Valid() && (numFreedChunks + n) * 4 <= mappedFreeArray
    {
      r := EnsureFreeArraySpace(numFreedChunks + n, mapFreeOk);
      if r.Failed? {
        r := Died;
      }
    }

    method MaybeReleaseToOS(force: bool, due: bool, ghost free: seq<nat>, ghost freedSince: nat)
      returns (released: seq<(nat, nat)>)
      requires Valid() && free == freeArray[..numFreedChunks] && freedSince == nFreed - nFreedAtLastRelease
      modifies this`nFreedAtLastRelease
      ensures Valid() && Spares(released, out, c)
      ensures IsReleased(released, free, c, pageSize, freedSince, force, due)
      ensures nFreedAtLastRelease == if released == [] then old(nFreedAtLastRelease) else nFreed
    {
      released := ReleaseIfDue(freeArray[..numFreedChunks], c, pageSize, allocatedUser, nFreed - nFreedAtLastRelease,
                               force, due, out, total);
      if |released| > 0 {
        nFreedAtLastRelease := nFreed;
      }
    }

    method AppendReturned(chunks: array<nat>, first: nat, n: nat)
      requires Valid() && chunks != freeArray && first + n <= chunks.Length
      requires (numFreedChunks + n) * 4 <= mappedFreeArray && multiset(chunks[first..first + n]) <= out
      modifies this`numFreedChunks, this`nFreed, this`out, freeArray
      ensures Valid() && out == old(out) - multiset(chunks[first..first + n]) && nFreed == old(nFreed) + n
      ensures freeArray[..numFreedChunks] == old(freeArray[..numFreedChunks]) + chunks[first..first + n]
    {
      ghost var free := freeArray[..numFreedChunks];
      CopyIn(chunks, first, n);
      assert freeArray[..numFreedChunks + n] == free + chunks[first..first + n];
      CountReturned(n, chunks[first..first + n]);
    }
  }

  /** `MaybeReleaseToOS`, with a memory mapper that notes what the scan releases. */
  method ReleaseIfDue(free: seq<nat>, c: nat, p: nat, bytes: nat, freedSince: nat, force: bool, due: bool,
                      ghost out: multiset<nat>, ghost total: nat)
    returns (released: seq<(nat, nat)>)
    requires c > 0 && 0 < p < MAX_PAGE_SIZE && Placed(free, out, c, total) && bytes == 16 * Times(total, c)
    ensures IsReleased(released, free, c, p, freedSince, force, due) && Spares(released, out, c)
  {
    var freeSize := Product(|free|, c);
    var freedSize := Product(freedSince, c);
    if freeSize < p || freedSize < p || !(force || due) {
      return [];
    }
    RegionCanRelease(free, out, c, total, bytes, p);
    Pow64();
    var mapper := new PageRanges.MemoryMapper();
    PageRelease.ReleaseFreeMemoryToOS(free, c, p, PagesOf(bytes, p), mapper);
    released := mapper.released;
    ReleaseSparesOut(released, free, out, c, total, p);
  }

  method RandomIndex(n: nat) returns (j: nat)
    ensures j <= n
  {
    j :| j <= n;
  }
}

/** `SizeClassAllocator64LocalCache` for one size class, and several threads with one each. */
module LocalCaches {
  import opened ChunkSpec
  import opened MappingSpec
  import opened Allocator

  /** What the environment answers when memory is mapped, and whether it is time to give pages back. */
  datatype Env = Env(shuffle: bool, answers: Answers, releaseDue: bool)

  /** What is given back leaves a cache and is no longer out. */
  lemma Drained(kept: multiset<nat>, given: multiset<nat>, out: multiset<nat>)
    requires kept + given <= out
    ensures given <= out && Balanced(out - given, kept + given, out, kept)
  {
  }

  lemma LastOf(s: seq<nat>)
    requires s != []
    ensures multiset(s) == multiset(s[..|s| - 1]) + multiset{s[|s| - 1]}
  {
    assert s == s[..|s| - 1] + [s[|s| - 1]];
  }

  class LocalCache {
    var count: nat
    var maxCount: nat
    const hint: nat
    const chunks: array<nat>

    ghost predicate Valid()
      reads this`count, this`maxCount
    {
      && 0 < hint && 2 * hint <= chunks.Length
      && (maxCount == 0 || maxCount == 2 * hint) && count <= maxCount
    }

    ghost function Contents(): multiset<nat>
      requires Valid()
      reads this`count, this`maxCount, chunks
    {
      multiset(chunks[..count])
    }

    constructor (hint: nat, maxNumCachedHint: nat)
      requires 0 < hint <= maxNumCachedHint
      ensures Valid() && fresh(chunks) && Contents() == multiset{}
    {
      this.hint := hint;
      count, maxCount := 0, 0;
      chunks := new nat[2 * maxNumCachedHint];
    }

    method InitCache()
      requires Valid()
      modifies this`maxCount
      ensures Valid() && maxCount == 2 * hint
    {
      if maxCount == 0 {
        maxCount := 2 * hint;
      }
    }

    method Refill(region: Region, env: Env) returns (r: Outcome)
      requires Valid() && count == 0 && region.Valid() && chunks != region.freeArray
      modifies this, chunks, region, region.freeArray
      ensures r.Done? <==> old(region.Mem()).CanGet(hint, env.answers)
      ensures r.Died? <==> old(region.Mem()).DiesGetting(hint, env.answers)
      ensures r.Done? ==> Valid() && region.Valid() && count == hint && region.out == old(region.out) + Contents()
      ensures r.Failed? ==> Valid() && count == 0 && region.Valid() && region.out == old(region.out)
    {
      InitCache();
      var numRequestedChunks := maxCount / 2;
      r := region.GetFromAllocator(chunks, numRequestedChunks, env.shuffle, env.answers);
      if r.Done? {
        count := numRequestedChunks;
      }
    }

    /** What the region hands out goes into the cache, and one chunk from there to the caller. */
    method Allocate(region: Region, env: Env) returns (r: Outcome, chunk: nat)
      requires Valid() && region.Valid() && chunks != region.freeArray
      modifies this, chunks, region, region.freeArray
      ensures r.Done? <==> old(count) > 0 || old(region.Mem()).CanGet(hint, env.answers)
      ensures r.Died? <==> old(count) == 0 && old(region.Mem()).DiesGetting(hint, env.answers)
      ensures !r.Died? ==> Valid() && region.Valid()
      ensures r.Done? ==> region.out + old(Contents()) == old(region.out) + Contents() + multiset{chunk}
      ensures r.Done? ==> count < chunks.Length && chunk == chunks[count]
      ensures r.Done? ==> count == (if old(count) == 0 then hint else old(count)) - 1
      ensures r.Failed? ==> region.out == old(region.out) && Contents() == old(Contents())
    {
      chunk := 0;
      if count == 0 {
        r := Refill(region, env);
        if !r.Done? {
          return;
        }
      }
      chunk := Pop();
      r := Done;
    }

    method Pop() returns (chunk: nat)
      requires Valid() && count > 0
      modifies this`count
      ensures Valid() && count == old(count) - 1 && count < chunks.Length && chunk == chunks[count]
      ensures old(Contents()) == Contents() + multiset{chunk}
    {
      LastOf(chunks[..count]);
      count := count - 1;
      chunk := chunks[count];
      assert chunks[..count] == old(chunks[..count])[..count];
    }

    method Drain(region: Region, n: nat, env: Env) returns (r: Outcome)
      requires Valid() && n <= count && region.Valid() && chunks != region.freeArray && Contents() <= region.out
      modifies this`count, region, region.freeArray
      ensures r.Done? || r.Died?
      ensures r.Done? <==> old(region.Mem()).CanReturn(n, env.answers.free)
      ensures r.Done? ==> Valid() && region.Valid() && count == old(count) - n
      ensures r.Done? ==> Balanced(region.out, old(Contents()), old(region.out), Contents())
    {
      ghost var m := region.Mem();
      ghost var given := Shrink(n);
      Drained(Contents(), multiset(given), region.out);
      assert region.Mem() == m;
      r := GiveBack(region, count, n, env, given);
    }

    method DrainHalf(region: Region, env: Env) returns (r: Outcome)
      requires Valid() && count == maxCount == 2 * hint && region.Valid() && chunks != region.freeArray && Contents() <= region.out
      modifies this`count, region, region.freeArray
      ensures (r.Done? || r.Died?) && (r.Done? <==> old(region.Mem()).CanReturn(hint, env.answers.free))
      ensures r.Done? ==> Valid() && region.Valid() && count == hint
      ensures r.Done? ==> Balanced(region.out, old(Contents()), old(region.out), Contents())
    {
      r := Drain(region, maxCount / 2, env);
    }

    method Shrink(n: nat) returns (ghost given: seq<nat>)
      requires Valid() && n <= count
      modifies this`count
      ensures Valid() && count == old(count) - n && given == chunks[count..count + n]
      ensures old(Contents()) == Contents() + multiset(given)
    {
      ghost var kept := chunks[..count - n];
      given := chunks[count - n..count];
      assert chunks[..count] == kept + given;
      count := count - n;
      assert chunks[..count] == kept;
    }

    method GiveBack(region: Region, first: nat, n: nat, env: Env, ghost given: seq<nat>) returns (r: Outcome)
      requires region.Valid() && chunks != region.freeArray && first + n <= chunks.Length
      requires given == chunks[first..first + n] && multiset(given) <= region.out
      modifies region, region.freeArray
      ensures r.Done? || r.Died?
      ensures r.Done? <==> old(region.Mem()).CanReturn(n, env.answers.free)
      ensures r.Done? ==> region.Valid() && region.out == old(region.out) - multiset(given)
      ensures unchanged(this) && unchanged(chunks)
    {
      var released;
      ghost var free, freedSince;
      r, released, free, freedSince := region.ReturnToAllocator(chunks, first, n, env.answers.free, env.releaseDue);
    }

    /** A chunk that is out, but in no cache, goes back into this one. */
    method Deallocate(region: Region, chunk: nat, env: Env) returns (r: Outcome)
      requires Valid() && region.Valid() && chunks != region.freeArray && Contents() <= region.out
      modifies this, chunks, region, region.freeArray
      ensures r.Done? || r.Died?
      ensures r.Done? <==> old(count) < 2 * hint || old(region.Mem()).CanReturn(hint, env.answers.free)
      ensures r.Done? ==> Valid() && region.Valid()
      ensures r.Done? ==> region.out + old(Contents()) + multiset{chunk} == old(region.out) + Contents()
      ensures r.Done? ==> count == 1 + (if old(count) == 2 * hint then hint else old(count)) && chunks[count - 1] == chunk
    {
      r := MakeRoom(region, env);
      if r.Done? {
        Push(chunk);
      }
    }

    method MakeRoom(region: Region, env: Env) returns (r: Outcome)
      requires Valid() && region.Valid() && chunks != region.freeArray && Contents() <= region.out
      modifies this`maxCount, this`count, region, region.freeArray
      ensures r.Done? || r.Died?
      ensures r.Done? <==> old(count) < 2 * hint || old(region.Mem()).CanReturn(hint, env.answers.free)
      ensures r.Done? ==> Valid() && region.Valid() && Balanced(region.out, old(Contents()), old(region.out), Contents())
      ensures r.Done? ==> count == (if old(count) == 2 * hint then hint else old(count)) && count < maxCount
    {
      InitCache();
      if count == maxCount {
        r := DrainHalf(region, env);
      } else {
        r := Done;
      }
    }

    method Push(chunk: nat)
      requires Valid() && count < maxCount
      modifies this`count, chunks
      ensures Valid() && Contents() == old(Contents()) + multiset{chunk}
      ensures count == old(count) + 1 && chunks[count - 1] == chunk
    {
      ghost var before := chunks[..count];
      chunks[count] := chunk;
      count := count + 1;
      assert chunks[..count] == before + [chunk];
    }
  }

  ghost function Sum(ms: seq<multiset<nat>>): multiset<nat> {
    if ms == [] then multiset{} else ms[0] + Sum(ms[1..])
  }

  lemma {:induction false} SumUpdate(ms: seq<multiset<nat>>, t: nat, m: multiset<nat>)
    requires t < |ms|
    ensures Sum(ms[t := m]) + ms[t] == Sum(ms) + m
    ensures ms[t] <= Sum(ms)
  {
    if t == 0 {
      assert ms[t := m][1..] == ms[1..];
    } else {
      SumUpdate(ms[1..], t - 1, m);
      assert ms[t := m][1..] == ms[1..][t - 1 := m];
      assert ms[t := m][0] == ms[0] && ms[1..][t - 1] == ms[t];
      var rest, rest' := Sum(ms[1..]), Sum(ms[1..][t - 1 := m]);
      assert (ms[0] + rest') + ms[t] == ms[0] + (rest' + ms[t]);
      assert (ms[0] + rest) + m == ms[0] + (rest + m);
    }
  }

  /** One chunk more in the program's hands, the caches changing from `a` to `b` in one place. */
  lemma TakeOne(out: multiset<nat>, out': multiset<nat>, sum: multiset<nat>, sum': multiset<nat>,
                a: multiset<nat>, b: multiset<nat>, chunk: nat)
    requires sum <= out && sum' + a == sum + b && out' + a == out + b + multiset{chunk}
    ensures sum' <= out' && out' - sum' == (out - sum) + multiset{chunk}
  {
    forall x ensures sum'[x] <= out'[x] && (out' - sum')[x] == ((out - sum) + multiset{chunk})[x] {
      assert (sum' + a)[x] == (sum + b)[x] && (out' + a)[x] == (out + b + multiset{chunk})[x];
    }
  }

  lemma GiveOne(out: multiset<nat>, out': multiset<nat>, sum: multiset<nat>, sum': multiset<nat>,
                a: multiset<nat>, b: multiset<nat>, chunk: nat)
    requires sum <= out && sum' + a == sum + b && out' + a + multiset{chunk} == out + b && chunk in out - sum
    ensures sum' <= out' && out' - sum' == (out - sum) - multiset{chunk}
  {
    forall x ensures sum'[x] <= out'[x] && (out' - sum')[x] == ((out - sum) - multiset{chunk})[x] {
      assert (sum' + a)[x] == (sum + b)[x] && (out' + a + multiset{chunk})[x] == (out + b)[x];
    }
  }

  lemma {:induction false} SumEmpty(ms: seq<multiset<nat>>)
    requires forall k | 0 <= k < |ms| :: ms[k] == multiset{}
    ensures Sum(ms) == multiset{}
  {
    if ms != [] {
      SumEmpty(ms[1..]);
    }
  }

  class Heap {
    const region: Region
    const caches: seq<LocalCache>

    constructor (region: Region, caches: seq<LocalCache>)
      requires region.Valid() && region.out == multiset{}
      requires forall j, k | 0 <= j < k < |caches| :: caches[j] != caches[k] && caches[j].chunks != caches[k].chunks
      requires forall k | 0 <= k < |caches| :: caches[k].chunks != region.freeArray
      requires forall k | 0 <= k < |caches| :: caches[k].Valid() && caches[k].Contents() == multiset{}
      ensures Valid() && this.region == region && this.caches == caches && User() == multiset{}
    {
      this.region, this.caches := region, caches;
      new;
      SumEmpty(Contents());
    }

    ghost function Footprint(): set<object> {
      (set k | 0 <= k < |caches| :: caches[k] as object) + (set k | 0 <= k < |caches| :: caches[k].chunks as object)
    }

    ghost predicate Separate() {
      && (forall j, k | 0 <= j < k < |caches| :: caches[j] != caches[k] && caches[j].chunks != caches[k].chunks)
      && (forall k | 0 <= k < |caches| :: caches[k].chunks != region.freeArray)
    }

    ghost predicate CachesValid()
      reads Footprint()
    {
      forall k | 0 <= k < |caches| :: caches[k].Valid()
    }

    /** What is in each cache. */
    ghost function Contents(): (ms: seq<multiset<nat>>)
      requires CachesValid()
      reads Footprint()
      ensures |ms| == |caches| && forall k | 0 <= k < |ms| :: ms[k] == caches[k].Contents()
    {
      ContentsOf(|caches|)
    }

    ghost function ContentsOf(n: nat): (ms: seq<multiset<nat>>)
      requires n <= |caches| && CachesValid()
      reads Footprint()
      ensures |ms| == n && forall k | 0 <= k < n :: ms[k] == caches[k].Contents()
    {
      if n == 0 then [] else ContentsOf(n - 1) + [caches[n - 1].Contents()]
    }

    /** Every chunk below `allocated_user` is free, in one cache, or in the program's hands, and in one place only. */
    ghost predicate Valid()
      reads region, region.freeArray, Footprint()
    {
      Separate() && region.Valid() && CachesValid() && Sum(Contents()) <= region.out
    }

    /** The chunks the program has: those that are out and in no cache. */
    ghost function User(): multiset<nat>
      requires Valid()
      reads region, region.freeArray, Footprint()
    {
      region.out - Sum(Contents())
    }

    lemma PlacesAreExclusive()
      requires Valid()
      ensures region.Free() + Sum(Contents()) + User() == multiset(Chunks(region.c, region.total))
      ensures region.numFreedChunks + region.nAllocated - region.nFreed == region.total
      ensures |Sum(Contents())| + |User()| == region.nAllocated - region.nFreed
    {
      assert Sum(Contents()) + User() == region.out;
      assert |region.Free()| == region.numFreedChunks;
      assert |region.Free() + region.out| == |region.Free()| + |region.out|;
    }

    /** Cache `t` has a chunk, or the region can give it some. */
    ghost predicate CanAllocate(t: nat, env: Env)
      requires t < |caches| && region.Valid()
      reads region, region.freeArray, caches[t]
    {
      caches[t].count > 0 || region.Mem().CanGet(caches[t].hint, env.answers)
    }

    ghost predicate DiesAllocating(t: nat, env: Env)
      requires t < |caches| && region.Valid()
      reads region, region.freeArray, caches[t]
    {
      caches[t].count == 0 && region.Mem().DiesGetting(caches[t].hint, env.answers)
    }

    /** Cache `t` is not full, or the region can take half of it back. */
    ghost predicate CanDeallocate(t: nat, env: Env)
      requires t < |caches|
      reads region, caches[t]
    {
      caches[t].count < 2 * caches[t].hint || region.Mem().CanReturn(caches[t].hint, env.answers.free)
    }

    /** Only cache `t` changes. */
    method CacheAllocate(t: nat, env: Env) returns (r: Outcome, chunk: nat)
      requires Valid() && t < |caches|
      modifies region, region.freeArray, caches[t], caches[t].chunks
      ensures (r.Done? <==> old(CanAllocate(t, env))) && (r.Died? <==> old(DiesAllocating(t, env)))
      ensures !r.Died? ==> region.Valid() && CachesValid() && Contents() == old(Contents())[t := caches[t].Contents()]
      ensures r.Done? ==> region.out + old(Contents())[t] == old(region.out) + Contents()[t] + multiset{chunk}
      ensures r.Failed? ==> region.out == old(region.out) && Contents() == old(Contents())
    {
      ghost var before, can, dies := Contents(), CanAllocate(t, env), DiesAllocating(t, env);
      r, chunk := caches[t].Allocate(region, env);
      assert (r.Done? <==> can) && (r.Died? <==> dies);
      if !r.Died? {
        OnlyCache(before, t);
      }
    }

    /** All caches but `t` have what they had. */
    lemma OnlyCache(before: seq<multiset<nat>>, t: nat)
      requires |before| == |caches| && t < |caches| && caches[t].Valid()
      requires forall k | 0 <= k < |caches| && k != t :: caches[k].Valid() && before[k] == caches[k].Contents()
      ensures CachesValid() && Contents() == before[t := caches[t].Contents()]
    {
    }

    method Allocate(t: nat, env: Env) returns (r: Outcome, chunk: nat)
      requires Valid() && t < |caches|
      modifies region, region.freeArray, caches[t], caches[t].chunks
      ensures (r.Done? <==> old(CanAllocate(t, env))) && (r.Died? <==> old(DiesAllocating(t, env)))
      ensures !r.Died? ==> Valid()
      ensures r.Done? ==> User() == old(User()) + multiset{chunk} && chunk !in old(User())
      ensures r.Failed? ==> User() == old(User())
    {
      ghost var before, out := Contents(), region.out;
      r, chunk := CacheAllocate(t, env);
      if r.Done? {
        SumUpdate(before, t, Contents()[t]);
        TakeOne(out, region.out, Sum(before), Sum(Contents()), before[t], Contents()[t], chunk);
        OnlyOnce(chunk);
      }
    }

    /** A chunk the program has it has once. */
    lemma OnlyOnce(chunk: nat)
      requires Valid()
      ensures User()[chunk] <= 1
    {
      PlacesAreExclusive();
      assert multiset(Chunks(region.c, region.total))[chunk] <= 1;
    }

    method CacheDeallocate(t: nat, chunk: nat, env: Env) returns (r: Outcome)
      requires Valid() && t < |caches| && Contents()[t] <= region.out
      modifies region, region.freeArray, caches[t], caches[t].chunks
      ensures r.Done? || r.Died?
      ensures r.Done? <==> old(CanDeallocate(t, env))
      ensures r.Done? ==> region.Valid() && CachesValid() && Contents() == old(Contents())[t := caches[t].Contents()]
      ensures r.Done? ==> region.out + old(Contents())[t] + multiset{chunk} == old(region.out) + Contents()[t]
    {
      ghost var before := Contents();
      r := caches[t].Deallocate(region, chunk, env);
      if r.Done? {
        OnlyCache(before, t);
      }
    }

    /** The program gives back a chunk it has. */
    method Deallocate(t: nat, chunk: nat, env: Env) returns (r: Outcome)
      requires Valid() && t < |caches| && chunk in User()
      modifies region, region.freeArray, caches[t], caches[t].chunks
      ensures r.Done? || r.Died?
      ensures r.Done? <==> old(CanDeallocate(t, env))
      ensures r.Done? ==> Valid() && User() == old(User()) - multiset{chunk} && chunk !in User()
    {
      OnlyOnce(chunk);
      ghost var before, out := Contents(), region.out;
      SumUpdate(before, t, multiset{});
      r := CacheDeallocate(t, chunk, env);
      if r.Done? {
        SumUpdate(before, t, Contents()[t]);
        GiveOne(out, region.out, Sum(before), Sum(Contents()), before[t], Contents()[t], chunk);
      }
    }
  }
}

