/** One bucket of the concurrent address hash map of `sanitizer_addrhashmap.h`: its cells, and what a thread that
    holds the write lock does to them, one access at a time. */
module HashBucket {
  import opened Wrappers

  /** Address 0 marks an empty cell. */
  datatype Cell = Cell(addr: nat, val: int)

  const EMPTY_CELL := Cell(0, 0)
  const BUCKET_SIZE: nat := 3

  /** The add array: `cap` is the number of its cells. */
  datatype AddBucket = AddBucket(size: nat, cells: seq<Cell>)

  datatype Ref = Embed(i: nat) | InAdd(i: nat)

  datatype Bucket = Bucket(embed: seq<Cell>, add: Option<AddBucket>)
  {
    predicate Has(r: Ref) {
      match r
      case Embed(i) => i < |embed|
      case InAdd(i) => add.Some? && i < |add.value.cells|
    }

    function At(r: Ref): Cell
      requires Has(r)
    {
      if r.Embed? then embed[r.i] else add.value.cells[r.i]
    }

    function Put(r: Ref, c: Cell): Bucket
      requires Has(r)
    {
      if r.Embed? then this.(embed := embed[r.i := c])
      else this.(add := Some(add.value.(cells := add.value.cells[r.i := c])))
    }

    function Size(): nat { if add.Some? then add.value.size else 0 }

    function Cap(): nat { if add.Some? then |add.value.cells| else 0 }

    function Resize(n: nat): Bucket
      requires add.Some?
    {
      this.(add := Some(add.value.(size := n)))
    }
  }

  // ----- sizes of the add array, in bytes -----

  const INIT_SIZE: nat := 64
  const WORD_RANGE: nat := 0x1_0000_0000_0000_0000

  /** An add array has two words and `cap` cells. */
  function Bytes(cap: nat, cell: nat): nat { 16 + cap * cell }

  /** The subtraction is on unsigned words: for a cell that does not fit it wraps. */
  function InitialCap(cell: nat): nat
    requires 0 < cell && Bytes(1, cell) <= WORD_RANGE
  {
    (if Bytes(1, cell) <= INIT_SIZE then INIT_SIZE - Bytes(1, cell) else WORD_RANGE + INIT_SIZE - Bytes(1, cell)) / cell + 1
  }

  function GrownCap(cap: nat, cell: nat): nat
    requires 0 < cell && 0 < cap
  {
    assert cap * cell >= cell;
    (2 * Bytes(cap, cell) - Bytes(1, cell)) / cell + 1
  }

  /** The first add array has as many cells as fit if and only if one fits. Growing at least doubles them, to as many
      as fit again. */
  lemma CapsFit(cap: nat, cell: nat)
    requires 0 < cell && Bytes(1, cell) <= WORD_RANGE && 0 < cap
    ensures Bytes(InitialCap(cell), cell) <= INIT_SIZE <==> cell <= 48
    ensures cell <= 48 ==> INIT_SIZE < Bytes(InitialCap(cell) + 1, cell)
    ensures cell > 48 ==> Bytes(InitialCap(cell), cell) <= WORD_RANGE + INIT_SIZE < Bytes(InitialCap(cell) + 1, cell)
    ensures Bytes(GrownCap(cap, cell), cell) <= 2 * Bytes(cap, cell) < Bytes(GrownCap(cap, cell) + 1, cell)
    ensures InitialCap(cell) > 0 && GrownCap(cap, cell) >= 2 * cap
  {
    if cell <= 48 {
      Fits(INIT_SIZE - Bytes(1, cell), cell);
    } else {
      assert InitialCap(cell) * cell >= cell;
      Fits(WORD_RANGE + INIT_SIZE - Bytes(1, cell), cell);
    }
    assert cap * cell >= cell;
    Fits(2 * Bytes(cap, cell) - Bytes(1, cell), cell);
    AtLeast(2 * Bytes(cap, cell) - Bytes(1, cell), 2 * cap - 1, cell);
  }

  lemma AtLeast(bytes: nat, n: nat, cell: nat)
    requires 0 < cell && n * cell <= bytes
    ensures n <= bytes / cell
  {
    var q := bytes / cell;
    assert bytes < (q + 1) * cell;
    Smaller(n, q + 1, cell);
  }

  lemma Smaller(a: nat, b: nat, c: nat)
    requires a * c < b * c
    ensures a < b
  {
  }

  lemma Fits(bytes: nat, cell: nat)
    requires 0 < cell
    ensures (bytes / cell + 1) * cell <= bytes + cell < (bytes / cell + 2) * cell
  {
  }

  // ----- what the cells mean -----

  /** Live cells are the non-empty ones of the embedded array, of the first `size` of the add array, and for a
      moment one just behind those that is about to be moved. */
  predicate Live(b: Bucket, extra: Option<nat>, r: Ref) {
    b.Has(r) && b.At(r).addr != 0 && (r.InAdd? ==> r.i < b.Size() || extra == Some(r.i))
  }

  ghost predicate Lives(b: Bucket, extra: Option<nat>, a: nat) { exists r :: Live(b, extra, r) && b.At(r).addr == a }

  /** The live cells hold the elements of `m`, each in one cell. */
  ghost predicate Represents(b: Bucket, extra: Option<nat>, m: map<nat, int>) {
    && (forall r | Live(b, extra, r) :: b.At(r).addr in m && m[b.At(r).addr] == b.At(r).val)
    && (forall a | a in m :: Lives(b, extra, a))
    && (forall q, r | Live(b, extra, q) && Live(b, extra, r) && b.At(q).addr == b.At(r).addr :: q == r)
  }

  /** The first `size` add cells are non-empty but for `hole`, the others empty but for `tail`. */
  ghost predicate Tight(b: Bucket, hole: Option<nat>, tail: Option<nat>) {
    && |b.embed| == BUCKET_SIZE && b.Size() <= b.Cap()
    && (b.add.Some? ==> b.Cap() > 0)
    && forall j: nat | b.Has(InAdd(j)) ::
         if j < b.Size() then (b.At(InAdd(j)).addr == 0 ==> hole == Some(j)) else (b.At(InAdd(j)).addr != 0 ==> tail == Some(j))
  }

  /** A bucket nobody is writing to. */
  ghost predicate Rest(b: Bucket, m: map<nat, int>) { Tight(b, None, None) && Represents(b, None, m) }

  // ----- what the holder of the write lock does -----

  /** Steps under the write lock. `Creating` and `Removing` are the ones where the caller has the handle. */
  datatype Pc =
    | ScanEmbed(i: nat)
    | ScanAdd(i: nat)
    | Missing
    | FindFree(i: nat)
    | Allocate
    | Grow
    | Append
    | Creating(r: Ref)
    | Removing(r: Ref)
    | Cleared(r: Ref)
    | Shrunk(i: nat, last: nat)   // an add cell was removed, the last one is to fill its place
    | Taken(i: nat, last: nat)    // an embedded cell was removed, the last add cell is to fill its place
    | Valued(i: nat, last: nat)
    | Moved(last: nat)
    | Unlocking(why: Why)

  /** The lock is given up to look again without it, because there is no element, or with the handle. */
  datatype Why = Retry | Nothing | Released

  datatype Handle = Handle(addr: nat, remove: bool, create: bool)

  /** What the holder sees and changes; `m` is what the bucket stands for. */
  datatype Work = Work(b: Bucket, m: map<nat, int>, pc: Pc)

  predicate Owns(h: Handle, w: Work) {
    match w.pc
    case ScanEmbed(i) => i <= BUCKET_SIZE == |w.b.embed|
    case ScanAdd(i) => i <= w.b.Size() <= w.b.Cap()
    case FindFree(i) => i <= BUCKET_SIZE == |w.b.embed|
    case Grow => w.b.add.Some? && w.b.Cap() > 0
    case Append => w.b.add.Some? && w.b.Size() < w.b.Cap()
    case Creating(r) => w.b.Has(r)
    case Removing(r) => w.b.Has(r)
    case Cleared(r) => w.b.Has(r) && w.b.Size() <= w.b.Cap() && (r.InAdd? ==> r.i < w.b.Size())
    case Shrunk(i, last) => w.b.Has(InAdd(i)) && w.b.Has(InAdd(last))
    case Taken(i, last) => w.b.Has(Embed(i)) && w.b.Has(InAdd(last))
    case Valued(i, last) => w.b.Has(Embed(i)) && w.b.Has(InAdd(last))
    case Moved(last) => w.b.Has(InAdd(last))
    case _ => true
  }

  function EmptyCells(n: nat): (cells: seq<Cell>)
    ensures |cells| == n && forall i | 0 <= i < n :: cells[i] == EMPTY_CELL
  {
    seq(n, _ => EMPTY_CELL)
  }

  /** A bigger add array with the same elements. */
  function Grown(b: Bucket, cell: nat): Bucket
    requires b.add.Some? && b.Cap() > 0 && 0 < cell <= 48
  {
    CapsFit(b.Cap(), cell);
    b.(add := Some(AddBucket(b.Size(), b.add.value.cells + EmptyCells(GrownCap(b.Cap(), cell) - b.Cap()))))
  }

  function Found(h: Handle, r: Ref): Pc { if h.remove then Removing(r) else Unlocking(Retry) }

  function WriterStep(h: Handle, w: Work, cell: nat): Work
    requires Owns(h, w) && 0 < cell <= 48
  {
    match w.pc
    case ScanEmbed(i) =>
      if i == BUCKET_SIZE then w.(pc := ScanAdd(0))
      else if w.b.embed[i].addr == h.addr then w.(pc := Found(h, Embed(i)))
      else w.(pc := ScanEmbed(i + 1))
    case ScanAdd(i) =>
      if i == w.b.Size() then w.(pc := Missing)
      else if w.b.add.value.cells[i].addr == h.addr then w.(pc := Found(h, InAdd(i)))
      else w.(pc := ScanAdd(i + 1))
    case Missing => w.(pc := if h.remove || !h.create then Unlocking(Nothing) else FindFree(0))
    case FindFree(i) =>
      if i == BUCKET_SIZE then w.(pc := Allocate)
      else if w.b.embed[i].addr == 0 then w.(pc := Creating(Embed(i)))
      else w.(pc := FindFree(i + 1))
    case Allocate =>
      if w.b.add.Some? then w.(pc := Grow)
      else Work(w.b.(add := Some(AddBucket(0, EmptyCells(InitialCap(cell))))), w.m, Grow)
    case Grow =>
      if w.b.Size() != w.b.Cap() then w.(pc := Append) else Work(Grown(w.b, cell), w.m, Append)
    case Append => Work(w.b.Resize(w.b.Size() + 1), w.m, Creating(InAdd(w.b.Size())))
    case Creating(r) =>
      Work(w.b.Put(r, w.b.At(r).(addr := h.addr)), w.m[h.addr := w.b.At(r).val], Unlocking(Released))
    case Removing(r) => Work(w.b.Put(r, w.b.At(r).(addr := 0)), w.m - {h.addr}, Cleared(r))
    case Cleared(Embed(i)) =>
      if w.b.Size() == 0 then w.(pc := Unlocking(Released))
      else Work(w.b.Resize(w.b.Size() - 1), w.m, Taken(i, w.b.Size() - 1))
    case Cleared(InAdd(i)) =>
      var last := w.b.Size() - 1;
      Work(w.b.Resize(last), w.m, if i == last then Unlocking(Released) else Shrunk(i, last))
    case Shrunk(i, last) => Work(w.b.Put(InAdd(i), w.b.At(InAdd(last))), w.m, Moved(last))
    case Taken(i, last) => Work(w.b.Put(Embed(i), w.b.At(Embed(i)).(val := w.b.At(InAdd(last)).val)), w.m, Valued(i, last))
    case Valued(i, last) => Work(w.b.Put(Embed(i), w.b.At(Embed(i)).(addr := w.b.At(InAdd(last)).addr)), w.m, Moved(last))
    case Moved(last) => Work(w.b.Put(InAdd(last), w.b.At(InAdd(last)).(addr := 0)), w.m, Unlocking(Released))
    case Unlocking(_) => w
  }

  /** Between acquire and release the caller may set the value of an element it creates. */
  function SetValue(w: Work, v: int): Work
    requires w.pc.Creating? && w.b.Has(w.pc.r)
  {
    w.(b := w.b.Put(w.pc.r, w.b.At(w.pc.r).(val := v)))
  }

  ghost predicate NotEmbedded(h: Handle, b: Bucket, n: nat) { forall j | 0 <= j < n && j < |b.embed| :: b.embed[j].addr != h.addr }

  ghost predicate NotAdded(h: Handle, b: Bucket, n: nat) { forall j: nat | b.Has(InAdd(j)) && j < n :: b.At(InAdd(j)).addr != h.addr }

  /** The first `n` embedded cells are taken. */
  ghost predicate NoneFree(b: Bucket, n: nat) { forall j | 0 <= j < n && j < |b.embed| :: b.embed[j].addr != 0 }

  /** What holds at each step under the write lock. */
  ghost predicate WorkOk(h: Handle, w: Work) {
    && h.addr != 0
    && match w.pc
       case ScanEmbed(i) => Rest(w.b, w.m) && i <= BUCKET_SIZE && NotEmbedded(h, w.b, i)
       case ScanAdd(i) => Rest(w.b, w.m) && i <= w.b.Size() && NotEmbedded(h, w.b, BUCKET_SIZE) && NotAdded(h, w.b, i)
       case Missing => Rest(w.b, w.m) && h.addr !in w.m
       case FindFree(i) => Rest(w.b, w.m) && h.addr !in w.m && i <= BUCKET_SIZE && h.create && !h.remove && NoneFree(w.b, i)
       case Allocate => Rest(w.b, w.m) && h.addr !in w.m && h.create && !h.remove && NoneFree(w.b, BUCKET_SIZE)
       case Grow => Rest(w.b, w.m) && h.addr !in w.m && w.b.add.Some? && h.create && !h.remove && NoneFree(w.b, BUCKET_SIZE)
       case Append =>
         && Rest(w.b, w.m) && h.addr !in w.m && w.b.add.Some? && w.b.Size() < w.b.Cap() && h.create && !h.remove
         && NoneFree(w.b, BUCKET_SIZE)
       case Creating(r) =>
         && NoneFree(w.b, if r.Embed? then r.i else BUCKET_SIZE)
         && h.addr !in w.m && h.create && !h.remove && w.b.Has(r) && w.b.At(r).addr == 0
         && Represents(w.b, None, w.m) && (r.InAdd? ==> r.i + 1 == w.b.Size())
         && Tight(w.b, if r.InAdd? then Some(r.i) else None, None)
       case Removing(r) => Rest(w.b, w.m) && h.remove && Live(w.b, None, r) && w.b.At(r).addr == h.addr
       case Cleared(r) =>
         && h.remove && h.addr !in w.m && w.b.Has(r) && w.b.At(r).addr == 0
         && Represents(w.b, None, w.m) && (r.InAdd? ==> r.i < w.b.Size())
         && Tight(w.b, if r.InAdd? then Some(r.i) else None, None)
       case Shrunk(i, last) =>
         && h.remove && h.addr !in w.m && last == w.b.Size() < w.b.Cap() && i < last && w.b.At(InAdd(i)).addr == 0
         && Represents(w.b, Some(last), w.m) && Tight(w.b, Some(i), Some(last)) && w.b.At(InAdd(last)).addr != 0
       case Taken(i, last) =>
         && h.remove && h.addr !in w.m && last == w.b.Size() < w.b.Cap() && w.b.Has(Embed(i)) && w.b.embed[i].addr == 0
         && Represents(w.b, Some(last), w.m) && Tight(w.b, None, Some(last)) && w.b.At(InAdd(last)).addr != 0
       case Valued(i, last) =>
         && h.remove && h.addr !in w.m && last == w.b.Size() < w.b.Cap() && w.b.Has(Embed(i)) && w.b.embed[i].addr == 0
         && Represents(w.b, Some(last), w.m) && Tight(w.b, None, Some(last)) && w.b.At(InAdd(last)).addr != 0
         && w.b.embed[i].val == w.b.At(InAdd(last)).val
       case Moved(last) =>
         && h.remove && h.addr !in w.m && last == w.b.Size() < w.b.Cap()
         && Represents(w.b, None, w.m) && Tight(w.b, None, Some(last))
       case Unlocking(Retry) => Rest(w.b, w.m) && !h.remove && h.addr in w.m
       case Unlocking(Nothing) => Rest(w.b, w.m) && (h.remove || !h.create) && h.addr !in w.m
       case Unlocking(Released) => Rest(w.b, w.m) && (h.remove || h.create) && (h.addr in w.m <==> !h.remove)
  }

  // ----- every step under the lock keeps this -----

  ghost predicate Keeps(h: Handle, w: Work, cell: nat)
    requires 0 < cell <= 48
  {
    Owns(h, w) && WorkOk(h, WriterStep(h, w, cell))
  }

  lemma PutEffect(b: Bucket, r: Ref, c: Cell)
    requires b.Has(r)
    ensures forall q :: b.Put(r, c).Has(q) <==> b.Has(q)
    ensures forall q | b.Has(q) :: b.Put(r, c).At(q) == if q == r then c else b.At(q)
    ensures b.Put(r, c).Size() == b.Size() && b.Put(r, c).Cap() == b.Cap() && |b.Put(r, c).embed| == |b.embed|
  {
  }

  /** The same live cells with the same contents. */
  lemma SameLive(b: Bucket, x: Option<nat>, b': Bucket, x': Option<nat>, m: map<nat, int>)
    requires Represents(b, x, m)
    requires forall r :: Live(b', x', r) <==> Live(b, x, r)
    requires forall r | Live(b, x, r) :: b'.Has(r) && b'.At(r) == b.At(r)
    ensures Represents(b', x', m)
  {
    forall a | a in m ensures Lives(b', x', a) {
      assert Lives(b, x, a);
      var r :| Live(b, x, r) && b.At(r).addr == a;
      assert Live(b', x', r);
    }
  }

  lemma MoreLive(b: Bucket, b': Bucket, m: map<nat, int>, r: Ref)
    requires Represents(b, None, m) && !Live(b, None, r) && Live(b', None, r) && b'.At(r).addr !in m
    requires forall q | q != r :: Live(b', None, q) <==> Live(b, None, q)
    requires forall q | Live(b, None, q) :: b'.Has(q) && b'.At(q) == b.At(q)
    ensures Represents(b', None, m[b'.At(r).addr := b'.At(r).val])
  {
    var m' := m[b'.At(r).addr := b'.At(r).val];
    forall q | Live(b', None, q) ensures b'.At(q).addr in m' && m'[b'.At(q).addr] == b'.At(q).val {
      assert q != r ==> Live(b, None, q);
    }
    forall a | a in m ensures Lives(b', None, a) {
      assert Lives(b, None, a);
      var q :| Live(b, None, q) && b.At(q).addr == a;
      assert Live(b', None, q);
    }
    forall q, s | Live(b', None, q) && Live(b', None, s) && b'.At(q).addr == b'.At(s).addr ensures q == s {
      assert (q != r ==> Live(b, None, q)) && (s != r ==> Live(b, None, s));
    }
  }

  lemma LessLive(b: Bucket, b': Bucket, m: map<nat, int>, r: Ref)
    requires Represents(b, None, m) && Live(b, None, r) && !Live(b', None, r)
    requires forall q | q != r :: Live(b', None, q) <==> Live(b, None, q)
    requires forall q | Live(b', None, q) :: b'.At(q) == b.At(q)
    ensures Represents(b', None, m - {b.At(r).addr})
  {
    forall a | a in m && a != b.At(r).addr ensures Lives(b', None, a) {
      assert Lives(b, None, a);
      var q :| Live(b, None, q) && b.At(q).addr == a;
      assert Live(b', None, q);
    }
  }

  /** An element moves from one cell to another. */
  lemma MoveLive(b: Bucket, x: Option<nat>, b': Bucket, m: map<nat, int>, from: Ref, to: Ref)
    requires Represents(b, x, m) && Live(b, x, from) && !Live(b, x, to)
    requires Live(b', None, to) && !Live(b', None, from) && b'.At(to) == b.At(from)
    requires forall q | q != from && q != to :: Live(b', None, q) <==> Live(b, x, q)
    requires forall q | q != from && Live(b, x, q) :: b'.Has(q) && b'.At(q) == b.At(q)
    ensures Represents(b', None, m)
  {
    forall a | a in m ensures Lives(b', None, a) {
      assert Lives(b, x, a);
      var q :| Live(b, x, q) && b.At(q).addr == a;
      if q == from {
        assert Live(b', None, to);
      } else {
        assert Live(b', None, q);
      }
    }
  }

  /** An address no scanned cell holds is not in the bucket. */
  lemma Absent(b: Bucket, m: map<nat, int>, a: nat)
    requires Represents(b, None, m) && forall r | Live(b, None, r) :: b.At(r).addr != a
    ensures a !in m
  {
    assert !Lives(b, None, a);
  }

  lemma ScanEmbedKeeps(h: Handle, w: Work, cell: nat)
    requires WorkOk(h, w) && 0 < cell <= 48 && (w.pc.ScanEmbed? || w.pc.Missing? || w.pc.FindFree?)
    ensures Keeps(h, w, cell)
  {
    if w.pc.ScanEmbed? || w.pc.FindFree? {
      assert w.pc.i < BUCKET_SIZE ==> w.b.At(Embed(w.pc.i)) == w.b.embed[w.pc.i];
    }
  }

  lemma ScanAddKeeps(h: Handle, w: Work, cell: nat)
    requires WorkOk(h, w) && 0 < cell <= 48 && w.pc.ScanAdd?
    ensures Keeps(h, w, cell)
  {
    var i := w.pc.i;
    if i == w.b.Size() {
      Absent(w.b, w.m, h.addr);
    } else {
      assert w.b.At(InAdd(i)) == w.b.add.value.cells[i];
      assert Live(w.b, None, InAdd(i));
    }
  }

  /** More empty cells behind those in use. */
  lemma SameCells(b: Bucket, b': Bucket, m: map<nat, int>)
    requires Represents(b, None, m) && b'.embed == b.embed && b'.Size() == b.Size() <= b.Cap() <= b'.Cap()
    requires b.add.Some? ==> b'.add.Some? && b'.add.value.cells[..b.Cap()] == b.add.value.cells
    ensures Represents(b', None, m)
  {
    forall r: Ref | r.InAdd? && r.i < b.Size() ensures b'.At(r) == b.At(r) {
      assert b'.add.value.cells[..b.Cap()][r.i] == b'.add.value.cells[r.i];
    }
    SameLive(b, None, b', None, m);
  }

  lemma AllocateKeeps(h: Handle, w: Work, cell: nat)
    requires WorkOk(h, w) && 0 < cell <= 48 && w.pc.Allocate?
    ensures Keeps(h, w, cell)
  {
    CapsFit(1, cell);
    SameCells(w.b, WriterStep(h, w, cell).b, w.m);
  }

  lemma GrowKeeps(h: Handle, w: Work, cell: nat)
    requires WorkOk(h, w) && 0 < cell <= 48 && w.pc.Grow?
    ensures Keeps(h, w, cell)
  {
    CapsFit(w.b.Cap(), cell);
    SameCells(w.b, WriterStep(h, w, cell).b, w.m);
  }

  lemma AppendKeeps(h: Handle, w: Work, cell: nat)
    requires WorkOk(h, w) && 0 < cell <= 48 && w.pc.Append?
    ensures Keeps(h, w, cell)
  {
    var b' := w.b.Resize(w.b.Size() + 1);
    assert w.b.At(InAdd(w.b.Size())).addr == 0;
    forall r ensures Live(b', None, r) <==> Live(w.b, None, r)
             ensures Live(w.b, None, r) ==> b'.At(r) == w.b.At(r) {
    }
    SameLive(w.b, None, b', None, w.m);
  }

  lemma CreateKeeps(h: Handle, w: Work, cell: nat)
    requires WorkOk(h, w) && 0 < cell <= 48 && w.pc.Creating?
    ensures Keeps(h, w, cell)
  {
    var r, w' := w.pc.r, WriterStep(h, w, cell);
    PutEffect(w.b, r, w.b.At(r).(addr := h.addr));
    MoreLive(w.b, w'.b, w.m, r);
  }

  lemma RemoveKeeps(h: Handle, w: Work, cell: nat)
    requires WorkOk(h, w) && 0 < cell <= 48 && w.pc.Removing?
    ensures Keeps(h, w, cell)
  {
    var r, w' := w.pc.r, WriterStep(h, w, cell);
    PutEffect(w.b, r, w.b.At(r).(addr := 0));
    LessLive(w.b, w'.b, w.m, r);
  }

  lemma ShrinkEmbedKeeps(h: Handle, w: Work, cell: nat)
    requires WorkOk(h, w) && 0 < cell <= 48 && w.pc.Cleared? && w.pc.r.Embed?
    ensures Keeps(h, w, cell)
  {
    if w.b.Size() > 0 {
      var b' := w.b.Resize(w.b.Size() - 1);
      assert WriterStep(h, w, cell) == Work(b', w.m, Taken(w.pc.r.i, w.b.Size() - 1));
      SameLive(w.b, None, b', Some(w.b.Size() - 1), w.m);
    }
  }

  lemma ShrinkLastKeeps(h: Handle, w: Work, cell: nat)
    requires WorkOk(h, w) && 0 < cell <= 48 && w.pc.Cleared? && w.pc.r.InAdd? && w.pc.r.i == w.b.Size() - 1
    ensures Keeps(h, w, cell)
  {
    var b' := w.b.Resize(w.b.Size() - 1);
    assert WriterStep(h, w, cell) == Work(b', w.m, Unlocking(Released));
    SameLive(w.b, None, b', None, w.m);
  }

  lemma ShrinkAddKeeps(h: Handle, w: Work, cell: nat)
    requires WorkOk(h, w) && 0 < cell <= 48 && w.pc.Cleared? && w.pc.r.InAdd? && w.pc.r.i != w.b.Size() - 1
    ensures Keeps(h, w, cell)
  {
    var last := w.b.Size() - 1;
    var b' := w.b.Resize(last);
    assert WriterStep(h, w, cell) == Work(b', w.m, Shrunk(w.pc.r.i, last));
    SameLive(w.b, None, b', Some(last), w.m);
  }

  lemma ValueKeeps(h: Handle, w: Work, cell: nat)
    requires WorkOk(h, w) && 0 < cell <= 48 && w.pc.Taken?
    ensures Keeps(h, w, cell)
  {
    var w', to := WriterStep(h, w, cell), Embed(w.pc.i);
    PutEffect(w.b, to, w'.b.At(to));
    SameLive(w.b, Some(w.pc.last), w'.b, Some(w.pc.last), w.m);
  }

  lemma FillAddKeeps(h: Handle, w: Work, cell: nat)
    requires WorkOk(h, w) && 0 < cell <= 48 && w.pc.Shrunk?
    ensures Keeps(h, w, cell)
  {
    var from, to := InAdd(w.pc.last), InAdd(w.pc.i);
    PutEffect(w.b, to, w.b.At(from));
    MoveLive(w.b, Some(w.pc.last), w.b.Put(to, w.b.At(from)), w.m, from, to);
  }

  lemma FillEmbedKeeps(h: Handle, w: Work, cell: nat)
    requires WorkOk(h, w) && 0 < cell <= 48 && w.pc.Valued?
    ensures Keeps(h, w, cell)
  {
    var w', from, to := WriterStep(h, w, cell), InAdd(w.pc.last), Embed(w.pc.i);
    PutEffect(w.b, to, w'.b.At(to));
    assert w'.b == w.b.Put(to, w'.b.At(to));
    MoveLive(w.b, Some(w.pc.last), w'.b, w.m, from, to);
  }

  lemma EraseKeeps(h: Handle, w: Work, cell: nat)
    requires WorkOk(h, w) && 0 < cell <= 48 && w.pc.Moved?
    ensures Keeps(h, w, cell)
  {
    var w' := WriterStep(h, w, cell);
    PutEffect(w.b, InAdd(w.pc.last), w.b.At(InAdd(w.pc.last)).(addr := 0));
    SameLive(w.b, None, w'.b, None, w.m);
  }

  lemma LookKeeps(h: Handle, w: Work, cell: nat)
    requires WorkOk(h, w) && 0 < cell <= 48 && (w.pc.ScanEmbed? || w.pc.ScanAdd? || w.pc.Missing? || w.pc.FindFree?)
    ensures Keeps(h, w, cell)
  {
    if w.pc.ScanAdd? {
      ScanAddKeeps(h, w, cell);
    } else {
      ScanEmbedKeeps(h, w, cell);
    }
  }

  lemma InsertKeeps(h: Handle, w: Work, cell: nat)
    requires WorkOk(h, w) && 0 < cell <= 48 && (w.pc.Allocate? || w.pc.Grow? || w.pc.Append? || w.pc.Creating?)
    ensures Keeps(h, w, cell)
  {
    if w.pc.Allocate? {
      AllocateKeeps(h, w, cell);
    } else if w.pc.Grow? {
      GrowKeeps(h, w, cell);
    } else if w.pc.Append? {
      AppendKeeps(h, w, cell);
    } else {
      CreateKeeps(h, w, cell);
    }
  }

  lemma ClearedKeeps(h: Handle, w: Work, cell: nat)
    requires WorkOk(h, w) && 0 < cell <= 48 && w.pc.Cleared?
    ensures Keeps(h, w, cell)
  {
    if w.pc.r.Embed? {
      ShrinkEmbedKeeps(h, w, cell);
    } else if w.pc.r.i == w.b.Size() - 1 {
      ShrinkLastKeeps(h, w, cell);
    } else {
      ShrinkAddKeeps(h, w, cell);
    }
  }

  lemma MoveKeeps(h: Handle, w: Work, cell: nat)
    requires WorkOk(h, w) && 0 < cell <= 48 && (w.pc.Shrunk? || w.pc.Taken? || w.pc.Valued? || w.pc.Moved?)
    ensures Keeps(h, w, cell)
  {
    if w.pc.Shrunk? {
      FillAddKeeps(h, w, cell);
    } else if w.pc.Taken? {
      ValueKeeps(h, w, cell);
    } else if w.pc.Valued? {
      FillEmbedKeeps(h, w, cell);
    } else {
      EraseKeeps(h, w, cell);
    }
  }

  /** Every step under the write lock leads to the next one's condition. */
  lemma WriterKeeps(h: Handle, w: Work, cell: nat)
    requires WorkOk(h, w) && 0 < cell <= 48
    ensures Keeps(h, w, cell)
  {
    if w.pc.ScanEmbed? || w.pc.ScanAdd? || w.pc.Missing? || w.pc.FindFree? {
      LookKeeps(h, w, cell);
    } else if w.pc.Allocate? || w.pc.Grow? || w.pc.Append? || w.pc.Creating? {
      InsertKeeps(h, w, cell);
    } else if w.pc.Removing? {
      RemoveKeeps(h, w, cell);
    } else if w.pc.Cleared? {
      ClearedKeeps(h, w, cell);
    } else if !w.pc.Unlocking? {
      MoveKeeps(h, w, cell);
    }
  }
}

/** Any number of handles being acquired and released on one bucket, in any interleaving. */
module HashBucketRuns {
  import opened Wrappers
  import opened HashBucket

  /** Where a thread is in `acquire` or `release`. `Scan` to `WantWrite` hold no lock but for `AddScan` and `DropRead`,
      which hold the read lock; a thread that has a handle to read an add cell still holds it. */
  datatype Place =
    | Idle
    | Scan(i: nat)
    | CheckAdd
    | WantRead
    | AddScan(i: nat)
    | DropRead
    | WantWrite
    | Writing(pc: Pc)
    | ReadingEmbed(i: nat)
    | ReadingAdd(i: nat)
  {
    predicate HoldsRead() { AddScan? || DropRead? || ReadingAdd? }
  }

  datatype Actor = Actor(h: Handle, at: Place)

  datatype State = State(b: Bucket, m: map<nat, int>, writer: Option<nat>, readers: set<nat>, actors: map<nat, Actor>)
  {
    function To(t: nat, p: Place): State
      requires t in actors
    {
      this.(actors := actors[t := Actor(actors[t].h, p)])
    }

    function With(w: Work): State { this.(b := w.b, m := w.m) }
  }

  /** What the caller decides: which handle to acquire, and whether to set the value of an element it creates. */
  datatype Choice = Acquire(h: Handle) | Set(v: int) | Go

  function WorkOf(s: State, pc: Pc): Work { Work(s.b, s.m, pc) }

  predicate Enabled(s: State, t: nat) {
    && t in s.actors && |s.b.embed| == BUCKET_SIZE && s.b.Size() <= s.b.Cap()
    && match s.actors[t].at
       case Writing(pc) => Owns(s.actors[t].h, WorkOf(s, pc))
       case _ => true
  }

  function StepWriter(s: State, t: nat, pc: Pc, c: Choice, cell: nat): State
    requires t in s.actors && Owns(s.actors[t].h, WorkOf(s, pc)) && 0 < cell <= 48
  {
    if pc.Unlocking? then s.To(t, if pc.why.Retry? then Scan(0) else Idle).(writer := None)
    else if pc.Creating? && c.Set? then s.With(SetValue(WorkOf(s, pc), c.v))
    else
      var w := WriterStep(s.actors[t].h, WorkOf(s, pc), cell);
      s.To(t, Writing(w.pc)).With(w)
  }

  function Step(s: State, t: nat, c: Choice, cell: nat): State
    requires Enabled(s, t) && 0 < cell <= 48
  {
    if s.actors[t].at.Writing? then StepWriter(s, t, s.actors[t].at.pc, c, cell) else StepOther(s, t, c)
  }

  /** A step of a thread that does not hold the write lock. */
  function StepOther(s: State, t: nat, c: Choice): State
    requires t in s.actors && !s.actors[t].at.Writing? && |s.b.embed| == BUCKET_SIZE && s.b.Size() <= s.b.Cap()
  {
    var h := s.actors[t].h;
    match s.actors[t].at
    case Idle =>
      if c.Acquire? && c.h.addr != 0 then s.(actors := s.actors[t := Actor(c.h, if c.h.remove then WantWrite else Scan(0))])
      else s
    case Scan(i) =>
      if i >= BUCKET_SIZE then s.To(t, CheckAdd)
      else if s.b.embed[i].addr == h.addr then s.To(t, ReadingEmbed(i))
      else s.To(t, Scan(i + 1))
    case CheckAdd => s.To(t, if s.b.add.Some? then WantRead else WantWrite)
    case WantRead => if s.writer.Some? then s else s.To(t, AddScan(0)).(readers := s.readers + {t})
    case AddScan(i) =>
      if i >= s.b.Size() then s.To(t, DropRead)
      else if s.b.add.value.cells[i].addr == h.addr then s.To(t, ReadingAdd(i))
      else s.To(t, AddScan(i + 1))
    case DropRead => s.To(t, WantWrite).(readers := s.readers - {t})
    case WantWrite =>
      if s.writer.Some? || s.readers != {} then s else s.To(t, Writing(ScanEmbed(0))).(writer := Some(t))
    case ReadingEmbed(_) => s.To(t, Idle)
    case ReadingAdd(_) => s.To(t, Idle).(readers := s.readers - {t})
  }

  ghost predicate Initial(s: State) {
    && s.b == Bucket([EMPTY_CELL, EMPTY_CELL, EMPTY_CELL], None) && s.m == map[] && s.writer == None && s.readers == {}
    && forall t | t in s.actors :: s.actors[t].at.Idle?
  }

  /** What holds for one thread. */
  ghost predicate ActorOk(s: State, t: nat, a: Actor) {
    && (a.at.Writing? <==> s.writer == Some(t))
    && (a.at.HoldsRead() <==> t in s.readers)
    && (!a.at.Idle? ==> a.h.addr != 0)
    && (a.at.Scan? || a.at.CheckAdd? || a.at.WantRead? || a.at.HoldsRead() || a.at.ReadingEmbed? ==> !a.h.remove)
    && (a.at.ReadingAdd? ==> s.b.Has(InAdd(a.at.i)) && a.at.i < s.b.Size() && s.b.At(InAdd(a.at.i)).addr == a.h.addr)
    && (a.at.Writing? ==> WorkOk(a.h, WorkOf(s, a.at.pc)))
  }

  ghost predicate Inv(s: State) {
    && |s.b.embed| == BUCKET_SIZE && s.b.Size() <= s.b.Cap()
    && (s.writer.Some? ==> s.writer.value in s.actors && s.readers == {})
    && (forall t | t in s.readers :: t in s.actors)
    && (s.writer.None? ==> Rest(s.b, s.m))
    && forall t | t in s.actors :: ActorOk(s, t, s.actors[t])
  }

  lemma InitialInv(s: State)
    requires Initial(s)
    ensures Inv(s)
  {
  }

  /** A thread without the write lock changes neither cells nor elements. */
  lemma OthersKeepCells(s: State, t: nat, c: Choice)
    requires t in s.actors && !s.actors[t].at.Writing? && |s.b.embed| == BUCKET_SIZE && s.b.Size() <= s.b.Cap()
    ensures StepOther(s, t, c).b == s.b && StepOther(s, t, c).m == s.m
    ensures var s' := StepOther(s, t, c); t in s'.actors && s'.actors == s.actors[t := s'.actors[t]]
  {
    var s' := StepOther(s, t, c);
    assert t in s'.actors;
    assert s'.actors == s.actors[t := s'.actors[t]];
  }

  lemma OthersKeepLocks(s: State, t: nat, c: Choice)
    requires Inv(s) && t in s.actors && !s.actors[t].at.Writing?
    ensures var s' := StepOther(s, t, c);
            && (s'.writer == s.writer || (s.writer == None && s'.writer == Some(t) && s.readers == {} && s'.readers == {}))
            && (forall u | u != t :: u in s'.readers <==> u in s.readers)
            && (t in s'.readers && t !in s.readers ==> s.writer.None?)
            && t in s'.actors && ActorOk(s', t, s'.actors[t])
  {
    assert ActorOk(s, t, s.actors[t]);
  }

  lemma OthersKeepInv(s: State, t: nat, c: Choice, cell: nat)
    requires Inv(s) && t in s.actors && 0 < cell <= 48 && !s.actors[t].at.Writing?
    ensures Enabled(s, t) && Inv(Step(s, t, c, cell))
  {
    OthersKeepCells(s, t, c);
    OthersKeepLocks(s, t, c);
    var s' := Step(s, t, c, cell);
    forall u | u in s'.actors ensures ActorOk(s', u, s'.actors[u]) {
      assert u != t ==> ActorOk(s, u, s.actors[u]);
    }
  }

  lemma OwnsWork(h: Handle, w: Work, cell: nat)
    requires WorkOk(h, w) && 0 < cell <= 48
    ensures Owns(h, w)
  {
    WriterKeeps(h, w, cell);
  }

  lemma SetKeeps(h: Handle, w: Work, v: int)
    requires WorkOk(h, w) && w.pc.Creating?
    ensures WorkOk(h, SetValue(w, v))
  {
    PutEffect(w.b, w.pc.r, w.b.At(w.pc.r).(val := v));
    SameLive(w.b, None, SetValue(w, v).b, None, w.m);
  }

  lemma WorkIsShaped(h: Handle, w: Work)
    requires WorkOk(h, w)
    ensures |w.b.embed| == BUCKET_SIZE && w.b.Size() <= w.b.Cap()
  {
  }

  /** While one thread writes the others hold no lock, so nothing it does matters to them. */
  lemma OthersUnharmed(s: State, s': State, t: nat)
    requires Inv(s) && t in s.actors && s.writer == Some(t)
    requires s'.readers == s.readers && (s'.writer == s.writer || s'.writer == None)
    requires forall u | u in s'.actors && u != t :: u in s.actors && s'.actors[u] == s.actors[u]
    ensures forall u | u in s'.actors && u != t :: ActorOk(s', u, s'.actors[u])
  {
    forall u | u in s'.actors && u != t ensures ActorOk(s', u, s'.actors[u]) {
      assert ActorOk(s, u, s.actors[u]);
    }
  }

  lemma UnlockKeepsInv(s: State, t: nat, c: Choice, cell: nat)
    requires Inv(s) && t in s.actors && 0 < cell <= 48 && s.actors[t].at.Writing? && s.actors[t].at.pc.Unlocking?
    ensures Inv(StepWriter(s, t, s.actors[t].at.pc, c, cell))
  {
    var s' := StepWriter(s, t, s.actors[t].at.pc, c, cell);
    assert ActorOk(s, t, s.actors[t]);
    OthersUnharmed(s, s', t);
  }

  /** The holder of the write lock changes the bucket and goes on. */
  lemma WorkKeepsInv(s: State, t: nat, w: Work)
    requires Inv(s) && t in s.actors && s.writer == Some(t) && WorkOk(s.actors[t].h, w)
    ensures Inv(s.To(t, Writing(w.pc)).With(w))
  {
    var s' := s.To(t, Writing(w.pc)).With(w);
    WorkIsShaped(s.actors[t].h, w);
    OthersUnharmed(s, s', t);
    assert WorkOf(s', w.pc) == w;
  }

  lemma WriterKeepsInv(s: State, t: nat, c: Choice, cell: nat)
    requires Inv(s) && t in s.actors && 0 < cell <= 48 && s.actors[t].at.Writing?
    ensures Enabled(s, t) && Inv(Step(s, t, c, cell))
  {
    var h, pc := s.actors[t].h, s.actors[t].at.pc;
    assert ActorOk(s, t, s.actors[t]);
    OwnsWork(h, WorkOf(s, pc), cell);
    if pc.Unlocking? {
      UnlockKeepsInv(s, t, c, cell);
    } else if pc.Creating? && c.Set? {
      SetKeeps(h, WorkOf(s, pc), c.v);
      WorkKeepsInv(s, t, SetValue(WorkOf(s, pc), c.v));
      assert s.To(t, Writing(pc)).actors == s.actors;
    } else {
      WriterKeeps(h, WorkOf(s, pc), cell);
      WorkKeepsInv(s, t, WriterStep(h, WorkOf(s, pc), cell));
    }
  }

  lemma StepKeepsInv(s: State, t: nat, c: Choice, cell: nat)
    requires Inv(s) && t in s.actors && 0 < cell <= 48
    ensures Enabled(s, t) && Inv(Step(s, t, c, cell))
  {
    if s.actors[t].at.Writing? {
      WriterKeepsInv(s, t, c, cell);
    } else {
      OthersKeepInv(s, t, c, cell);
    }
  }

  ghost predicate StepBy(s: State, t: nat, c: Choice, cell: nat, s': State)
    requires 0 < cell <= 48
  {
    Enabled(s, t) && s' == Step(s, t, c, cell)
  }

  ghost predicate Next(s: State, cell: nat, s': State)
    requires 0 < cell <= 48
  {
    exists t, c :: StepBy(s, t, c, cell, s')
  }

  ghost predicate IsRun(run: seq<State>, cell: nat)
    requires 0 < cell <= 48
  {
    |run| > 0 && Initial(run[0]) && forall i | 0 <= i < |run| - 1 :: Next(run[i], cell, run[i + 1])
  }

  lemma {:induction false} RunsKeepInv(run: seq<State>, cell: nat, i: nat)
    requires 0 < cell <= 48 && IsRun(run, cell) && i < |run|
    ensures Inv(run[i])
  {
    if i == 0 {
      InitialInv(run[0]);
    } else {
      RunsKeepInv(run, cell, i - 1);
      assert Next(run[i - 1], cell, run[i - 1 + 1]);
      var t, c :| StepBy(run[i - 1], t, c, cell, run[i]);
      StepKeepsInv(run[i - 1], t, c, cell);
    }
  }

  /** In every interleaving, whenever nobody holds the write lock: no address is in two cells, the first `size` add
      cells are in use and the others empty, and the cells hold exactly the elements. */
  lemma AtRest(run: seq<State>, cell: nat, i: nat)
    requires 0 < cell <= 48 && IsRun(run, cell) && i < |run| && run[i].writer.None?
    ensures forall q, r | run[i].b.Has(q) && run[i].b.Has(r) && q != r && run[i].b.At(q).addr != 0 ::
              run[i].b.At(q).addr != run[i].b.At(r).addr
    ensures forall j: nat | run[i].b.Has(InAdd(j)) :: run[i].b.At(InAdd(j)).addr != 0 <==> j < run[i].b.Size()
    ensures forall r | run[i].b.Has(r) && run[i].b.At(r).addr != 0 ::
              run[i].b.At(r).addr in run[i].m && run[i].m[run[i].b.At(r).addr] == run[i].b.At(r).val
    ensures forall a | a in run[i].m :: exists r :: run[i].b.Has(r) && run[i].b.At(r) == Cell(a, run[i].m[a])
  {
    RunsKeepInv(run, cell, i);
    var b, m := run[i].b, run[i].m;
    forall r | b.Has(r) && b.At(r).addr != 0 ensures Live(b, None, r) {
      assert r.InAdd? ==> r == InAdd(r.i);
    }
    forall a | a in m ensures exists r :: b.Has(r) && b.At(r) == Cell(a, m[a]) {
      assert Lives(b, None, a);
      var r :| Live(b, None, r) && b.At(r).addr == a;
      assert b.At(r) == Cell(a, m[a]);
    }
  }

  /** Elements change in two steps only: completing an insertion, of an address that was absent, and removing,
      of one that was present. Neither touches another element. */
  lemma StepChangesElements(s: State, t: nat, c: Choice, cell: nat)
    requires Inv(s) && t in s.actors && 0 < cell <= 48 && Enabled(s, t)
    ensures var s', a := Step(s, t, c, cell), s.actors[t];
            || s'.m == s.m
            || (a.at.Writing? && a.at.pc.Creating? && a.h.addr !in s.m && a.h.addr in s'.m && s'.m - {a.h.addr} == s.m)
            || (a.at.Writing? && a.at.pc.Removing? && a.h.addr in s.m && s'.m == s.m - {a.h.addr})
  {
    if s.actors[t].at.Writing? {
      assert ActorOk(s, t, s.actors[t]);
      WriterChangesElements(s.actors[t].h, WorkOf(s, s.actors[t].at.pc), cell);
    } else {
      OthersKeepCells(s, t, c);
    }
  }

  lemma WriterChangesElements(h: Handle, w: Work, cell: nat)
    requires WorkOk(h, w) && Owns(h, w) && 0 < cell <= 48
    ensures var m := WriterStep(h, w, cell).m;
            || m == w.m
            || (w.pc.Creating? && h.addr !in w.m && h.addr in m && m - {h.addr} == w.m)
            || (w.pc.Removing? && h.addr in w.m && m == w.m - {h.addr})
  {
    if w.pc.Removing? {
      assert w.b.At(w.pc.r).addr in w.m;
    }
  }

  lemma WorkRepresents(h: Handle, w: Work)
    requires WorkOk(h, w)
    ensures exists x :: Represents(w.b, x, w.m)
  {
    if w.pc.Shrunk? || w.pc.Taken? || w.pc.Valued? {
      assert Represents(w.b, Some(w.pc.last), w.m);
    } else {
      assert Represents(w.b, None, w.m);
    }
  }

  /** Even while a writer is moving cells about, an embedded cell that is not empty holds an element. */
  lemma EmbeddedIsElement(s: State, i: nat)
    requires Inv(s) && i < BUCKET_SIZE && s.b.embed[i].addr != 0
    ensures s.b.embed[i].addr in s.m
  {
    if s.writer.Some? {
      var t := s.writer.value;
      assert ActorOk(s, t, s.actors[t]);
      WorkRepresents(s.actors[t].h, WorkOf(s, s.actors[t].at.pc));
    } else {
      assert Represents(s.b, None, s.m);
    }
    var x :| Represents(s.b, x, s.m);
    assert Live(s.b, x, Embed(i)) && s.b.At(Embed(i)) == s.b.embed[i];
  }

  /** An acquire without the write lock returns a cell only of an address that was present at that moment. */
  lemma FoundIsPresent(s: State, t: nat, c: Choice, cell: nat)
    requires Inv(s) && t in s.actors && 0 < cell <= 48 && Enabled(s, t) && t in Step(s, t, c, cell).actors
    requires s.actors[t].at.Scan? || s.actors[t].at.AddScan?
    requires Step(s, t, c, cell).actors[t].at.ReadingEmbed? || Step(s, t, c, cell).actors[t].at.ReadingAdd?
    ensures s.actors[t].h.addr in s.m
  {
    assert ActorOk(s, t, s.actors[t]);
    if s.actors[t].at.Scan? {
      EmbeddedIsElement(s, s.actors[t].at.i);
    } else {
      assert Live(s.b, None, InAdd(s.actors[t].at.i));
    }
  }

  /** Under the write lock: what is to be created is absent, what is to be removed is present, and an acquire
      that is about to report that there is nothing is right at that moment. */
  lemma LockedAnswers(s: State, t: nat)
    requires Inv(s) && t in s.actors && s.actors[t].at.Writing?
    ensures s.actors[t].at.pc.Creating? || s.actors[t].at.pc.Missing? ==> s.actors[t].h.addr !in s.m
    ensures s.actors[t].at.pc.Removing? ==> s.actors[t].h.addr in s.m
  {
    var pc := s.actors[t].at.pc;
    assert ActorOk(s, t, s.actors[t]);
    if pc.Removing? {
      assert s.b.At(pc.r).addr in s.m;
    }
  }

  /** What `release` checks: the cell of a handle that creates is empty, and that of a handle that removes or reads
      an add cell has the handle's address. */
  lemma ReleaseChecks(s: State, t: nat)
    requires Inv(s) && t in s.actors
    ensures var a := s.actors[t];
            && (a.at.Writing? && a.at.pc.Creating? ==> s.b.Has(a.at.pc.r) && s.b.At(a.at.pc.r).addr == 0)
            && (a.at.Writing? && a.at.pc.Removing? ==> s.b.Has(a.at.pc.r) && s.b.At(a.at.pc.r).addr == a.h.addr)
            && (a.at.ReadingAdd? ==> s.b.Has(InAdd(a.at.i)) && s.b.At(InAdd(a.at.i)).addr == a.h.addr)
  {
    assert ActorOk(s, t, s.actors[t]);
  }
}
