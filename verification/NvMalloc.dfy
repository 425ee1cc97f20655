/** nvmalloc and nvfree. The statics of the C file are the fields of one class; positions
    and sizes count cells of 64 bytes, except in the words kept inside the memory. */
module NvMalloc {
  import opened Powers
  import opened Words
  import opened NvHeader
  import opened NvHeap
  import opened NvBitmap
  import opened NvInv
  import opened NvQueue
  import opened NvReturn
  import opened NvRuns
  import opened NvHints

  /** sizeof(header) */
  const HEADER: nat := 8

  /** The page loop of getMoreMemory multiplies in 32 bits, so it ends for these sizes only. */
  lemma PageLoopEnds(size: nat)
    requires size < UINT32
    ensures (exists p: nat :: size <= (p * PAGE_SIZE) % UINT32) <==> size <= UINT32 - PAGE_SIZE
  {
    var p := UINT32 / PAGE_SIZE - 1;
    assert (p * PAGE_SIZE) % UINT32 == UINT32 - PAGE_SIZE;
    forall q: nat
      ensures (q * PAGE_SIZE) % UINT32 <= UINT32 - PAGE_SIZE
    {
      PageProduct(q);
    }
  }

  lemma PageProduct(q: nat)
    ensures (q * PAGE_SIZE) % UINT32 <= UINT32 - PAGE_SIZE
  {
  }

  /** A hint appended to a list. Index -1, the list of size 0, lies before the array; a write
      there is not modelled. */
  function Pushed(lists: seq<seq<nat>>, index: int, position: nat): seq<seq<nat>> {
    if 0 <= index < |lists| then lists[index := lists[index] + [position]] else lists
  }

  lemma WalkStep(k: Checksum, mem: seq<Cell>, a: nat, n: nat, b: nat)
    requires Tile(k, mem, a, n) && b <= |mem|
    ensures n >= 1
    ensures a < b && a + n < b ==> (Tiled(k, mem, a, b) <==> Tiled(k, mem, a + n, b))
    ensures a < b && a + n == b ==> Tiled(k, mem, a, b)
    ensures a < b && a + n > b ==> !Tiled(k, mem, a, b)
  {
    if a < b {
      TiledSkip(k, mem, a, n, b);
    }
  }

  /** Below 4 GiB the 32-bit byte counts of a run are exact. */
  lemma AroundFits(occ: seq<bool>, fz: nat, hint: nat, a: nat, n: nat)
    requires RunsShort(occ, fz) && RunAround(occ, fz, hint, a, n)
    ensures n < RUN_CELLS
  {
    if n > 0 {
      AroundIsMaximal(occ, fz, hint, a, n);
    }
  }

  /** The n cells from a on are the first of a maximal free run. */
  ghost predicate StartOfRun(occ: seq<bool>, fz: nat, a: nat, n: nat) {
    exists e :: MaxRun(occ, fz, a, e) && a + n <= e
  }

  lemma RunInside(occ: seq<bool>, fz: nat, a: nat, b: nat)
    requires MaxRun(occ, fz, a, b)
    ensures a < b <= fz <= |occ|
  {
  }

  /** The answer to a request: NULL, a position, or none at all when the page loop cannot end. */
  datatype Answer = Null | Got(value: nat) | Endless

  /** The pages getMoreMemory asks for. */
  function PagesFor(size: nat): nat {
    var pages := (size + PAGE_SIZE - 1) / PAGE_SIZE;
    if pages < NEW_ALLOC_PAGES then NEW_ALLOC_PAGES else pages
  }

  /** The least page count from 1024 on that holds the size. */
  lemma PagesForLeast(size: nat, p: nat)
    ensures p >= PagesFor(size) <==> p >= 1024 && size <= p * 4096
  {
  }

  /** The memory has grown by the pages for n cells, if need be, and not otherwise. */
  predicate Sized(cells: nat, cells': nat, needed: bool, n: nat) {
    cells' == if needed then cells + 64 * PagesFor(BASE_SIZE * n) else cells
  }

  lemma ShortGrown(k: Checksum, mem: seq<Cell>, occ: seq<bool>, occ': seq<bool>, fz: nat, blocks: Blocks, n: nat)
    requires Space(k, mem, occ, fz, blocks) && RunsShort(occ, fz) && occ <= occ' && n >= 1 && fz + n <= |occ'|
    ensures RunsShort(Marked(occ', fz, n, true), fz + n)
  {
    hide RunsShort, Marked, RunsTiled, BitsOk, BlocksOk;
    var more := occ'[|occ|..];
    assert occ + more == occ';
    ShortAtFrontier(occ, more, fz, n);
  }

  lemma InitBytes(nrPages: nat)
    ensures var bytes := (nrPages * PAGE_SIZE) % UINT32 / BASE_SIZE / 8;
      BASE_SIZE * (8 * bytes) == (nrPages * PAGE_SIZE) % UINT32 && 8 * bytes < RUN_CELLS
  {
    var m := UINT32 / PAGE_SIZE;
    var d, r := nrPages / m, nrPages % m;
    assert nrPages * PAGE_SIZE == d * UINT32 + r * PAGE_SIZE;
    QuotientUnique(nrPages * PAGE_SIZE, UINT32, d, r * PAGE_SIZE);
    PageBytes(r);
  }

  lemma FewerBlocks(blocks: Blocks, fz: nat, b: nat)
    requires BlocksOk(blocks, fz)
    ensures BlocksOk(blocks - {b}, fz)
  {
  }

  lemma SameHealing(k: Checksum, mem: seq<Cell>, mem': seq<Cell>, occ: seq<bool>, fz: nat, h: Heap, wait: nat,
      now: nat, c: nat)
    requires Space(k, mem, occ, fz, h.blocks) && c in h.blocks && |mem| == |mem'|
    requires forall d :: 0 <= d < |mem| && d != c ==> mem'[d].hdr == mem[d].hdr
    ensures DueHeals(k, mem, occ, fz, h, wait, now) <==> DueHeals(k, mem', occ, fz, h, wait, now)
  {
    hide Space, Heals;
    if Ripe(h, wait, now) && h.queue[0].start in h.blocks {
      HealsAnyWord(k, mem, mem', occ, fz, h.blocks, h.queue[0].start, c);
    }
  }

  /** Where the new cells come from makes no difference to the run a release leaves. */
  lemma SameDue(occ: seq<bool>, occ': seq<bool>, fz: nat, fz': nat, h: Heap, wait: nat, now: nat, a: nat, n: nat)
    requires n >= 1 && fz <= |occ| && BlocksOk(h.blocks, fz) && a !in h.blocks && QueueOk(h.queue, h.blocks, wait)
    requires Reused(occ, occ', fz, fz', a, n) || Extended(occ, occ', fz, fz', a, n)
    ensures a == fz || StartOfRun(occ, fz, a, n)
    ensures DueFits(occ', fz', Heap(h.blocks[a := n], h.queue, h.clock), wait, now)
       <==> DueFits(Marked(occ, a, n, true), fz, h, wait, now)
  {
    hide StartOfRun, Marked, RunFits;
    if !Reused(occ, occ', fz, fz', a, n) && Ripe(h, wait, now) && h.queue[0].start in h.blocks {
      var more: seq<bool> :| occ' == Marked(occ + more, a, n, true);
      MarkedAt(occ + more, a, n, true);
      FitsAcross(occ, more, fz, n, h.queue[0].start, h.blocks[h.queue[0].start]);
    }
  }

  /** Nor to the hints it adds. */
  lemma SameSettling(occ: seq<bool>, occ': seq<bool>, fz: nat, fz': nat, h: Heap, wait: nat, now: nat, a: nat, n: nat,
      lists: Lists, hints: Lists, lists': Lists, top': nat)
    requires n >= 1 && fz <= |occ| && BlocksOk(h.blocks, fz) && a !in h.blocks && QueueOk(h.queue, h.blocks, wait)
    requires Reused(occ, occ', fz, fz', a, n) || Extended(occ, occ', fz, fz', a, n)
    requires Searched(occ, fz, lists, hints, n, a)
    requires DueSettled(occ', fz', Heap(h.blocks[a := n], h.queue, h.clock), wait, now, hints, lists', fz', top')
    ensures SearchedAndSettled(occ, fz, h, wait, now, a, n, lists, lists', top')
  {
    hide Marked, RunFits, Settled, Searched;
    if !Reused(occ, occ', fz, fz', a, n) && Ripe(h, wait, now) && h.queue[0].start in h.blocks {
      var b := h.queue[0].start;
      var more: seq<bool> :| occ' == Marked(occ + more, a, n, true);
      MarkedAt(occ + more, a, n, true);
      FitsAcross(occ, more, fz, n, b, h.blocks[b]);
      if Settled(occ', fz', b, h.blocks[b], hints, lists', fz', top') {
        SettledAcross(occ, more, fz, n, b, h.blocks[b], hints, lists', top');
      }
    }
    assert fz' == if a == fz then fz + n else fz;
    assert DueSettled(Marked(occ, a, n, true), fz, h, wait, now, hints, lists', fz', top');
  }

  lemma SettledAcross(occ: seq<bool>, more: seq<bool>, fz: nat, n: nat, b: nat, m: nat, lists: Lists, lists': Lists,
      top': nat)
    requires 1 <= n && fz <= |occ| && fz + n <= |occ + more| && b + m <= fz && m >= 1
    requires Settled(Marked(occ + more, fz, n, true), fz + n, b, m, lists, lists', fz + n, top')
    ensures Settled(Marked(occ, fz, n, true), fz, b, m, lists, lists', fz + n, top')
  {
    hide MaxRun, Marked, RunHinted;
    var top := fz + n;
    var s := Marked(occ + more, fz, n, true);
    var a: nat, e: nat :|
      MaxRun(Marked(s, b, m, false), top, a, e) && a <= b < e && RunHinted(lists, lists', a, b, e, top, top');
    RunAcross(occ, more, fz, n, b, m, a, e);
  }

  /** What a release leaves of hints and frontier when the run it makes is below 4 GiB. */
  lemma ReleaseSettles(k: Checksum, mem: seq<Cell>, occ: seq<bool>, fz: nat, b: nat, n: nat, a: nat, e: nat,
      lists: Lists, lists': Lists, fz': int)
    requires b < |mem| && a <= b < e <= fz && MaxRun(Marked(occ, b, n, false), fz, a, e)
    requires var f, t := (e - b) % RUN_CELLS, (e - a) % RUN_CELLS;
      && fz' == Inserted(k, mem, fz, b, f, t).1 && t <= b + f
      && (fz <= b + f ==> lists' == lists)
      && (fz > b + f ==> HintsAdded(lists, lists', b + f - t, t, b, f))
    ensures RunFits(occ, fz, b, n) ==> fz' >= 0 && Settled(occ, fz, b, n, lists, lists', fz, fz')
  {
    hide MaxRun, Marked, Encode, RunFits, HintsAdded, Settled;
    RunFitsThere(occ, fz, b, n, a, e);
    Remainders(e - b, e - a);
    if e - a < RUN_CELLS {
      InsertSettles(occ, fz, b, n, a, e, lists, lists', fz');
    }
  }

  /** The walk from a block just cleared passes its end. */
  lemma ClearedForward(occ: seq<bool>, b: nat, n: nat, up: nat, fz: nat)
    requires b + n <= fz <= |occ| && b + up <= fz
    requires b + up == fz || Marked(occ, b, n, false)[b + up]
    ensures n <= up
  {
  }

  lemma CellSum(x: nat, y: nat)
    ensures (x % RUN_CELLS + y % RUN_CELLS) % RUN_CELLS == (x + y) % RUN_CELLS
  {
    var r := x % RUN_CELLS + y % RUN_CELLS;
    var q := x / RUN_CELLS + y / RUN_CELLS + r / RUN_CELLS;
    QuotientUnique(x + y, RUN_CELLS, q, r % RUN_CELLS);
  }

  /** What the two walks from a block just cleared measure. */
  lemma Measured(occ: seq<bool>, fz: nat, b: nat, n: nat, up: nat, down: nat)
    requires n >= 1 && b + n <= fz <= |occ| && b + up <= fz && down <= b
    requires var s := Marked(occ, b, n, false);
      && Clear(s, b, b + up) && (b + up == fz || s[b + up])
      && Clear(s, b - down, b) && (b == down || s[b - down - 1])
    ensures n <= up && MaxRun(Marked(occ, b, n, false), fz, b - down, b + up)
    ensures (up % RUN_CELLS + down % RUN_CELLS) % RUN_CELLS == (up + down) % RUN_CELLS
  {
    hide Clear, RunAround, MaxRun;
    ClearedForward(occ, b, n, up, fz);
    AroundHint(Marked(occ, b, n, false), fz, b, up, down);
    AroundIsMaximal(Marked(occ, b, n, false), fz, b, b - down, up + down);
    CellSum(up, down);
  }

  /** Cells [a, a + n) were taken from the start of a maximal free run. */
  ghost predicate Reused(occ: seq<bool>, occ': seq<bool>, fz: nat, fz': nat, a: nat, n: nat) {
    StartOfRun(occ, fz, a, n) && fz' == fz && occ' == Marked(occ, a, n, true)
  }

  /** They were taken at the frontier, perhaps after adding clear cells at the end. */
  ghost predicate Extended(occ: seq<bool>, occ': seq<bool>, fz: nat, fz': nat, a: nat, n: nat) {
    && a == fz && fz' == fz + n && fz' <= |occ'|
    && exists more: seq<bool> :: occ' == Marked(occ + more, a, n, true)
  }

  lemma PageBytes(p: nat)
    ensures p * PAGE_SIZE / BASE_SIZE / 8 == 8 * p && BASE_SIZE * (8 * (8 * p)) == p * PAGE_SIZE
  {
  }

  /** n payload bytes at address `lo` meet no size word: 8 bytes at the start of each block. */
  ghost predicate PayloadApart(lo: nat, n: nat, blocks: Blocks) {
    forall b :: b in blocks ==> lo + n <= BASE_SIZE * b || BASE_SIZE * b + 8 <= lo
  }

  lemma PayloadBehind(blocks: Blocks, fz: nat, a: nat, n: nat, size: nat)
    requires BlocksOk(blocks, fz) && a in blocks && blocks[a] == n && size + HEADER <= BASE_SIZE * n
    ensures PayloadApart(BASE_SIZE * a + HEADER, size, blocks)
  {
  }

  class Allocator {
    const checksum: Checksum
    const wait: nat
    var bitmap: seq<nat>
    var mem: seq<Cell>
    var freeZone: nat
    var freeLists: seq<seq<nat>>
    var dnaHead: nat
    var dnaTail: nat
    ghost var blocks: Blocks
    ghost var queue: seq<Waiting>
    ghost var clock: nat

    /** The bitmap, the memory and the frontier agree on what is free. */
    ghost predicate SpaceOk()
      reads this
    {
      Bytes(bitmap) && |freeLists| == NR_SIZES + 1 && Space(checksum, mem, Bits(bitmap), freeZone, blocks)
    }

    /** Every free run below the frontier is shorter than 4 GiB. */
    ghost predicate Short()
      reads this
    {
      RunsShort(Bits(bitmap), freeZone)
    }

    ghost predicate ListOk()
      reads this
    {
      && Chain(mem, dnaHead, dnaTail, queue)
      && QueueOk(queue, blocks, wait)
      && forall i :: 0 <= i < |queue| ==> queue[i].time <= clock
    }

    ghost predicate Valid()
      reads this
    {
      SpaceOk() && ListOk() && HeadersOk(checksum, mem, blocks, queue)
    }

    /** The blocks the client holds. */
    ghost function Live(): Blocks
      reads this
    {
      NotQueued(blocks, queue)
    }

    /** The heap as the run theorems see it. */
    ghost function State(): Heap
      reads this
    {
      Heap(blocks, queue, clock)
    }

    // ----- walking the bitmap -----

    /** isFreeForward: the free cells from a location up to the next block or the frontier. */
    method IsFreeForward(location: nat) returns (n: nat)
      requires freeZone <= 8 * |bitmap|
      ensures location >= freeZone ==> n == 0
      ensures location < freeZone ==> location + n <= freeZone && Clear(Bits(bitmap), location, location + n)
      ensures location + n < freeZone ==> Bits(bitmap)[location + n]
    {
      hide And, Bit, Pow2, At, Clear, Bits;
      AtStart(location);
      n := 0;
      var at: nat := location;
      var index: nat, mask: nat := location / 8, Pow2(location % 8);
      if location <= freeZone {
        ClearNone(Bits(bitmap), location);
      }
      while at < freeZone && And(bitmap[index], mask) == 0
        invariant At(at, index, mask) && index == at / 8 && at == location + n
        invariant location <= freeZone ==> at <= freeZone && Clear(Bits(bitmap), location, at)
        invariant location >= freeZone ==> n == 0
      {
        TestCell(bitmap, at, index, mask);
        ClearUp(Bits(bitmap), location, at);
        StepUp(at, index, mask);
        n := n + 1;
        at := at + 1;
        if mask == 128 {
          mask := 1;
          index := index + 1;
        } else {
          mask := 2 * mask;
        }
      }
      if at < freeZone {
        TestCell(bitmap, at, index, mask);
      }
    }

    /** isFreeBackward: the free cells just below a location at or below the frontier. */
    method IsFreeBackward(location: nat) returns (n: nat)
      requires freeZone <= 8 * |bitmap| < HEAP_CELLS
      ensures location > freeZone ==> n == 0
      ensures location <= freeZone ==> n <= location && Clear(Bits(bitmap), location - n, location)
      ensures location <= freeZone && n < location ==> Bits(bitmap)[location - n - 1]
    {
      hide And, Bit, Pow2, At, Clear, Bits;
      AtStart(location);
      n := 0;
      var index, mask: nat := Int32(location / 8), Pow2(location % 8);
      if location > freeZone {
        return;
      }
      IndexFits(location);
      StepDown(location, index, mask);
      ClearNone(Bits(bitmap), location);
      if mask == 1 {
        if index == 0 {
          return;
        }
        mask := 128;
        index := index - 1;
      } else {
        mask := mask / 2;
      }
      while index >= 0 && And(bitmap[index], mask) == 0
        invariant n < location && index == (location - n - 1) / 8 && At(location - n - 1, index, mask)
        invariant Clear(Bits(bitmap), location - n, location)
        decreases location - n
      {
        TestCell(bitmap, location - n - 1, index, mask);
        ClearDown(Bits(bitmap), location - n - 1, location);
        StepDown(location - n - 1, index, mask);
        n := n + 1;
        if mask == 1 {
          if index == 0 {
            return;
          }
          mask := 128;
          index := index - 1;
        } else {
          mask := mask / 2;
        }
      }
      TestCell(bitmap, location - n - 1, index, mask);
    }

    /** makeOne */
    method MakeOne(location: nat, size: nat)
      requires Bytes(bitmap) && location + size <= 8 * |bitmap|
      modifies this`bitmap
      ensures Bytes(bitmap) && |bitmap| == old(|bitmap|)
      ensures Bits(bitmap) == Marked(old(Bits(bitmap)), location, size, true)
    {
      hide And, Or, Bit, Pow2;
      ghost var before := Bits(bitmap);
      var index: nat, mask: nat := location / 8, Pow2(location % 8);
      var i: nat := 0;
      while i < size
        invariant i <= size && At(location + i, index, mask)
        invariant Bytes(bitmap) && |bitmap| == old(|bitmap|)
        invariant Bits(bitmap) == Marked(before, location, i, true)
      {
        WriteCell(bitmap, location + i, index, mask, true);
        StepUp(location + i, index, mask);
        MarkedStep(before, location, i, true);
        bitmap := bitmap[index := Or(bitmap[index], mask)];
        if mask == 128 {
          mask := 1;
          index := index + 1;
        } else {
          mask := 2 * mask;
        }
        i := i + 1;
      }
    }

    /** makeZero */
    method MakeZero(location: nat, size: nat)
      requires Bytes(bitmap) && location + size <= 8 * |bitmap|
      modifies this`bitmap
      ensures Bytes(bitmap) && |bitmap| == old(|bitmap|)
      ensures Bits(bitmap) == Marked(old(Bits(bitmap)), location, size, false)
    {
      hide And, Not, Bit, Pow2;
      ghost var before := Bits(bitmap);
      var index: nat, mask: nat := location / 8, Pow2(location % 8);
      var i: nat := 0;
      while i < size
        invariant i <= size && At(location + i, index, mask)
        invariant Bytes(bitmap) && |bitmap| == old(|bitmap|)
        invariant Bits(bitmap) == Marked(before, location, i, false)
      {
        WriteCell(bitmap, location + i, index, mask, false);
        StepUp(location + i, index, mask);
        MarkedStep(before, location, i, false);
        bitmap := bitmap[index := And(bitmap[index], Not(mask, 8))];
        if mask == 128 {
          mask := 1;
          index := index + 1;
        } else {
          mask := 2 * mask;
        }
        i := i + 1;
      }
    }

    // ----- more memory -----

    /** The page count of getMoreMemory: the default, or the least that holds the request. */
    method NewPages(size: nat) returns (newPages: nat)
      requires size <= UINT32 - PAGE_SIZE
      ensures newPages == PagesFor(size) && newPages * PAGE_SIZE < UINT32
      ensures newPages >= 1024 && size <= newPages * 4096 && (newPages == 1024 || (newPages - 1) * 4096 < size)
    {
      newPages := NEW_ALLOC_PAGES;
      while size > (newPages * PAGE_SIZE) % UINT32
        invariant newPages >= NEW_ALLOC_PAGES
        invariant newPages == NEW_ALLOC_PAGES || (newPages - 1) * PAGE_SIZE < size
        decreases UINT32 - newPages
      {
        newPages := newPages + 1;
      }
    }

    /** getMoreMemory. `granted` is the answer of the system, and `raw` what the new memory
        contains. */
    method GetMoreMemory(size: nat, granted: bool, raw: nat -> Cell) returns (ok: bool)
      requires SpaceOk() && size <= UINT32 - PAGE_SIZE
      requires granted ==> |mem| + 64 * PagesFor(size) < HEAP_CELLS
      modifies this`bitmap, this`mem
      ensures SpaceOk() && Kept(old(mem), mem, blocks)
      ensures ok == granted
      ensures !ok ==> mem == old(mem) && bitmap == old(bitmap)
      ensures ok ==> |mem| == |old(mem)| + 64 * PagesFor(size) && BASE_SIZE * (|mem| - |old(mem)|) >= size
      ensures ok ==> Bits(bitmap) == Bits(old(bitmap)) + seq(64 * PagesFor(size), i => false)
    {
      hide Bits, Space, Owned, PagesFor;
      var newPages := NewPages(size);
      PageBytes(newPages);
      if !granted {
        return false;
      }
      var bytes := newPages * PAGE_SIZE / BASE_SIZE / 8;
      ghost var occ := Bits(bitmap);
      var cells := seq(8 * bytes, raw);
      GrowSpace(checksum, mem, cells, occ, seq(8 * bytes, i => false), freeZone, blocks);
      BitsGrow(bitmap, seq(bytes, i => 0));
      mem := mem + cells;
      bitmap := bitmap + seq(bytes, i => 0);
      ok := true;
    }

    // ----- the hint lists -----

    /** One round of the popping loop of getFreeLocation: it measures the free run around the
        first hint in 32-bit byte counts, which is right exactly for runs below 4 GiB. */
    method PopHint(index: nat) returns (location: nat, freeSpace: nat, ghost start: nat, ghost length: nat)
      requires |freeLists| == NR_SIZES + 1 && index <= NR_SIZES && freeLists[index] != []
      requires freeZone <= 8 * |bitmap| < HEAP_CELLS
      modifies this`freeLists
      ensures freeLists == old(freeLists)[index := old(freeLists)[index][1..]]
      ensures RunAround(Bits(bitmap), freeZone, old(freeLists)[index][0], start, length)
      ensures location == start && freeSpace == length <==> length < RUN_CELLS
    {
      hide Bits, Clear, RunAround;
      location := freeLists[index][0];
      freeLists := freeLists[index := freeLists[index][1..]];
      freeSpace := IsFreeForward(location);
      var backSpace := IsFreeBackward(location);
      ClearNone(Bits(bitmap), freeZone);
      AroundHint(Bits(bitmap), freeZone, location, freeSpace, backSpace);
      start, length := location - backSpace, freeSpace + backSpace;
      CellSum(freeSpace, backSpace);
      freeSpace := (freeSpace % RUN_CELLS + backSpace % RUN_CELLS) % RUN_CELLS;
      location := location - backSpace % RUN_CELLS;
    }

    /** The header walk of getFreeLocation over a free run. Its error branches are dead: no
        header on the way is non-negative or fails its checksum, and it ends at the end. */
    method WalkRun(location: nat, freeSpace: nat, actualSize: nat) returns (exactFit: bool)
      requires 1 <= actualSize <= freeSpace && Tiled(checksum, mem, location, location + freeSpace)
      ensures exactFit <==> Tiled(checksum, mem, location, location + actualSize)
      ensures exactFit ==> Tiled(checksum, mem, location + actualSize, location + freeSpace)
    {
      hide Tiled, Tile, Encode, GetSize;
      var n, ptr: nat := freeSpace, location;
      exactFit := false;
      while n > 0
        invariant n <= freeSpace && ptr + n == location + freeSpace
        invariant Tiled(checksum, mem, ptr, ptr + n)
        invariant ptr < location + actualSize ==>
          && !exactFit
          && (Tiled(checksum, mem, location, location + actualSize)
              <==> Tiled(checksum, mem, ptr, location + actualSize))
        invariant ptr >= location + actualSize ==> (exactFit <==> Tiled(checksum, mem, location, location + actualSize))
        invariant exactFit ==> Tiled(checksum, mem, location + actualSize, location + freeSpace)
      {
        FirstTile(checksum, mem, ptr, ptr + n);
        var size := mem[ptr].hdr;
        if size >= 0 {
          assert false;
        }
        var crtSize := GetSize(-size);
        if Encode(checksum, ptr, crtSize) != -size {
          assert false;
        }
        var cells := crtSize / BASE_SIZE;
        WalkStep(checksum, mem, ptr, cells, location + actualSize);
        n := n - cells;
        ptr := ptr + cells;
        if freeSpace - n == actualSize {
          exactFit := true;
        }
      }
    }

    /** Cutting cells off the start of a free run: the rest keeps its own tiling when a header
        already starts there, and gets a header of its own otherwise, and it is hinted at. */
    method Carve(location: nat, freeSpace: nat, actualSize: nat)
      requires SpaceOk() && MaxRun(Bits(bitmap), freeZone, location, location + freeSpace)
      requires 1 <= actualSize <= freeSpace < RUN_CELLS
      modifies this`mem, this`freeLists
      ensures OnlyAt(old(mem), mem, location + actualSize)
      ensures Tiled(checksum, old(mem), location, location + actualSize) || freeSpace == actualSize ==> mem == old(mem)
      ensures Tiled(checksum, mem, location + actualSize, location + freeSpace)
      ensures |freeLists| == NR_SIZES + 1
      ensures freeSpace == actualSize ==> freeLists == old(freeLists)
      ensures freeSpace > actualSize ==>
                Appended(old(freeLists), freeLists, ListOf(freeSpace - actualSize), location + actualSize)
    {
      hide Space, Tiled, Encode, MaxRun, Bits;
      RunParts(checksum, mem, Bits(bitmap), freeZone, blocks, location, location + freeSpace);
      var exactFit := WalkRun(location, freeSpace, actualSize);
      EmptyTiling(checksum, mem, location + freeSpace);
      SpaceBound(checksum, mem, Bits(bitmap), freeZone, blocks);
      if freeSpace > actualSize {
        if !exactFit {
          NewTile(checksum, mem, location + actualSize, location + freeSpace);
          var word := Encode(checksum, location + actualSize, BASE_SIZE * (freeSpace - actualSize));
          mem := SetHdr(mem, location + actualSize, -(word as int));
        }
        var index := GetBestFit(BASE_SIZE * (freeSpace - actualSize));
        BestFitCells(freeSpace - actualSize);
        freeLists := Pushed(freeLists, index, location + actualSize);
      }
    }

    /** The nested hint loops of getFreeLocation, from the list of the request on. They end at the
        first hint with room, and give up only when there is none. */
    method SearchLists(first: nat, actualSize: nat) returns (freeLocation: Option<nat>, ghost end: nat)
      requires SpaceOk() && Short() && actualSize >= 1 && first == ListOf(actualSize)
      modifies this`mem, this`freeLists
      ensures |freeLists| == NR_SIZES + 1
      ensures freeLocation.None? ==>
                mem == old(mem) && NoHintLeft(Bits(bitmap), freeZone, old(freeLists), freeLists, actualSize)
      ensures freeLocation.Some? ==>
                var a := freeLocation.value;
                && HintFollowed(Bits(bitmap), freeZone, old(freeLists), freeLists, actualSize, a)
                && MaxRun(Bits(bitmap), freeZone, a, end) && actualSize <= end - a
                && OnlyAt(old(mem), mem, a + actualSize) && (a + actualSize == end ==> mem == old(mem))
                && Tiled(checksum, mem, a + actualSize, end)
    {
      hide Space, Tiled, MaxRun, Bits, RunAround, RunsShort, DroppedTo, TooSmallBefore, Appended, HintFollowed,
        NoHintLeft;
      SpaceBound(checksum, mem, Bits(bitmap), freeZone, blocks);
      ghost var occ, fz, lists, j: nat := Bits(bitmap), freeZone, freeLists, 0;
      var index := first;
      SearchStart(occ, fz, lists, first, actualSize);
      while index <= NR_SIZES
        invariant first <= index <= NR_SIZES + 1 && SpaceOk() && mem == old(mem)
        invariant DroppedTo(lists, freeLists, first, index, j)
        invariant TooSmallBefore(occ, fz, lists, first, actualSize, index, j)
        invariant index == NR_SIZES + 1 ==> j == 0
        decreases NR_SIZES + 1 - index, if index <= NR_SIZES then |freeLists[index]| else 0
      {
        if freeLists[index] == [] {
          SearchNextList(occ, fz, lists, freeLists, first, actualSize, index, j);
          index, j := index + 1, 0;
          continue;
        }
        SearchPop(occ, fz, lists, freeLists, first, actualSize, index, j);
        var location: nat, freeSpace: nat, start: nat, length: nat := PopHint(index);
        AroundFits(occ, fz, lists[index][j], start, length);
        while freeSpace < actualSize && freeLists[index] != []
          invariant SpaceOk() && mem == old(mem) && j < |lists[index]|
          invariant DroppedTo(lists, freeLists, first, index, j + 1)
          invariant TooSmallBefore(occ, fz, lists, first, actualSize, index, j)
          invariant RunAround(occ, fz, lists[index][j], location, freeSpace) && freeSpace < RUN_CELLS
          invariant |freeLists| == NR_SIZES + 1
          decreases |freeLists[index]|
        {
          SearchTooSmall(occ, fz, lists, first, actualSize, index, j, location, freeSpace);
          j := j + 1;
          SearchPop(occ, fz, lists, freeLists, first, actualSize, index, j);
          location, freeSpace, start, length := PopHint(index);
          AroundFits(occ, fz, lists[index][j], start, length);
        }
        if freeSpace >= actualSize {
          ghost var mid := freeLists;
          AroundIsMaximal(occ, fz, lists[index][j], location, freeSpace);
          Carve(location, freeSpace, actualSize);
          SearchFound(occ, fz, lists, mid, freeLists, actualSize, index, j, location, freeSpace);
          return Some(location), location + freeSpace;
        }
        SearchTooSmall(occ, fz, lists, first, actualSize, index, j, location, freeSpace);
        j := j + 1;
      }
      SearchFailed(occ, fz, lists, freeLists, actualSize);
      return None, 0;
    }

    /** getFreeLocation: the first cells of a hinted free run, or else cells at the frontier. */
    method GetFreeLocation(size: nat, granted: bool, raw: nat -> Cell) returns (freeLocation: Answer, actualSize: nat)
      requires SpaceOk() && Short() && 1 <= size <= UINT32 - BASE_SIZE
      requires granted ==> |mem| + 64 * PagesFor(BASE_SIZE * CellsFor(size)) < HEAP_CELLS
      modifies this`bitmap, this`mem, this`freeZone, this`freeLists, this`blocks
      ensures actualSize == CellsFor(size) && SpaceOk() && Short() && Kept(old(mem), mem, old(blocks))
      ensures !freeLocation.Got? ==> old(freeZone) + actualSize > |old(mem)|
      ensures !freeLocation.Got? ==>
                NoHintLeft(old(Bits(bitmap)), old(freeZone), old(freeLists), freeLists, actualSize)
      ensures !freeLocation.Got? ==>
                mem == old(mem) && bitmap == old(bitmap) && freeZone == old(freeZone) && blocks == old(blocks)
      ensures freeLocation.Null? ==> !granted
      ensures freeLocation.Endless? ==> size > UINT32 - PAGE_SIZE
      ensures freeLocation.Got? ==>
                var a := freeLocation.value;
                && a !in old(blocks) && a + actualSize <= freeZone && blocks == old(blocks)[a := actualSize]
                && (Reused(old(Bits(bitmap)), Bits(bitmap), old(freeZone), freeZone, a, actualSize)
                    || Extended(old(Bits(bitmap)), Bits(bitmap), old(freeZone), freeZone, a, actualSize))
                && Searched(old(Bits(bitmap)), old(freeZone), old(freeLists), freeLists, actualSize, a)
                && Sized(|old(mem)|, |mem|, a == old(freeZone) && a + actualSize > |old(mem)|, actualSize)
    {
      hide Space, Tiled, MaxRun, Bits, ActualSize, CellsFor, GetBestFit, Owned, Marked, PagesFor, RunsShort, ListOf,
        HintFollowed, NoHintLeft;
      BestFitBounds(size);
      BestFitList(size);
      ActualSizeExact(size);
      CellsForBounds(size);
      SpaceBound(checksum, mem, Bits(bitmap), freeZone, blocks);
      actualSize := ActualSize(size) / BASE_SIZE;
      ghost var m0, occ := mem, Bits(bitmap);
      var found, end := SearchLists(GetBestFit(size), actualSize);
      if found.Some? {
        var a := found.value;
        TakeFromRun(checksum, m0, mem, Bits(bitmap), freeZone, blocks, a, end, actualSize);
        RunInside(Bits(bitmap), freeZone, a, end);
        ShortAfterTake(occ, freeZone, a, end, actualSize);
        blocks := blocks[a := actualSize];
        freeLocation := Got(a);
      } else {
        if freeZone + actualSize > |mem| {
          if BASE_SIZE * actualSize > UINT32 - PAGE_SIZE {
            return Endless, actualSize;
          }
          var ok := GetMoreMemory(BASE_SIZE * actualSize, granted, raw);
          if !ok {
            return Null, actualSize;
          }
        } else {
          assert Bits(bitmap) == occ + [];
        }
        SpaceBound(checksum, mem, Bits(bitmap), freeZone, blocks);
        ShortGrown(checksum, m0, occ, Bits(bitmap), freeZone, blocks, actualSize);
        TakeFromFrontier(checksum, mem, Bits(bitmap), freeZone, blocks, actualSize);
        freeLocation := Got(freeZone);
        blocks := blocks[freeZone := actualSize];
        freeZone := freeZone + actualSize;
      }
      MakeOne(freeLocation.value, actualSize);
    }

    // ----- returning cells -----

    /** extendFreeLocation: clears a block and measures the free run [a, e) around it, in
        32-bit byte counts. */
    method ExtendFreeLocation(location: nat, size: nat)
      returns (sizeForward: nat, totalSize: nat, ghost a: nat, ghost e: nat)
      requires Bytes(bitmap) && size >= 1 && location + size <= freeZone <= 8 * |bitmap| < HEAP_CELLS
      modifies this`bitmap
      ensures Bytes(bitmap) && |bitmap| == old(|bitmap|)
      ensures Bits(bitmap) == Marked(old(Bits(bitmap)), location, size, false)
      ensures a <= location && location + size <= e && MaxRun(Bits(bitmap), freeZone, a, e)
      ensures sizeForward == (e - location) % RUN_CELLS && totalSize == (e - a) % RUN_CELLS
    {
      hide Bits, Clear, Marked, RunAround, MaxRun;
      MakeZero(location, size);
      var forward := IsFreeForward(location);
      sizeForward := forward % RUN_CELLS;
      var n := IsFreeBackward(location);
      totalSize := (sizeForward + n % RUN_CELLS) % RUN_CELLS;
      a, e := location - n, location + forward;
      Measured(old(Bits(bitmap)), freeZone, location, size, forward, n);
    }

    /** insertFreeLocation: lowers the frontier over the run, or writes a header for its
        forward part and hints at it. */
    method InsertFreeLocation(location: nat, sizeForward: nat, totalSize: nat)
      requires |freeLists| == NR_SIZES + 1 && location < |mem| && totalSize <= location + sizeForward
      modifies this`mem, this`freeZone, this`freeLists
      ensures |freeLists| == NR_SIZES + 1
      ensures (mem, freeZone) == Inserted(checksum, old(mem), old(freeZone), location, sizeForward, totalSize)
      ensures |mem| == |old(mem)|
      ensures old(freeZone) <= location + sizeForward && location < old(freeZone) ==> freeLists == old(freeLists)
      ensures !(old(freeZone) <= location + sizeForward && location < old(freeZone)) ==>
                HintsAdded(old(freeLists), freeLists, location + sizeForward - totalSize, totalSize, location,
                           sizeForward)
    {
      hide Encode, GetBestFit;
      if location + sizeForward >= freeZone && location < freeZone {
        freeZone := location + sizeForward - totalSize;
        mem := SetHdr(mem, location, 0);
        return;
      }
      mem := SetHdr(mem, location, -(Encode(checksum, location, BASE_SIZE * sizeForward) as int));
      var index := GetBestFit(BASE_SIZE * totalSize);
      freeLists := Pushed(freeLists, index, location + sizeForward - totalSize);
      if sizeForward != totalSize {
        index := GetBestFit(BASE_SIZE * sizeForward);
        freeLists := Pushed(freeLists, index, location);
      }
    }

    /** What incrementTime does with the head of the queue. */
    method Release()
      requires Valid() && queue != []
      modifies this`bitmap, this`mem, this`freeZone, this`freeLists, this`blocks, this`queue, this`dnaHead, this`dnaTail
      ensures ListOk() && HeadersOk(checksum, mem, blocks, queue) && Kept(old(mem), mem, blocks)
      ensures |mem| == |old(mem)|
      ensures blocks == old(blocks) - {old(queue)[0].start} && queue == old(queue)[1..]
      ensures old(queue)[0].start in old(blocks)
      ensures var b := old(queue)[0].start;
        && (SpaceOk() <==> Heals(checksum, old(mem), old(Bits(bitmap)), old(freeZone), b, old(blocks)[b]))
        && (old(Short()) ==>
              (SpaceOk() && Short() <==> RunFits(old(Bits(bitmap)), old(freeZone), b, old(blocks)[b])))
        && Bits(bitmap) == Marked(old(Bits(bitmap)), b, old(blocks)[b], false)
        && (RunFits(old(Bits(bitmap)), old(freeZone), b, old(blocks)[b]) ==>
              Settled(old(Bits(bitmap)), old(freeZone), b, old(blocks)[b], old(freeLists), freeLists, old(freeZone),
                      freeZone))
    {
      hide Space, Chain, QueueOk, HeadersOk, Bits, MaxRun, Marked, Encode, BlockWord, Owned, Kept, BlocksOk, GetSize,
        Inserted, RunFits, Heals, RunsShort, Settled, HintsAdded;
      ghost var k, m0, occ, fz, all, hints := checksum, mem, Bits(bitmap), freeZone, blocks, freeLists;
      SpaceBound(k, m0, occ, fz, all);
      LeaveQueue(k, m0, all, dnaHead, dnaTail, queue, wait);
      BlockSize(k, m0, occ, fz, all, dnaHead);
      var location := dnaHead;
      if dnaHead == dnaTail {
        dnaHead, dnaTail := NIL, NIL;
      } else {
        dnaHead := mem[location].next;
      }
      var size := GetSize(-mem[location].hdr);
      if mem[location].hdr != -(Encode(checksum, location, size) as int) {
        assert false;
      }
      size := size - 1;
      var sizeForward, totalSize, a, e := ExtendFreeLocation(location, size / BASE_SIZE);
      Returned(k, m0, occ, fz, all, location, a, e);
      InsertFreeLocation(location, sizeForward, totalSize);
      RunInside(Marked(occ, location, all[location], false), fz, a, e);
      ReleaseSettles(k, m0, occ, fz, location, all[location], a, e, hints, freeLists, freeZone);
      blocks := blocks - {location};
      queue := queue[1..];
      FewerBlocks(all, fz, location);
      KeptChain(m0, mem, blocks, fz, dnaHead, dnaTail, queue, wait);
      KeptHeaders(k, m0, mem, blocks, fz, queue);
    }

    /** incrementTime, with the clock reading as a parameter. */
    method IncrementTime(now: nat)
      requires Valid() && clock <= now
      modifies this`bitmap, this`mem, this`freeZone, this`freeLists, this`blocks, this`queue, this`dnaHead,
          this`dnaTail, this`clock
      ensures Valid() <==> DueHeals(checksum, old(mem), old(Bits(bitmap)), old(freeZone), old(State()), wait, now)
      ensures old(Short()) ==>
                (Valid() && Short() <==> DueFits(old(Bits(bitmap)), old(freeZone), old(State()), wait, now))
      ensures Bits(bitmap) == DueMarks(old(Bits(bitmap)), old(State()), wait, now)
      ensures DueSettled(old(Bits(bitmap)), old(freeZone), old(State()), wait, now, old(freeLists), freeLists,
                         old(freeZone), freeZone)
      ensures Kept(old(mem), mem, blocks) && |mem| == |old(mem)|
      ensures State() == Tick(old(State()), wait, now)
      ensures if old(queue) != [] && now >= old(queue)[0].time + wait
              then queue == old(queue)[1..] && blocks == old(blocks) - {old(queue)[0].start}
              else queue == old(queue) && blocks == old(blocks) && mem == old(mem)
      ensures Live() == old(Live())
    {
      hide Space, QueueOk, HeadersOk, Bits, Kept, NotQueued, RunFits, Heals, RunsShort, Settled;
      TickLive(State(), wait, now);
      NilIsNoCell(checksum, mem, Bits(bitmap), freeZone, blocks, queue, wait, dnaHead, dnaTail);
      KeptSelf(mem, blocks);
      if dnaHead == NIL {
        clock := now;
        return;
      }
      if now >= (mem[dnaHead].time + wait) % UINT64 {
        Release();
      }
      clock := now;
    }

    /** putInDNAList, with the clock reading as a parameter. */
    method PutInDNAList(location: nat, size: nat, stamp: nat)
      requires Valid() && location in blocks && !Queued(queue, location) && size == blocks[location]
      requires clock <= stamp && stamp + wait < UINT64
      modifies this`mem, this`queue, this`dnaHead, this`dnaTail, this`clock
      ensures Valid() && Kept(old(mem), mem, old(Live()) - {location})
      ensures queue == old(queue) + [Waiting(location, stamp)] && clock == stamp
      ensures |mem| == |old(mem)| && forall c :: 0 <= c < |mem| && c != location ==> mem[c].hdr == old(mem)[c].hdr
      ensures Live() == old(Live()) - {location}
    {
      hide Space, Chain, QueueOk, HeadersOk, Bits, Encode, BlockWord, Owned, Kept, BlocksOk, GetSize;
      ghost var k, m0 := checksum, mem;
      SpaceBound(k, mem, Bits(bitmap), freeZone, blocks);
      HeaderInMemory(k, mem, blocks, queue, location);
      BlockSize(k, mem, Bits(bitmap), freeZone, blocks, location);
      JoinLive(blocks, queue, location, stamp);
      JoinQueue(k, mem, blocks, dnaHead, dnaTail, queue, wait, location, stamp);
      Joined(k, mem, Bits(bitmap), freeZone, blocks, queue, wait, dnaHead, dnaTail, location, stamp);
      if mem[location].hdr != Encode(checksum, location, BASE_SIZE * size) {
        assert false;
      }
      mem := SetHdr(mem, location, -(Encode(checksum, location, BASE_SIZE * size + 1) as int));
      mem := SetTime(mem, location, stamp);
      if dnaTail == NIL {
        dnaHead, dnaTail := location, location;
      } else {
        mem := SetNext(mem, dnaTail, location);
        dnaTail := location;
      }
      queue := queue + [Waiting(location, stamp)];
      clock := stamp;
    }

    // ----- the interface -----

    /** nvmalloc_init. The byte count is a 32-bit product, like the one for the bitmap. */
    constructor (checksum: Checksum, nrPages: nat, freeWait: nat, raw: nat -> Cell)
      ensures Valid() && Short() && State() == Heap(map[], [], 0) && Live() == map[]
      ensures freeZone == 0 && forall i :: 0 <= i <= NR_SIZES ==> freeLists[i] == []
      ensures this.checksum == checksum && wait == freeWait && BASE_SIZE * |mem| == (nrPages * PAGE_SIZE) % UINT32
    {
      var bytes := (nrPages * PAGE_SIZE) % UINT32 / BASE_SIZE / 8;
      InitBytes(nrPages);
      this.checksum := checksum;
      this.wait := freeWait;
      this.mem := seq(8 * bytes, raw);
      this.freeZone := 0;
      this.dnaHead, this.dnaTail := NIL, NIL;
      this.bitmap := seq(bytes, i => 0);
      this.freeLists := seq(NR_SIZES + 1, i => []);
      this.blocks, this.queue, this.clock := map[], [], 0;
      new;
      ZeroBits(bitmap);
    }

    /** nvmalloc, with the clock reading of incrementTime, the answer of the system and the
        contents of any memory it adds as parameters. */
    method Malloc(size: nat, now: nat, granted: bool, raw: nat -> Cell) returns (r: Answer)
      requires Valid() && Short() && size + HEADER <= UINT32 - BASE_SIZE && clock <= now
      requires granted ==> |mem| + 64 * PagesFor(BASE_SIZE * CellsFor(size + HEADER)) < HEAP_CELLS
      modifies this
      ensures Kept(old(mem), mem, old(Live()))
      // No block: no hint has room, the hints and the memory are used up, and nothing else has changed.
      ensures !r.Got? ==> Valid() && Short() && State() == old(State()) && Live() == old(Live())
      ensures !r.Got? ==> mem == old(mem) && bitmap == old(bitmap) && freeZone == old(freeZone)
      ensures !r.Got? ==>
                var n := CellsFor(size + HEADER);
                n >= 1 && freeZone + n > |mem| && NoHintLeft(Bits(bitmap), freeZone, old(freeLists), freeLists, n)
      ensures r.Null? ==> !granted
      ensures r.Endless? ==> size + HEADER > UINT32 - PAGE_SIZE
      // A block apart from all others.
      ensures r.Got? ==>
                var a, n := r.value / BASE_SIZE, CellsFor(size + HEADER);
                && n >= 1 && (a == old(freeZone) || StartOfRun(old(Bits(bitmap)), old(freeZone), a, n))
                && r.value == BASE_SIZE * a + 8 && size + 8 <= BASE_SIZE * n
                && PayloadApart(r.value, size, old(blocks)[a := n])
                && Sized(|old(mem)|, |mem|, a == old(freeZone) && a + n > |old(mem)|, n)
                && Live() == old(Live())[a := n]
                && Next(wait, old(State()), Step.Malloc(a, n, now), State())
                && (Valid() && Short() <==>
                    DueFits(Marked(old(Bits(bitmap)), a, n, true), old(freeZone), old(State()), wait, now))
      // Where it comes from, and what the search and then the release leave of the hints.
      ensures r.Got? ==>
                var a, n := r.value / BASE_SIZE, CellsFor(size + HEADER);
                && n >= 1
                && SearchedAndSettled(old(Bits(bitmap)), old(freeZone), old(State()), wait, now, a, n, old(freeLists),
                                      freeLists, freeZone)
    {
      hide Space, Chain, QueueOk, HeadersOk, Bits, Encode, Owned, Kept, BlocksOk, NotQueued, NoHintLeft, StartOfRun,
        Tick, Apart, CellsFor, GetBestFit, PagesFor, Marked, DueFits, DueHeals, RunsShort, Reused, Extended, Searched,
        DueSettled, SearchedAndSettled, DueMarks, PayloadApart, Bytes, Sized;
      ghost var m0, all, fz, occ, h, lists := mem, blocks, freeZone, Bits(bitmap), State(), freeLists;
      SpaceBound(checksum, mem, Bits(bitmap), freeZone, blocks);
      KeptSelf(mem, Live());
      CellsForBounds(size + HEADER);
      var freeLocation, actualSize := GetFreeLocation(size + HEADER, granted, raw);
      if !freeLocation.Got? {
        return freeLocation;
      }
      var location := freeLocation.value;
      NewBlock(checksum, m0, mem, Bits(bitmap), freeZone, all, fz, queue, dnaHead, dnaTail, wait, location, actualSize);
      SameDue(occ, Bits(bitmap), fz, freeZone, h, wait, now, location, actualSize);
      SpaceBound(checksum, mem, Bits(bitmap), freeZone, blocks);
      PayloadBehind(blocks, freeZone, location, actualSize, size);
      mem := SetHdr(mem, location, Encode(checksum, location, BASE_SIZE * actualSize));
      ghost var m2, occ2, fz2, hints := mem, Bits(bitmap), freeZone, freeLists;
      IncrementTime(now);
      SameSettling(occ, occ2, fz, fz2, h, wait, now, location, actualSize, lists, hints, freeLists, freeZone);
      HeldKept(m0, m2, mem, all, old(queue), blocks, queue, location, actualSize);
      return Got(BASE_SIZE * location + HEADER);
    }

    /** nvfree, with the two clock readings as parameters. Its error exits are dead. */
    method Free(addr: nat, stamp: nat, now: nat)
      requires Valid() && addr % BASE_SIZE == HEADER && addr / BASE_SIZE in Live()
      requires clock <= stamp <= now && stamp + wait < UINT64
      modifies this
      ensures Kept(old(mem), mem, Live())
      ensures Live() == old(Live()) - {addr / BASE_SIZE}
      ensures Next(wait, old(State()), Step.Free(addr / BASE_SIZE, stamp, now), State())
      ensures var queue' := old(queue) + [Waiting(addr / BASE_SIZE, stamp)];
        var h := Heap(old(blocks), queue', stamp);
        && (Valid() <==> DueHeals(checksum, old(mem), old(Bits(bitmap)), old(freeZone), h, wait, now))
        && (old(Short()) ==> (Valid() && Short() <==> DueFits(old(Bits(bitmap)), old(freeZone), h, wait, now)))
        && Bits(bitmap) == DueMarks(old(Bits(bitmap)), h, wait, now)
        && DueSettled(old(Bits(bitmap)), old(freeZone), h, wait, now, old(freeLists), freeLists, old(freeZone),
                      freeZone)
    {
      hide Space, Chain, QueueOk, HeadersOk, Bits, Encode, Owned, Kept, BlocksOk, BlockWord, GetSize, NotQueued, Tick,
        DueFits, DueHeals, RunsShort, DueSettled, DueMarks;
      ghost var m0, k := mem, checksum;
      var location := (addr - HEADER) / BASE_SIZE;
      LiveAmong(blocks, queue);
      SpaceBound(k, mem, Bits(bitmap), freeZone, blocks);
      HeaderInMemory(k, mem, blocks, queue, location);
      BlockSize(k, mem, Bits(bitmap), freeZone, blocks, location);
      if mem[location].hdr <= 0 {
        assert false;
      }
      var size := GetSize(mem[location].hdr);
      if Encode(checksum, location, size) != mem[location].hdr {
        assert false;
      }
      PutInDNAList(location, size / BASE_SIZE, stamp);
      ghost var m1, h := mem, State();
      LiveAmong(blocks, queue);
      KeptFewer(m0, m1, old(Live()) - {location}, Live());
      SameHealing(k, m0, m1, Bits(bitmap), freeZone, h, wait, now, location);
      IncrementTime(now);
      TickClock(h, wait, now);
      LiveAmong(blocks, queue);
      LiveKept(m0, m1, mem, Live(), Live(), blocks);
    }

    /** A write of the client into a block it holds: anything but the block's size word. */
    method Write(b: nat, c: nat, v: Cell)
      requires Valid() && b in Live() && b <= c < b + Live()[b]
      requires c < |mem| && (c == b ==> v.hdr == mem[c].hdr)
      modifies this`mem
      ensures Valid() && mem == old(mem)[c := v] && (old(Short()) ==> Short())
    {
      hide Space, Chain, QueueOk, Bits, Owned, HeadersOk;
      LiveAmong(blocks, queue);
      ClientWrite(checksum, mem, Bits(bitmap), freeZone, blocks, queue, dnaHead, dnaTail, wait, b, c, v);
      mem := mem[c := v];
    }
  }
}
