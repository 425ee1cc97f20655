/** realloc over the buddy allocator: allocate, copy, free. */
module Zalloc {
  import opened Powers
  import opened Sizing
  import opened BuddyTree
  import opened BuddyArray
  import opened BuddySearch
  import opened Buddy

  function Min(x: nat, y: nat): nat {
    if x < y then x else y
  }

  /** The bytes of the block at page `b`. */
  predicate InBlock(live: map<nat, Entry>, b: nat, a: nat) {
    b in live && PAGE_SIZE * b <= a < PAGE_SIZE * (b + live[b].pages)
  }

  type Memory = nat -> bv8

  ghost predicate SameBytes(m: Memory, dst: nat, m': Memory, src: nat, n: nat) {
    forall a: nat :: dst <= a < dst + n ==> m(a) == m'(src + (a - dst))
  }

  /** Every byte of every block in `live` is the same in both memories. */
  ghost predicate KeepsBlocks(live: map<nat, Entry>, m: Memory, m': Memory) {
    forall b: nat, a: nat :: InBlock(live, b, a) ==> m'(a) == m(a)
  }

  /** No byte of a live block lies in [lo, hi). */
  ghost predicate Untouched(live: map<nat, Entry>, lo: nat, hi: nat) {
    forall b: nat, a: nat :: InBlock(live, b, a) ==> !(lo <= a < hi)
  }

  predicate Apart(dst: nat, src: nat, n: nat) {
    dst + n <= src || src + n <= dst
  }

  /** What memcpy(dst, src, n) may make of m: for ranges that overlap nothing is known of the
      bytes written. */
  ghost predicate MayCopy(m: Memory, m': Memory, dst: nat, src: nat, n: nat) {
    && (forall a: nat :: !(dst <= a < dst + n) ==> m'(a) == m(a))
    && (Apart(dst, src, n) ==> SameBytes(m', dst, m, src, n))
  }

  /** Copying len bytes into n free pages, for all contents of memory: every live block is kept
      if and only if none of them has a byte where the copy runs over the end of the pages. */
  lemma CopyKeepsBlocks(live: map<nat, Entry>, o: nat, n: nat, src: nat, len: nat)
    requires FreeRun(live, o, n)
    ensures (forall m: Memory, m': Memory :: MayCopy(m, m', PAGE_SIZE * o, src, len) ==> KeepsBlocks(live, m, m'))
       <==> Untouched(live, PAGE_SIZE * (o + n), PAGE_SIZE * o + len)
  {
    var dst, end := PAGE_SIZE * o, PAGE_SIZE * (o + n);
    if Untouched(live, end, dst + len) {
      forall m: Memory, m': Memory | MayCopy(m, m', dst, src, len)
        ensures KeepsBlocks(live, m, m')
      {
        CopyKeeps(live, m, m', o, n, src, len);
      }
    } else {
      var b: nat, a: nat :| InBlock(live, b, a) && end <= a < dst + len;
      var m: Memory := (x: nat) => if x == a then 1 else 0;
      var m': Memory := (x: nat) => 0;
      assert MayCopy(m, m', dst, src, len);
      assert !KeepsBlocks(live, m, m');
    }
  }

  lemma CopyKeeps(live: map<nat, Entry>, m: Memory, m': Memory, o: nat, n: nat, src: nat, len: nat)
    requires FreeRun(live, o, n) && Untouched(live, PAGE_SIZE * (o + n), PAGE_SIZE * o + len)
    requires MayCopy(m, m', PAGE_SIZE * o, src, len)
    ensures KeepsBlocks(live, m, m')
  {
    forall b: nat, a: nat | InBlock(live, b, a)
      ensures !(PAGE_SIZE * o <= a < PAGE_SIZE * o + len)
    {
      assert PAGE_SIZE * o <= a < PAGE_SIZE * o + len ==> a >= PAGE_SIZE * (o + n);
    }
  }

  /** The two ranges of realloc are apart when each block holds what it was asked for. */
  lemma CopyIsApart(live: map<nat, Entry>, p: nat, o: nat, n: nat, len: nat)
    requires p in live && live[p].pages > 0 && n > 0 && FreeRun(live, o, n)
    requires len <= PAGE_SIZE * n && len <= PAGE_SIZE * live[p].pages
    ensures Apart(PAGE_SIZE * o, PAGE_SIZE * p, len)
  {
  }

  /** A layout of an arena of `total` pages in which the n pages from o on are free. */
  ghost predicate RoomAt(live: map<nat, Entry>, total: nat, o: nat, n: nat) {
    Disjoint(live) && Within(live, 0, total) && FreeRun(live, o, n)
  }

  /** In no such layout has a live block a byte between the end of the n pages and `end`. */
  ghost predicate NeverHarms(total: nat, o: nat, n: nat, end: nat) {
    forall live :: RoomAt(live, total, o, n) ==> Untouched(live, PAGE_SIZE * (o + n), end)
  }

  /** The copy of realloc, up to the end of the request or of the old content, whichever comes
      first, runs over no block, however the rest of the arena is laid out, if and only if the
      request was not rounded down, the old content fits all the same, or the new block is the
      last of the arena. */
  lemma CopyStaysInside(size: nat, old_: nat, total: nat, o: nat)
    requires size <= Pow2(44) && o + BlockPages(size) <= total
    ensures NeverHarms(total, o, BlockPages(size), PAGE_SIZE * o + size)
         || NeverHarms(total, o, BlockPages(size), PAGE_SIZE * o + old_)
       <==> !RoundedOntoPow2(size) || old_ <= PAGE_SIZE * BlockPages(size) || o + BlockPages(size) == total
  {
    hide BlockPages, RoundedOntoPow2, Pow2;
    BlockCoversRequest(size);
    var n := BlockPages(size);
    if size > PAGE_SIZE * n && old_ > PAGE_SIZE * n && o + n < total {
      var live := map[o + n := Entry(1, 0)];
      assert RoomAt(live, total, o, n);
      assert InBlock(live, o + n, PAGE_SIZE * (o + n));
      assert !Untouched(live, PAGE_SIZE * (o + n), PAGE_SIZE * o + size);
      assert !Untouched(live, PAGE_SIZE * (o + n), PAGE_SIZE * o + old_);
    }
  }

  const MIB16: nat := 0x100_0000

  /** The page after a block of 16 MiB, and a block elsewhere whose content is larger. */
  function Neighbour(): map<nat, Entry> {
    map[0x2000 := Entry(0x2000, 0x200_0000), 0x1000 := Entry(1, 1)]
  }

  /** Reallocating to 16 MiB and one byte can overwrite a live block: the new block has
      16 MiB, and its neighbour's first byte takes the byte copied last. */
  lemma NeighbourOverwritten(m: Memory, m': Memory)
    requires m(PAGE_SIZE * 0x1000) != m(PAGE_SIZE * 0x2000 + MIB16)
    requires MayCopy(m, m', 0, PAGE_SIZE * 0x2000, MIB16 + 1)
    ensures MIB16 + 1 <= Neighbour()[0x2000].bytes
    ensures LowestFit(Neighbour(), 0, BlockPages(MIB16 + 1), 0x4000)
    ensures InBlock(Neighbour(), 0x1000, PAGE_SIZE * 0x1000)
    ensures m'(PAGE_SIZE * 0x1000) != m(PAGE_SIZE * 0x1000) && !KeepsBlocks(Neighbour(), m, m')
  {
    hide BlockPages;
    RoundingWitness();
    var live := Neighbour();
    assert live[0x2000] == Entry(0x2000, 0x200_0000) && live[0x1000] == Entry(1, 1);
    assert InBlock(live, 0x1000, PAGE_SIZE * 0x1000);
  }

  lemma RetireThenAdd(live: map<nat, Entry>, p: nat, o: nat, e: Entry)
    requires p in live && live[p].pages > 0 && e.pages > 0 && FreeRun(live, o, e.pages)
    ensures o != p && p in live[o := e] && live[o := e][p] == live[p]
    ensures live[o := e] - {p} == (live - {p})[o := e]
  {
  }

  /** The arena the buddy tree manages, byte by byte; addresses are offsets into it. */
  class Arena {
    const buddy: Buddy
    var mem: Memory

    constructor (buddy: Buddy, mem: nat -> bv8)
      ensures this.buddy == buddy && this.mem == mem
    {
      this.buddy := buddy;
      this.mem := mem;
    }

    method Memcpy(dst: nat, src: nat, n: nat)
      modifies this
      ensures MayCopy(old(mem), mem, dst, src, n)
    {
      var was := mem;
      mem := (a: nat) => was(if dst <= a < dst + n then src + (a - dst) else a);
    }

    method Realloc(ptr: Option<nat>, size: nat) returns (r: Option<nat>)
      requires buddy.Valid()
      requires ptr.Some? ==> ptr.value % PAGE_SIZE == 0 && ptr.value / PAGE_SIZE in buddy.Live()
      modifies this, buddy`shape, buddy.tree
      ensures buddy.Valid()
      // Failure: no place for the block, and nothing has changed.
      ensures r.None? ==> NoFit(old(buddy.Live()), BlockPages(size), Pow2(buddy.level))
      ensures r.None? ==> mem == old(mem) && buddy.tree[..] == old(buddy.tree[..]) && buddy.Live() == old(buddy.Live())
      // Success: a new block in free pages, and only the old block retired.
      ensures r.Some? ==> var o := r.value / PAGE_SIZE;
        && r.value == PAGE_SIZE * o
        && LowestFit(old(buddy.Live()), o, BlockPages(size), Pow2(buddy.level))
        && buddy.Live() == (if ptr.Some? then old(buddy.Live()) - {ptr.value / PAGE_SIZE} else old(buddy.Live()))
                           [o := Entry(BlockPages(size), size)]
      // Bytes are written only where both the request and the old content have one.
      ensures r.Some? && ptr.None? ==> mem == old(mem)
      ensures r.Some? && ptr.Some? ==>
        var was := old(buddy.Live())[ptr.value / PAGE_SIZE].bytes;
        forall a: nat :: !(r.value <= a < r.value + size && a < r.value + was) ==> mem(a) == old(mem)(a)
      // There the content moves along, unless the ranges overlap (see CopyIsApart).
      ensures r.Some? && ptr.Some? ==>
        var was := old(buddy.Live())[ptr.value / PAGE_SIZE].bytes;
        Apart(r.value, ptr.value, size) || Apart(r.value, ptr.value, was) ==>
          forall a: nat :: r.value <= a < r.value + size && a < r.value + was ==>
            mem(a) == old(mem)(ptr.value + (a - r.value))
      // No live block is overwritten, unless the copy runs over the end of the new block into one.
      ensures r.Some? && ptr.Some? ==>
        var live, end := old(buddy.Live()), r.value + PAGE_SIZE * BlockPages(size);
        var was := live[ptr.value / PAGE_SIZE].bytes;
        Untouched(live, end, r.value + size) || Untouched(live, end, r.value + was) ==>
          KeepsBlocks(live, old(mem), mem)
    {
      ghost var live := buddy.Live();
      BlocksWithin(buddy.shape, buddy.level, 0);
      r := buddy.Alloc(size);
      if r.Some? {
        ghost var o := r.value / PAGE_SIZE;
        if ptr.Some? {
          ghost var p := ptr.value / PAGE_SIZE;
          RetireThenAdd(live, p, o, Entry(BlockPages(size), size));
          hide Blocks, BlockPages, Pow2, Repr, Canonical, LowestFit, SameBytes, KeepsBlocks, FreeRun, Untouched,
            Apart;
          var oldSize := buddy.UsedSize(ptr.value);
          ghost var n, len := BlockPages(size), Min(size, oldSize);
          ghost var was := mem;
          Memcpy(r.value, ptr.value, Min(size, oldSize));
          if Untouched(live, PAGE_SIZE * (o + n), PAGE_SIZE * o + len) {
            CopyKeeps(live, was, mem, o, n, ptr.value, len);
          }
          buddy.Free(ptr.value);
        }
      }
    }
  }
}
