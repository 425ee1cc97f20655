/** What every operation of nvmalloc relies on and keeps: the bitmap, the headers inside the
    memory, the frontier and the in-place queue of blocks that may not be handed out yet.
    Nothing is assumed about the hint lists. */
module NvInv {
  import opened NvHeader
  import opened NvHeap

  /** A block in the don't-allocate list, with the time it was put there. */
  datatype Waiting = Waiting(start: nat, time: nat)

  ghost predicate Frontier(occ: seq<bool>, fz: nat) {
    fz <= |occ| && (fz == 0 || occ[fz - 1])
  }

  /** Bitmap, headers and frontier agree: the bitmap marks exactly the blocks, and the rest
      below the frontier is tiled. */
  ghost predicate Space(k: Checksum, mem: seq<Cell>, occ: seq<bool>, fz: nat, blocks: Blocks) {
    && |occ| == |mem|
    && |mem| < HEAP_CELLS
    && Frontier(occ, fz)
    && BlocksOk(blocks, fz)
    && BitsOk(occ, blocks)
    && RunsTiled(k, mem, occ, fz)
  }

  ghost predicate Queued(q: seq<Waiting>, b: nat) {
    exists i :: 0 <= i < |q| && q[i].start == b
  }

  /** The size word of block `b`: negative, and one more than the size, while it waits. */
  function BlockWord(k: Checksum, b: nat, n: nat, waiting: bool): int {
    if waiting then -(Encode(k, b, BASE_SIZE * n + 1) as int) else Encode(k, b, BASE_SIZE * n)
  }

  ghost predicate HeadersOk(k: Checksum, mem: seq<Cell>, blocks: Blocks, q: seq<Waiting>) {
    forall b :: b in blocks ==> b < |mem| && mem[b].hdr == BlockWord(k, b, blocks[b], Queued(q, b))
  }

  /** The list threaded through the waiting blocks, from head to tail. */
  ghost predicate Chain(mem: seq<Cell>, head: nat, tail: nat, q: seq<Waiting>) {
    && (q == [] ==> head == NIL && tail == NIL)
    && (q != [] ==> head == q[0].start && tail == q[|q| - 1].start)
    && (forall i :: 0 <= i < |q| ==> q[i].start < |mem| && mem[q[i].start].time == q[i].time)
    && (forall i, j :: 0 <= i < |q| && j == i + 1 && j < |q| ==> mem[q[i].start].next == q[j].start)
  }

  ghost predicate QueueOk(q: seq<Waiting>, blocks: Blocks, wait: nat) {
    && (forall i :: 0 <= i < |q| ==> q[i].start in blocks && q[i].time + wait < UINT64)
    && (forall i, j :: 0 <= i < j < |q| ==> q[i].start != q[j].start && q[i].time <= q[j].time)
  }

  /** The cells of the blocks hold what they held. */
  ghost predicate Kept(mem: seq<Cell>, mem': seq<Cell>, blocks: Blocks) {
    |mem| <= |mem'| && forall c: nat :: c < |mem| && Owned(blocks, c) ==> mem'[c] == mem[c]
  }

  /** Only cell `c` may differ. */
  ghost predicate OnlyAt(mem: seq<Cell>, mem': seq<Cell>, c: nat) {
    |mem| == |mem'| && forall d: nat :: d < |mem| && d != c ==> mem'[d] == mem[d]
  }

  // ----- the operations on the space -----

  lemma RunParts(k: Checksum, mem: seq<Cell>, occ: seq<bool>, fz: nat, blocks: Blocks, a: nat, b: nat)
    requires Space(k, mem, occ, fz, blocks) && MaxRun(occ, fz, a, b)
    ensures a < b < fz <= |mem| && Tiled(k, mem, a, b) && Clear(occ, a, b)
  {
  }

  lemma SpaceBound(k: Checksum, mem: seq<Cell>, occ: seq<bool>, fz: nat, blocks: Blocks)
    requires Space(k, mem, occ, fz, blocks)
    ensures |mem| < HEAP_CELLS < NIL && |occ| == |mem| && fz <= |mem| && BlocksOk(blocks, fz)
  {
  }

  /** Reading back the size word of a block. */
  lemma BlockSize(k: Checksum, mem: seq<Cell>, occ: seq<bool>, fz: nat, blocks: Blocks, b: nat)
    requires Space(k, mem, occ, fz, blocks) && b in blocks
    ensures 1 <= blocks[b] < RUN_CELLS && b + blocks[b] <= fz <= |mem|
    ensures BlockWord(k, b, blocks[b], true) < 0 < BlockWord(k, b, blocks[b], false)
    ensures GetSize(-BlockWord(k, b, blocks[b], true)) == BASE_SIZE * blocks[b] + 1
    ensures BlockWord(k, b, blocks[b], true) == -(Encode(k, b, BASE_SIZE * blocks[b] + 1) as int)
    ensures GetSize(BlockWord(k, b, blocks[b], false)) == BASE_SIZE * blocks[b]
    ensures BlockWord(k, b, blocks[b], false) == Encode(k, b, BASE_SIZE * blocks[b])
  {
    hide RunsTiled, BitsOk, Encode, GetSize;
    EncodeRoundTrip(k, b, BASE_SIZE * blocks[b] + 1);
    EncodeRoundTrip(k, b, BASE_SIZE * blocks[b]);
  }

  /** Taking the first n cells of a maximal run, whose remainder is tiled. */
  lemma TakeFromRun(k: Checksum, mem: seq<Cell>, mem': seq<Cell>, occ: seq<bool>, fz: nat, blocks: Blocks, a: nat,
      b: nat, n: nat)
    requires Space(k, mem, occ, fz, blocks) && MaxRun(occ, fz, a, b) && 1 <= n <= b - a && n < RUN_CELLS
    requires OnlyAt(mem, mem', a + n) && (a + n == b ==> mem' == mem) && Tiled(k, mem', a + n, b)
    ensures a !in blocks && Space(k, mem', Marked(occ, a, n, true), fz, blocks[a := n])
    ensures Kept(mem, mem', blocks)
  {
    hide Tiled, Owned;
    var occ' := Marked(occ, a, n, true);
    MarkedAt(occ, a, n, true);
    FreshBlock(blocks, fz, occ, a, n);
    BitsAdd(blocks, occ, a, n);
    forall x: nat, y: nat | MaxRun(occ', fz, x, y)
      ensures Tiled(k, mem', x, y)
    {
      RunsAfterTake(occ, fz, a, b, n, x, y);
      if x != a + n || y != b {
        TiledFrame(k, mem, mem', x, y);
      }
    }
  }

  /** Taking n cells at the frontier. */
  lemma TakeFromFrontier(k: Checksum, mem: seq<Cell>, occ: seq<bool>, fz: nat, blocks: Blocks, n: nat)
    requires Space(k, mem, occ, fz, blocks) && 1 <= n < RUN_CELLS && fz + n <= |mem|
    ensures fz !in blocks && Space(k, mem, Marked(occ, fz, n, true), fz + n, blocks[fz := n])
  {
    hide Tiled, Owned;
    MarkedAt(occ, fz, n, true);
    BitsAdd(blocks, occ, fz, n);
    forall x: nat, y: nat | MaxRun(Marked(occ, fz, n, true), fz + n, x, y)
      ensures Tiled(k, mem, x, y)
    {
      RunsAfterGrow(occ, fz, n, x, y);
    }
    assert BlocksOk(blocks[fz := n], fz + n);
    assert RunsTiled(k, mem, Marked(occ, fz, n, true), fz + n);
    assert Frontier(Marked(occ, fz, n, true), fz + n);
  }

  /** More memory at the end, clear and untiled above the frontier. */
  lemma GrowSpace(k: Checksum, mem: seq<Cell>, raw: seq<Cell>, occ: seq<bool>, more: seq<bool>, fz: nat, blocks: Blocks)
    requires Space(k, mem, occ, fz, blocks) && |more| == |raw| && |mem| + |raw| < HEAP_CELLS
    requires forall i :: 0 <= i < |more| ==> !more[i]
    ensures Space(k, mem + raw, occ + more, fz, blocks)
    ensures Kept(mem, mem + raw, blocks)
  {
    hide Tiled, Owned;
    forall x: nat, y: nat | MaxRun(occ + more, fz, x, y)
      ensures Tiled(k, mem + raw, x, y)
    {
      assert forall c :: x <= c < y ==> occ[c] == (occ + more)[c];
      TiledFrame(k, mem, mem + raw, x, y);
    }
    forall c: nat | c < |occ + more|
      ensures (occ + more)[c] <==> Owned(blocks, c)
    {
      if c >= |occ| {
        NotOwnedAbove(blocks, fz, c);
      }
    }
  }

  lemma NotOwnedAbove(blocks: Blocks, fz: nat, c: nat)
    requires BlocksOk(blocks, fz) && fz <= c
    ensures !Owned(blocks, c)
  {
  }

  // ----- short runs -----

  lemma ShortAfterTake(occ: seq<bool>, fz: nat, a: nat, b: nat, n: nat)
    requires RunsShort(occ, fz) && MaxRun(occ, fz, a, b) && 1 <= n <= b - a
    ensures RunsShort(Marked(occ, a, n, true), fz)
  {
    forall x: nat, y: nat | MaxRun(Marked(occ, a, n, true), fz, x, y)
      ensures y - x < RUN_CELLS
    {
      RunsAfterTake(occ, fz, a, b, n, x, y);
    }
  }

  /** Taking cells at the frontier, after adding clear cells at the end. */
  lemma ShortAtFrontier(occ: seq<bool>, more: seq<bool>, fz: nat, n: nat)
    requires RunsShort(occ, fz) && Frontier(occ, fz) && n >= 1 && fz + n <= |occ + more|
    ensures RunsShort(Marked(occ + more, fz, n, true), fz + n)
  {
    var g := fz + n;
    forall x: nat, y: nat | MaxRun(Marked(occ + more, fz, n, true), g, x, y)
      ensures y - x < RUN_CELLS
    {
      RunsAfterGrow(occ + more, fz, n, x, y);
      RunWithout(occ, more, fz, x, y);
    }
  }

  lemma RunWithout(occ: seq<bool>, more: seq<bool>, fz: nat, x: nat, y: nat)
    requires MaxRun(occ + more, fz, x, y) && Frontier(occ, fz)
    ensures MaxRun(occ, fz, x, y)
  {
    assert forall c :: x <= c < y ==> occ[c] == (occ + more)[c];
  }

  // ----- returning a block -----

  /** The run left by clearing block b: it holds no other block. */
  lemma OthersOutside(blocks: Blocks, occ: seq<bool>, fz: nat, b: nat, a: nat, e: nat, c: nat)
    requires BlocksOk(blocks, fz) && BitsOk(occ, blocks) && c in blocks && fz <= |occ|
    requires a < e <= fz && Clear(occ, a, e)
    ensures c + blocks[c] <= a || e <= c
  {
    var d := if c < a then a else c;
    if d < c + blocks[c] {
      OwnedOne(blocks, c, d);
    }
    assert d >= fz || (occ[d] <==> Owned(blocks, d));
  }

  /** Returning block b below the frontier: the free cells from b on are tiled anew. */
  lemma ReturnBlock(k: Checksum, mem: seq<Cell>, mem': seq<Cell>, occ: seq<bool>, fz: nat, blocks: Blocks, b: nat,
      a: nat, e: nat)
    requires Space(k, mem, occ, fz, blocks) && b in blocks && a <= b && b + blocks[b] <= e < fz
    requires MaxRun(Marked(occ, b, blocks[b], false), fz, a, e)
    requires OnlyAt(mem, mem', b) && Tiled(k, mem', b, e)
    ensures Space(k, mem', Marked(occ, b, blocks[b], false), fz, blocks - {b})
    ensures Kept(mem, mem', blocks - {b})
  {
    hide Tile, Tiled, Owned;
    var n := blocks[b];
    var occ' := Marked(occ, b, n, false);
    MarkedAt(occ, b, n, false);
    BitsRemove(blocks, fz, occ, b);
    assert occ'[e] && e != b;
    forall x: nat, y: nat | MaxRun(occ', fz, x, y)
      ensures Tiled(k, mem', x, y)
    {
      RunsAfterClear(occ, fz, b, n, a, e, x, y);
      if x == a && y == e {
        BeforeBlock(k, mem, occ, fz, blocks, b, a);
        TiledFrame(k, mem, mem', a, b);
        TiledAppend(k, mem', a, b, e);
      } else {
        TiledFrame(k, mem, mem', x, y);
      }
    }
  }

  /** The free cells just below a block are a run of their own. */
  lemma BeforeBlock(k: Checksum, mem: seq<Cell>, occ: seq<bool>, fz: nat, blocks: Blocks, b: nat, a: nat)
    requires Space(k, mem, occ, fz, blocks) && b in blocks && a <= b
    requires Clear(occ, a, b) && (a == 0 || occ[a - 1])
    ensures Tiled(k, mem, a, b)
  {
  }

  lemma EmptyTiling(k: Checksum, mem: seq<Cell>, a: nat)
    ensures Tiled(k, mem, a, a)
  {
  }

  /** Returning a block whose run reaches the frontier lowers the frontier to that run. */
  lemma MergeBlock(k: Checksum, mem: seq<Cell>, mem': seq<Cell>, occ: seq<bool>, fz: nat, blocks: Blocks, b: nat,
      a: nat)
    requires Space(k, mem, occ, fz, blocks) && b in blocks && a <= b
    requires MaxRun(Marked(occ, b, blocks[b], false), fz, a, fz)
    requires OnlyAt(mem, mem', b)
    ensures Space(k, mem', Marked(occ, b, blocks[b], false), a, blocks - {b})
    ensures Kept(mem, mem', blocks - {b})
  {
    hide Tiled, Owned;
    var n := blocks[b];
    var occ' := Marked(occ, b, n, false);
    MarkedAt(occ, b, n, false);
    BitsRemove(blocks, fz, occ, b);
    forall c | c in blocks - {b}
      ensures c + blocks[c] <= a
    {
      OthersOutside(blocks - {b}, occ', fz, b, a, fz, c);
    }
    forall x: nat, y: nat | MaxRun(occ', a, x, y)
      ensures Tiled(k, mem', x, y)
    {
      RunsAfterMerge(occ, fz, b, n, a, x, y);
      TiledFrame(k, mem, mem', x, y);
    }
  }

  // ----- client and header writes -----

  /** Writing into a block leaves the space as it was. */
  lemma WriteInBlock(k: Checksum, mem: seq<Cell>, mem': seq<Cell>, occ: seq<bool>, fz: nat, blocks: Blocks, c: nat)
    requires Space(k, mem, occ, fz, blocks) && c < |mem| && Owned(blocks, c) && OnlyAt(mem, mem', c)
    ensures Space(k, mem', occ, fz, blocks)
  {
    hide Tiled, Owned;
    assert occ[c];
    forall x: nat, y: nat | MaxRun(occ, fz, x, y)
      ensures Tiled(k, mem', x, y)
    {
      TiledFrame(k, mem, mem', x, y);
    }
  }
}
