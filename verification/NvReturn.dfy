/** Returning a block with sizes counted in 32 bits: what insertFreeLocation leaves, and when
    the run it makes is too long for a size word. */
module NvReturn {
  import opened NvHeader
  import opened NvHeap
  import opened NvInv
  import opened NvQueue
  import opened NvRuns

  /** Returning the n cells from b on makes a free run of less than 4 GiB. */
  ghost predicate RunFits(occ: seq<bool>, fz: nat, b: nat, n: nat) {
    forall x: nat, y: nat :: MaxRun(Marked(occ, b, n, false), fz, x, y) && x <= b < y ==> y - x < RUN_CELLS
  }

  lemma RunFitsThere(occ: seq<bool>, fz: nat, b: nat, n: nat, a: nat, e: nat)
    requires MaxRun(Marked(occ, b, n, false), fz, a, e) && a <= b < e
    ensures RunFits(occ, fz, b, n) <==> e - a < RUN_CELLS
  {
    hide Clear;
    forall x: nat, y: nat | MaxRun(Marked(occ, b, n, false), fz, x, y) && x <= b < y
      ensures x == a && y == e
    {
      RunsEqualOrApart(Marked(occ, b, n, false), fz, a, e, x, y);
    }
  }

  /** Memory and frontier after insertFreeLocation, for cell counts as its arguments. */
  function Inserted(k: Checksum, mem: seq<Cell>, fz: nat, b: nat, forward: nat, total: nat): (seq<Cell>, int)
    requires b < |mem|
  {
    if b + forward >= fz && b < fz then (SetHdr(mem, b, 0), b + forward - total)
    else (SetHdr(mem, b, -(Encode(k, b, BASE_SIZE * forward) as int)), fz)
  }

  /** What the run [a, e) around a returned block b must be like for the 32-bit sizes to do: at
      the frontier shorter than 4 GiB; below it, tiled already where the size word of b ends. */
  ghost predicate Healed(k: Checksum, mem: seq<Cell>, fz: nat, b: nat, a: nat, e: nat)
    requires a <= b <= e
  {
    if e == fz then e - a < RUN_CELLS
    else (e - b) % RUN_CELLS >= 1 && Tiled(k, mem, b + (e - b) % RUN_CELLS, e)
  }

  ghost predicate Heals(k: Checksum, mem: seq<Cell>, occ: seq<bool>, fz: nat, b: nat, n: nat) {
    forall x: nat, y: nat :: MaxRun(Marked(occ, b, n, false), fz, x, y) && x <= b < y ==> Healed(k, mem, fz, b, x, y)
  }

  lemma HealsThere(k: Checksum, mem: seq<Cell>, occ: seq<bool>, fz: nat, b: nat, n: nat, a: nat, e: nat)
    requires MaxRun(Marked(occ, b, n, false), fz, a, e) && a <= b < e
    ensures Heals(k, mem, occ, fz, b, n) <==> Healed(k, mem, fz, b, a, e)
  {
    hide Clear, Tiled;
    forall x: nat, y: nat | MaxRun(Marked(occ, b, n, false), fz, x, y) && x <= b < y
      ensures x == a && y == e
    {
      RunsEqualOrApart(Marked(occ, b, n, false), fz, a, e, x, y);
    }
  }

  /** Block b, with the free run [a, e) around it. Bitmap, headers and frontier agree again
      afterwards exactly when the run heals, and they do so with all runs below 4 GiB exactly
      when this one is. Other blocks are kept in any case. */
  lemma Returned(k: Checksum, mem: seq<Cell>, occ: seq<bool>, fz: nat, blocks: Blocks, b: nat, a: nat, e: nat)
    requires Space(k, mem, occ, fz, blocks) && b in blocks && a <= b && b + blocks[b] <= e && b < |mem|
    requires MaxRun(Marked(occ, b, blocks[b], false), fz, a, e)
    ensures var (mem', fz') := Inserted(k, mem, fz, b, (e - b) % RUN_CELLS, (e - a) % RUN_CELLS);
      var occ' := Marked(occ, b, blocks[b], false);
      && (e - a) % RUN_CELLS <= b + (e - b) % RUN_CELLS && fz' >= 0
      && (Space(k, mem', occ', fz', blocks - {b}) <==> Heals(k, mem, occ, fz, b, blocks[b]))
      && (RunsShort(occ, fz) ==>
            (Space(k, mem', occ', fz', blocks - {b}) && RunsShort(occ', fz') <==> RunFits(occ, fz, b, blocks[b])))
      && Kept(mem, mem', blocks - {b})
  {
    hide Tiled, Tile, RunsTiled, RunsShort, Owned, BitsOk, Encode, Clear, Heals, RunFits;
    OwnedStart(blocks, fz, b);
    RunFitsThere(occ, fz, b, blocks[b], a, e);
    HealsThere(k, mem, occ, fz, b, blocks[b], a, e);
    OthersApart(blocks, fz, blocks - {b}, b);
    Remainders(e - b, e - a);
    if e == fz {
      AtFrontier(k, mem, occ, fz, blocks, b, a);
    } else {
      BelowFrontier(k, mem, occ, fz, blocks, b, a, e);
    }
  }

  /** A run that reaches the frontier: when it is too long, either the frontier stays above it
      or it comes to lie in the middle of it. */
  lemma AtFrontier(k: Checksum, mem: seq<Cell>, occ: seq<bool>, fz: nat, blocks: Blocks, b: nat, a: nat)
    requires Space(k, mem, occ, fz, blocks) && b in blocks && a <= b && b + blocks[b] <= fz && b < |mem|
    requires MaxRun(Marked(occ, b, blocks[b], false), fz, a, fz)
    ensures var (mem', fz') := Inserted(k, mem, fz, b, (fz - b) % RUN_CELLS, (fz - a) % RUN_CELLS);
      var occ' := Marked(occ, b, blocks[b], false);
      && fz' >= 0
      && (Space(k, mem', occ', fz', blocks - {b}) <==> fz - a < RUN_CELLS)
      && (RunsShort(occ, fz) && fz - a < RUN_CELLS ==> RunsShort(occ', fz'))
  {
    hide Tiled, Encode, BitsOk, BlocksOk, RunsTiled, Clear;
    var occ' := Marked(occ, b, blocks[b], false);
    var f, t := (fz - b) % RUN_CELLS, (fz - a) % RUN_CELLS;
    Remainders(fz - b, fz - a);
    OwnedStart(blocks, fz, b);
    if fz - a < RUN_CELLS {
      MergeBlock(k, mem, SetHdr(mem, b, 0), occ, fz, blocks, b, a);
      ShortAfterMerge(occ, fz, b, blocks[b], a);
    } else {
      var cut := if b + f >= fz then b + f - t else fz;
      ClearAt(occ', a, fz, cut - 1);
    }
  }

  lemma ClearAt(occ: seq<bool>, a: nat, e: nat, c: nat)
    requires Clear(occ, a, e) && a <= c < e
    ensures c < |occ| && !occ[c]
  {
  }

  lemma ShortAfterMerge(occ: seq<bool>, fz: nat, b: nat, n: nat, a: nat)
    requires a <= b && b + n <= fz && MaxRun(Marked(occ, b, n, false), fz, a, fz)
    ensures RunsShort(occ, fz) ==> RunsShort(Marked(occ, b, n, false), a)
  {
    forall x: nat, y: nat | MaxRun(Marked(occ, b, n, false), a, x, y)
      ensures MaxRun(occ, fz, x, y)
    {
      RunsAfterMerge(occ, fz, b, n, a, x, y);
    }
  }

  lemma ShortAfterReturn(occ: seq<bool>, fz: nat, b: nat, n: nat, a: nat, e: nat)
    requires a <= b && b + n <= e && MaxRun(Marked(occ, b, n, false), fz, a, e)
    ensures RunsShort(occ, fz) ==> (RunsShort(Marked(occ, b, n, false), fz) <==> e - a < RUN_CELLS)
  {
    forall x: nat, y: nat | MaxRun(Marked(occ, b, n, false), fz, x, y) && (x != a || y != e)
      ensures MaxRun(occ, fz, x, y)
    {
      RunsAfterClear(occ, fz, b, n, a, e, x, y);
    }
  }

  /** A run that ends below the frontier is tiled anew exactly when the size word of b, which
      is taken modulo 4 GiB, leads to a tiled rest. */
  lemma BelowFrontier(k: Checksum, mem: seq<Cell>, occ: seq<bool>, fz: nat, blocks: Blocks, b: nat, a: nat, e: nat)
    requires Space(k, mem, occ, fz, blocks) && b in blocks && a <= b && b + blocks[b] <= e < fz && b < |mem| && b < e
    requires MaxRun(Marked(occ, b, blocks[b], false), fz, a, e)
    ensures var (mem', fz') := Inserted(k, mem, fz, b, (e - b) % RUN_CELLS, (e - a) % RUN_CELLS);
      var occ' := Marked(occ, b, blocks[b], false);
      && fz' == fz
      && (Space(k, mem', occ', fz, blocks - {b}) <==> Healed(k, mem, fz, b, a, e))
      && (RunsShort(occ, fz) ==>
            (Space(k, mem', occ', fz, blocks - {b}) && RunsShort(occ', fz) <==> e - a < RUN_CELLS))
  {
    hide Tiled, Tile, Encode, BitsOk, BlocksOk, RunsShort, Clear, Owned;
    var f := (e - b) % RUN_CELLS;
    Remainders(e - b, e - a);
    OwnedStart(blocks, fz, b);
    var mem' := SetHdr(mem, b, -(Encode(k, b, BASE_SIZE * f) as int));
    NewWord(k, mem, occ, fz, blocks, b, a, e, f);
    ShortAfterReturn(occ, fz, b, blocks[b], a, e);
    if Healed(k, mem, fz, b, a, e) {
      ReturnBlock(k, mem, mem', occ, fz, blocks, b, a, e);
    }
    if e - a < RUN_CELLS {
      EmptyTiling(k, mem, e);
    }
  }

  /** What a size word of f cells at b says about the tiling. */
  lemma NewWord(k: Checksum, mem: seq<Cell>, occ: seq<bool>, fz: nat, blocks: Blocks, b: nat, a: nat, e: nat, f: nat)
    requires Space(k, mem, occ, fz, blocks) && b in blocks && b < |mem|
    requires a <= b < e < fz && f <= e - b && f < RUN_CELLS
    requires MaxRun(Marked(occ, b, blocks[b], false), fz, a, e)
    ensures var mem' := SetHdr(mem, b, -(Encode(k, b, BASE_SIZE * f) as int));
      && (Tiled(k, mem', a, e) <==> f >= 1 && Tiled(k, mem, b + f, e))
      && (Tiled(k, mem', b, e) <==> f >= 1 && Tiled(k, mem, b + f, e))
  {
    hide Tiled, Tile, Encode, BitsOk, BlocksOk, RunsTiled, Owned, Frontier;
    var mem' := SetHdr(mem, b, -(Encode(k, b, BASE_SIZE * f) as int));
    RunBelow(occ, fz, b, blocks[b], a, e);
    BeforeBlock(k, mem, occ, fz, blocks, b, a);
    TiledFrame(k, mem, mem', a, b);
    TiledRest(k, mem', a, b, e);
    if f == 0 {
      NoEmptyTile(k, mem', b, e);
    } else {
      TileThere(k, mem', b, f);
      TiledSkip(k, mem', b, f, e);
      if Tiled(k, mem, b + f, e) {
        TiledFrame(k, mem, mem', b + f, e);
      }
      if Tiled(k, mem', b + f, e) {
        TiledFrame(k, mem', mem, b + f, e);
      }
    }
  }

  lemma RunBelow(occ: seq<bool>, fz: nat, b: nat, n: nat, a: nat, e: nat)
    requires a <= b && MaxRun(Marked(occ, b, n, false), fz, a, e) && b < e
    ensures Clear(occ, a, b) && (a == 0 || occ[a - 1])
  {
    MarkedAt(occ, b, n, false);
    var s := Marked(occ, b, n, false);
    assert forall c :: a <= c < b ==> !s[c];
  }

  lemma TileThere(k: Checksum, mem: seq<Cell>, a: nat, n: nat)
    requires a < |mem| && 1 <= n < RUN_CELLS && mem[a].hdr == -(Encode(k, a, BASE_SIZE * n) as int)
    ensures Tile(k, mem, a, n)
  {
  }

  lemma Remainders(x: nat, y: nat)
    requires x <= y
    ensures x % RUN_CELLS <= x && y % RUN_CELLS - x % RUN_CELLS <= y - x
    ensures y >= RUN_CELLS ==> y % RUN_CELLS <= y - RUN_CELLS
    ensures y < RUN_CELLS ==> x % RUN_CELLS == x && y % RUN_CELLS == y
  {
  }

  // ----- the condition of a whole call -----

  /** If the call releases the head of the queue, the run that makes is short enough. */
  ghost predicate DueFits(occ: seq<bool>, fz: nat, h: Heap, wait: nat, now: nat) {
    Ripe(h, wait, now) && h.queue[0].start in h.blocks ==>
      RunFits(occ, fz, h.queue[0].start, h.blocks[h.queue[0].start])
  }

  /** If the call releases the head of the queue, the run that makes heals. */
  ghost predicate DueHeals(k: Checksum, mem: seq<Cell>, occ: seq<bool>, fz: nat, h: Heap, wait: nat, now: nat) {
    Ripe(h, wait, now) && h.queue[0].start in h.blocks ==>
      Heals(k, mem, occ, fz, h.queue[0].start, h.blocks[h.queue[0].start])
  }

  /** The size word of any block makes no difference to how the run around b heals. */
  lemma HealsAnyWord(k: Checksum, mem: seq<Cell>, mem': seq<Cell>, occ: seq<bool>, fz: nat, blocks: Blocks, b: nat,
      c: nat)
    requires Space(k, mem, occ, fz, blocks) && b in blocks && c in blocks && |mem| == |mem'|
    requires forall d :: 0 <= d < |mem| && d != c ==> mem'[d].hdr == mem[d].hdr
    ensures Heals(k, mem, occ, fz, b, blocks[b]) <==> Heals(k, mem', occ, fz, b, blocks[b])
  {
    hide Tiled, RunsTiled;
    var s := Marked(occ, b, blocks[b], false);
    OwnedStart(blocks, fz, c);
    MarkedAt(occ, b, blocks[b], false);
    forall x: nat, y: nat | MaxRun(s, fz, x, y) && x <= b < y
      ensures Healed(k, mem, fz, b, x, y) <==> Healed(k, mem', fz, b, x, y)
    {
      NotBetween(s, fz, blocks, occ, b, c, x, y);
      if Healed(k, mem, fz, b, x, y) && y < fz {
        TiledFrame(k, mem, mem', b + (y - b) % RUN_CELLS, y);
      }
      if Healed(k, mem', fz, b, x, y) && y < fz {
        TiledFrame(k, mem', mem, b + (y - b) % RUN_CELLS, y);
      }
    }
  }

  /** The run around b holds the start of no other block. */
  lemma NotBetween(s: seq<bool>, fz: nat, blocks: Blocks, occ: seq<bool>, b: nat, c: nat, x: nat, y: nat)
    requires BlocksOk(blocks, fz) && BitsOk(occ, blocks) && b in blocks && c in blocks && fz <= |occ|
    requires s == Marked(occ, b, blocks[b], false) && MaxRun(s, fz, x, y) && x <= b < y
    ensures c <= b || y <= c
  {
    hide Owned;
    OwnedStart(blocks, fz, c);
    MarkedAt(occ, b, blocks[b], false);
    assert c > b ==> s[c];
  }

  /** Below a frontier of less than 4 GiB every release fits. */
  lemma SmallHeapFits(occ: seq<bool>, fz: nat, h: Heap, wait: nat, now: nat)
    requires fz < RUN_CELLS
    ensures DueFits(occ, fz, h, wait, now)
  {
    hide Clear, Marked;
  }

  /** Clear cells below the frontier lie in a maximal run. */
  lemma {:induction false} WiderRun(occ: seq<bool>, fz: nat, x: nat, y: nat) returns (a: nat, e: nat)
    requires x < y <= fz <= |occ| && Clear(occ, x, y)
    ensures a <= x && y <= e && MaxRun(occ, fz, a, e)
    decreases x + fz - y
  {
    if x > 0 && !occ[x - 1] {
      a, e := WiderRun(occ, fz, x - 1, y);
    } else if y < fz && !occ[y] {
      a, e := WiderRun(occ, fz, x, y + 1);
    } else {
      a, e := x, y;
    }
  }

  /** Handing cells out first cannot make the run longer, so it is enough to look before the call. */
  lemma FitsBefore(occ: seq<bool>, fz: nat, h: Heap, wait: nat, now: nat, a: nat, n: nat)
    requires DueFits(occ, fz, h, wait, now)
    ensures DueFits(Marked(occ, a, n, true), fz, h, wait, now)
  {
    if Ripe(h, wait, now) && h.queue[0].start in h.blocks {
      var b := h.queue[0].start;
      var s, t := Marked(occ, b, h.blocks[b], false), Marked(Marked(occ, a, n, true), b, h.blocks[b], false);
      MarkedAt(occ, a, n, true);
      MarkedAt(occ, b, h.blocks[b], false);
      MarkedAt(Marked(occ, a, n, true), b, h.blocks[b], false);
      forall x: nat, y: nat | MaxRun(t, fz, x, y) && x <= b < y
        ensures y - x < RUN_CELLS
      {
        assert forall c :: x <= c < y ==> !t[c];
        var u, v := WiderRun(s, fz, x, y);
      }
    }
  }

  /** Cells taken at the frontier do not change which runs end below it. */
  lemma FitsAcross(occ: seq<bool>, more: seq<bool>, fz: nat, n: nat, b: nat, m: nat)
    requires 1 <= n && fz <= |occ| && fz + n <= |occ + more| && b + m <= fz && m >= 1
    ensures RunFits(Marked(occ + more, fz, n, true), fz + n, b, m) <==> RunFits(Marked(occ, fz, n, true), fz, b, m)
  {
    hide MaxRun, Marked;
    var s, t, g := Marked(occ + more, fz, n, true), Marked(occ, fz, n, true), fz + n;
    forall x: nat, y: nat | x <= b < y
      ensures MaxRun(Marked(s, b, m, false), g, x, y) <==> MaxRun(Marked(t, b, m, false), fz, x, y)
    {
      RunAcross(occ, more, fz, n, b, m, x, y);
    }
  }

  lemma RunAcross(occ: seq<bool>, more: seq<bool>, fz: nat, n: nat, b: nat, m: nat, x: nat, y: nat)
    requires 1 <= n && fz <= |occ| && fz + n <= |occ + more| && x <= b < y && b + m <= fz && m >= 1
    ensures MaxRun(Marked(Marked(occ + more, fz, n, true), b, m, false), fz + n, x, y)
       <==> MaxRun(Marked(Marked(occ, fz, n, true), b, m, false), fz, x, y)
  {
    var s := Marked(Marked(occ + more, fz, n, true), b, m, false);
    var t := Marked(Marked(occ, fz, n, true), b, m, false);
    MarkedAt(occ + more, fz, n, true);
    MarkedAt(occ, fz, n, true);
    MarkedAt(Marked(occ + more, fz, n, true), b, m, false);
    MarkedAt(Marked(occ, fz, n, true), b, m, false);
    hide Marked;
    assert s[fz] && forall c: nat :: c < fz ==> s[c] == t[c];
  }

  // ----- runs of exactly 4 GiB -----

  const HALF: nat := RUN_CELLS / 2

  /** Where the waiting half of 4 GiB lies; the other half is free. */
  function Wait(low: bool): nat {
    if low then 0 else HALF
  }

  /** The two halves, below one live cell. */
  function LongMarks(low: bool): seq<bool> {
    seq(RUN_CELLS + 64, c => Wait(low) <= c < Wait(low) + HALF || c == RUN_CELLS)
  }

  function LongMemory(k: Checksum, low: bool): seq<Cell> {
    seq(RUN_CELLS + 64, c =>
        Cell(if c == Wait(!low) then -(Encode(k, Wait(!low), BASE_SIZE * HALF) as int) else 0, 0, 0))
  }

  function LongBlocks(low: bool): Blocks {
    map[Wait(low) := HALF, RUN_CELLS := 1]
  }

  /** The heap after the waiting half has been returned. */
  function LongAfter(k: Checksum, low: bool): (seq<Cell>, int) {
    var forward := (RUN_CELLS - Wait(low)) % RUN_CELLS;
    Inserted(k, LongMemory(k, low), RUN_CELLS + 1, Wait(low), forward, RUN_CELLS % RUN_CELLS)
  }

  /** Returning the lower half writes the size word of an empty stretch: before, all is well,
      and afterwards the free run is not tiled. */
  lemma LongRunBreaks(k: Checksum)
    ensures Space(k, LongMemory(k, true), LongMarks(true), RUN_CELLS + 1, LongBlocks(true))
    ensures RunsShort(LongMarks(true), RUN_CELLS + 1)
    ensures !Tiled(k, LongAfter(k, true).0, 0, RUN_CELLS)
    ensures LongAfter(k, true).1 == RUN_CELLS + 1
    ensures var occ := Marked(LongMarks(true), 0, HALF, false);
      !Space(k, LongAfter(k, true).0, occ, RUN_CELLS + 1, LongBlocks(true) - {0})
  {
    hide Space, Tiled, MaxRun, LongMarks, LongMemory, Encode, RunsShort;
    LongHeap(k, true);
    LongMerged(true);
    NewWord(k, LongMemory(k, true), LongMarks(true), RUN_CELLS + 1, LongBlocks(true), 0, 0, RUN_CELLS, 0);
    var occ, left := Marked(LongMarks(true), 0, HALF, false), LongBlocks(true) - {0};
    NotTiled(k, LongAfter(k, true).0, occ, RUN_CELLS + 1, left, 0, RUN_CELLS);
  }

  /** Returning the upper half leaves a run of 4 GiB that is tiled exactly all the same. */
  lemma LongRunHeals(k: Checksum)
    ensures Space(k, LongMemory(k, false), LongMarks(false), RUN_CELLS + 1, LongBlocks(false))
    ensures RunsShort(LongMarks(false), RUN_CELLS + 1)
    ensures LongAfter(k, false).1 == RUN_CELLS + 1
    ensures var occ := Marked(LongMarks(false), HALF, HALF, false);
      && Space(k, LongAfter(k, false).0, occ, RUN_CELLS + 1, LongBlocks(false) - {HALF})
      && MaxRun(occ, RUN_CELLS + 1, 0, RUN_CELLS)
  {
    hide Space, Tiled, MaxRun, LongMarks, LongMemory, Encode, RunsShort;
    LongHeap(k, false);
    LongMerged(false);
    EmptyTiling(k, LongMemory(k, false), RUN_CELLS);
    BelowFrontier(k, LongMemory(k, false), LongMarks(false), RUN_CELLS + 1, LongBlocks(false), HALF, 0, RUN_CELLS);
  }

  lemma NotTiled(k: Checksum, mem: seq<Cell>, occ: seq<bool>, fz: nat, blocks: Blocks, a: nat, e: nat)
    requires MaxRun(occ, fz, a, e) && !Tiled(k, mem, a, e)
    ensures !Space(k, mem, occ, fz, blocks)
  {
  }

  lemma LongMerged(low: bool)
    ensures MaxRun(Marked(LongMarks(low), Wait(low), HALF, false), RUN_CELLS + 1, 0, RUN_CELLS)
  {
  }

  lemma LongHeap(k: Checksum, low: bool)
    ensures Space(k, LongMemory(k, low), LongMarks(low), RUN_CELLS + 1, LongBlocks(low))
    ensures RunsShort(LongMarks(low), RUN_CELLS + 1)
    ensures Wait(low) in LongBlocks(low) && LongBlocks(low)[Wait(low)] == HALF
    ensures |LongMemory(k, low)| == RUN_CELLS + 64
  {
    hide Tile, Tiled, Owned, MaxRun, Encode;
    var occ, mem, blocks, fz := LongMarks(low), LongMemory(k, low), LongBlocks(low), RUN_CELLS + 1;
    assert blocks[Wait(low)] == HALF && blocks[RUN_CELLS] == 1;
    LongBits(low);
    TileThere(k, mem, Wait(!low), HALF);
    OneTile(k, mem, Wait(!low), HALF);
    forall x: nat, y: nat | MaxRun(occ, fz, x, y)
      ensures x == Wait(!low) && y == x + HALF
    {
      LongRun(low, x, y);
    }
  }

  lemma LongBits(low: bool)
    ensures BitsOk(LongMarks(low), LongBlocks(low))
  {
    var occ, blocks := LongMarks(low), LongBlocks(low);
    assert blocks[Wait(low)] == HALF && blocks[RUN_CELLS] == 1;
    forall c: nat | c < |occ|
      ensures occ[c] <==> Owned(blocks, c)
    {
      if occ[c] {
        OwnedOne(blocks, if c == RUN_CELLS then RUN_CELLS else Wait(low), c);
      }
    }
  }

  /** The free half is the only run. */
  lemma LongRun(low: bool, x: nat, y: nat)
    requires MaxRun(LongMarks(low), RUN_CELLS + 1, x, y)
    ensures x == Wait(!low) && y == x + HALF
  {
    var occ := LongMarks(low);
    assert !occ[x] && !occ[y - 1] && occ[RUN_CELLS] && occ[Wait(low)] && occ[Wait(low) + HALF - 1];
    assert x == 0 || occ[x - 1];
    assert y == RUN_CELLS + 1 || occ[y];
  }
}
