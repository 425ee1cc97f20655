/** The heap of nvmalloc as a value: which cells are occupied, how the clear runs are
    tiled by headers, and what taking and returning cells does to both. */
module NvHeap {
  import opened NvHeader

  type Blocks = map<nat, nat>

  /** Cell `c` lies in one of the blocks, live or quarantined. */
  ghost predicate Owned(blocks: Blocks, c: nat) {
    exists b :: b in blocks && b <= c < b + blocks[b]
  }

  /** Blocks are non-empty, smaller than 4 GiB, pairwise disjoint and below the frontier. */
  ghost predicate BlocksOk(blocks: Blocks, fz: nat) {
    && (forall b :: b in blocks ==> 1 <= blocks[b] < RUN_CELLS && b + blocks[b] <= fz)
    && (forall b, c :: b in blocks && c in blocks && b < c ==> b + blocks[b] <= c)
  }

  /** A cell is marked exactly when it lies in a block. */
  ghost predicate BitsOk(occ: seq<bool>, blocks: Blocks) {
    forall c: nat :: c < |occ| ==> (occ[c] <==> Owned(blocks, c))
  }

  /** The marks with those of the cells [a, a + n) set to `v`. */
  function Marked(occ: seq<bool>, a: nat, n: nat, v: bool): seq<bool> {
    seq(|occ|, c requires 0 <= c < |occ| => if a <= c < a + n then v else occ[c])
  }

  /** No cell of [a, b) is marked. */
  ghost predicate Clear(occ: seq<bool>, a: nat, b: nat) {
    b <= |occ| && forall c :: a <= c < b ==> !occ[c]
  }

  /** [a, b) is a maximal run of clear cells below the frontier. */
  ghost predicate MaxRun(occ: seq<bool>, fz: nat, a: nat, b: nat) {
    && a < b <= fz <= |occ|
    && Clear(occ, a, b)
    && (a == 0 || occ[a - 1])
    && (b == fz || occ[b])
  }

  /** The number of cells the free header at `a` speaks for. */
  function TileCells(mem: seq<Cell>, a: nat): nat
    requires a < |mem| && mem[a].hdr < 0
  {
    GetSize(-mem[a].hdr) / BASE_SIZE
  }

  ghost predicate Tile(k: Checksum, mem: seq<Cell>, a: nat, n: nat) {
    a < |mem| && n >= 1 && BASE_SIZE * n < UINT32 && mem[a].hdr == -(Encode(k, a, BASE_SIZE * n) as int)
  }

  /** [a, b) is tiled exactly by negative headers, starting with one at a. */
  ghost predicate Tiled(k: Checksum, mem: seq<Cell>, a: nat, b: nat)
    decreases b - a
  {
    a == b || (a < b <= |mem| && exists n: nat :: Tile(k, mem, a, n) && a + n <= b && Tiled(k, mem, a + n, b))
  }

  /** Every maximal clear run is shorter than 4 GiB. */
  ghost predicate RunsShort(occ: seq<bool>, fz: nat) {
    forall a: nat, b: nat :: MaxRun(occ, fz, a, b) ==> b - a < RUN_CELLS
  }

  /** Every maximal clear run is tiled. */
  ghost predicate RunsTiled(k: Checksum, mem: seq<Cell>, occ: seq<bool>, fz: nat) {
    forall a: nat, b: nat :: MaxRun(occ, fz, a, b) ==> Tiled(k, mem, a, b)
  }

  // ----- tilings -----

  lemma TileSize(k: Checksum, mem: seq<Cell>, a: nat, n: nat)
    requires Tile(k, mem, a, n)
    ensures mem[a].hdr < 0 && GetSize(-mem[a].hdr) == BASE_SIZE * n && TileCells(mem, a) == n
  {
    EncodeRoundTrip(k, a, BASE_SIZE * n);
  }

  lemma {:induction false} TiledFrame(k: Checksum, mem: seq<Cell>, mem': seq<Cell>, a: nat, b: nat)
    requires Tiled(k, mem, a, b) && |mem| <= |mem'|
    requires forall c: nat :: a <= c < b && c < |mem| ==> mem'[c].hdr == mem[c].hdr
    ensures Tiled(k, mem', a, b)
    decreases b - a
  {
    if a < b {
      var n: nat :| Tile(k, mem, a, n) && a + n <= b && Tiled(k, mem, a + n, b);
      TiledFrame(k, mem, mem', a + n, b);
      assert Tile(k, mem', a, n);
    }
  }

  lemma {:induction false} TiledAppend(k: Checksum, mem: seq<Cell>, a: nat, b: nat, c: nat)
    requires Tiled(k, mem, a, b) && Tiled(k, mem, b, c) && a <= b <= c
    ensures Tiled(k, mem, a, c)
    decreases b - a
  {
    if a < b {
      var n: nat :| Tile(k, mem, a, n) && a + n <= b && Tiled(k, mem, a + n, b);
      TiledAppend(k, mem, a + n, b, c);
    }
  }

  /** A tiling that starts with a tile of n cells can only go on after it. */
  lemma TiledSkip(k: Checksum, mem: seq<Cell>, a: nat, n: nat, b: nat)
    requires Tile(k, mem, a, n) && a < b <= |mem|
    ensures Tiled(k, mem, a, b) <==> a + n <= b && Tiled(k, mem, a + n, b)
  {
    TileSize(k, mem, a, n);
    forall m: nat | Tile(k, mem, a, m)
      ensures m == n
    {
      TileSize(k, mem, a, m);
    }
  }

  /** What follows a tiled stretch is tiled if and only if the whole is. */
  lemma {:induction false} TiledRest(k: Checksum, mem: seq<Cell>, a: nat, b: nat, e: nat)
    requires Tiled(k, mem, a, b) && a <= b <= e && e <= |mem|
    ensures Tiled(k, mem, a, e) <==> Tiled(k, mem, b, e)
    decreases b - a
  {
    if a < b {
      FirstTile(k, mem, a, b);
      var n := GetSize(-mem[a].hdr) / BASE_SIZE;
      TiledSkip(k, mem, a, n, e);
      TiledRest(k, mem, a + n, b, e);
    }
  }

  /** A size word of 0 is no tile. */
  lemma NoEmptyTile(k: Checksum, mem: seq<Cell>, a: nat, b: nat)
    requires a < |mem| && mem[a].hdr == -(Encode(k, a, 0) as int) && a < b
    ensures !Tiled(k, mem, a, b)
  {
    forall n: nat
      ensures !Tile(k, mem, a, n)
    {
      if Tile(k, mem, a, n) {
        EncodeRoundTrip(k, a, 0);
        EncodeRoundTrip(k, a, BASE_SIZE * n);
        assert false;
      }
    }
  }

  /** The first header of a tiled stretch, as the walk of getFreeLocation reads it. */
  lemma FirstTile(k: Checksum, mem: seq<Cell>, a: nat, b: nat)
    requires Tiled(k, mem, a, b) && a < b
    ensures a < |mem| && b <= |mem| && mem[a].hdr < 0
    ensures var n := GetSize(-mem[a].hdr) / BASE_SIZE;
      && Tile(k, mem, a, n) && a + n <= b && Tiled(k, mem, a + n, b)
      && Encode(k, a, GetSize(-mem[a].hdr)) == -mem[a].hdr
      && GetSize(-mem[a].hdr) == BASE_SIZE * n
  {
    var n: nat :| Tile(k, mem, a, n) && a + n <= b && Tiled(k, mem, a + n, b);
    TileSize(k, mem, a, n);
  }

  /** A header written at `a` for everything up to `b` tiles that stretch. */
  lemma NewTile(k: Checksum, mem: seq<Cell>, a: nat, b: nat)
    requires a < b <= |mem| && b - a < RUN_CELLS
    ensures var mem' := mem[a := mem[a].(hdr := -(Encode(k, a, BASE_SIZE * (b - a)) as int))];
      Tile(k, mem', a, b - a) && Tiled(k, mem', a, b)
  {
    var mem' := mem[a := mem[a].(hdr := -(Encode(k, a, BASE_SIZE * (b - a)) as int))];
    assert Tile(k, mem', a, b - a);
    OneTile(k, mem', a, b - a);
  }

  lemma OneTile(k: Checksum, mem: seq<Cell>, a: nat, n: nat)
    requires Tile(k, mem, a, n) && a + n <= |mem|
    ensures Tiled(k, mem, a, a + n)
  {
    assert Tiled(k, mem, a + n, a + n);
  }

  // ----- maximal runs -----

  /** The free cells around a hinted location: the run of n cells from a on, which ends
      at blocks or at the frontier. Beyond the frontier there is nothing. */
  ghost predicate RunAround(occ: seq<bool>, fz: nat, hint: nat, a: nat, n: nat) {
    if hint > fz then n == 0
    else
      && a <= hint <= a + n <= fz <= |occ|
      && Clear(occ, a, a + n)
      && (a == 0 || occ[a - 1])
      && (a + n == fz || occ[a + n])
  }

  /** What the walks up and down from a hint find makes up the run around it. */
  lemma AroundHint(occ: seq<bool>, fz: nat, hint: nat, up: nat, down: nat)
    requires hint > fz ==> up == 0 && down == 0
    requires hint <= fz ==> down <= hint && hint + up <= fz <= |occ|
    requires hint <= fz ==> Clear(occ, hint - down, hint) && Clear(occ, hint, hint + up)
    requires hint <= fz ==> (hint == down || occ[hint - down - 1]) && (hint + up == fz || occ[hint + up])
    ensures hint <= fz ==> RunAround(occ, fz, hint, hint - down, up + down)
    ensures hint > fz ==> RunAround(occ, fz, hint, hint, up + down)
  {
  }

  lemma AroundIsMaximal(occ: seq<bool>, fz: nat, hint: nat, a: nat, n: nat)
    requires RunAround(occ, fz, hint, a, n) && n > 0
    ensures MaxRun(occ, fz, a, a + n)
  {
  }

  lemma MarkedAt(occ: seq<bool>, a: nat, n: nat, v: bool)
    ensures |Marked(occ, a, n, v)| == |occ|
    ensures forall c :: 0 <= c < |occ| ==> Marked(occ, a, n, v)[c] == (if a <= c < a + n then v else occ[c])
  {
  }

  lemma RunsEqualOrApart(occ: seq<bool>, fz: nat, a: nat, b: nat, x: nat, y: nat)
    requires MaxRun(occ, fz, a, b) && MaxRun(occ, fz, x, y)
    ensures (a == x && b == y) || b <= x || y <= a
  {
  }

  /** After taking the first n cells of a run, the other runs are as before. */
  lemma RunsAfterTake(occ: seq<bool>, fz: nat, a: nat, b: nat, n: nat, x: nat, y: nat)
    requires MaxRun(occ, fz, a, b) && 1 <= n <= b - a
    requires MaxRun(Marked(occ, a, n, true), fz, x, y)
    ensures (x == a + n && y == b) || (MaxRun(occ, fz, x, y) && (y <= a || b <= x))
  {
    var s := Marked(occ, a, n, true);
    MarkedAt(occ, a, n, true);
    assert s[a] && s[a + n - 1] && (a > 0 ==> s[a - 1]);
    assert x == 0 || s[x - 1];
    assert !s[x] && !s[y - 1];
    if a + n < b {
      assert MaxRun(s, fz, a + n, b);
      RunsEqualOrApart(s, fz, a + n, b, x, y);
    }
  }

  /** After clearing cells, the run around them is new and the others are as before. */
  lemma RunsAfterClear(occ: seq<bool>, fz: nat, b: nat, n: nat, a: nat, e: nat, x: nat, y: nat)
    requires a <= b && b + n <= e && MaxRun(Marked(occ, b, n, false), fz, a, e)
    requires MaxRun(Marked(occ, b, n, false), fz, x, y)
    ensures (x == a && y == e) || (MaxRun(occ, fz, x, y) && (y <= a || e <= x))
  {
    MarkedAt(occ, b, n, false);
    RunsEqualOrApart(Marked(occ, b, n, false), fz, a, e, x, y);
  }

  /** Lowering the frontier to the start of a run that reaches it keeps the other runs. */
  lemma RunsAfterMerge(occ: seq<bool>, fz: nat, b: nat, n: nat, a: nat, x: nat, y: nat)
    requires a <= b && b + n <= fz && MaxRun(Marked(occ, b, n, false), fz, a, fz)
    requires MaxRun(Marked(occ, b, n, false), a, x, y)
    ensures MaxRun(occ, fz, x, y) && y < a
  {
    var s := Marked(occ, b, n, false);
    MarkedAt(occ, b, n, false);
    assert !s[y - 1] && (a == 0 || s[a - 1]);
  }

  /** Raising the frontier over cells taken from it adds no run. */
  lemma RunsAfterGrow(occ: seq<bool>, fz: nat, n: nat, x: nat, y: nat)
    requires n >= 1 && (fz == 0 || (fz <= |occ| && occ[fz - 1])) && fz + n <= |occ|
    requires MaxRun(Marked(occ, fz, n, true), fz + n, x, y)
    ensures MaxRun(occ, fz, x, y)
  {
    var s := Marked(occ, fz, n, true);
    MarkedAt(occ, fz, n, true);
    assert !s[y - 1] && !s[x];
  }

  // ----- blocks -----

  lemma FreshBlock(blocks: Blocks, fz: nat, occ: seq<bool>, a: nat, n: nat)
    requires BlocksOk(blocks, fz) && BitsOk(occ, blocks)
    requires 1 <= n < RUN_CELLS && a + n <= fz <= |occ| && Clear(occ, a, a + n)
    ensures a !in blocks && BlocksOk(blocks[a := n], fz)
  {
    forall b | b in blocks
      ensures b + blocks[b] <= a || a + n <= b
    {
      NotOwned(blocks, a, b);
      if a < b < a + n {
        NotOwned(blocks, b, b);
      }
    }
  }

  lemma NotOwned(blocks: Blocks, c: nat, b: nat)
    requires !Owned(blocks, c) && b in blocks
    ensures c < b || b + blocks[b] <= c
  {
  }

  lemma OwnedOne(blocks: Blocks, b: nat, c: nat)
    requires b in blocks && b <= c < b + blocks[b]
    ensures Owned(blocks, c)
  {
  }

  lemma BitsAdd(blocks: Blocks, occ: seq<bool>, a: nat, n: nat)
    requires BitsOk(occ, blocks) && a !in blocks
    ensures BitsOk(Marked(occ, a, n, true), blocks[a := n])
  {
    var blocks' := blocks[a := n];
    forall c: nat | c < |occ|
      ensures Owned(blocks', c) <==> Owned(blocks, c) || a <= c < a + n
    {
      if b :| b in blocks && b <= c < b + blocks[b] {
        OwnedOne(blocks', b, c);
      }
      if a <= c < a + n {
        OwnedOne(blocks', a, c);
      }
    }
  }

  lemma BitsRemove(blocks: Blocks, fz: nat, occ: seq<bool>, a: nat)
    requires BlocksOk(blocks, fz) && BitsOk(occ, blocks) && a in blocks && fz <= |occ|
    ensures BlocksOk(blocks - {a}, fz)
    ensures BitsOk(Marked(occ, a, blocks[a], false), blocks - {a})
    ensures forall c :: a <= c < a + blocks[a] ==> occ[c]
  {
    var rest := blocks - {a};
    forall c: nat | c < |occ|
      ensures Owned(rest, c) <==> Owned(blocks, c) && !(a <= c < a + blocks[a])
      ensures a <= c < a + blocks[a] ==> Owned(blocks, c)
    {
      if b :| b in blocks && b <= c < b + blocks[b] {
        if b != a {
          assert b in rest && rest[b] == blocks[b];
        }
      }
      if b :| b in rest && b <= c < b + rest[b] {
        assert b in blocks;
      }
      if a <= c < a + blocks[a] {
        OwnedOne(blocks, a, c);
      }
    }
  }

}
