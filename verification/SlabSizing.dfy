/** The geometry slab_init chooses for an item size. */
module SlabSizing {
  import opened Powers

  /** offsetof(struct slab_header, data) with 8-byte pointers. */
  const DATA_OFFSET: nat := 40

  /** The sizes in struct slab_chain, and the page size they were chosen for. */
  datatype Geometry = Geometry(itemSize: nat, itemCount: nat, slabSize: nat, pagesPerAlloc: nat, pageSize: nat)

  function LeastSlabSize(itemSize: nat): nat {
    DATA_OFFSET + 64 * itemSize
  }

  /** slab_init; the ceiling of the logarithm is taken exactly. */
  function Init(itemSize: nat, pageSize: nat): Geometry
    requires itemSize >= 1
  {
    var least := LeastSlabSize(itemSize);
    var slabSize := CeilPow2(least);
    var shrunk := slabSize / 2;
    var shrink := slabSize != least && DATA_OFFSET < shrunk && shrunk - DATA_OFFSET >= 2 * itemSize;
    var size := if shrink then shrunk else slabSize;
    Geometry(itemSize,
             if shrink then (shrunk - DATA_OFFSET) / itemSize else 64,
             size,
             if size > pageSize then size else pageSize,
             pageSize)
  }

  ghost predicate Fits(g: Geometry) {
    && g.itemSize >= 1
    && 2 <= g.itemCount <= 64
    && IsPow2(g.slabSize) && IsPow2(g.pagesPerAlloc) && IsPow2(g.pageSize)
    && DATA_OFFSET + g.itemSize * g.itemCount <= g.slabSize
    && g.pagesPerAlloc % g.slabSize == 0
    && g.pagesPerAlloc == if g.slabSize > g.pageSize then g.slabSize else g.pageSize
  }

  lemma FitsFacts(g: Geometry)
    requires Fits(g)
    ensures g.itemSize >= 1 && 2 <= g.itemCount <= 64 && g.pagesPerAlloc >= g.slabSize > 0
    ensures DATA_OFFSET + g.itemSize * g.itemCount <= g.slabSize && g.pagesPerAlloc % g.slabSize == 0
  {
  }

  lemma {:induction false} Pow2Divides(m: nat, n: nat)
    requires m <= n
    ensures Pow2(n) % Pow2(m) == 0
  {
    Pow2Sum(n - m, m);
    ModProduct(Pow2(n - m), Pow2(m));
  }

  lemma Pow2Mod16(e: nat)
    ensures if e < 4 then Pow2(e) <= 8 else Pow2(e) % 16 == 0
  {
    if e >= 4 {
      Pow2Sum(e - 4, 4);
      assert Pow2(4) == 16;
      ModProduct(Pow2(e - 4), 16);
    }
  }

  /** 40 + 64 n is 8 times an odd number above 1, hence never a power of two. */
  lemma LeastIsNotPow2(itemSize: nat)
    requires itemSize >= 1
    ensures !IsPow2(LeastSlabSize(itemSize))
  {
    forall e: nat
      ensures Pow2(e) != LeastSlabSize(itemSize)
    {
      Pow2Mod16(e);
    }
  }

  /** What slab_init is for, field by field: the largest power of two that does not hold a
      header and 64 items, as many items as fit behind the header, and whole pages of slabs. */
  ghost predicate Chosen(g: Geometry, itemSize: nat, pageSize: nat) {
    && g.itemSize == itemSize && g.pageSize == pageSize
    && IsPow2(g.slabSize) && g.slabSize < 40 + 64 * itemSize < 2 * g.slabSize
    && 40 + g.itemCount * itemSize <= g.slabSize < 40 + g.itemCount * itemSize + itemSize
    && g.pagesPerAlloc >= g.slabSize && g.pagesPerAlloc >= pageSize
    && (g.pagesPerAlloc == g.slabSize || g.pagesPerAlloc == pageSize)
  }

  /** No two geometries are like that. */
  lemma ChosenIsUnique(g: Geometry, h: Geometry, itemSize: nat, pageSize: nat)
    requires itemSize >= 1 && Chosen(g, itemSize, pageSize) && Chosen(h, itemSize, pageSize)
    ensures g == h
  {
    var e: nat :| g.slabSize == Pow2(e);
    var f: nat :| h.slabSize == Pow2(f);
    hide Pow2;
    if e < f {
      Pow2Monotone(e, f);
    } else if f < e {
      Pow2Monotone(f, e);
    }
    CountIsUnique(g.slabSize - 40, itemSize, g.itemCount, h.itemCount);
  }

  lemma CountIsUnique(space: nat, u: nat, m: nat, n: nat)
    requires u > 0 && m * u <= space < m * u + u && n * u <= space < n * u + u
    ensures m == n
  {
    if m < n {
      NextMultiple(m, n, u);
    } else if n < m {
      NextMultiple(n, m, u);
    }
  }

  /** Every item size gets a power-of-two slab that divides the allocation unit and
      holds between 2 and 63 items; the shrunk size is always the one taken. */
  lemma InitFits(itemSize: nat, pageSize: nat)
    requires itemSize >= 1 && IsPow2(pageSize)
    ensures var g := Init(itemSize, pageSize);
      && Fits(g)
      && Chosen(g, itemSize, pageSize)
      && g.slabSize == CeilPow2(LeastSlabSize(itemSize)) / 2
      && 2 <= g.itemCount < 64
  {
    hide Pow2, CeilPow2;
    var least := LeastSlabSize(itemSize);
    var slabSize := CeilPow2(least);
    LeastIsNotPow2(itemSize);
    var e: nat :| slabSize == Pow2(e);
    Pow2Double(if e > 0 then e - 1 else 0);
    var half := Pow2(e - 1);
    assert slabSize / 2 == half && least < 2 * half && half < least;
    HalfIsLarge(itemSize, e - 1);
    var g := Init(itemSize, pageSize);
    assert g.slabSize == half;
    ItemsFit(half - DATA_OFFSET, itemSize, g.itemCount);
    assert IsPow2(half);
    var f: nat :| pageSize == Pow2(f);
    if half > pageSize {
      Pow2Divides(e - 1, e - 1);
    } else {
      if e - 1 > f {
        Pow2Monotone(f, e - 1);
      }
      Pow2Divides(e - 1, f);
    }
  }

  lemma HalfIsLarge(itemSize: nat, e: nat)
    requires itemSize >= 1 && LeastSlabSize(itemSize) < 2 * Pow2(e)
    ensures DATA_OFFSET < Pow2(e) && Pow2(e) - DATA_OFFSET >= 2 * itemSize
  {
  }

  lemma ItemsFit(space: nat, itemSize: nat, n: nat)
    requires itemSize >= 1 && 2 * itemSize <= space < 64 * itemSize && n == space / itemSize
    ensures 2 <= n < 64 && itemSize * n <= space < itemSize * n + itemSize
  {
    DivBounds(space, itemSize, 2, 64);
  }
}
