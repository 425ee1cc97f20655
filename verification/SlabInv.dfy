/** The full invariant of a slab chain, far beyond what slab_is_valid checks, and how the
    single steps of allocation and release keep it. */
module SlabInv {
  import opened Powers
  import opened SlotMask
  import opened SlabSizing
  import opened SlabList

  /** The members of the partial, empty and full lists. */
  datatype Lists = Lists(partial: seq<nat>, empty: seq<nat>, full: seq<nat>)

  function PageOf(g: Geometry, a: nat): nat
    requires g.pagesPerAlloc > 0
  {
    AlignDown(a, g.pagesPerAlloc)
  }

  /** A slab's list is determined by its mask: zero is full, the empty mask is empty, and
      everything in between is partial. */
  ghost predicate Sorted(g: Geometry, m: Headers, l: Lists)
    requires Fits(g)
  {
    && (forall a :: a in m ==> Masked(m[a].slots, g.itemCount))
    && (forall a :: a in l.full <==> a in m && m[a].slots == SLOTS_ALL_ZERO)
    && (forall a :: a in l.empty <==> a in m && m[a].slots == EmptyMask(g.itemCount))
    && (forall a :: a in l.partial <==> a in m && m[a].slots != SLOTS_ALL_ZERO && m[a].slots != EmptyMask(g.itemCount))
  }

  /** The headers are those of every slab of every mapped page. */
  ghost predicate Layout(g: Geometry, m: Headers, pages: set<nat>)
    requires Fits(g)
  {
    && (forall p :: p in pages ==> p > 0 && p % g.pagesPerAlloc == 0)
    && (forall a: nat :: a in m <==> a % g.slabSize == 0 && PageOf(g, a) in pages)
  }

  function NonEmpty(g: Geometry, m: Headers, p: nat): set<nat>
    requires g.pagesPerAlloc > 0 && g.itemCount <= 64
  {
    set a | a in m && PageOf(g, a) == p && m[a].slots != EmptyMask(g.itemCount)
  }

  /** The header of a page counts its non-empty slabs; the other headers point to it. */
  ghost predicate Counted(g: Geometry, m: Headers, pages: set<nat>)
    requires Fits(g)
  {
    forall a :: a in m ==>
      if a in pages then m[a].refcount == |NonEmpty(g, m, a)| && m[a].refcount >= 1
      else m[a].refcount == 0 && m[a].page == PageOf(g, a)
  }

  ghost predicate Listed(m: Headers, partial: nat, empty: nat, full: nat, l: Lists) {
    IsList(m, partial, l.partial) && IsList(m, empty, l.empty) && IsList(m, full, l.full)
  }

  ghost predicate Inv(g: Geometry, m: Headers, partial: nat, empty: nat, full: nat, l: Lists, pages: set<nat>) {
    && Fits(g)
    && Listed(m, partial, empty, full, l)
    && Sorted(g, m, l)
    && Layout(g, m, pages)
    && Counted(g, m, pages)
  }

  // ----- live items -----

  /** Slab and slot number of every item handed out. */
  function LiveItems(g: Geometry, m: Headers): set<(nat, nat)> {
    set a, j | a in m && j in Used(m[a].slots, g.itemCount) :: (a, j)
  }

  function ItemAddr(g: Geometry, a: nat, j: nat): nat {
    a + DATA_OFFSET + j * g.itemSize
  }

  /** The address arithmetic at the top of slab_free. */
  function SlabOf(g: Geometry, addr: nat): nat
    requires g.slabSize > 0
  {
    AlignDown(addr, g.slabSize)
  }

  function SlotOf(g: Geometry, addr: nat): int
    requires g.slabSize > 0 && g.itemSize > 0
  {
    (addr - SlabOf(g, addr) - DATA_OFFSET) / g.itemSize
  }

  lemma ItemInside(g: Geometry, j: nat)
    requires Fits(g) && j < g.itemCount
    ensures DATA_OFFSET + j * g.itemSize + g.itemSize <= g.slabSize
  {
    hide Fits;
    FitsFacts(g);
    NextMultiple(j, g.itemCount, g.itemSize);
  }

  /** Masking and dividing an item's address recover exactly its slab and slot. */
  lemma AddressRoundTrip(g: Geometry, a: nat, j: nat)
    requires Fits(g) && a % g.slabSize == 0 && j < g.itemCount
    ensures SlabOf(g, ItemAddr(g, a, j)) == a && SlotOf(g, ItemAddr(g, a, j)) == j
  {
    hide Fits;
    FitsFacts(g);
    ItemInside(g, j);
    AlignDownUnique(ItemAddr(g, a, j), g.slabSize, a);
    ModProduct(j, g.itemSize);
  }

  /** The arithmetic of slab_free finds the slab of each item if and only if the slab lies at a
      multiple of its size. */
  lemma AlignmentNeeded(g: Geometry, a: nat)
    requires Fits(g)
    ensures (forall j: nat :: j < g.itemCount ==> SlabOf(g, ItemAddr(g, a, j)) == a) <==> a % g.slabSize == 0
  {
    hide Fits;
    FitsFacts(g);
    if a % g.slabSize == 0 {
      forall j: nat | j < g.itemCount
        ensures SlabOf(g, ItemAddr(g, a, j)) == a
      {
        AddressRoundTrip(g, a, j);
      }
    } else {
      AlignDownFacts(ItemAddr(g, a, 0), g.slabSize);
    }
  }

  /** Regions at multiples of 4096 bytes are enough for slabs of up to 4096 bytes, and for no others. */
  lemma PageAlignment(g: Geometry)
    requires Fits(g)
    ensures (forall a: nat :: a % PAGE_SIZE == 0 ==> a % g.slabSize == 0) <==> g.slabSize <= PAGE_SIZE
  {
    var k: nat :| g.slabSize == Pow2(k);
    assert Pow2(12) == PAGE_SIZE;
    hide Fits, Pow2;
    if k <= 12 {
      Pow2Monotone(k, 12);
      Pow2Divides(k, 12);
      forall a: nat | a % PAGE_SIZE == 0
        ensures a % g.slabSize == 0
      {
        MultipleOfMultiple(a, g.slabSize, PAGE_SIZE);
      }
    } else {
      Pow2Monotone(12, k);
      assert PAGE_SIZE % PAGE_SIZE == 0 && PAGE_SIZE % g.slabSize != 0;
    }
  }

  /** Different items occupy disjoint ranges. */
  lemma ItemsDisjoint(g: Geometry, a: nat, i: nat, b: nat, j: nat)
    requires Fits(g) && a % g.slabSize == 0 && b % g.slabSize == 0
    requires i < g.itemCount && j < g.itemCount && (a, i) != (b, j)
    ensures ItemAddr(g, a, i) + g.itemSize <= ItemAddr(g, b, j) || ItemAddr(g, b, j) + g.itemSize <= ItemAddr(g, a, i)
  {
    hide Fits;
    assert g.slabSize > 0 by { FitsFacts(g); }
    ItemInside(g, i);
    ItemInside(g, j);
    SlabsApart(a, b, g.slabSize);
    SlotsApart(i, j, g.itemSize);
    RangesApart(a, i * g.itemSize, b, j * g.itemSize, g.itemSize, g.slabSize);
  }

  /** A range of n bytes has none in common with the 8 bytes at `word`. */
  predicate Misses(lo: nat, n: nat, word: nat) {
    lo + n <= word || word + 8 <= lo
  }

  /** Nor with any field of the slab header at `a`: prev, next, slots, refcount and page. */
  predicate MissesHeader(lo: nat, n: nat, a: nat) {
    Misses(lo, n, a) && Misses(lo, n, a + 8) && Misses(lo, n, a + 16) && Misses(lo, n, a + 24) && Misses(lo, n, a + 32)
  }

  /** Items lie apart from the headers of all slabs, and the first one of a slab right behind
      the last field of its header. */
  lemma ItemsMissHeaders(g: Geometry, a: nat, j: nat, b: nat)
    requires Fits(g) && a % g.slabSize == 0 && b % g.slabSize == 0 && j < g.itemCount
    ensures MissesHeader(ItemAddr(g, a, j), g.itemSize, b)
    ensures ItemAddr(g, a, 0) == a + 32 + 8
  {
    hide Fits, MissesHeader;
    assert g.slabSize > 0 by { FitsFacts(g); }
    ItemInside(g, j);
    SlabsApart(a, b, g.slabSize);
    BehindHeader(a, j * g.itemSize, g.itemSize, b, g.slabSize);
  }

  lemma BehindHeader(a: nat, x: nat, n: nat, b: nat, d: nat)
    requires a == b || a + d <= b || b + d <= a
    requires DATA_OFFSET + x + n <= d
    ensures MissesHeader(a + DATA_OFFSET + x, n, b)
  {
  }

  /** So a write into a live item leaves every slab header as it was. */
  lemma LiveMissHeaders(g: Geometry, m: Headers, pages: set<nat>, a: nat, j: nat)
    requires Fits(g) && Layout(g, m, pages) && (a, j) in LiveItems(g, m)
    ensures forall b :: b in m ==> MissesHeader(ItemAddr(g, a, j), g.itemSize, b)
  {
    hide MissesHeader, ItemAddr, PageOf;
    forall b | b in m
      ensures MissesHeader(ItemAddr(g, a, j), g.itemSize, b)
    {
      ItemsMissHeaders(g, a, j, b);
    }
  }

  lemma SlotsApart(i: nat, j: nat, u: nat)
    ensures i == j || i * u + u <= j * u || j * u + u <= i * u
  {
    if i < j {
      NextMultiple(i, j, u);
    } else if j < i {
      NextMultiple(j, i, u);
    }
  }

  lemma RangesApart(a: nat, x: nat, b: nat, y: nat, s: nat, d: nat)
    requires a + d <= b || b + d <= a || (a == b && (x + s <= y || y + s <= x))
    requires DATA_OFFSET + x + s <= d && DATA_OFFSET + y + s <= d
    ensures a + x + s <= b + y || b + y + s <= a + x
  {
  }

  lemma SlabsApart(a: nat, b: nat, d: nat)
    requires d > 0 && a % d == 0 && b % d == 0
    ensures a == b || a + d <= b || b + d <= a
  {
    if a < b {
      MultiplesApart(a, b, d);
    } else if b < a {
      MultiplesApart(b, a, d);
    }
  }

  lemma MultiplesApart(a: nat, b: nat, d: nat)
    requires d > 0 && a % d == 0 && b % d == 0 && a < b
    ensures a + d <= b
  {
    assert b == (b / d) * d;
    MultipleBelow(a, d, b / d);
  }

  // ----- pages -----

  lemma MultipleOfMultiple(a: nat, s: nat, p: nat)
    requires s > 0 && p > 0 && a % p == 0 && p % s == 0
    ensures a % s == 0
  {
    var i, j := a / p, p / s;
    assert a == i * p && p == j * s;
    assert i * (j * s) == (i * j) * s;
    ModProduct(i * j, s);
  }

  lemma AlignDownFacts(a: nat, p: nat)
    requires p > 0
    ensures AlignDown(a, p) % p == 0 && AlignDown(a, p) <= a < AlignDown(a, p) + p
    ensures a % p == 0 ==> AlignDown(a, p) == a
  {
    assert a == (a / p) * p + a % p;
    ModProduct(a / p, p);
  }

  lemma AlignDownUnique(a: nat, p: nat, b: nat)
    requires p > 0 && b % p == 0 && b <= a < b + p
    ensures AlignDown(a, p) == b
  {
    assert b == (b / p) * p;
    QuotientUnique(a, p, b / p, a - b);
  }

  /** A page's first slab carries its header. */
  lemma PageHeader(g: Geometry, m: Headers, pages: set<nat>, a: nat)
    requires Fits(g) && Layout(g, m, pages) && a in m
    ensures PageOf(g, a) in m && PageOf(g, a) in pages && PageOf(g, PageOf(g, a)) == PageOf(g, a)
    ensures a in pages <==> a == PageOf(g, a)
    ensures a > 0
  {
    var p := PageOf(g, a);
    AlignDownFacts(a, g.pagesPerAlloc);
    AlignDownFacts(p, g.pagesPerAlloc);
    MultipleOfMultiple(p, g.slabSize, g.pagesPerAlloc);
  }

  // ----- steps -----

  /** Only the slots of slab `a` differ. */
  ghost predicate SlotsSet(m: Headers, m': Headers, a: nat, v: nat) {
    && m'.Keys == m.Keys
    && forall x :: x in m ==> m'[x].slots == (if x == a then v else m[x].slots) && m'[x].page == m[x].page
  }

  lemma LiveAdded(g: Geometry, m: Headers, m': Headers, a: nat, v: nat, j: nat)
    requires a in m && SlotsSet(m, m', a, v)
    requires Used(v, g.itemCount) == Used(m[a].slots, g.itemCount) + {j}
    ensures LiveItems(g, m') == LiveItems(g, m) + {(a, j)}
  {
  }

  lemma LiveRemoved(g: Geometry, m: Headers, m': Headers, a: nat, v: nat, j: nat)
    requires a in m && SlotsSet(m, m', a, v)
    requires Used(v, g.itemCount) == Used(m[a].slots, g.itemCount) - {j}
    ensures LiveItems(g, m') == LiveItems(g, m) - {(a, j)}
  {
  }

  lemma LayoutKept(g: Geometry, m: Headers, m': Headers, pages: set<nat>)
    requires Fits(g) && Layout(g, m, pages) && m'.Keys == m.Keys
    ensures Layout(g, m', pages)
  {
  }

  /** A slab that stays non-empty leaves every count as it is. */
  lemma CountsKept(g: Geometry, m: Headers, m': Headers, pages: set<nat>, a: nat, v: nat)
    requires Fits(g) && Counted(g, m, pages) && a in m && SlotsSet(m, m', a, v)
    requires m[a].slots != EmptyMask(g.itemCount) && v != EmptyMask(g.itemCount)
    requires forall x :: x in m ==> m'[x].refcount == m[x].refcount
    ensures Counted(g, m', pages)
  {
    forall p
      ensures NonEmpty(g, m', p) == NonEmpty(g, m, p)
    {
    }
  }

  lemma NonEmptyAfter(g: Geometry, m: Headers, m': Headers, a: nat, v: nat, p: nat)
    requires g.pagesPerAlloc > 0 && g.itemCount <= 64 && a in m && SlotsSet(m, m', a, v)
    ensures a in NonEmpty(g, m, p) <==> p == PageOf(g, a) && m[a].slots != EmptyMask(g.itemCount)
    ensures NonEmpty(g, m', p)
         == NonEmpty(g, m, p) - {a} + if p == PageOf(g, a) && v != EmptyMask(g.itemCount) then {a} else {}
  {
    hide PageOf, EmptyMask;
  }

  /** A slab that becomes non-empty is one more for the header of its page. */
  lemma CountsUp(g: Geometry, m: Headers, m': Headers, pages: set<nat>, a: nat, v: nat)
    requires Fits(g) && Layout(g, m, pages) && Counted(g, m, pages) && a in m && SlotsSet(m, m', a, v)
    requires m[a].slots == EmptyMask(g.itemCount) && v != EmptyMask(g.itemCount)
    requires forall x :: x in m ==> m'[x].refcount == (if x == PageOf(g, a) then m[x].refcount + 1 else m[x].refcount)
    ensures Counted(g, m', pages)
  {
    hide PageOf, EmptyMask, IsPow2, Layout, NonEmpty;
    PageHeader(g, m, pages, a);
    forall x | x in m'
      ensures |NonEmpty(g, m', x)| == |NonEmpty(g, m, x)| + if x == PageOf(g, a) then 1 else 0
    {
      NonEmptyAfter(g, m, m', a, v, x);
    }
  }

  /** A slab that becomes empty is one less, as long as another one remains. */
  lemma CountsDown(g: Geometry, m: Headers, m': Headers, pages: set<nat>, a: nat)
    requires Fits(g) && Layout(g, m, pages) && Counted(g, m, pages) && a in m
    requires SlotsSet(m, m', a, EmptyMask(g.itemCount))
    requires m[a].slots != EmptyMask(g.itemCount) && PageOf(g, a) in m && m[PageOf(g, a)].refcount > 1
    requires forall x :: x in m ==> m'[x].refcount == (if x == PageOf(g, a) then m[x].refcount - 1 else m[x].refcount)
    ensures Counted(g, m', pages)
  {
    hide PageOf, EmptyMask, IsPow2, Layout, NonEmpty;
    PageHeader(g, m, pages, a);
    forall x | x in m'
      ensures |NonEmpty(g, m', x)| == |NonEmpty(g, m, x)| - if x == PageOf(g, a) then 1 else 0
    {
      NonEmptyAfter(g, m, m', a, EmptyMask(g.itemCount), x);
    }
  }

  lemma SingletonCount(s: set<nat>, a: nat)
    requires a in s
    ensures |s| == 1 <==> s == {a}
  {
    var rest := s - {a};
    assert s == rest + {a};
    if rest != {} {
      var b :| b in rest;
      assert |rest| > 0;
    }
  }

  /** With a count of one, the slab is the only non-empty one of its page. */
  lemma LoneSlab(g: Geometry, m: Headers, pages: set<nat>, a: nat)
    requires Fits(g) && Layout(g, m, pages) && Counted(g, m, pages) && a in m
    requires m[a].slots != EmptyMask(g.itemCount)
    ensures PageOf(g, a) in m
    ensures m[PageOf(g, a)].refcount == 1 <==>
      forall x :: x in m && PageOf(g, x) == PageOf(g, a) && x != a ==> m[x].slots == EmptyMask(g.itemCount)
  {
    PageHeader(g, m, pages, a);
    hide Layout, Fits, PageOf;
    var p := PageOf(g, a);
    var s := NonEmpty(g, m, p);
    SingletonCount(s, a);
    assert s == {a} <==> forall x :: x in s ==> x == a;
    assert forall x :: x in s <==> x in m && PageOf(g, x) == p && m[x].slots != EmptyMask(g.itemCount);
  }

  /** What slab_is_valid asserts follows: links, masks by list, free counts and alignment. */
  lemma PassesSlabIsValid(g: Geometry, m: Headers, partial: nat, empty: nat, full: nat, l: Lists, pages: set<nat>)
    requires Inv(g, m, partial, empty, full, l, pages)
    ensures IsPow2(g.pageSize) && IsPow2(g.slabSize) && IsPow2(g.pagesPerAlloc)
    ensures 2 <= g.itemCount <= 64 && g.itemSize >= 1
    ensures g.pagesPerAlloc >= g.pageSize && g.pagesPerAlloc >= g.slabSize
    ensures DATA_OFFSET + g.itemSize * g.itemCount <= g.slabSize
    ensures Linked(m, l.partial) && Linked(m, l.empty) && Linked(m, l.full)
    ensures forall a :: a in l.full ==> a in m && m[a].slots == SLOTS_ALL_ZERO
    ensures forall a :: a in l.empty ==> a in m && m[a].slots == EmptyMask(g.itemCount)
    ensures forall a :: a in l.partial ==>
      a in m && Masked(m[a].slots, g.itemCount) && 1 <= |Used(m[a].slots, g.itemCount)| < g.itemCount
    ensures var align := if g.slabSize >= g.pageSize then g.slabSize else g.pageSize;
      forall a :: a in m ==>
        if m[a].refcount == 0 then a % g.slabSize == 0 && m[a].page % align == 0 else a % align == 0
  {
    hide IsPow2, Masked, EmptyMask, Used, PageOf;
    ParentsAligned(g, m, pages);
    forall a | a in l.partial
      ensures 1 <= |Used(m[a].slots, g.itemCount)| < g.itemCount
    {
      MaskExtremes(m[a].slots, g.itemCount);
      UsedCount(m[a].slots, g.itemCount);
    }
  }

  lemma ParentsAligned(g: Geometry, m: Headers, pages: set<nat>)
    requires Fits(g) && Layout(g, m, pages) && Counted(g, m, pages)
    ensures forall a :: a in m ==>
              if m[a].refcount == 0 then m[a].page % g.pagesPerAlloc == 0 else a % g.pagesPerAlloc == 0
  {
    hide Fits, EmptyMask, NonEmpty;
    FitsFacts(g);
    forall a | a in m
      ensures if m[a].refcount == 0 then m[a].page % g.pagesPerAlloc == 0 else a % g.pagesPerAlloc == 0
    {
      AlignDownFacts(a, g.pagesPerAlloc);
    }
  }

  /** Between 0 and n slots are in use; all of them only if none is free. */
  lemma {:induction false} UsedCount(s: nat, n: nat)
    ensures |Used(s, n)| <= n
    ensures |Used(s, n)| == n ==> forall j: nat :: j < n ==> j in Used(s, n)
  {
    if n > 0 {
      UsedCount(s, n - 1);
      var u := Used(s, n - 1);
      assert n - 1 !in u;
      assert Used(s, n) == u + (if (n - 1) in Used(s, n) then {n - 1} else {});
    }
  }
}
