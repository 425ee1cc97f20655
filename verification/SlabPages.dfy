/** Mapping and unmapping whole pages of slabs. */
module SlabPages {
  import opened Powers
  import opened SlotMask
  import opened SlabSizing
  import opened SlabList
  import opened SlabInv
  import opened SlabSteps

  /** The i-th slab of the page at `p`. */
  function Nth(g: Geometry, p: nat, i: nat): nat {
    p + i * g.slabSize
  }

  function SlabsPerPage(g: Geometry): nat
    requires g.slabSize > 0
  {
    g.pagesPerAlloc / g.slabSize
  }

  lemma NthFacts(g: Geometry, p: nat, i: nat)
    requires Fits(g) && p > 0
    ensures Nth(g, p, 0) == p && Nth(g, p, i + 1) == Nth(g, p, i) + g.slabSize && g.slabSize > 0
    ensures Nth(g, p, i) >= p > 0 && (i > 0 ==> Nth(g, p, i) > p)
  {
    hide Fits;
    FitsFacts(g);
    if i > 0 {
      NextMultiple(0, i, g.slabSize);
    }
  }

  lemma NthInjective(g: Geometry, p: nat, i: nat, j: nat)
    requires Fits(g) && i < j
    ensures Nth(g, p, i) < Nth(g, p, j)
  {
    hide Fits;
    FitsFacts(g);
    NextMultiple(i, j, g.slabSize);
  }

  /** The slabs of a page are its aligned addresses. */
  lemma NthOfPage(g: Geometry, p: nat, i: nat)
    requires Fits(g) && p % g.pagesPerAlloc == 0 && i < SlabsPerPage(g)
    ensures Nth(g, p, i) % g.slabSize == 0 && PageOf(g, Nth(g, p, i)) == p
    ensures Nth(g, p, SlabsPerPage(g)) == p + g.pagesPerAlloc && SlabsPerPage(g) >= 1
  {
    hide Fits;
    FitsFacts(g);
    var n := SlabsPerPage(g);
    assert g.pagesPerAlloc == n * g.slabSize;
    NextMultiple(i, n, g.slabSize);
    AlignDownUnique(Nth(g, p, i), g.pagesPerAlloc, p);
    MultipleOfMultiple(p, g.slabSize, g.pagesPerAlloc);
    assert p == (p / g.slabSize) * g.slabSize;
    assert Nth(g, p, i) == (p / g.slabSize + i) * g.slabSize;
    ModProduct(p / g.slabSize + i, g.slabSize);
  }

  lemma PageHasSlabs(g: Geometry)
    requires Fits(g)
    ensures SlabsPerPage(g) >= 1
  {
    DivBounds(g.pagesPerAlloc, g.slabSize, 1, g.pagesPerAlloc + 1);
  }

  lemma MultipleIndex(a: nat, p: nat, s: nat, n: nat)
    requires s > 0 && a % s == 0 && p % s == 0 && p <= a < p + n * s
    ensures (a - p) / s < n && a == p + ((a - p) / s) * s
  {
    assert p == (p / s) * s;
    ModShift(a, s, p / s);
    DivBounds(a - p, s, 0, n);
  }

  /** Every slab of the page is one of them. */
  lemma IndexInPage(g: Geometry, p: nat, a: nat) returns (i: nat)
    requires Fits(g) && p % g.pagesPerAlloc == 0 && a % g.slabSize == 0 && PageOf(g, a) == p
    ensures i < SlabsPerPage(g) && a == Nth(g, p, i)
  {
    AlignDownFacts(a, g.pagesPerAlloc);
    MultipleOfMultiple(p, g.slabSize, g.pagesPerAlloc);
    assert g.pagesPerAlloc == SlabsPerPage(g) * g.slabSize;
    MultipleIndex(a, p, g.slabSize, SlabsPerPage(g));
    i := (a - p) / g.slabSize;
  }

  ghost predicate NthIn(g: Geometry, p: nat, lo: nat, n: nat, a: nat) {
    exists i: nat :: lo <= i < n && a == Nth(g, p, i)
  }

  ghost predicate OnPage(g: Geometry, p: nat, a: nat)
    requires Fits(g)
  {
    a % g.slabSize == 0 && PageOf(g, a) == p
  }

  lemma PageMembers(g: Geometry, p: nat, a: nat)
    requires Fits(g) && p > 0 && p % g.pagesPerAlloc == 0
    ensures OnPage(g, p, a) <==> NthIn(g, p, 0, SlabsPerPage(g), a)
    ensures OnPage(g, p, a) && a != p <==> NthIn(g, p, 1, SlabsPerPage(g), a)
    ensures OnPage(g, p, p) && SlabsPerPage(g) >= 1
  {
    PageHasSlabs(g);
    NthFacts(g, p, 0);
    NthOfPage(g, p, 0);
    if OnPage(g, p, a) {
      var i := IndexInPage(g, p, a);
      assert i >= 1 || a == p;
    }
    if i: nat :| i < SlabsPerPage(g) && a == Nth(g, p, i) {
      NthOfPage(g, p, i);
      NthFacts(g, p, i);
    }
  }

  // ----- a new page -----

  function NthOrNull(g: Geometry, p: nat, i: int, n: nat): nat {
    if 1 <= i < n then Nth(g, p, i) else NULL
  }

  /** The slabs 1 .. n of a page as a list. */
  function Tail(g: Geometry, p: nat, n: nat): seq<nat>
    requires n >= 1
  {
    seq(n - 1, i requires 0 <= i => Nth(g, p, i + 1))
  }

  lemma TailMembers(g: Geometry, p: nat, n: nat, a: nat)
    requires n >= 1
    ensures a in Tail(g, p, n) <==> NthIn(g, p, 1, n, a)
  {
    var t := Tail(g, p, n);
    if i: nat :| 1 <= i < n && a == Nth(g, p, i) {
      assert t[i - 1] == a;
    }
    if a in t {
      var j :| 0 <= j < |t| && t[j] == a;
      assert a == Nth(g, p, j + 1);
    }
  }

  lemma TailAscends(g: Geometry, p: nat, n: nat)
    requires Fits(g) && n >= 1
    ensures var s := Tail(g, p, n);
      forall i, j :: 0 <= i < j < |s| ==> s[i] < s[j]
  {
    hide Fits, Nth;
    var s := Tail(g, p, n);
    forall i, j | 0 <= i < j < |s|
      ensures s[i] < s[j]
    {
      NthInjective(g, p, i + 1, j + 1);
    }
  }

  lemma TailNoDup(g: Geometry, p: nat, n: nat)
    requires Fits(g) && p > 0 && n >= 1
    ensures NoDup(Tail(g, p, n)) && NULL !in Tail(g, p, n)
  {
    var t := Tail(g, p, n);
    forall i, j | 0 <= i < j < |t|
      ensures t[i] != t[j]
    {
      NthInjective(g, p, i + 1, j + 1);
    }
    forall i | 0 <= i < |t|
      ensures t[i] != NULL
    {
      NthFacts(g, p, i + 1);
    }
  }

  function TailHeader(g: Geometry, p: nat, i: nat, n: nat): Header
    requires g.itemCount <= 64
  {
    Header(NthOrNull(g, p, i - 1, n), NthOrNull(g, p, i + 1, n), EmptyMask(g.itemCount), 0, p)
  }

  /** The page at `p` has been laid out beside the memory `m`: its first slab in use with
      slot 0, the others empty and linked in order of address. */
  ghost predicate LaidOut(g: Geometry, m: Headers, m': Headers, p: nat, n: nat)
    requires g.itemCount <= 64
  {
    && (forall a :: a in m ==> a in m' && m'[a] == m[a])
    && (forall a :: a in m' ==> a in m || NthIn(g, p, 0, n, a))
    && p in m' && m'[p].prev == NULL && m'[p].next == NULL
    && m'[p].refcount == 1 && m'[p].slots == InitialMask(g.itemCount)
    && forall i: nat :: 1 <= i < n ==> Nth(g, p, i) in m' && m'[Nth(g, p, i)] == TailHeader(g, p, i, n)
  }

  lemma TailList(g: Geometry, m: Headers, m': Headers, p: nat, n: nat)
    requires Fits(g) && p > 0 && n >= 1 && LaidOut(g, m, m', p, n)
    ensures IsList(m', NthOrNull(g, p, 1, n), Tail(g, p, n))
    ensures IsList(m', p, [p])
  {
    hide *;
    AtMost64(g);
    TailNoDup(g, p, n);
    TailAt(g, p, n, 0);
    TailLinked(g, m, m', p, n);
    MakeList(m', NthOrNull(g, p, 1, n), Tail(g, p, n));
    SingletonList(g, m, m', p, n);
  }

  lemma AtMost64(g: Geometry)
    requires Fits(g)
    ensures g.itemCount <= 64
  {
  }

  lemma MakeList(m: Headers, head: nat, s: seq<nat>)
    requires head == At(s, 0) && NULL !in s && NoDup(s) && Linked(m, s)
    ensures IsList(m, head, s)
  {
  }

  lemma SingletonList(g: Geometry, m: Headers, m': Headers, p: nat, n: nat)
    requires p > 0 && g.itemCount <= 64 && LaidOut(g, m, m', p, n)
    ensures IsList(m', p, [p])
  {
  }

  lemma TailLinked(g: Geometry, m: Headers, m': Headers, p: nat, n: nat)
    requires g.itemCount <= 64 && n >= 1 && LaidOut(g, m, m', p, n)
    ensures Linked(m', Tail(g, p, n))
  {
    var t := Tail(g, p, n);
    hide Nth, Tail, LaidOut;
    forall i | 0 <= i < |t|
      ensures t[i] in m' && m'[t[i]].prev == At(t, i - 1) && m'[t[i]].next == At(t, i + 1)
    {
      TailLink(g, m, m', p, n, i);
    }
  }

  lemma TailAt(g: Geometry, p: nat, n: nat, i: int)
    requires n >= 1
    ensures At(Tail(g, p, n), i) == NthOrNull(g, p, i + 1, n)
  {
  }

  lemma TailLink(g: Geometry, m: Headers, m': Headers, p: nat, n: nat, i: nat)
    requires g.itemCount <= 64 && n >= 1 && LaidOut(g, m, m', p, n) && i < |Tail(g, p, n)|
    ensures var t := Tail(g, p, n);
      t[i] in m' && m'[t[i]].prev == At(t, i - 1) && m'[t[i]].next == At(t, i + 1)
  {
    hide Nth, NthIn, NthOrNull, EmptyMask, InitialMask;
    var k := i + 1;
    assert Tail(g, p, n)[i] == Nth(g, p, k);
    assert m'[Nth(g, p, k)] == TailHeader(g, p, k, n);
    TailAt(g, p, n, i - 1);
    TailAt(g, p, n, i + 1);
  }

  /** The state of each header after the page was laid out. */
  lemma LaidOutMember(g: Geometry, m: Headers, m': Headers, p: nat, pages: set<nat>, a: nat)
    requires Fits(g) && Layout(g, m, pages) && p > 0 && p % g.pagesPerAlloc == 0 && p !in pages
    requires SlabsPerPage(g) >= 1 && LaidOut(g, m, m', p, SlabsPerPage(g))
    ensures p in m' && p !in m && OnPage(g, p, p)
    ensures a in m ==> a in m' && m'[a] == m[a] && !OnPage(g, p, a) && a !in Tail(g, p, SlabsPerPage(g))
    ensures a in m' && a !in m <==> OnPage(g, p, a)
    ensures OnPage(g, p, a) && a != p ==>
      && m'[a].refcount == 0 && m'[a].slots == EmptyMask(g.itemCount)
      && m'[a].page == p && a in Tail(g, p, SlabsPerPage(g))
    ensures a in Tail(g, p, SlabsPerPage(g)) ==> OnPage(g, p, a) && a != p
  {
    PageMembers(g, p, a);
    TailMembers(g, p, SlabsPerPage(g), a);
    assert OnPage(g, p, p) && OnPage(g, p, a) ==> a !in m;
    if OnPage(g, p, a) && a != p {
      LaidOutAt(g, m, m', p, SlabsPerPage(g), a);
    }
  }

  lemma LaidOutAt(g: Geometry, m: Headers, m': Headers, p: nat, n: nat, a: nat)
    requires g.itemCount <= 64 && LaidOut(g, m, m', p, n) && NthIn(g, p, 1, n, a)
    ensures a in m' && m'[a].refcount == 0 && m'[a].slots == EmptyMask(g.itemCount) && m'[a].page == p
  {
    var i: nat :| 1 <= i < n && a == Nth(g, p, i);
  }

  // ----- laying a page out, slab by slab -----

  /** Slabs 0 .. k are laid out; the last one still lacks its next link. */
  ghost predicate LaidUpTo(g: Geometry, m: Headers, m': Headers, p: nat, k: nat)
    requires g.itemCount <= 64
  {
    && (forall a :: a in m ==> a in m' && m'[a] == m[a])
    && (forall a :: a in m' ==> a in m || NthIn(g, p, 0, k, a))
    && p in m' && m'[p].prev == NULL && m'[p].next == NULL
    && m'[p].refcount == 1 && m'[p].slots == InitialMask(g.itemCount)
    && forall i: nat :: 1 <= i < k ==>
         && Nth(g, p, i) in m'
         && m'[Nth(g, p, i)].(next := NthOrNull(g, p, i + 1, k)) == TailHeader(g, p, i, k)
         && (i < k - 1 ==> m'[Nth(g, p, i)] == TailHeader(g, p, i, k))
  }

  /** The page is new: none of its slabs is mapped yet. */
  ghost predicate Fresh(g: Geometry, m: Headers, p: nat, n: nat) {
    && (forall i: nat :: i < n ==> Nth(g, p, i) !in m)
    && (forall i: nat, j: nat :: i < n && j < n && i != j ==> Nth(g, p, i) != Nth(g, p, j))
    && Nth(g, p, 0) == p
  }

  lemma FreshPage(g: Geometry, m: Headers, p: nat, pages: set<nat>)
    requires Fits(g) && Layout(g, m, pages) && p > 0 && p % g.pagesPerAlloc == 0 && p !in pages
    ensures Fresh(g, m, p, SlabsPerPage(g)) && SlabsPerPage(g) >= 1
    ensures Nth(g, p, SlabsPerPage(g)) == p + g.pagesPerAlloc
  {
    var n := SlabsPerPage(g);
    PageHasSlabs(g);
    NthOfPage(g, p, 0);
    NthFacts(g, p, 0);
    forall i: nat | i < n
      ensures Nth(g, p, i) !in m
    {
      NthOfPage(g, p, i);
    }
    forall i: nat, j: nat | i < n && j < n && i != j
      ensures Nth(g, p, i) != Nth(g, p, j)
    {
      if i < j {
        NthInjective(g, p, i, j);
      } else {
        NthInjective(g, p, j, i);
      }
    }
  }

  lemma NthInGrows(g: Geometry, p: nat, k: nat, a: nat)
    ensures NthIn(g, p, 0, k + 1, a) <==> NthIn(g, p, 0, k, a) || a == Nth(g, p, k)
  {
  }

  lemma LayFirst(g: Geometry, m: Headers, p: nat, n: nat, h: Header)
    requires g.itemCount <= 64 && n >= 1 && Fresh(g, m, p, n)
    requires h.prev == NULL && h.next == NULL && h.refcount == 1 && h.slots == InitialMask(g.itemCount)
    ensures LaidUpTo(g, m, m[p := h], p, 1)
    ensures n == 1 ==> LaidOut(g, m, m[p := h], p, 1)
  {
    hide EmptyMask, InitialMask, TailHeader, NthOrNull, Nth;
    NthInGrows(g, p, 0, p);
    assert NthIn(g, p, 0, 1, p);
  }

  lemma LayNext(g: Geometry, m: Headers, m': Headers, p: nat, k: nat, n: nat, h: Header)
    requires g.itemCount <= 64 && 1 <= k < n && Fresh(g, m, p, n) && LaidUpTo(g, m, m', p, k)
    requires h == TailHeader(g, p, k, k + 1).(next := h.next)
    ensures k >= 2 ==> Nth(g, p, k - 1) in m'
    ensures var m1 := if k >= 2 then SetNext(m', Nth(g, p, k - 1), Nth(g, p, k)) else m';
      LaidUpTo(g, m, m1[Nth(g, p, k) := h], p, k + 1)
  {
    hide Nth, EmptyMask, InitialMask, NthIn;
    var m1 := if k >= 2 then SetNext(m', Nth(g, p, k - 1), Nth(g, p, k)) else m';
    var m2 := m1[Nth(g, p, k) := h];
    assert m2.Keys == m'.Keys + {Nth(g, p, k)};
    forall a | a in m2
      ensures a in m || NthIn(g, p, 0, k + 1, a)
    {
      NthInGrows(g, p, k, a);
    }
    forall i: nat | 1 <= i < k + 1
      ensures Nth(g, p, i) in m2
      ensures m2[Nth(g, p, i)].(next := NthOrNull(g, p, i + 1, k + 1)) == TailHeader(g, p, i, k + 1)
      ensures i < k ==> m2[Nth(g, p, i)] == TailHeader(g, p, i, k + 1)
    {
      LayNextAt(g, m, m', p, k, n, h, i);
    }
    LayNextOld(g, m, m', p, k, n, h);
  }

  lemma LayNextOld(g: Geometry, m: Headers, m': Headers, p: nat, k: nat, n: nat, h: Header)
    requires g.itemCount <= 64 && 1 <= k < n && Fresh(g, m, p, n) && LaidUpTo(g, m, m', p, k)
    requires k >= 2 ==> Nth(g, p, k - 1) in m'
    ensures var m1 := if k >= 2 then SetNext(m', Nth(g, p, k - 1), Nth(g, p, k)) else m';
      var m2 := m1[Nth(g, p, k) := h];
      && (forall a :: a in m ==> a in m2 && m2[a] == m[a])
      && p in m2 && m2[p] == m'[p]
  {
    hide Nth, EmptyMask, InitialMask, NthIn, TailHeader;
  }

  lemma LayNextAt(g: Geometry, m: Headers, m': Headers, p: nat, k: nat, n: nat, h: Header, i: nat)
    requires g.itemCount <= 64 && 1 <= k < n && Fresh(g, m, p, n) && LaidUpTo(g, m, m', p, k) && 1 <= i < k + 1
    requires h == TailHeader(g, p, k, k + 1).(next := h.next)
    requires k >= 2 ==> Nth(g, p, k - 1) in m'
    ensures var m1 := if k >= 2 then SetNext(m', Nth(g, p, k - 1), Nth(g, p, k)) else m';
      var m2 := m1[Nth(g, p, k) := h];
      && Nth(g, p, i) in m2
      && m2[Nth(g, p, i)].(next := NthOrNull(g, p, i + 1, k + 1)) == TailHeader(g, p, i, k + 1)
      && (i < k ==> m2[Nth(g, p, i)] == TailHeader(g, p, i, k + 1))
  {
    hide Nth, EmptyMask, InitialMask, NthIn;
    assert i < k ==> Nth(g, p, i) != Nth(g, p, k);
    assert i < k - 1 ==> Nth(g, p, i) != Nth(g, p, k - 1);
  }

  lemma LayLast(g: Geometry, m: Headers, m': Headers, p: nat, n: nat)
    requires g.itemCount <= 64 && n >= 2 && Fresh(g, m, p, n) && LaidUpTo(g, m, m', p, n)
    ensures Nth(g, p, n - 1) in m'
    ensures LaidOut(g, m, SetNext(m', Nth(g, p, n - 1), NULL), p, n)
  {
    hide Nth, EmptyMask, InitialMask, NthIn, TailHeader, NthOrNull, Fresh;
    LayLastAt(g, m, m', p, n, n - 1);
    FreshLast(g, m, p, n);
    forall i: nat | 1 <= i < n
      ensures Nth(g, p, i) in m' && SetNext(m', Nth(g, p, n - 1), NULL)[Nth(g, p, i)] == TailHeader(g, p, i, n)
    {
      LayLastAt(g, m, m', p, n, i);
    }
  }

  lemma FreshLast(g: Geometry, m: Headers, p: nat, n: nat)
    requires n >= 2 && Fresh(g, m, p, n)
    ensures Nth(g, p, n - 1) !in m && Nth(g, p, n - 1) != p
  {
    hide Nth;
  }

  lemma LayLastAt(g: Geometry, m: Headers, m': Headers, p: nat, n: nat, i: nat)
    requires g.itemCount <= 64 && n >= 2 && Fresh(g, m, p, n) && LaidUpTo(g, m, m', p, n) && 1 <= i < n
    ensures Nth(g, p, n - 1) in m' && Nth(g, p, i) in m'
    ensures SetNext(m', Nth(g, p, n - 1), NULL)[Nth(g, p, i)] == TailHeader(g, p, i, n)
  {
    hide Nth, EmptyMask, InitialMask, NthIn;
    assert Nth(g, p, n - 1) in m';
    assert i < n - 1 ==> Nth(g, p, i) != Nth(g, p, n - 1);
  }

  /** The masks of a laid-out page against those of the memory before. */
  ghost predicate PageMasks(g: Geometry, m: Headers, m': Headers, p: nat, t: seq<nat>)
    requires g.itemCount <= 64
  {
    && (forall a :: a in m ==> a in m' && m'[a] == m[a] && a != p && a !in t)
    && (forall a :: a in m' && a !in m ==>
          m'[a].slots == (if a == p then InitialMask(g.itemCount) else EmptyMask(g.itemCount)))
    && (forall a :: a in t <==> a in m' && a !in m && a != p)
    && p in m' && p !in m
  }

  lemma LaidOutMasks(g: Geometry, m: Headers, m': Headers, p: nat, pages: set<nat>)
    requires Fits(g) && Layout(g, m, pages)
    requires p > 0 && p % g.pagesPerAlloc == 0 && p !in pages && SlabsPerPage(g) >= 1 && g.itemCount <= 64
    requires LaidOut(g, m, m', p, SlabsPerPage(g))
    ensures PageMasks(g, m, m', p, Tail(g, p, SlabsPerPage(g)))
  {
    hide LaidOut, Layout, EmptyMask, InitialMask, Tail, PageOf, Nth, IsPow2;
    var t := Tail(g, p, SlabsPerPage(g));
    LaidOutHead(g, m, m', p, SlabsPerPage(g));
    LaidOutMember(g, m, m', p, pages, p);
    forall a
      ensures a in m ==> a in m' && m'[a] == m[a] && a != p && a !in t
      ensures a in m' && a !in m && a != p ==> m'[a].slots == EmptyMask(g.itemCount)
      ensures a in t <==> a in m' && a !in m && a != p
    {
      LaidOutMember(g, m, m', p, pages, a);
    }
  }

  lemma SortedWithPage(g: Geometry, m: Headers, m': Headers, p: nat, l: Lists, t: seq<nat>)
    requires Fits(g) && Sorted(g, m, l)
    requires PageMasks(g, m, m', p, t) && l.partial == [] && l.empty == []
    ensures Sorted(g, m', Lists([p], t, l.full))
  {
    InitialMaskUsed(g.itemCount);
    MaskExtremes(EmptyMask(g.itemCount), g.itemCount);
    assert 0 !in Used(EmptyMask(g.itemCount), g.itemCount);
    MasksDiffer(g, m, m', p, l, t);
  }

  lemma MasksDiffer(g: Geometry, m: Headers, m': Headers, p: nat, l: Lists, t: seq<nat>)
    requires Fits(g) && Sorted(g, m, l)
    requires PageMasks(g, m, m', p, t) && l.partial == [] && l.empty == []
    requires Masked(InitialMask(g.itemCount), g.itemCount) && Masked(EmptyMask(g.itemCount), g.itemCount)
    requires InitialMask(g.itemCount) != SLOTS_ALL_ZERO && InitialMask(g.itemCount) != EmptyMask(g.itemCount)
    requires EmptyMask(g.itemCount) != SLOTS_ALL_ZERO
    ensures Sorted(g, m', Lists([p], t, l.full))
  {
    hide EmptyMask, InitialMask, Masked, Fits;
  }

  lemma LaidOutHead(g: Geometry, m: Headers, m': Headers, p: nat, n: nat)
    requires g.itemCount <= 64 && LaidOut(g, m, m', p, n)
    ensures p in m' && m'[p].slots == InitialMask(g.itemCount) && m'[p].refcount == 1
  {
  }

  lemma LayoutWithPage(g: Geometry, m: Headers, m': Headers, p: nat, pages: set<nat>)
    requires Fits(g) && Layout(g, m, pages)
    requires p > 0 && p % g.pagesPerAlloc == 0 && p !in pages && SlabsPerPage(g) >= 1
    requires LaidOut(g, m, m', p, SlabsPerPage(g))
    ensures Layout(g, m', pages + {p})
  {
    hide LaidOut, Tail, EmptyMask, Nth;
    forall a: nat
      ensures a in m' <==> a % g.slabSize == 0 && PageOf(g, a) in pages + {p}
    {
      LaidOutMember(g, m, m', p, pages, a);
    }
  }

  lemma CountedWithPage(g: Geometry, m: Headers, m': Headers, p: nat, pages: set<nat>)
    requires Fits(g) && Layout(g, m, pages) && Counted(g, m, pages)
    requires p > 0 && p % g.pagesPerAlloc == 0 && p !in pages && SlabsPerPage(g) >= 1
    requires LaidOut(g, m, m', p, SlabsPerPage(g))
    ensures Counted(g, m', pages + {p})
  {
    InitialMaskUsed(g.itemCount);
    LaidOutHead(g, m, m', p, SlabsPerPage(g));
    hide LaidOut, Layout, EmptyMask, InitialMask, Tail, Fits, PageOf;
    forall a
      ensures a in m ==> a in m' && m'[a] == m[a] && a != p && PageOf(g, a) != p
      ensures a in m' && a !in m ==> PageOf(g, a) == p
      ensures a in m' && a !in m && a != p ==>
                m'[a].slots == EmptyMask(g.itemCount) && m'[a].refcount == 0 && m'[a].page == p && a !in pages
      ensures PageOf(g, p) == p && p in m'
      ensures a in m' && a in pages ==> a in m
    {
      LaidOutPages(g, m, m', p, pages, a);
    }
    assert NonEmpty(g, m', p) == {p};
    forall q | q != p
      ensures NonEmpty(g, m', q) == NonEmpty(g, m, q)
    {
    }
  }

  lemma LaidOutPages(g: Geometry, m: Headers, m': Headers, p: nat, pages: set<nat>, a: nat)
    requires Fits(g) && Layout(g, m, pages)
    requires p > 0 && p % g.pagesPerAlloc == 0 && p !in pages && SlabsPerPage(g) >= 1
    requires LaidOut(g, m, m', p, SlabsPerPage(g))
    ensures a in m ==> a in m' && m'[a] == m[a] && a != p && PageOf(g, a) != p
    ensures a in m' && a !in m ==> PageOf(g, a) == p
    ensures a in m' && a !in m && a != p ==>
              m'[a].slots == EmptyMask(g.itemCount) && m'[a].refcount == 0 && m'[a].page == p && a !in pages
    ensures PageOf(g, p) == p && p in m'
    ensures a in m' && a in pages ==> a in m
  {
    LaidOutMember(g, m, m', p, pages, a);
    if a in pages {
      AlignDownFacts(a, g.pagesPerAlloc);
    }
  }

  /** A new page keeps the invariant. */
  lemma NewPageInv(g: Geometry, m: Headers, m': Headers, p: nat, full: nat, l: Lists, pages: set<nat>)
    requires Inv(g, m, NULL, NULL, full, l, pages) && l.partial == [] && l.empty == []
    requires p > 0 && p % g.pagesPerAlloc == 0 && p !in pages && SlabsPerPage(g) >= 1 && g.itemCount <= 64
    requires LaidOut(g, m, m', p, SlabsPerPage(g))
    ensures var n := SlabsPerPage(g);
      Inv(g, m', p, NthOrNull(g, p, 1, n), full, Lists([p], Tail(g, p, n), l.full), pages + {p})
    ensures LiveItems(g, m') == LiveItems(g, m) + {(p, 0)} && p !in m && p in m' && Layout(g, m', pages + {p})
  {
    Parts(g, m, NULL, NULL, full, l, pages);
    LaidOutMasks(g, m, m', p, pages);
    SortedWithPage(g, m, m', p, l, Tail(g, p, SlabsPerPage(g)));
    LayoutWithPage(g, m, m', p, pages);
    CountedWithPage(g, m, m', p, pages);
    TailList(g, m, m', p, SlabsPerPage(g));
    LaidOutKeepsList(g, m, m', p, SlabsPerPage(g), full, l.full);
    LiveWithPage(g, m, m', p, pages);
    LaidOutHead(g, m, m', p, SlabsPerPage(g));
    hide LaidOut, Layout, Counted, Sorted, IsList, LiveItems, Fits, Tail;
  }

  lemma LaidOutKeepsList(g: Geometry, m: Headers, m': Headers, p: nat, n: nat, head: nat, s: seq<nat>)
    requires g.itemCount <= 64 && LaidOut(g, m, m', p, n) && IsList(m, head, s)
    ensures IsList(m', head, s)
  {
    ListFrame(m, m', head, s);
  }

  lemma LiveWithPage(g: Geometry, m: Headers, m': Headers, p: nat, pages: set<nat>)
    requires Fits(g) && Layout(g, m, pages)
    requires p > 0 && p % g.pagesPerAlloc == 0 && p !in pages && SlabsPerPage(g) >= 1
    requires LaidOut(g, m, m', p, SlabsPerPage(g))
    ensures LiveItems(g, m') == LiveItems(g, m) + {(p, 0)} && p !in m
  {
    InitialMaskUsed(g.itemCount);
    MaskExtremes(EmptyMask(g.itemCount), g.itemCount);
    LaidOutHead(g, m, m', p, SlabsPerPage(g));
    LaidOutPages(g, m, m', p, pages, p);
    hide LaidOut, Layout, EmptyMask, InitialMask, Fits, PageOf, Masked;
    forall a
      ensures a in m ==> a in m' && m'[a] == m[a] && a != p
      ensures a in m' && a !in m && a != p ==> Used(m'[a].slots, g.itemCount) == {}
    {
      LaidOutPages(g, m, m', p, pages, a);
    }
    hide Used;
    assert Used(m'[p].slots, g.itemCount) == {0};
  }

  // ----- releasing a page -----

  /** The memory without the page at `p`. */
  function Unmapped(g: Geometry, m: Headers, p: nat): Headers
    requires g.pagesPerAlloc > 0
  {
    map a | a in m && PageOf(g, a) != p :: m[a]
  }

  /** A list none of whose members lies on the page survives its release. */
  lemma UnmappedList(g: Geometry, m: Headers, p: nat, head: nat, s: seq<nat>)
    requires g.pagesPerAlloc > 0 && IsList(m, head, s)
    requires forall a :: a in s ==> PageOf(g, a) != p
    ensures IsList(Unmapped(g, m, p), head, s)
  {
  }

  /** Lists from which exactly the slabs of the page have gone. */
  ghost predicate PageGone(g: Geometry, l: Lists, l': Lists, p: nat)
    requires g.pagesPerAlloc > 0
  {
    && (forall a :: a in l'.partial <==> a in l.partial && PageOf(g, a) != p)
    && (forall a :: a in l'.empty <==> a in l.empty && PageOf(g, a) != p)
    && (forall a :: a in l'.full <==> a in l.full && PageOf(g, a) != p)
  }

  lemma UnmappedContents(g: Geometry, m: Headers, m': Headers, l: Lists, l': Lists, pages: set<nat>, p: nat)
    requires Fits(g) && Sorted(g, m, l) && Layout(g, m, pages) && Counted(g, m, pages)
    requires SameContents(m, m') && PageGone(g, l, l', p)
    ensures Sorted(g, Unmapped(g, m', p), l')
    ensures Layout(g, Unmapped(g, m', p), pages - {p})
    ensures Counted(g, Unmapped(g, m', p), pages - {p})
  {
    hide Sorted, Layout, Counted, Unmapped, SameContents, PageGone;
    UnmappedSorted(g, m, m', l, l', pages, p);
    UnmappedLayout(g, m, m', pages, p);
    UnmappedCounted(g, m, m', pages, p);
  }

  lemma UnmappedSorted(g: Geometry, m: Headers, m': Headers, l: Lists, l': Lists, pages: set<nat>, p: nat)
    requires Fits(g) && Sorted(g, m, l) && SameContents(m, m') && PageGone(g, l, l', p)
    ensures Sorted(g, Unmapped(g, m', p), l')
  {
    hide PageOf, Fits, EmptyMask, Masked;
  }

  lemma UnmappedLayout(g: Geometry, m: Headers, m': Headers, pages: set<nat>, p: nat)
    requires Fits(g) && Layout(g, m, pages) && SameContents(m, m')
    ensures Layout(g, Unmapped(g, m', p), pages - {p})
  {
  }

  lemma UnmappedCounted(g: Geometry, m: Headers, m': Headers, pages: set<nat>, p: nat)
    requires Fits(g) && Layout(g, m, pages) && Counted(g, m, pages) && SameContents(m, m')
    ensures Counted(g, Unmapped(g, m', p), pages - {p})
  {
    hide EmptyMask, IsPow2, PageOf;
    var m2 := Unmapped(g, m', p);
    forall q | q != p
      ensures NonEmpty(g, m2, q) == NonEmpty(g, m, q)
    {
    }
    forall a | a in m2 && a in pages
      ensures a != p && PageOf(g, a) == a
    {
      PageHeader(g, m, pages, a);
    }
  }

  /** Unmapping the page of the last live item removes that item and no other. */
  lemma UnmappedLive(g: Geometry, m: Headers, m': Headers, p: nat, a: nat, j: nat)
    requires g.pagesPerAlloc > 0 && SameContents(m, m') && a in m && PageOf(g, a) == p
    requires Used(m[a].slots, g.itemCount) == {j}
    requires forall x :: x in m && PageOf(g, x) == p && x != a ==> Used(m[x].slots, g.itemCount) == {}
    ensures LiveItems(g, Unmapped(g, m', p)) == LiveItems(g, m) - {(a, j)}
  {
  }
}
