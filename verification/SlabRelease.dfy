/** Freeing: what slab_free finds at the address it is given, and the loop that takes a
    page's slabs off the empty list before the page is unmapped. */
module SlabRelease {
  import opened Powers
  import opened Words
  import opened SlotMask
  import opened SlabSizing
  import opened SlabList
  import opened SlabInv
  import opened SlabSteps
  import opened SlabPages

  /** The item at `addr` is live. */
  ghost predicate IsLive(g: Geometry, m: Headers, addr: nat)
    requires Fits(g)
  {
    var a, j := SlabOf(g, addr), SlotOf(g, addr);
    0 <= j && (a, j as nat) in LiveItems(g, m) && addr == ItemAddr(g, a, j)
  }

  /** Some other live item lies on the same page. */
  ghost predicate PageShared(g: Geometry, live: set<(nat, nat)>, a: nat, j: nat)
    requires g.pagesPerAlloc > 0
  {
    exists x :: x in live && x != (a, j) && PageOf(g, x.0) == PageOf(g, a)
  }

  /** What slab_free can rely on. */
  lemma LiveSlab(g: Geometry, m: Headers, partial: nat, empty: nat, full: nat, l: Lists, pages: set<nat>, a: nat,
      j: nat)
    requires Inv(g, m, partial, empty, full, l, pages) && (a, j) in LiveItems(g, m)
    ensures Fits(g) && Layout(g, m, pages) && Counted(g, m, pages) && g.itemCount <= 64 && g.pagesPerAlloc > 0
    ensures a in m && j < g.itemCount && Masked(m[a].slots, g.itemCount) && j in Used(m[a].slots, g.itemCount)
    ensures m[a].slots != EmptyMask(g.itemCount) && m[a].slots < Pow2(64)
    ensures m[a].slots == SLOTS_ALL_ZERO <==> a in l.full
    ensures m[a].slots != SLOTS_ALL_ZERO <==> a in l.partial
    ensures OneUsedSlot(m[a].slots, EmptyMask(g.itemCount)) <==> Used(m[a].slots, g.itemCount) == {j}
    ensures m[a].slots == SLOTS_ALL_ZERO ==> Used(m[a].slots, g.itemCount) != {j}
  {
    hide Bit, Pow2, OneUsedSlot, EmptyMask, Layout, Counted, IsList;
    MaskExtremes(m[a].slots, g.itemCount);
    OneUsedSlotExact(m[a].slots, g.itemCount, j);
    var i := if j == 0 then 1 else 0;
    assert m[a].slots == 0 ==> i in Used(m[a].slots, g.itemCount);
  }

  /** A slab that stays in use shares its page. */
  lemma SlabShared(g: Geometry, m: Headers, a: nat, j: nat)
    requires g.pagesPerAlloc > 0 && a in m && j in Used(m[a].slots, g.itemCount) && Used(m[a].slots, g.itemCount) != {j}
    ensures PageShared(g, LiveItems(g, m), a, j)
  {
    hide PageOf;
    var u := Used(m[a].slots, g.itemCount);
    var i :| i in u && i != j;
    assert (a, i) in LiveItems(g, m);
  }

  /** The page of a lone item is shared exactly when its count is not one. */
  lemma CountDecides(g: Geometry, m: Headers, pages: set<nat>, a: nat, j: nat)
    requires Fits(g) && Layout(g, m, pages) && Counted(g, m, pages) && a in m
    requires forall x :: x in m ==> Masked(m[x].slots, g.itemCount)
    requires Used(m[a].slots, g.itemCount) == {j}
    ensures Counter(m, a) == PageOf(g, a) && PageOf(g, a) in m
    ensures m[PageOf(g, a)].refcount == 1 <==> !PageShared(g, LiveItems(g, m), a, j)
    ensures m[PageOf(g, a)].refcount == 1 ==>
      forall x :: x in m && PageOf(g, x) == PageOf(g, a) && x != a ==>
        m[x].slots == EmptyMask(g.itemCount) && Used(m[x].slots, g.itemCount) == {}
  {
    CounterIsHeader(g, m, pages, a);
    MaskExtremes(m[a].slots, g.itemCount);
    LoneSlab(g, m, pages, a);
    forall x | x in m
      ensures m[x].slots == EmptyMask(g.itemCount) <==> Used(m[x].slots, g.itemCount) == {}
    {
      MaskExtremes(m[x].slots, g.itemCount);
    }
    hide Layout, Counted, Masked, EmptyMask, PageOf, Used, Fits;
    SharedMeansUsed(g, m, a, j);
  }

  lemma SharedMeansUsed(g: Geometry, m: Headers, a: nat, j: nat)
    requires g.pagesPerAlloc > 0 && a in m && Used(m[a].slots, g.itemCount) == {j}
    ensures PageShared(g, LiveItems(g, m), a, j) <==>
      exists x :: x in m && PageOf(g, x) == PageOf(g, a) && x != a && Used(m[x].slots, g.itemCount) != {}
  {
    hide Used, PageOf;
    if PageShared(g, LiveItems(g, m), a, j) {
      var x :| x in LiveItems(g, m) && x != (a, j) && PageOf(g, x.0) == PageOf(g, a);
      assert x.0 in m && x.1 in Used(m[x.0].slots, g.itemCount);
    }
    if x :| x in m && PageOf(g, x) == PageOf(g, a) && x != a && Used(m[x].slots, g.itemCount) != {} {
      var i :| i in Used(m[x].slots, g.itemCount);
      assert (x, i) in LiveItems(g, m);
    }
  }

  // ----- sweeping a page off the empty list -----

  /** From the list `e`, the slabs of the page below `s` are gone, except the head. */
  ghost predicate Swept(g: Geometry, e: seq<nat>, cur: seq<nat>, head: nat, page: nat, s: nat)
    requires g.pagesPerAlloc > 0
  {
    forall a :: a in cur <==> a in e && !(PageOf(g, a) == page && a < s && a != head)
  }

  /** The next slab of the page is on the list, behind its head. */
  lemma SweepIndex(g: Geometry, m: Headers, e: seq<nat>, cur: seq<nat>, head: nat, page: nat, s: nat) returns (i: nat)
    requires g.pagesPerAlloc > 0 && Swept(g, e, cur, head, page, s) && IsList(m, head, cur)
    requires s in e && s != head
    ensures 0 < i < |cur| && cur[i] == s
  {
    assert s in cur;
    i :| 0 <= i < |cur| && cur[i] == s;
  }

  /** Taking the slab at `s` off, or finding it to be the head or not on the list. */
  lemma SweepOn(g: Geometry, e: seq<nat>, cur: seq<nat>, cur': seq<nat>, head: nat, page: nat, s: nat)
    requires Fits(g) && Swept(g, e, cur, head, page, s) && s % g.slabSize == 0
    requires forall a :: a in e ==> a % g.slabSize == 0
    requires forall a :: a in cur' <==> a in cur && (a != s || s == head)
    requires PageOf(g, s) == page
    ensures Swept(g, e, cur', head, page, s + g.slabSize)
  {
    forall a | a in e
      ensures a < s + g.slabSize <==> a < s || a == s
    {
      if s < a {
        MultiplesApart(s, a, g.slabSize);
      }
    }
    hide PageOf, Fits;
  }

  lemma OnPageBounds(g: Geometry, m: Headers, pages: set<nat>, page: nat)
    requires Fits(g) && Layout(g, m, pages)
    ensures forall a :: a in m && PageOf(g, a) == page ==> page <= a < page + g.pagesPerAlloc
    ensures forall a :: a in m ==> a % g.slabSize == 0 && a > 0
  {
  }

  /** The state of the release loop of slab_free at address `s`: `l` holds the lists
      before the sweep, with `slab` already off the partial one, and `cur` is what is left
      of the empty list. */
  ghost predicate Sweeping(g: Geometry, m0: Headers, m: Headers, partial: nat, empty: nat, full: nat,
                           l: Lists, cur: seq<nat>, slab: nat, page: nat, s: nat, found: bool)
  {
    && Fits(g) && SameContents(m0, m)
    && IsList(m, partial, l.partial) && IsList(m, empty, cur) && IsList(m, full, l.full)
    && Apart(l.partial, l.empty) && Apart(l.full, l.empty) && slab !in l.empty
    && Swept(g, l.empty, cur, empty, page, s)
    && 0 < page <= s <= page + g.pagesPerAlloc && s % g.slabSize == 0 && page % g.pagesPerAlloc == 0
    && (found <==> empty != NULL && PageOf(g, empty) == page && empty < s)
    && PageSlabs(g, l.empty, slab, page)
  }

  /** Every slab of the page but `slab` is on the list `e`, whose members are slabs. */
  ghost predicate PageSlabs(g: Geometry, e: seq<nat>, slab: nat, page: nat)
    requires Fits(g)
  {
    && (forall a :: a in e ==>
          a % g.slabSize == 0 && a > 0 && (PageOf(g, a) == page ==> page <= a < page + g.pagesPerAlloc))
    && (forall a: nat :: a % g.slabSize == 0 && PageOf(g, a) == page && a != slab ==> a in e)
  }

  lemma SweepAddress(g: Geometry, page: nat, s: nat)
    requires Fits(g) && page % g.pagesPerAlloc == 0 && s % g.slabSize == 0 && page <= s < page + g.pagesPerAlloc
    ensures PageOf(g, s) == page && s + g.slabSize <= page + g.pagesPerAlloc && (s + g.slabSize) % g.slabSize == 0
  {
    AlignDownUnique(s, g.pagesPerAlloc, page);
    MultipleOfMultiple(page, g.slabSize, g.pagesPerAlloc);
    SumOfMultiples(page, g.pagesPerAlloc, g.slabSize);
    SumOfMultiples(s, g.slabSize, g.slabSize);
    MultiplesApart(s, page + g.pagesPerAlloc, g.slabSize);
  }

  lemma SumOfMultiples(a: nat, b: nat, d: nat)
    requires d > 0 && a % d == 0 && b % d == 0
    ensures (a + b) % d == 0
  {
    assert a == (a / d) * d && b == (b / d) * d;
    assert a + b == (a / d + b / d) * d;
    ModProduct(a / d + b / d, d);
  }

  /** Nothing to unlink: the head of the list, or the slab being freed. */
  lemma SweepSkip(g: Geometry, m0: Headers, m: Headers, partial: nat, empty: nat, full: nat,
                  l: Lists, cur: seq<nat>, slab: nat, page: nat, s: nat, found: bool)
    requires Sweeping(g, m0, m, partial, empty, full, l, cur, slab, page, s, found)
    requires s != page + g.pagesPerAlloc && (s == empty || s == slab)
    ensures Sweeping(g, m0, m, partial, empty, full, l, cur, slab, page, s + g.slabSize, found || s == empty)
  {
    hide IsList, Swept, Fits, PageOf, SameContents, Apart;
    SweepAddress(g, page, s);
    NotSwept(g, l.empty, cur, empty, page, s, slab);
    SweepOn(g, l.empty, cur, cur, empty, page, s);
    EmptyHeadIn(g, m, empty, cur, l.empty, page, s);
  }

  lemma NotSwept(g: Geometry, e: seq<nat>, cur: seq<nat>, head: nat, page: nat, s: nat, slab: nat)
    requires g.pagesPerAlloc > 0 && Swept(g, e, cur, head, page, s) && slab !in e
    ensures slab !in cur
  {
  }

  lemma EmptyHeadIn(g: Geometry, m: Headers, empty: nat, cur: seq<nat>, e: seq<nat>, page: nat, s: nat)
    requires Fits(g) && IsList(m, empty, cur) && Swept(g, e, cur, empty, page, s)
    requires forall a :: a in e ==> a % g.slabSize == 0
    requires s % g.slabSize == 0
    ensures empty != NULL ==> empty in cur && empty in e
    ensures empty != NULL ==> (empty < s + g.slabSize <==> empty < s || empty == s)
  {
    if cur != [] {
      assert cur[0] in cur;
      if s < empty {
        MultiplesApart(s, empty, g.slabSize);
      }
    }
  }

  /** Any other slab of the page is unlinked from the empty list. */
  lemma SweepUnlink(g: Geometry, m0: Headers, m: Headers, partial: nat, empty: nat, full: nat,
                    l: Lists, cur: seq<nat>, slab: nat, page: nat, s: nat, found: bool) returns (i: nat)
    requires Sweeping(g, m0, m, partial, empty, full, l, cur, slab, page, s, found)
    requires s != page + g.pagesPerAlloc && s != empty && s != slab
    ensures i < |cur| && s in m && m[s].prev in m && m[s].prev != s && (m[s].next != NULL ==> m[s].next in m)
    ensures Sweeping(g, m0, Unlink(m, s), partial, empty, full, l, Without(cur, i), slab, page, s + g.slabSize, found)
  {
    hide IsList, Swept, Fits, PageOf, Unlink, Without, Apart, SameContents;
    SweepAddress(g, page, s);
    i := SweepIndex(g, m, l.empty, cur, empty, page, s);
    LinksBehind(m, empty, cur, i);
    UnlinkList(m, empty, cur, i);
    HeadIn(m, empty, cur);
    WithoutMembers(cur, i);
    SweepOn(g, l.empty, cur, Without(cur, i), empty, page, s);
    EmptyHeadIn(g, m, empty, cur, l.empty, page, s);
    SweptApart(g, l.empty, cur, empty, page, s, l.partial);
    SweptApart(g, l.empty, cur, empty, page, s, l.full);
    var m' := Unlink(m, s);
    ApartFrame(m, m', partial, l.partial, cur);
    ApartFrame(m, m', full, l.full, cur);
    SameContentsTrans(m0, m, m');
  }

  lemma SameContentsTrans(m0: Headers, m: Headers, m': Headers)
    requires SameContents(m0, m) && SameContents(m, m')
    ensures SameContents(m0, m')
  {
  }

  lemma SweptApart(g: Geometry, e: seq<nat>, cur: seq<nat>, head: nat, page: nat, s: nat, t: seq<nat>)
    requires g.pagesPerAlloc > 0 && Swept(g, e, cur, head, page, s) && Apart(t, e)
    ensures Apart(t, cur)
  {
  }

  lemma LinksBehind(m: Headers, head: nat, s: seq<nat>, i: nat)
    requires IsList(m, head, s) && 0 < i < |s|
    ensures s[i] in m && m[s[i]].prev in m && m[s[i]].prev != s[i] && (m[s[i]].next != NULL ==> m[s[i]].next in m)
  {
  }

  function HeadGone(m: Headers, head: nat, found: bool): Headers
    requires found ==> head in m
  {
    if found then PopHead(m, head) else m
  }

  /** After the sweep, and the pop of a head on the page, no slab of the page is listed. */
  lemma SweepEnd(g: Geometry, m0: Headers, m: Headers, partial: nat, empty: nat, full: nat,
                 l: Lists, cur: seq<nat>, slab: nat, page: nat, found: bool) returns (l': Lists)
    requires Sweeping(g, m0, m, partial, empty, full, l, cur, slab, page, page + g.pagesPerAlloc, found)
    ensures found ==> empty in m && (m[empty].next != NULL ==> m[empty].next in m)
    ensures var m' := HeadGone(m, empty, found);
      Listed(m', partial, if found then m[empty].next else empty, full, l') && SameContents(m0, m')
    ensures l'.partial == l.partial && l'.full == l.full && g.pagesPerAlloc > 0
    ensures forall a :: a in l'.empty <==> a in l.empty && PageOf(g, a) != page
    ensures if found then cur != [] && l'.empty == Without(cur, 0) else l'.empty == cur
  {
    SweptApart(g, l.empty, cur, empty, page, page + g.pagesPerAlloc, l.partial);
    SweptApart(g, l.empty, cur, empty, page, page + g.pagesPerAlloc, l.full);
    HeadIn(m, empty, cur);
    hide IsList, Fits, PageOf;
    if found {
      PopHeadList(m, empty, cur);
      ApartFrame(m, PopHead(m, empty), partial, l.partial, cur);
      ApartFrame(m, PopHead(m, empty), full, l.full, cur);
      l' := Lists(l.partial, cur[1..], l.full);
      TailMembersOf(cur);
    } else {
      l' := Lists(l.partial, cur, l.full);
    }
  }

  lemma HeadIn(m: Headers, head: nat, s: seq<nat>)
    requires IsList(m, head, s)
    ensures s != [] ==> head == s[0] && head in s && head != NULL
    ensures s == [] ==> head == NULL
    ensures NoDup(s)
  {
  }

  lemma TailMembersOf(s: seq<nat>)
    requires s != [] && NoDup(s)
    ensures forall a :: a in s[1..] <==> a in s && a != s[0]
  {
  }

  /** Slab `a` is the only one of its page that is not empty. */
  ghost predicate Lone(g: Geometry, m: Headers, a: nat)
    requires g.pagesPerAlloc > 0 && g.itemCount <= 64
  {
    forall x :: x in m && PageOf(g, x) == PageOf(g, a) && x != a ==>
      m[x].slots == EmptyMask(g.itemCount) && Used(m[x].slots, g.itemCount) == {}
  }

  /** Off the partial list, the lone slab leaves only empty ones behind. */
  lemma LoneLists(g: Geometry, m: Headers, l: Lists, i: nat)
    requires Fits(g) && Sorted(g, m, l) && i < |l.partial| && NoDup(l.partial)
    requires EmptyMask(g.itemCount) != SLOTS_ALL_ZERO && Lone(g, m, l.partial[i])
    ensures var a := l.partial[i];
      && a in m && a !in l.empty
      && (forall x :: x in Without(l.partial, i) <==> x in l.partial && x != a)
      && (forall x :: x in Without(l.partial, i) <==> x in l.partial && PageOf(g, x) != PageOf(g, a))
      && (forall x :: x in l.full ==> PageOf(g, x) != PageOf(g, a))
      && (forall x :: x in m && PageOf(g, x) == PageOf(g, a) && x != a ==> x in l.empty)
  {
  }

  lemma PageSlabsListed(g: Geometry, m: Headers, l: Lists, pages: set<nat>, a: nat)
    requires Fits(g) && Layout(g, m, pages) && a in m
    requires forall x :: x in l.empty ==> x in m
    requires forall x :: x in m && PageOf(g, x) == PageOf(g, a) && x != a ==> x in l.empty
    ensures PageSlabs(g, l.empty, a, PageOf(g, a))
    ensures Swept(g, l.empty, l.empty, NULL, PageOf(g, a), PageOf(g, a))
    ensures PageOf(g, a) > 0 && PageOf(g, a) % g.pagesPerAlloc == 0 && PageOf(g, a) % g.slabSize == 0
    ensures PageOf(g, a) in pages
  {
    OnPageBounds(g, m, pages, PageOf(g, a));
    PageHeader(g, m, pages, a);
    MultipleOfMultiple(PageOf(g, a), g.slabSize, g.pagesPerAlloc);
  }

  /** Once the slab is off the partial list, the sweep can start. */
  lemma StartSweep(g: Geometry, m0: Headers, m: Headers, partial: nat, empty: nat, full: nat, l: Lists, pages: set<nat>,
                   partial': nat, i: nat)
    requires Inv(g, m0, partial, empty, full, l, pages) && i < |l.partial|
    requires g.pagesPerAlloc > 0 && g.itemCount <= 64 && Lone(g, m0, l.partial[i])
    requires SameContents(m0, m) && IsList(m, partial', Without(l.partial, i)) && IsList(m, empty, l.empty)
    requires IsList(m, full, l.full)
    ensures Sweeping(g, m0, m, partial', empty, full, Lists(Without(l.partial, i), l.empty, l.full), l.empty,
                     l.partial[i], PageOf(g, l.partial[i]), PageOf(g, l.partial[i]), false)
  {
    hide IsList, Sorted, Layout, Counted, Fits, PageOf, SameContents, Lone, EmptyMask, Masked, Used, PageSlabs, Without;
    var a := l.partial[i];
    Parts(g, m0, partial, empty, full, l, pages);
    HeadIn(m0, partial, l.partial);
    LoneLists(g, m0, l, i);
    PageSlabsListed(g, m0, l, pages, a);
    AlignedAbove(g, l.empty, a, PageOf(g, a), m, empty);
  }

  lemma AlignedAbove(g: Geometry, e: seq<nat>, a: nat, page: nat, m: Headers, head: nat)
    requires Fits(g) && PageSlabs(g, e, a, page) && IsList(m, head, e)
    ensures Swept(g, e, e, head, page, page)
    ensures !(head != NULL && PageOf(g, head) == page && head < page)
  {
  }

  /** Unmapping the page after the sweep keeps the invariant and loses one item. */
  lemma FinishRelease(g: Geometry, m0: Headers, m: Headers, partial: nat, empty: nat, full: nat, l: Lists,
      pages: set<nat>,
                      partial': nat, empty': nat, l': Lists, i: nat, j: nat)
    requires Inv(g, m0, partial, empty, full, l, pages) && i < |l.partial| && l.partial[i] in m0
    requires g.pagesPerAlloc > 0 && g.itemCount <= 64 && Lone(g, m0, l.partial[i])
    requires Used(m0[l.partial[i]].slots, g.itemCount) == {j}
    requires SameContents(m0, m) && Listed(m, partial', empty', full, l')
    requires l'.partial == Without(l.partial, i) && l'.full == l.full
    requires forall x :: x in l'.empty <==> x in l.empty && PageOf(g, x) != PageOf(g, l.partial[i])
    ensures var p := PageOf(g, l.partial[i]);
      && Inv(g, Unmapped(g, m, p), partial', empty', full, l', pages - {p})
      && LiveItems(g, Unmapped(g, m, p)) == LiveItems(g, m0) - {(l.partial[i], j)}
  {
    hide IsList, Sorted, Layout, Counted, Fits, PageOf, SameContents, EmptyMask, Masked, Used, Without, Unmapped,
      LiveItems;
    var a := l.partial[i];
    var p := PageOf(g, a);
    Parts(g, m0, partial, empty, full, l, pages);
    HeadIn(m0, partial, l.partial);
    LoneLists(g, m0, l, i);
    assert PageGone(g, l, l', p);
    UnmappedContents(g, m0, m, l, l', pages, p);
    UnmappedList(g, m, p, partial', l'.partial);
    UnmappedList(g, m, p, empty', l'.empty);
    UnmappedList(g, m, p, full, l'.full);
    UnmappedLive(g, m0, m, p, a, j);
  }
}
