/** Walking a chain: the items slab_traverse visits, and the pages slab_destroy releases. */
module SlabWalk {
  import opened Powers
  import opened Words
  import opened SlotMask
  import opened SlabSizing
  import opened SlabList
  import opened SlabInv
  import opened SlabSteps
  import opened SlabPages

  // ----- traversal -----

  /** The used slots of a slab from slot j on, in order. */
  function SlabItems(a: nat, s: nat, n: nat, j: nat): seq<(nat, nat)>
    decreases n - j
  {
    if j >= n then [] else (if Bit(s, j) then [] else [(a, j)]) + SlabItems(a, s, n, j + 1)
  }

  function ListItems(g: Geometry, m: Headers, l: seq<nat>): seq<(nat, nat)>
    requires forall a :: a in l ==> a in m
  {
    if l == [] then [] else SlabItems(l[0], m[l[0]].slots, g.itemCount, 0) + ListItems(g, m, l[1..])
  }

  function Addresses(g: Geometry, items: seq<(nat, nat)>): seq<nat> {
    seq(|items|, i requires 0 <= i < |items| => ItemAddr(g, items[i].0, items[i].1))
  }

  lemma AddressesAppend(g: Geometry, s: seq<(nat, nat)>, t: seq<(nat, nat)>)
    ensures Addresses(g, s + t) == Addresses(g, s) + Addresses(g, t)
  {
  }

  lemma NoDupAppend<T>(s: seq<T>, t: seq<T>)
    requires NoDup(s) && NoDup(t) && Apart(s, t)
    ensures NoDup(s + t)
  {
    forall i, j | 0 <= i < j < |s + t|
      ensures (s + t)[i] != (s + t)[j]
    {
      if i < |s| <= j {
        assert s[i] in s && t[j - |s|] in t;
      }
    }
  }

  lemma {:induction false} SlabItemsOnce(a: nat, s: nat, n: nat, j: nat)
    ensures NoDup(SlabItems(a, s, n, j))
    ensures forall x :: x in SlabItems(a, s, n, j) <==> x.0 == a && j <= x.1 < n && !Bit(s, x.1)
    decreases n - j
  {
    if j < n {
      SlabItemsOnce(a, s, n, j + 1);
      NoDupAppend(if Bit(s, j) then [] else [(a, j)], SlabItems(a, s, n, j + 1));
    }
  }

  lemma {:induction false} ListItemsOnce(g: Geometry, m: Headers, l: seq<nat>)
    requires NoDup(l) && forall a :: a in l ==> a in m
    ensures NoDup(ListItems(g, m, l))
    ensures forall x :: x in ListItems(g, m, l) <==> x.0 in l && x.1 in Used(m[x.0].slots, g.itemCount)
  {
    if l != [] {
      var first, rest := SlabItems(l[0], m[l[0]].slots, g.itemCount, 0), l[1..];
      assert l == [l[0]] + rest;
      assert l[0] !in rest;
      SlabItemsOnce(l[0], m[l[0]].slots, g.itemCount, 0);
      ListItemsOnce(g, m, rest);
      NoDupAppend(first, ListItems(g, m, rest));
    }
  }

  /** The walk over the partial and the full list meets every live item once, and nothing
      else; empty slabs have nothing to offer. */
  lemma TraversalExact(g: Geometry, m: Headers, partial: nat, empty: nat, full: nat, l: Lists, pages: set<nat>)
    requires Inv(g, m, partial, empty, full, l, pages)
    ensures (forall a :: a in l.partial ==> a in m) && (forall a :: a in l.full ==> a in m)
    ensures var items := ListItems(g, m, l.partial) + ListItems(g, m, l.full);
      && NoDup(items) && NoDup(Addresses(g, items))
      && forall x :: x in items <==> x in LiveItems(g, m)
  {
    hide IsList, Layout, Counted, EmptyMask, Masked, Fits, ItemAddr, Used, ListItems;
    Parts(g, m, partial, empty, full, l, pages);
    ListsForward(m, partial, l.partial);
    ListsForward(m, full, l.full);
    ListItemsOnce(g, m, l.partial);
    ListItemsOnce(g, m, l.full);
    var items := ListItems(g, m, l.partial) + ListItems(g, m, l.full);
    NoDupAppend(ListItems(g, m, l.partial), ListItems(g, m, l.full));
    forall a | a in m
      ensures a in l.partial || a in l.full || Used(m[a].slots, g.itemCount) == {}
    {
      MaskExtremes(m[a].slots, g.itemCount);
    }
    AddressesDistinct(g, m, items, pages);
  }

  lemma AddressesDistinct(g: Geometry, m: Headers, items: seq<(nat, nat)>, pages: set<nat>)
    requires Fits(g) && Layout(g, m, pages) && NoDup(items)
    requires forall x :: x in items ==> x in LiveItems(g, m)
    ensures NoDup(Addresses(g, items))
  {
    forall i, j | 0 <= i < j < |items|
      ensures ItemAddr(g, items[i].0, items[i].1) != ItemAddr(g, items[j].0, items[j].1)
    {
      assert items[i] in items && items[j] in items;
      ItemsDisjoint(g, items[i].0, items[i].1, items[j].0, items[j].1);
    }
  }

  // ----- destruction -----

  /** The members of `s` that head a page. */
  function PageHeads(s: seq<nat>, pages: set<nat>): seq<nat> {
    if s == [] then [] else (if s[0] in pages then [s[0]] else []) + PageHeads(s[1..], pages)
  }

  lemma {:induction false} PageHeadsOnce(s: seq<nat>, pages: set<nat>)
    requires NoDup(s)
    ensures NoDup(PageHeads(s, pages))
    ensures forall a :: a in PageHeads(s, pages) <==> a in s && a in pages
  {
    if s != [] {
      assert s == [s[0]] + s[1..];
      PageHeadsOnce(s[1..], pages);
    }
  }

  /** `next` leads from `head` through the members of `s` to NULL. */
  ghost predicate Forward(m: Headers, head: nat, s: seq<nat>) {
    head == At(s, 0) && NULL !in s && forall i :: 0 <= i < |s| ==> s[i] in m && m[s[i]].next == At(s, i + 1)
  }

  /** `next` leads from each member of `s` to the following one; the last is open. */
  ghost predicate Chained(m: Headers, s: seq<nat>) {
    && (forall i :: 0 <= i < |s| ==> s[i] in m)
    && (forall i :: 0 <= i < |s| - 1 ==> m[s[i]].next == s[i + 1])
  }

  /** Two memories that differ in `next` at members of `s` only. */
  ghost predicate NextOnly(m: Headers, m': Headers, s: seq<nat>) {
    && m.Keys == m'.Keys
    && (forall a :: a in m ==> m'[a].refcount == m[a].refcount)
    && (forall a :: a in m && a !in s ==> m'[a] == m[a])
  }

  lemma ForwardFrame(m: Headers, m': Headers, head: nat, s: seq<nat>, touched: seq<nat>)
    requires Forward(m, head, s) && NextOnly(m, m', touched) && Apart(s, touched)
    ensures Forward(m', head, s)
  {
  }

  lemma ListsForward(m: Headers, head: nat, s: seq<nat>)
    requires IsList(m, head, s)
    ensures Forward(m, head, s) && NoDup(s)
  {
  }

  /** Every page is headed by exactly one listed slab. */
  lemma AllPagesFound(g: Geometry, m: Headers, partial: nat, empty: nat, full: nat, l: Lists, pages: set<nat>)
    requires Inv(g, m, partial, empty, full, l, pages)
    ensures var s := l.partial + l.empty + l.full;
      && NoDup(PageHeads(s, pages))
      && forall p :: p in PageHeads(s, pages) <==> p in pages
    ensures forall a :: a in m ==> (m[a].refcount != 0 <==> a in pages)
    ensures forall p :: p in pages ==> p in m && PageOf(g, p) == p && p != NULL
    ensures forall a :: a in m ==> PageOf(g, a) in pages
  {
    Parts(g, m, partial, empty, full, l, pages);
    hide IsList, Sorted, EmptyMask, Masked, Used;
    AllListed(g, m, l, partial, empty, full);
    PageHeadsOnce(l.partial + l.empty + l.full, pages);
    forall p | p in pages
      ensures p in m && PageOf(g, p) == p && p != NULL
    {
      AlignDownFacts(p, g.pagesPerAlloc);
      MultipleOfMultiple(p, g.slabSize, g.pagesPerAlloc);
    }
  }

  lemma AllListed(g: Geometry, m: Headers, l: Lists, partial: nat, empty: nat, full: nat)
    requires Fits(g) && Sorted(g, m, l) && Listed(m, partial, empty, full, l)
    requires Apart(l.partial, l.empty) && Apart(l.partial, l.full) && Apart(l.empty, l.full)
    ensures NoDup(l.partial + l.empty + l.full)
    ensures forall a :: a in m <==> a in l.partial + l.empty + l.full
  {
    hide EmptyMask, Masked, Fits;
    NoDupAppend(l.partial, l.empty);
    assert Apart(l.partial + l.empty, l.full);
    NoDupAppend(l.partial + l.empty, l.full);
  }

  lemma {:induction false} PageHeadsAppend(s: seq<nat>, t: seq<nat>, pages: set<nat>)
    ensures PageHeads(s + t, pages) == PageHeads(s, pages) + PageHeads(t, pages)
  {
    if s == [] {
      assert s + t == t;
    } else {
      var first := if s[0] in pages then [s[0]] else [];
      assert (s + t)[0] == s[0] && (s + t)[1..] == s[1..] + t;
      PageHeadsAppend(s[1..], t, pages);
      var rest := PageHeads(s[1..], pages);
      assert (first + rest) + PageHeads(t, pages) == first + (rest + PageHeads(t, pages));
    }
  }

  // ----- loop steps -----

  lemma SlabItemsStep(g: Geometry, a: nat, s: nat, j: nat)
    requires j < g.itemCount
    ensures Addresses(g, SlabItems(a, s, g.itemCount, j))
         == (if Bit(s, j) then [] else [ItemAddr(g, a, j)]) + Addresses(g, SlabItems(a, s, g.itemCount, j + 1))
  {
  }

  lemma ListItemsStep(g: Geometry, m: Headers, l: seq<nat>, i: nat)
    requires i < |l| && forall a :: a in l ==> a in m
    ensures forall a :: a in l[i..] ==> a in m
    ensures forall a :: a in l[i + 1..] ==> a in m
    ensures Addresses(g, ListItems(g, m, l[i..]))
         == Addresses(g, SlabItems(l[i], m[l[i]].slots, g.itemCount, 0)) + Addresses(g, ListItems(g, m, l[i + 1..]))
  {
  }

  /** Linking the next page header behind the last one collected. */
  lemma CollectStep(m: Headers, ph: seq<nat>, x: nat)
    requires Chained(m, ph) && x in m && x !in ph && NoDup(ph) && ph != []
    ensures ph[|ph| - 1] in m
    ensures var m' := SetNext(m, ph[|ph| - 1], x);
      Chained(m', ph + [x]) && NextOnly(m, m', ph) && NoDup(ph + [x])
  {
  }

  lemma NextOnlyTrans(m: Headers, m1: Headers, m2: Headers, s: seq<nat>, t: seq<nat>)
    requires NextOnly(m, m1, s) && NextOnly(m1, m2, t) && forall a :: a in s ==> a in t
    ensures NextOnly(m, m2, t)
  {
  }

  /** The first k pages of `ph` have been unmapped, and nothing else. */
  ghost predicate Unmapping(g: Geometry, m0: Headers, m: Headers, ph: seq<nat>, k: nat)
    requires g.pagesPerAlloc > 0 && k <= |ph|
  {
    && (forall a :: a in m <==> a in m0 && PageOf(g, a) !in ph[..k])
    && (forall a :: a in m ==> m[a] == m0[a])
  }

  lemma UnmapNext(g: Geometry, m0: Headers, m: Headers, ph: seq<nat>, k: nat)
    requires g.pagesPerAlloc > 0 && k < |ph| && Unmapping(g, m0, m, ph, k) && NoDup(ph) && Chained(m0, ph)
    requires forall p :: p in ph ==> PageOf(g, p) == p
    ensures ph[k] in m && m[ph[k]] == m0[ph[k]]
    ensures Unmapping(g, m0, Unmapped(g, m, ph[k]), ph, k + 1)
  {
  }

  // ----- walking the lists -----

  lemma WalkStep(g: Geometry, m: Headers, head: nat, s: seq<nat>, i: nat)
    requires IsList(m, head, s) && i <= |s| && At(s, i) != NULL
    ensures i < |s| && s[i] == At(s, i) && s[i] in m && m[s[i]].next == At(s, i + 1) && s[i] in s
  {
  }

  lemma NothingLeft(g: Geometry, m: Headers, s: seq<nat>, i: nat)
    requires i <= |s| && At(s, i) == NULL && NULL !in s && forall a :: a in s ==> a in m
    ensures i == |s| && s[i..] == [] && Addresses(g, ListItems(g, m, s[i..])) == []
  {
    NullFree(s);
  }

  /** What slab_traverse can rely on. */
  lemma WalkStart(g: Geometry, m: Headers, partial: nat, empty: nat, full: nat, l: Lists, pages: set<nat>)
    requires Inv(g, m, partial, empty, full, l, pages)
    ensures Fits(g) && IsList(m, partial, l.partial) && IsList(m, full, l.full)
    ensures NULL !in l.partial && NULL !in l.full
    ensures partial == At(l.partial, 0) && full == At(l.full, 0)
    ensures forall a :: a in l.partial ==> a in m
    ensures forall a :: a in l.full ==> a in m && m[a].slots == SLOTS_ALL_ZERO
  {
  }

  lemma FirstMask()
    ensures SLOTS_FIRST == Pow2(0)
  {
  }

  lemma ItemStep(g: Geometry, a: nat, j: nat)
    requires Fits(g) && j < g.itemCount
    ensures ItemAddr(g, a, j) + g.itemSize == ItemAddr(g, a, j + 1)
    ensures ItemAddr(g, a, j + 1) == a + DATA_OFFSET + g.itemCount * g.itemSize <==> j + 1 == g.itemCount
    ensures Pow2(j + 1) == Pow2(j) * 2
  {
    assert (j + 1) * g.itemSize == j * g.itemSize + g.itemSize;
    if j + 1 < g.itemCount {
      MulLe(j + 2, g.itemCount, g.itemSize);
      assert (j + 2) * g.itemSize == (j + 1) * g.itemSize + g.itemSize;
    }
  }

  lemma NoItemsLeft(g: Geometry, a: nat, s: nat)
    ensures Addresses(g, SlabItems(a, s, g.itemCount, g.itemCount)) == []
  {
  }

  lemma VisitedLive(g: Geometry, m: Headers, s: seq<(nat, nat)>, t: seq<(nat, nat)>, calls: seq<nat>)
    requires calls == Addresses(g, s) + Addresses(g, t)
    requires NoDup(Addresses(g, s + t)) && forall x :: x in s + t <==> x in LiveItems(g, m)
    ensures NoDup(calls)
    ensures forall a, j :: (a, j) in LiveItems(g, m) ==> ItemAddr(g, a, j) in calls
    ensures forall c :: c in calls ==> exists x :: x in LiveItems(g, m) && c == ItemAddr(g, x.0, x.1)
  {
    hide ItemAddr, LiveItems, NoDup;
    AddressesAppend(g, s, t);
    var items := s + t;
    forall a, j | (a, j) in items
      ensures ItemAddr(g, a, j) in calls
    {
      var i :| 0 <= i < |items| && items[i] == (a, j);
      assert calls[i] == ItemAddr(g, a, j);
    }
    forall c | c in calls
      ensures exists x :: x in items && c == ItemAddr(g, x.0, x.1)
    {
      var i :| 0 <= i < |calls| && calls[i] == c;
      assert items[i] in items;
    }
  }

  // ----- collecting page headers -----

  /** The state of the collecting loop of slab_destroy: `rest` is still to be walked from
      `slab`, and `ph` are the headers collected so far. */
  ghost predicate Collecting(m0: Headers, m: Headers, slab: nat, rest: seq<nat>, head: nat, tail: nat, ph: seq<nat>,
      pages: set<nat>) {
    && Forward(m, slab, rest) && NoDup(rest) && Apart(rest, ph)
    && Chained(m, ph) && NoDup(ph) && NULL !in ph
    && head == At(ph, 0) && tail == At(ph, |ph| - 1)
    && NextOnly(m0, m, ph)
    && forall a :: a in m ==> (m[a].refcount != 0 <==> a in pages)
  }

  lemma CollectLook(m0: Headers, m: Headers, slab: nat, rest: seq<nat>, head: nat, tail: nat, ph: seq<nat>,
      pages: set<nat>)
    requires Collecting(m0, m, slab, rest, head, tail, ph, pages) && slab != NULL
    ensures rest != [] && slab == rest[0] && slab in m && (m[slab].refcount != 0 <==> slab in pages)
    ensures head == NULL <==> ph == []
    ensures head != NULL ==> tail in m
    ensures PageHeads(rest, pages) == (if slab in pages then [slab] else []) + PageHeads(rest[1..], pages)
  {
  }

  lemma CollectSkip(m0: Headers, m: Headers, slab: nat, rest: seq<nat>, head: nat, tail: nat, ph: seq<nat>,
      pages: set<nat>)
    requires Collecting(m0, m, slab, rest, head, tail, ph, pages) && rest != []
    ensures slab in m && Collecting(m0, m, m[slab].next, rest[1..], head, tail, ph, pages)
  {
    ForwardTail(m, slab, rest);
  }

  lemma ForwardTail(m: Headers, head: nat, s: seq<nat>)
    requires Forward(m, head, s) && s != []
    ensures head in m && Forward(m, m[head].next, s[1..])
    ensures NoDup(s) ==> NoDup(s[1..]) && head !in s[1..]
    ensures forall a :: a in s[1..] ==> a in s
  {
  }

  lemma CollectTake(m0: Headers, m: Headers, slab: nat, rest: seq<nat>, head: nat, tail: nat, ph: seq<nat>,
      pages: set<nat>)
    requires Collecting(m0, m, slab, rest, head, tail, ph, pages) && rest != []
    ensures slab in m && (head != NULL ==> tail in m)
    ensures var m' := if head == NULL then m else SetNext(m, tail, slab);
      Collecting(m0, m', m[slab].next, rest[1..], if head == NULL then slab else head, slab, ph + [slab], pages)
  {
    hide Forward, Chained, NextOnly, NoDup;
    ForwardTail(m, slab, rest);
    ForwardHead(m, slab, rest);
    if ph == [] {
      OneCollected(m, slab);
      MoreTouched(m0, m, ph, ph + [slab]);
    } else {
      assert ph[0] in ph && ph[|ph| - 1] == tail;
      CollectStep(m, ph, slab);
      var m' := SetNext(m, tail, slab);
      ForwardFrame(m, m', m[slab].next, rest[1..], ph);
      MoreTouched(m, m', ph, ph + [slab]);
      NextOnlyTrans(m0, m, m', ph, ph + [slab]);
      RefcountsNext(m, m', ph);
    }
  }

  lemma ForwardHead(m: Headers, head: nat, s: seq<nat>)
    requires Forward(m, head, s) && s != []
    ensures head == s[0] && head in s && head != NULL && head in m
  {
  }

  lemma OneCollected(m: Headers, x: nat)
    requires x in m
    ensures Chained(m, [] + [x]) && NoDup([] + [x])
  {
  }

  lemma MoreTouched(m: Headers, m': Headers, s: seq<nat>, t: seq<nat>)
    requires NextOnly(m, m', s) && forall a :: a in s ==> a in t
    ensures NextOnly(m, m', t)
  {
  }

  lemma RefcountsNext(m: Headers, m': Headers, s: seq<nat>)
    requires NextOnly(m, m', s)
    ensures m.Keys == m'.Keys && forall a :: a in m ==> m'[a].refcount == m[a].refcount
  {
  }

  lemma CollectEnd(m0: Headers, m: Headers, rest: seq<nat>, head: nat, tail: nat, ph: seq<nat>, pages: set<nat>)
    requires Collecting(m0, m, NULL, rest, head, tail, ph, pages)
    ensures rest == [] && ph + PageHeads(rest, pages) == ph
  {
    NullFree(rest);
  }

  // ----- the three lists, and the pages -----

  lemma DestroyStart(g: Geometry, m: Headers, partial: nat, empty: nat, full: nat, l: Lists, pages: set<nat>)
    requires Inv(g, m, partial, empty, full, l, pages)
    ensures Collecting(m, m, partial, l.partial, NULL, NULL, [], pages)
  {
    hide Inv, IsList, Forward, NoDup, Collecting, PageOf, PageHeads;
    Parts(g, m, partial, empty, full, l, pages);
    AllPagesFound(g, m, partial, empty, full, l, pages);
    ListsForward(m, partial, l.partial);
    CollectInit(m, partial, l.partial, pages);
  }

  lemma CollectInit(m: Headers, slab: nat, s: seq<nat>, pages: set<nat>)
    requires Forward(m, slab, s) && NoDup(s)
    requires forall a :: a in m ==> (m[a].refcount != 0 <==> a in pages)
    ensures Collecting(m, m, slab, s, NULL, NULL, [], pages)
  {
  }

  /** The next list is still intact after headers of other lists were strung together. */
  lemma NextList(m0: Headers, m: Headers, head: nat, tail: nat, ph: seq<nat>, pages: set<nat>, first: nat, s: seq<nat>)
    requires Collecting(m0, m, NULL, [], head, tail, ph, pages) && IsList(m0, first, s) && Apart(s, ph)
    ensures Collecting(m0, m, first, s, head, tail, ph, pages)
  {
  }

  lemma HeadsWithin(s: seq<nat>, t: seq<nat>, pages: set<nat>)
    requires NoDup(s) && Apart(t, s)
    ensures Apart(t, PageHeads(s, pages))
  {
    PageHeadsOnce(s, pages);
  }

  lemma DestroySecond(g: Geometry, m0: Headers, m: Headers, partial: nat, empty: nat, full: nat, l: Lists,
      pages: set<nat>,
                      head: nat, tail: nat, ph: seq<nat>)
    requires Inv(g, m0, partial, empty, full, l, pages)
    requires Collecting(m0, m, NULL, [], head, tail, ph, pages) && ph == [] + PageHeads(l.partial, pages)
    ensures Collecting(m0, m, empty, l.empty, head, tail, ph, pages)
  {
    hide Inv, Collecting, IsList, NoDup, Apart;
    Parts(g, m0, partial, empty, full, l, pages);
    ListsForward(m0, partial, l.partial);
    HeadsWithin(l.partial, l.empty, pages);
    assert ph == PageHeads(l.partial, pages);
    NextList(m0, m, head, tail, ph, pages, empty, l.empty);
  }

  lemma DestroyThird(g: Geometry, m0: Headers, m: Headers, partial: nat, empty: nat, full: nat, l: Lists,
      pages: set<nat>,
                     head: nat, tail: nat, ph: seq<nat>)
    requires Inv(g, m0, partial, empty, full, l, pages)
    requires Collecting(m0, m, NULL, [], head, tail, ph, pages)
    requires ph == ([] + PageHeads(l.partial, pages)) + PageHeads(l.empty, pages)
    ensures Collecting(m0, m, full, l.full, head, tail, ph, pages)
  {
    hide Inv, Collecting, IsList, NoDup;
    Parts(g, m0, partial, empty, full, l, pages);
    ListsForward(m0, partial, l.partial);
    ListsForward(m0, empty, l.empty);
    HeadsWithin(l.partial, l.full, pages);
    HeadsWithin(l.empty, l.full, pages);
    NextList(m0, m, head, tail, ph, pages, full, l.full);
  }

  /** All page headers are collected, once each. */
  lemma DestroyCollected(g: Geometry, m0: Headers, m: Headers, partial: nat, empty: nat, full: nat, l: Lists,
      pages: set<nat>,
                         head: nat, tail: nat, ph: seq<nat>)
    requires Inv(g, m0, partial, empty, full, l, pages)
    requires Collecting(m0, m, NULL, [], head, tail, ph, pages)
    requires ph == (([] + PageHeads(l.partial, pages)) + PageHeads(l.empty, pages)) + PageHeads(l.full, pages)
    ensures NoDup(ph) && g.pagesPerAlloc > 0 && NULL !in ph
    ensures forall p :: p in ph <==> p in pages
    ensures forall p :: p in ph ==> PageOf(g, p) == p
    ensures m.Keys == m0.Keys && forall a :: a in m0 ==> PageOf(g, a) in ph
    ensures head == NULL <==> ph == []
    ensures head == NULL ==> m == map[]
    ensures head != NULL ==> head == ph[0] && tail in m && tail == ph[|ph| - 1]
    ensures head != NULL ==> Chained(SetNext(m, tail, NULL), ph) && SetNext(m, tail, NULL)[ph[|ph| - 1]].next == NULL
    ensures head != NULL ==> SetNext(m, tail, NULL).Keys == m.Keys
  {
    hide Inv, IsList, PageOf, PageHeads, Collecting, NoDup, Chained;
    AllPagesFound(g, m0, partial, empty, full, l, pages);
    PageHeadsAppend(l.partial, l.empty, pages);
    PageHeadsAppend(l.partial + l.empty, l.full, pages);
    assert ph == PageHeads(l.partial + l.empty + l.full, pages);
    AtLeastOnePage(g, m0, partial, empty, full, l, pages);
    ChainEnds(m0, m, head, tail, ph, pages);
    assert forall a :: a in m0 ==> PageOf(g, a) in ph;
    EmptyMemory(m, ph);
  }

  lemma NullFree(s: seq<nat>)
    requires NULL !in s
    ensures forall i :: 0 <= i < |s| ==> s[i] != NULL
  {
  }

  lemma EmptyMemory(m: Headers, ph: seq<nat>)
    ensures m.Keys == {} ==> m == map[]
  {
  }

  /** Where `next` leads while the pages are unmapped. */
  lemma NextPage(m: Headers, ph: seq<nat>, k: nat)
    requires k < |ph| && Chained(m, ph) && NULL !in ph && ph[|ph| - 1] in m && m[ph[|ph| - 1]].next == NULL
    ensures ph[k] in m && m[ph[k]].next == (if k + 1 < |ph| then ph[k + 1] else NULL)
    ensures k + 1 < |ph| ==> ph[k + 1] != NULL
  {
    NullFree(ph);
  }

  lemma ChainEnds(m0: Headers, m: Headers, head: nat, tail: nat, ph: seq<nat>, pages: set<nat>)
    requires Collecting(m0, m, NULL, [], head, tail, ph, pages)
    ensures m.Keys == m0.Keys && NULL !in ph
    ensures head == NULL <==> ph == []
    ensures head != NULL ==> head == ph[0] && tail in m && tail == ph[|ph| - 1]
    ensures head != NULL ==> Chained(SetNext(m, tail, NULL), ph) && SetNext(m, tail, NULL)[ph[|ph| - 1]].next == NULL
    ensures head != NULL ==> SetNext(m, tail, NULL).Keys == m.Keys
  {
  }

  lemma AtLeastOnePage(g: Geometry, m: Headers, partial: nat, empty: nat, full: nat, l: Lists, pages: set<nat>)
    requires Inv(g, m, partial, empty, full, l, pages)
    ensures g.pagesPerAlloc > 0
  {
  }

  lemma UnmapStart(g: Geometry, m: Headers, ph: seq<nat>)
    requires g.pagesPerAlloc > 0
    ensures Unmapping(g, m, m, ph, 0)
  {
  }

  lemma AllUnmapped(g: Geometry, m0: Headers, m4: Headers, m: Headers, ph: seq<nat>, k: nat)
    requires g.pagesPerAlloc > 0 && k == |ph| && Unmapping(g, m4, m, ph, k)
    requires m4.Keys == m0.Keys && forall a :: a in m0 ==> PageOf(g, a) in ph
    ensures m == map[]
  {
  }
}
